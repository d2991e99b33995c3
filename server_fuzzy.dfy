/** `fuzzy_match_parameter`: repairing a free-text enum argument (a state,
    a priority) against the list of values the service desk accepts. */
module ServerFuzzy {
  import opened Common

  /** `[v.lower() for v in valid_values]`. */
  function LowerAll(vs: seq<string>): (r: seq<string>)
    ensures |r| == |vs| && forall i :: 0 <= i < |vs| ==> r[i] == Lower(vs[i])
  {
    seq(|vs|, i requires 0 <= i < |vs| => Lower(vs[i]))
  }

  /** `xs.index(x)`: the first position holding `x`. */
  function IndexOf(xs: seq<string>, x: string): (k: nat)
    requires x in xs
    ensures k < |xs| && xs[k] == x
    ensures forall j :: 0 <= j < k ==> xs[j] != x
    decreases |xs|
  {
    if xs[0] == x then 0 else 1 + IndexOf(xs[1..], x)
  }

  /** The stem test between the input and one word of a valid value:
      equal, or either one inside the other. */
  predicate StemHit(input: string, word: string) {
    input == word || Contains(word, input) || Contains(input, word)
  }

  /** Some word of `valid` passes the stem test (see `WordsHit`). */
  predicate HasStem(input: string, valid: string) {
    WordsHit(input, Words(valid))
  }

  /** The stem loop: the first position, from `from` on, whose lower-cased
      value has a word passing the stem test. */
  function FirstStem(input: string, lowered: seq<string>, from: nat): (r: Option<nat>)
    requires from <= |lowered|
    ensures r.Some? ==> from <= r.value < |lowered| && HasStem(input, lowered[r.value])
    ensures r.Some? ==> forall j :: from <= j < r.value ==> !HasStem(input, lowered[j])
    ensures r.None? ==> forall j :: from <= j < |lowered| ==> !HasStem(input, lowered[j])
    decreases |lowered| - from
  {
    if from == |lowered| then None
    else if HasStem(input, lowered[from]) then Some(from)
    else FirstStem(input, lowered, from + 1)
  }

  /** The inner loop over the words of one value. */
  function WordsHit(input: string, words: seq<string>): (b: bool)
    ensures b <==> exists w :: w in words && StemHit(input, w)
    decreases |words|
  {
    if |words| == 0 then false
    else StemHit(input, words[0]) || WordsHit(input, words[1..])
  }

  /** `fuzzy_match_parameter(input_value, valid_values)`. The `difflib`
      fallback is the parameter `close`: the lower-cased value
      `get_close_matches` returned, if any; like `get_close_matches` it
      can only return an element of the list it was given. */
  function FuzzyMatch(input: string, valid: seq<string>, close: Option<string>): (r: Option<string>)
    requires close.Some? ==> close.value in LowerAll(valid)
    ensures r.Some? ==> r.value in valid
  {
    if input == "" || |valid| == 0 then None
    else
      var low := Lower(input);
      var lowered := LowerAll(valid);
      if low in lowered then Some(valid[IndexOf(lowered, low)])
      else match FirstStem(low, lowered, 0)
        case Some(i) => Some(valid[i])
        case None =>
          match close
          case Some(m) => Some(valid[IndexOf(lowered, m)])
          case None => None
  }

  /** An empty input or an empty list gives no match. */
  lemma EmptyGivesNone(input: string, valid: seq<string>, close: Option<string>)
    requires close.Some? ==> close.value in LowerAll(valid)
    requires input == "" || |valid| == 0
    ensures FuzzyMatch(input, valid, close) == None
  {
  }

  /** A case-insensitive exact hit returns the first valid value with that
      lower-case form, in its own casing, whatever the fallback says. */
  lemma ExactHit(input: string, valid: seq<string>, close: Option<string>, i: nat)
    requires close.Some? ==> close.value in LowerAll(valid)
    requires input != "" && i < |valid| && Lower(valid[i]) == Lower(input)
    requires forall j :: 0 <= j < i ==> Lower(valid[j]) != Lower(input)
    ensures FuzzyMatch(input, valid, close) == Some(valid[i])
  {
    var lowered := LowerAll(valid);
    assert lowered[i] == Lower(input);
    assert IndexOf(lowered, Lower(input)) == i;
  }

  /** Failing an exact hit, the result is the first value in list order
      that has a word passing the stem test. */
  lemma StemStep(input: string, valid: seq<string>, close: Option<string>, i: nat)
    requires close.Some? ==> close.value in LowerAll(valid)
    requires input != "" && i < |valid|
    requires forall j :: 0 <= j < |valid| ==> Lower(valid[j]) != Lower(input)
    requires HasStem(Lower(input), Lower(valid[i]))
    requires forall j :: 0 <= j < i ==> !HasStem(Lower(input), Lower(valid[j]))
    ensures FuzzyMatch(input, valid, close) == Some(valid[i])
  {
    NoExactHit(input, valid);
    FirstStemIs(Lower(input), valid, i);
  }

  /** With neither an exact hit nor a stem hit, the result is the value
      the fallback picked, or nothing. */
  lemma FallbackStep(input: string, valid: seq<string>, close: Option<string>)
    requires close.Some? ==> close.value in LowerAll(valid)
    requires input != "" && |valid| > 0
    requires forall j :: 0 <= j < |valid| ==> Lower(valid[j]) != Lower(input)
    requires forall j :: 0 <= j < |valid| ==> !HasStem(Lower(input), Lower(valid[j]))
    ensures close.None? ==> FuzzyMatch(input, valid, close) == None
    ensures close.Some? ==>
      (FuzzyMatch(input, valid, close).Some? && Lower(FuzzyMatch(input, valid, close).value) == close.value)
  {
    NoExactHit(input, valid);
    NoStem(Lower(input), valid);
  }

  lemma NoExactHit(input: string, valid: seq<string>)
    requires forall j :: 0 <= j < |valid| ==> Lower(valid[j]) != Lower(input)
    ensures Lower(input) !in LowerAll(valid)
  {
    var lowered := LowerAll(valid);
    forall j | 0 <= j < |lowered| ensures lowered[j] != Lower(input) {
      assert lowered[j] == Lower(valid[j]);
    }
  }

  lemma FirstStemIs(low: string, valid: seq<string>, i: nat)
    requires i < |valid| && HasStem(low, Lower(valid[i]))
    requires forall j :: 0 <= j < i ==> !HasStem(low, Lower(valid[j]))
    ensures FirstStem(low, LowerAll(valid), 0) == Some(i)
  {
    var lowered := LowerAll(valid);
    forall j | 0 <= j <= i ensures lowered[j] == Lower(valid[j]) {
    }
    FirstStemAt(low, lowered, i);
  }

  lemma FirstStemAt(low: string, lowered: seq<string>, i: nat)
    requires i < |lowered| && HasStem(low, lowered[i])
    requires forall j :: 0 <= j < i ==> !HasStem(low, lowered[j])
    ensures FirstStem(low, lowered, 0) == Some(i)
  {
    var r := FirstStem(low, lowered, 0);
    assert r.Some? && r.value <= i;
  }

  lemma NoStem(low: string, valid: seq<string>)
    requires forall j :: 0 <= j < |valid| ==> !HasStem(low, Lower(valid[j]))
    ensures FirstStem(low, LowerAll(valid), 0).None?
  {
    var lowered := LowerAll(valid);
    forall j | 0 <= j < |lowered| ensures !HasStem(low, lowered[j]) {
      assert lowered[j] == Lower(valid[j]);
    }
  }
}
