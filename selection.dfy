/** What `find_solution` promises: among the stored solutions whose compiled
    pattern occurs in the message, the one with the longest `issue_pattern`
    wins, the earliest on a tie, and its script gets the captures bound in. */
module Selection {
  import opened Common
  import opened PatternCompiler
  import opened HoleMatch
  import opened ScriptBinding
  import opened Ledger

  /** `re.search(search_pattern, message)` finds the solution's pattern. */
  predicate Matches(s: Solution, message: string) {
    Search(Compile(s.pattern), message).Some?
  }

  /** The score `find_solution` gives a solution: `len(issue_pattern)` when
      it matches. A non-match scores 0, which cannot beat the starting best
      score 0, just as a non-match is never considered. */
  function Score(s: Solution, message: string): nat {
    if Matches(s, message) then |s.pattern| else 0
  }

  function Scores(sols: seq<Solution>, message: string): (r: seq<nat>)
    ensures |r| == |sols| && forall j :: 0 <= j < |sols| ==> r[j] == Score(sols[j], message)
  {
    seq(|sols|, j requires 0 <= j < |sols| => Score(sols[j], message))
  }

  /** A match that can win: non-empty pattern, found in the message. */
  predicate Eligible(s: Solution, message: string) {
    Score(s, message) > 0
  }

  predicate HasEligible(sols: seq<Solution>, message: string) {
    exists j :: 0 <= j < |sols| && Eligible(sols[j], message)
  }

  /** Entry `w` is the best of the first `n` scores: positive, strictly
      above every score before it and at least every score after it. */
  predicate Leads(scores: seq<nat>, w: nat, n: nat) {
    && w < n <= |scores|
    && scores[w] > 0
    && (forall j :: 0 <= j < w ==> scores[j] < scores[w])
    && (forall j :: w < j < n ==> scores[j] <= scores[w])
  }

  /** Solution `w` is the one `find_solution` settles on. */
  predicate IsWinner(sols: seq<Solution>, message: string, w: nat) {
    Leads(Scores(sols, message), w, |sols|)
  }

  /** The solution's script with the captures of its match bound in. */
  function Suggestion(s: Solution, message: string): string
    requires Matches(s, message)
  {
    Bind(s.script, Search(Compile(s.pattern), message).value)
  }

  /** At most one entry leads. */
  lemma LeaderUnique(scores: seq<nat>, w1: nat, w2: nat, n: nat)
    requires Leads(scores, w1, n) && Leads(scores, w2, n)
    ensures w1 == w2
  {
  }

  /** The leader of the first `n - 1` stays ahead when the next score is
      not higher. */
  lemma LeadsKeep(scores: seq<nat>, w: nat, n: nat)
    requires 0 < n <= |scores| && Leads(scores, w, n - 1) && scores[n - 1] <= scores[w]
    ensures Leads(scores, w, n)
  {
  }

  /** A positive score above every score before it takes the lead. */
  lemma LeadsNew(scores: seq<nat>, n: nat)
    requires 0 < n <= |scores| && scores[n - 1] > 0
    requires forall j :: 0 <= j < n - 1 ==> scores[j] < scores[n - 1]
    ensures Leads(scores, n - 1, n)
  {
  }

  /** The leader of the first `n` scores, found the way the scan finds it. */
  lemma {:induction false} LeaderOf(scores: seq<nat>, n: nat) returns (w: Option<nat>)
    requires n <= |scores|
    ensures w.Some? ==> Leads(scores, w.value, n)
    ensures w.None? ==> forall j :: 0 <= j < n ==> scores[j] == 0
    decreases n
  {
    if n == 0 {
      return None;
    }
    var prev := LeaderOf(scores, n - 1);
    if prev.None? {
      if scores[n - 1] > 0 {
        LeadsNew(scores, n);
        w := Some(n - 1);
      } else {
        w := None;
      }
    } else if scores[n - 1] > scores[prev.value] {
      LeadsNew(scores, n);
      w := Some(n - 1);
    } else {
      LeadsKeep(scores, prev.value, n);
      w := prev;
    }
  }

  /** Some solution wins exactly when some solution is eligible, and then
      only one does. */
  lemma WinnerExists(sols: seq<Solution>, message: string)
    ensures HasEligible(sols, message) <==> exists w: nat :: IsWinner(sols, message, w)
    ensures forall w1: nat, w2: nat :: IsWinner(sols, message, w1) && IsWinner(sols, message, w2) ==> w1 == w2
  {
    var scores := Scores(sols, message);
    var w := LeaderOf(scores, |sols|);
    if w.Some? {
      assert IsWinner(sols, message, w.value);
      assert Eligible(sols[w.value], message);
    }
    forall w1: nat, w2: nat | IsWinner(sols, message, w1) && IsWinner(sols, message, w2) ensures w1 == w2 {
      LeaderUnique(scores, w1, w2, |sols|);
    }
  }

  /** What `find_solution` returns: the winner's script with its captures
      bound in, or nothing when no solution is eligible. */
  ghost function Best(sols: seq<Solution>, message: string): (r: Option<string>)
    ensures r.None? <==> !HasEligible(sols, message)
  {
    if HasEligible(sols, message) then
      WinnerExists(sols, message);
      var w: nat :| IsWinner(sols, message, w);
      assert Scores(sols, message)[w] > 0;
      Some(Suggestion(sols[w], message))
    else None
  }

  /** The winner's suggestion is the answer. */
  lemma BestOf(sols: seq<Solution>, message: string, w: nat)
    requires IsWinner(sols, message, w)
    ensures Matches(sols[w], message)
    ensures Best(sols, message) == Some(Suggestion(sols[w], message))
  {
    assert Scores(sols, message)[w] > 0;
    assert Eligible(sols[w], message);
    WinnerExists(sols, message);
  }

  // ---------------------------------------------------------------------
  // The scan of `find_solution`, one solution at a time

  /** After the first `k` scores the scan holds `score`, which no score so
      far exceeds; it holds nothing and 0 until a positive score comes, and
      then entry `lead`, the first to reach `score`. */
  predicate ScanState(scores: seq<nat>, k: nat, found: bool, score: nat, lead: nat) {
    && k <= |scores|
    && (forall j :: 0 <= j < k ==> scores[j] <= score)
    && (!found ==> score == 0)
    && (found ==> lead < k && scores[lead] == score > 0 && forall j :: 0 <= j < lead ==> scores[j] < score)
  }

  lemma ScanStart(scores: seq<nat>)
    ensures ScanState(scores, 0, false, 0, 0)
  {
  }

  /** A score above the one held takes over. */
  lemma ScanTake(scores: seq<nat>, k: nat, found: bool, score: nat, lead: nat)
    requires ScanState(scores, k, found, score, lead) && k < |scores| && scores[k] > score
    ensures ScanState(scores, k + 1, true, scores[k], k)
  {
  }

  /** A score not above the one held changes nothing. */
  lemma ScanPass(scores: seq<nat>, k: nat, found: bool, score: nat, lead: nat)
    requires ScanState(scores, k, found, score, lead) && k < |scores| && scores[k] <= score
    ensures ScanState(scores, k + 1, found, score, lead)
  {
  }

  /** At the end of the scan the entry held is the winner, and when nothing
      is held no solution is eligible. */
  lemma ScanEnd(sols: seq<Solution>, message: string, found: bool, score: nat, lead: nat)
    requires ScanState(Scores(sols, message), |sols|, found, score, lead)
    ensures found ==> IsWinner(sols, message, lead)
    ensures !found ==> Best(sols, message).None?
  {
    if !found {
      forall j | 0 <= j < |sols| ensures !Eligible(sols[j], message) {
        assert Scores(sols, message)[j] == 0;
      }
    }
  }
}
