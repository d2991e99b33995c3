/** `re.search(search_pattern, message)` for the compiled patterns of
    `find_solution`: literal characters and capture groups of six fixed
    classes, searched for anywhere in the message.

    The regex engine tries start positions from the left. At a start, each
    group is greedy and backtracks: for every one of the six classes the
    engine reaches the possible ends of the group in strictly decreasing
    order (for `\d+\.?\d*` the end positions it revisits while backtracking
    have already failed), and what follows a group depends only on where
    the group ends. So the first success is found by trying the group's
    valid ends from the longest down, which is what `TryEnds` does. */
module HoleMatch {
  import opened Common
  import opened PatternCompiler

  /** `\w` on ASCII text. */
  predicate WordChar(c: char) {
    ('a' <= c <= 'z') || ('A' <= c <= 'Z') || IsDigit(c) || c == '_'
  }

  /** One character of `[\w_-]`. */
  predicate NameClassChar(c: char) { WordChar(c) || c == '-' }

  /** Length of the run of digits at the front of `s`. */
  function LeadingDigits(s: string): (n: nat)
    ensures n <= |s| && AllDigits(s[..n])
    ensures n < |s| ==> !IsDigit(s[n])
    decreases |s|
  {
    if |s| > 0 && IsDigit(s[0]) then
      var k := 1 + LeadingDigits(s[1..]);
      assert s[..k] == [s[0]] + s[1..][..k - 1];
      k
    else 0
  }

  /** The whole of `s` is text the group for `h` may capture:
      `{service}`, `{target}`, `{table}`: `[\w_-]+`;
      `{value}`: `\d+\.?\d*`;
      `{code}`, `{id}`: `\d+`;
      `{txid}`: `tx-\d+`;
      `{resource}`: `/[\w/]+`;
      `{query}`: `SELECT [^)]+`. */
  predicate InClass(h: Hole, s: string) {
    match h
    case Service => |s| > 0 && forall i :: 0 <= i < |s| ==> NameClassChar(s[i])
    case Target => |s| > 0 && forall i :: 0 <= i < |s| ==> NameClassChar(s[i])
    case Table => |s| > 0 && forall i :: 0 <= i < |s| ==> NameClassChar(s[i])
    case Value =>
      var d := LeadingDigits(s);
      d > 0 && (d == |s| || (s[d] == '.' && AllDigits(s[d + 1..])))
    case Code => |s| > 0 && AllDigits(s)
    case Id => |s| > 0 && AllDigits(s)
    case Txid => |s| > 3 && s[..3] == "tx-" && AllDigits(s[3..])
    case Resource => |s| > 1 && s[0] == '/' && forall i :: 1 <= i < |s| ==> WordChar(s[i]) || s[i] == '/'
    case Query => |s| > 7 && s[..7] == "SELECT " && forall i :: 7 <= i < |s| ==> s[i] != ')'
  }

  /** Matching the compiled pattern `toks` with its first unit at position
      `p` of `msg`: the captured groups in order, or `None`. Matching may
      stop before the end of the message. */
  function MatchAt(toks: seq<Tok>, msg: string, p: nat): Option<seq<string>>
    requires p <= |msg|
    decreases |toks|, 0
  {
    if |toks| == 0 then Some([])
    else match toks[0]
      case Lit(c) => if p < |msg| && msg[p] == c then MatchAt(toks[1..], msg, p + 1) else None
      case Group(h) => TryEnds(h, toks[1..], msg, p, |msg|)
  }

  /** A group of kind `h` opening at `p`: its ends tried from `e` down to
      `p`, the first that is in the class and lets `rest` match wins. */
  function TryEnds(h: Hole, rest: seq<Tok>, msg: string, p: nat, e: nat): Option<seq<string>>
    requires p <= e <= |msg|
    decreases |rest|, 1, e
  {
    var m := if InClass(h, msg[p..e]) then MatchAt(rest, msg, e) else None;
    if m.Some? then Some([msg[p..e]] + m.value)
    else if e == p then None
    else TryEnds(h, rest, msg, p, e - 1)
  }

  /** `re.search` from position `p` on: the leftmost start that matches. */
  function SearchFrom(toks: seq<Tok>, msg: string, p: nat): Option<seq<string>>
    requires p <= |msg|
    decreases |msg| - p
  {
    match MatchAt(toks, msg, p)
    case Some(v) => Some(v)
    case None => if p == |msg| then None else SearchFrom(toks, msg, p + 1)
  }

  /** `re.search(search_pattern, message)`, as its `groups()`. */
  function Search(toks: seq<Tok>, msg: string): Option<seq<string>> {
    SearchFrom(toks, msg, 0)
  }

  /** Every captured value is in its group's class. */
  predicate AllInClass(hs: seq<Hole>, vals: seq<string>) {
    |hs| == |vals| && forall i :: 0 <= i < |hs| ==> InClass(hs[i], vals[i])
  }

  /** The text the pattern matches when its groups capture `vals`. */
  function Fill(toks: seq<Tok>, vals: seq<string>): string
    requires |vals| == |GroupHoles(toks)|
    decreases |toks|
  {
    if |toks| == 0 then ""
    else match toks[0]
      case Lit(c) => [c] + Fill(toks[1..], vals)
      case Group(h) => vals[0] + Fill(toks[1..], vals[1..])
  }

  /** Occurrence of `w` in `msg` at position `p`. */
  predicate At(w: string, msg: string, p: nat) {
    p + |w| <= |msg| && msg[p..p + |w|] == w
  }

  lemma AllInClassCons(h: Hole, hs: seq<Hole>, v: string, vals: seq<string>)
    ensures AllInClass([h] + hs, [v] + vals) <==> InClass(h, v) && AllInClass(hs, vals)
  {
    if InClass(h, v) && AllInClass(hs, vals) {
      forall i | 0 <= i < |[h] + hs| ensures InClass(([h] + hs)[i], ([v] + vals)[i]) {
        if i > 0 {
          assert ([h] + hs)[i] == hs[i - 1];
          assert ([v] + vals)[i] == vals[i - 1];
        }
      }
    }
    if AllInClass([h] + hs, [v] + vals) {
      assert InClass(([h] + hs)[0], ([v] + vals)[0]);
      forall i | 0 <= i < |hs| ensures InClass(hs[i], vals[i]) {
        assert ([h] + hs)[i + 1] == hs[i];
        assert ([v] + vals)[i + 1] == vals[i];
      }
    }
  }

  lemma AtCons(w: string, rest: string, msg: string, p: nat)
    requires p + |w| <= |msg|
    ensures At(w + rest, msg, p) <==> At(w, msg, p) && At(rest, msg, p + |w|)
  {
    if At(w, msg, p) && At(rest, msg, p + |w|) {
      assert msg[p..p + |w + rest|] == msg[p..p + |w|] + msg[p + |w|..p + |w| + |rest|];
    }
    if At(w + rest, msg, p) {
      assert msg[p..p + |w|] == (w + rest)[..|w|] == w;
      assert msg[p + |w|..p + |w| + |rest|] == (w + rest)[|w|..] == rest;
    }
  }

  /** What a match at `p` captures is right: one value per group, each in
      its class, and the filled-in pattern occurs at `p`. */
  lemma {:induction false} MatchSound(toks: seq<Tok>, msg: string, p: nat)
    requires p <= |msg| && MatchAt(toks, msg, p).Some?
    ensures AllInClass(GroupHoles(toks), MatchAt(toks, msg, p).value)
    ensures At(Fill(toks, MatchAt(toks, msg, p).value), msg, p)
    decreases |toks|, 0
  {
    var vals := MatchAt(toks, msg, p).value;
    if |toks| > 0 {
      match toks[0]
      case Lit(c) =>
        MatchSound(toks[1..], msg, p + 1);
        assert Fill(toks, vals) == [c] + Fill(toks[1..], vals);
        AtCons([c], Fill(toks[1..], vals), msg, p);
      case Group(h) =>
        TryEndsSound(h, toks[1..], msg, p, |msg|);
    } else {
      assert Fill(toks, vals) == "";
    }
  }

  lemma {:induction false} TryEndsSound(h: Hole, rest: seq<Tok>, msg: string, p: nat, e: nat)
    requires p <= e <= |msg| && TryEnds(h, rest, msg, p, e).Some?
    ensures AllInClass([h] + GroupHoles(rest), TryEnds(h, rest, msg, p, e).value)
    ensures |TryEnds(h, rest, msg, p, e).value| > 0
    ensures var vals := TryEnds(h, rest, msg, p, e).value;
            |vals[1..]| == |GroupHoles(rest)| && At(vals[0] + Fill(rest, vals[1..]), msg, p)
    decreases |rest|, 1, e
  {
    var m := if InClass(h, msg[p..e]) then MatchAt(rest, msg, e) else None;
    if m.Some? {
      MatchSound(rest, msg, e);
      var vals := [msg[p..e]] + m.value;
      assert vals[1..] == m.value;
      AllInClassCons(h, GroupHoles(rest), msg[p..e], m.value);
      AtCons(msg[p..e], Fill(rest, m.value), msg, p);
    } else {
      TryEndsSound(h, rest, msg, p, e - 1);
    }
  }

  /** If the filled-in pattern occurs at `p` with values in their classes,
      the match at `p` succeeds (perhaps capturing other values). */
  lemma {:induction false} MatchComplete(toks: seq<Tok>, msg: string, p: nat, vals: seq<string>)
    requires p <= |msg| && AllInClass(GroupHoles(toks), vals)
    requires At(Fill(toks, vals), msg, p)
    ensures MatchAt(toks, msg, p).Some?
    decreases |toks|, 0
  {
    if |toks| > 0 {
      match toks[0]
      case Lit(c) =>
        assert Fill(toks, vals) == [c] + Fill(toks[1..], vals);
        AtCons([c], Fill(toks[1..], vals), msg, p);
        MatchComplete(toks[1..], msg, p + 1, vals);
      case Group(h) =>
        var v := vals[0];
        assert GroupHoles(toks) == [h] + GroupHoles(toks[1..]);
        assert vals == [v] + vals[1..];
        AllInClassCons(h, GroupHoles(toks[1..]), v, vals[1..]);
        AtCons(v, Fill(toks[1..], vals[1..]), msg, p);
        MatchComplete(toks[1..], msg, p + |v|, vals[1..]);
        TryEndsReach(h, toks[1..], msg, p, |msg|, p + |v|);
    }
  }

  /** Trying ends from `e` down cannot fail when a good end lies below `e`. */
  lemma {:induction false} TryEndsReach(h: Hole, rest: seq<Tok>, msg: string, p: nat, e: nat, good: nat)
    requires p <= good <= e <= |msg|
    requires InClass(h, msg[p..good]) && MatchAt(rest, msg, good).Some?
    ensures TryEnds(h, rest, msg, p, e).Some?
    decreases e
  {
    if e > good {
      var m := if InClass(h, msg[p..e]) then MatchAt(rest, msg, e) else None;
      if m.None? {
        TryEndsReach(h, rest, msg, p, e - 1, good);
      }
    }
  }

  /** The text a match leaves: the captured values are the longest in
      their class at their place, and what follows matches the same way. */
  predicate Fits(toks: seq<Tok>, msg: string, p: nat, vals: seq<string>)
    requires p <= |msg|
    decreases |toks|
  {
    if |toks| == 0 then vals == []
    else match toks[0]
      case Lit(c) => p < |msg| && msg[p] == c && Fits(toks[1..], msg, p + 1, vals)
      case Group(h) =>
        && |vals| > 0
        && p + |vals[0]| <= |msg|
        && msg[p..p + |vals[0]|] == vals[0]
        && InClass(h, vals[0])
        && Longest(h, msg, p, p + |vals[0]|)
        && Fits(toks[1..], msg, p + |vals[0]|, vals[1..])
  }

  /** No longer capture from `p` than the one ending at `e` is in the class. */
  predicate Longest(h: Hole, msg: string, p: nat, e: nat)
    requires p <= e <= |msg|
  {
    forall e' :: e < e' <= |msg| ==> !InClass(h, msg[p..e'])
  }

  /** When each value is the longest in its class, the match captures
      exactly those values. */
  lemma {:induction false} MatchFits(toks: seq<Tok>, msg: string, p: nat, vals: seq<string>)
    requires p <= |msg| && Fits(toks, msg, p, vals)
    ensures MatchAt(toks, msg, p) == Some(vals)
    decreases |toks|
  {
    if |toks| > 0 {
      match toks[0]
      case Lit(c) =>
        MatchFits(toks[1..], msg, p + 1, vals);
      case Group(h) =>
        var e := p + |vals[0]|;
        MatchFits(toks[1..], msg, e, vals[1..]);
        TryEndsLongest(h, toks[1..], msg, p, |msg|, e);
        assert vals == [msg[p..e]] + vals[1..];
    }
  }

  lemma {:induction false} TryEndsLongest(h: Hole, rest: seq<Tok>, msg: string, p: nat, e: nat, good: nat)
    requires p <= good <= e <= |msg|
    requires InClass(h, msg[p..good]) && MatchAt(rest, msg, good).Some?
    requires Longest(h, msg, p, good)
    ensures TryEnds(h, rest, msg, p, e) == Some([msg[p..good]] + MatchAt(rest, msg, good).value)
    decreases e
  {
    if e > good {
      assert !InClass(h, msg[p..e]);
      TryEndsLongest(h, rest, msg, p, e - 1, good);
    }
  }

  /** What `re.search` returns is right: the filled-in pattern occurs in
      the message, each captured value in its class. */
  lemma SearchSound(toks: seq<Tok>, msg: string)
    requires Search(toks, msg).Some?
    ensures AllInClass(GroupHoles(toks), Search(toks, msg).value)
    ensures exists p: nat :: p <= |msg| && At(Fill(toks, Search(toks, msg).value), msg, p)
  {
    var p := SearchFound(toks, msg, 0);
    MatchSound(toks, msg, p);
  }

  /** `re.search` finds a match whenever the filled-in pattern occurs
      somewhere in the message with values in their classes. */
  lemma SearchComplete(toks: seq<Tok>, msg: string, p: nat, vals: seq<string>)
    requires p <= |msg| && AllInClass(GroupHoles(toks), vals) && At(Fill(toks, vals), msg, p)
    ensures Search(toks, msg).Some?
  {
    MatchComplete(toks, msg, p, vals);
    SearchReach(toks, msg, 0, p);
  }

  /** A successful search returns the match at the leftmost start that
      matches at all. */
  lemma {:induction false} SearchFound(toks: seq<Tok>, msg: string, q: nat) returns (p: nat)
    requires q <= |msg| && SearchFrom(toks, msg, q).Some?
    ensures q <= p <= |msg| && MatchAt(toks, msg, p) == SearchFrom(toks, msg, q)
    ensures forall k :: q <= k < p ==> MatchAt(toks, msg, k).None?
    decreases |msg| - q
  {
    if MatchAt(toks, msg, q).Some? {
      p := q;
    } else {
      p := SearchFound(toks, msg, q + 1);
    }
  }

  lemma {:induction false} SearchReach(toks: seq<Tok>, msg: string, q: nat, p: nat)
    requires q <= p <= |msg| && MatchAt(toks, msg, p).Some?
    ensures SearchFrom(toks, msg, q).Some?
    decreases p - q
  {
    if q < p && MatchAt(toks, msg, q).None? {
      SearchReach(toks, msg, q + 1, p);
    }
  }

  /** A pattern that matches from the very first character of the message
      is what `re.search` finds. */
  lemma SearchAtStart(toks: seq<Tok>, msg: string, vals: seq<string>)
    requires Fits(toks, msg, 0, vals)
    ensures Search(toks, msg) == Some(vals)
  {
    MatchFits(toks, msg, 0, vals);
  }

  /** A literal of the pattern is a character of the text it matches. */
  lemma {:induction false} LiteralInFill(toks: seq<Tok>, vals: seq<string>, c: char)
    requires |vals| == |GroupHoles(toks)| && Lit(c) in toks
    ensures c in Fill(toks, vals)
    decreases |toks|
  {
    match toks[0]
    case Lit(d) =>
      assert Fill(toks, vals) == [d] + Fill(toks[1..], vals);
      if d != c {
        assert Lit(c) in toks[1..];
        LiteralInFill(toks[1..], vals, c);
      }
    case Group(h) =>
      assert Lit(c) in toks[1..];
      LiteralInFill(toks[1..], vals[1..], c);
      assert Fill(toks, vals) == vals[0] + Fill(toks[1..], vals[1..]);
  }

  /** A pattern with a literal character the message lacks never matches. */
  lemma MissingLiteral(toks: seq<Tok>, msg: string, c: char)
    requires Lit(c) in toks && c !in msg
    ensures Search(toks, msg).None?
  {
    if Search(toks, msg).Some? {
      var p := SearchFound(toks, msg, 0);
      var vals := MatchAt(toks, msg, p).value;
      MatchSound(toks, msg, p);
      LiteralInFill(toks, vals, c);
    }
  }

  /** Characters a capture of kind `h` can hold. */
  predicate ClassChar(h: Hole, c: char) {
    match h
    case Service => NameClassChar(c)
    case Target => NameClassChar(c)
    case Table => NameClassChar(c)
    case Value => IsDigit(c) || c == '.'
    case Code => IsDigit(c)
    case Id => IsDigit(c)
    case Txid => IsDigit(c) || c == 't' || c == 'x' || c == '-'
    case Resource => WordChar(c) || c == '/'
    case Query => c != ')'
  }

  lemma InClassChars(h: Hole, s: string, i: nat)
    requires InClass(h, s) && i < |s|
    ensures ClassChar(h, s[i])
  {
    match h
    case Value =>
      var d := LeadingDigits(s);
      if i < d {
        assert s[..d][i] == s[i];
      } else if i > d {
        assert s[d + 1..][i - d - 1] == s[i];
      }
    case Code =>
    case Id =>
    case Txid =>
      if i < 3 {
        assert s[..3][i] == s[i];
      } else {
        assert s[3..][i - 3] == s[i];
      }
    case Query =>
      if i < 7 {
        assert s[..7][i] == s[i];
      }
    case Service =>
    case Target =>
    case Table =>
    case Resource =>
  }

  /** A capture stops before a character its class cannot hold. */
  lemma LongestByStop(h: Hole, msg: string, p: nat, e: nat)
    requires p <= e < |msg| && !ClassChar(h, msg[e])
    ensures Longest(h, msg, p, e)
  {
    forall e' | e < e' <= |msg| ensures !InClass(h, msg[p..e']) {
      assert msg[p..e'][e - p] == msg[e];
      if InClass(h, msg[p..e']) {
        InClassChars(h, msg[p..e'], e - p);
      }
    }
  }

  /** Literal characters of the pattern fit the same characters of the text. */
  lemma {:induction false} FitsLiteral(a: string, rest: seq<Tok>, msg: string, p: nat, vals: seq<string>)
    requires At(a, msg, p) && Fits(rest, msg, p + |a|, vals)
    ensures Fits(Escape(a) + rest, msg, p, vals)
    decreases |a|
  {
    if |a| > 0 {
      assert (Escape(a) + rest)[0] == Lit(a[0]);
      assert (Escape(a) + rest)[1..] == Escape(a[1..]) + rest;
      assert msg[p] == a[0] by { assert msg[p..p + |a|][0] == msg[p]; }
      assert At(a[1..], msg, p + 1) by { assert msg[p + 1..p + 1 + |a[1..]|] == msg[p..p + |a|][1..]; }
      FitsLiteral(a[1..], rest, msg, p + 1, vals);
    } else {
      assert Escape(a) + rest == rest;
    }
  }

  /** A group fits the longest text of its class at its place. */
  lemma FitsGroup(h: Hole, rest: seq<Tok>, msg: string, p: nat, v: string, vals: seq<string>)
    requires At(v, msg, p) && InClass(h, v) && Longest(h, msg, p, p + |v|)
    requires Fits(rest, msg, p + |v|, vals)
    ensures Fits([Group(h)] + rest, msg, p, [v] + vals)
  {
    assert ([Group(h)] + rest)[1..] == rest;
    assert ([v] + vals)[1..] == vals;
  }
}
