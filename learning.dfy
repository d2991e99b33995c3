/** How `request_user_input` turns an unknown incident's message into a new
    `issue_pattern`: three `re.sub` passes, each replacing its matches by a
    placeholder, and why the learned pattern then matches its own message. */
module Learning {
  import opened Common
  import opened PatternCompiler
  import opened HoleMatch

  /** The three substitutions, in the order they run. */
  datatype Rule =
    | Decimal   // `[0-9]+\.[0-9]+` becomes `{value}`
    | ExitCode  // `exit code [0-9]+` becomes `exit code {code}`
    | Tx        // `tx-[0-9]+` becomes `{txid}`

  function RuleHole(r: Rule): Hole {
    match r
    case Decimal => Value
    case ExitCode => Code
    case Tx => Txid
  }

  /** The part of a match that the replacement writes back unchanged. */
  function Kept(r: Rule): string {
    match r
    case Decimal => ""
    case ExitCode => "exit code "
    case Tx => ""
  }


  /** Length of the rule's match at the start of `s`: the regex's greedy
      digit runs are the maximal ones (for `[0-9]+\.[0-9]+` a shorter first
      run is followed by a digit, never by the '.'). */
  function RuleMatch(r: Rule, s: string): (k: Option<nat>)
    ensures k.Some? ==> |Kept(r)| < k.value <= |s| && s[..|Kept(r)|] == Kept(r)
  {
    match r
    case Decimal =>
      var d := LeadingDigits(s);
      if 0 < d < |s| && s[d] == '.' && LeadingDigits(s[d + 1..]) > 0
      then Some(d + 1 + LeadingDigits(s[d + 1..])) else None
    case ExitCode =>
      if IsPrefix("exit code ", s) && LeadingDigits(s[10..]) > 0
      then Some(10 + LeadingDigits(s[10..])) else None
    case Tx =>
      if IsPrefix("tx-", s) && LeadingDigits(s[3..]) > 0
      then Some(3 + LeadingDigits(s[3..])) else None
  }

  /** `re.sub(regex, replacement, s)` for one rule: from the left, each
      match becomes the kept part and the placeholder, other characters
      are copied. */
  function Sub(r: Rule, s: string): string
    decreases |s|
  {
    if |s| == 0 then ""
    else match RuleMatch(r, s)
      case Some(k) => Kept(r) + Placeholder(RuleHole(r)) + Sub(r, s[k..])
      case None => [s[0]] + Sub(r, s[1..])
  }

  /** The pattern `request_user_input` stores for a message. */
  function Generalize(message: string): string {
    Sub(Tx, Sub(ExitCode, Sub(Decimal, message)))
  }

  lemma {:induction false} LeadingDigitsPrefix(s: string, n: nat)
    requires LeadingDigits(s) <= n <= |s|
    ensures LeadingDigits(s[..n]) == LeadingDigits(s)
    decreases |s|
  {
    var u := s[..n];
    if n > 0 {
      assert u[0] == s[0];
      if IsDigit(s[0]) {
        assert u[1..] == s[1..][..n - 1];
        LeadingDigitsPrefix(s[1..], n - 1);
      }
    }
  }

  /** What a rule replaces is text its hole's class accepts, and holds no brace. */
  lemma RuleMatchShape(r: Rule, s: string)
    requires RuleMatch(r, s).Some?
    ensures var k := RuleMatch(r, s).value;
            InClass(RuleHole(r), s[|Kept(r)|..k]) && NoBrace(s[..k])
  {
    match r
    case Decimal => DecimalShape(s);
    case ExitCode =>
      var d := LeadingDigits(s[10..]);
      assert s[10..10 + d] == s[10..][..d];
      BraceFreeRun(s, "exit code ", d);
    case Tx =>
      var d := LeadingDigits(s[3..]);
      assert s[3..3 + d] == s[3..][..d];
      BraceFreeRun(s, "tx-", d);
  }

  lemma DecimalShape(s: string)
    requires RuleMatch(Decimal, s).Some?
    ensures var k := RuleMatch(Decimal, s).value;
            InClass(Value, s[..k]) && NoBrace(s[..k])
  {
    var k := RuleMatch(Decimal, s).value;
    var w := s[..k];
    var d := LeadingDigits(s);
    var d2 := LeadingDigits(s[d + 1..]);
    LeadingDigitsPrefix(s, k);
    assert w[d + 1..] == s[d + 1..][..d2];
    assert NoBrace(w) by {
      forall i | 0 <= i < |w| ensures w[i] != '{' {
        if i < d {
          assert w[i] == s[..d][i];
        } else if i > d {
          assert w[i] == s[d + 1..][..d2][i - d - 1];
        }
      }
    }
  }

  /** A brace-free prefix followed by a run of digits holds no brace. */
  lemma BraceFreeRun(s: string, p: string, d: nat)
    requires NoBrace(p) && IsPrefix(p, s) && |p| + d <= |s|
    requires AllDigits(s[|p|..|p| + d])
    ensures NoBrace(s[..|p| + d])
  {
    var w := s[..|p| + d];
    forall i | 0 <= i < |w| ensures w[i] != '{' {
      if i < |p| {
        assert w[i] == p[i];
      } else {
        assert w[i] == s[|p|..|p| + d][i - |p|];
      }
    }
  }

  /** A message read as kept characters and cut-out stretches: the learned
      pattern shows each cut as its placeholder, the message shows the text
      that was cut. */
  datatype Seg = Keep(c: char) | Cut(hole: Hole, text: string)

  function PatText(segs: seq<Seg>): string
    decreases |segs|
  {
    if |segs| == 0 then ""
    else match segs[0]
      case Keep(c) => [c] + PatText(segs[1..])
      case Cut(h, _) => Placeholder(h) + PatText(segs[1..])
  }

  function MsgText(segs: seq<Seg>): string
    decreases |segs|
  {
    if |segs| == 0 then ""
    else match segs[0]
      case Keep(c) => [c] + MsgText(segs[1..])
      case Cut(_, t) => t + MsgText(segs[1..])
  }

  /** Kept characters are not braces and cut text is in its hole's class. */
  predicate ValidSegs(segs: seq<Seg>) {
    forall i :: 0 <= i < |segs| ==>
      SegOk(segs[i])
  }

  predicate SegOk(s: Seg) {
    match s
    case Keep(c) => c != '{'
    case Cut(h, t) => InClass(h, t)
  }

  /** Every cut is of a kind in `hs`. */
  predicate CutsIn(segs: seq<Seg>, hs: set<Hole>) {
    forall i :: 0 <= i < |segs| && segs[i].Cut? ==> segs[i].hole in hs
  }

  function SegToks(segs: seq<Seg>): (toks: seq<Tok>)
    ensures |toks| == |segs|
    decreases |segs|
  {
    if |segs| == 0 then []
    else match segs[0]
      case Keep(c) => [Lit(c)] + SegToks(segs[1..])
      case Cut(h, _) => [Group(h)] + SegToks(segs[1..])
  }

  function SegVals(segs: seq<Seg>): seq<string>
    decreases |segs|
  {
    if |segs| == 0 then []
    else match segs[0]
      case Keep(_) => SegVals(segs[1..])
      case Cut(_, t) => [t] + SegVals(segs[1..])
  }

  lemma ValidTail(segs: seq<Seg>)
    requires |segs| > 0 && ValidSegs(segs)
    ensures ValidSegs(segs[1..])
  {
    forall i | 0 <= i < |segs[1..]| ensures SegOk(segs[1..][i]) {
      assert segs[1..][i] == segs[i + 1];
    }
  }

  lemma ValidCons(s: Seg, segs: seq<Seg>)
    requires ValidSegs(segs)
    requires SegOk(s)
    ensures ValidSegs([s] + segs)
  {
    forall i | 0 <= i < |[s] + segs| ensures SegOk(([s] + segs)[i]) {
      if i > 0 {
        assert ([s] + segs)[i] == segs[i - 1];
      }
    }
  }

  lemma ValidAppend(xs: seq<Seg>, ys: seq<Seg>)
    requires ValidSegs(xs) && ValidSegs(ys)
    ensures ValidSegs(xs + ys)
  {
    forall i | 0 <= i < |xs + ys| ensures SegOk((xs + ys)[i]) {
      if i < |xs| {
        assert (xs + ys)[i] == xs[i];
      } else {
        assert (xs + ys)[i] == ys[i - |xs|];
      }
    }
  }

  /** A valid segmentation is a filled-in occurrence of its compiled
      pattern: the tokens spell the pattern text, and filling them with the
      cut text gives the message. */
  lemma {:induction false} SegsFill(segs: seq<Seg>)
    requires ValidSegs(segs)
    ensures Render(SegToks(segs)) == PatText(segs)
    ensures Clean(SegToks(segs))
    ensures AllInClass(GroupHoles(SegToks(segs)), SegVals(segs))
    ensures Fill(SegToks(segs), SegVals(segs)) == MsgText(segs)
    decreases |segs|
  {
    if |segs| > 0 {
      var toks := SegToks(segs);
      ValidTail(segs);
      SegsFill(segs[1..]);
      assert toks[1..] == SegToks(segs[1..]);
      assert SegOk(segs[0]);
      assert Clean(toks) by {
        forall i | 0 <= i < |toks| ensures toks[i] != Lit('{') {
          if i > 0 {
            assert toks[i] == SegToks(segs[1..])[i - 1];
          }
        }
      }
      match segs[0]
      case Keep(c) =>
      case Cut(h, t) =>
        AllInClassCons(h, GroupHoles(SegToks(segs[1..])), t, SegVals(segs[1..]));
    }
  }

  /** The compiled pattern of a valid segmentation's text matches the message. */
  lemma SegsMatch(segs: seq<Seg>)
    requires ValidSegs(segs)
    ensures Search(Compile(PatText(segs)), MsgText(segs)).Some?
  {
    SegsFill(segs);
    TokenizeRender(SegToks(segs));
    CompileIsTokenize(PatText(segs));
    var m := MsgText(segs);
    assert At(Fill(SegToks(segs), SegVals(segs)), m, 0) by {
      assert m[0..|m|] == m;
    }
    SearchComplete(SegToks(segs), m, 0, SegVals(segs));
  }

  /** The message before any pass: every character kept. */
  function KeepAll(m: string): (segs: seq<Seg>)
    ensures |segs| == |m|
    ensures forall i :: 0 <= i < |m| ==> segs[i] == Keep(m[i])
  {
    seq(|m|, i requires 0 <= i < |m| => Keep(m[i]))
  }

  lemma {:induction false} KeepAllTexts(m: string)
    ensures PatText(KeepAll(m)) == m && MsgText(KeepAll(m)) == m
    decreases |m|
  {
    if |m| > 0 {
      assert KeepAll(m)[1..] == KeepAll(m[1..]);
      KeepAllTexts(m[1..]);
      assert m == [m[0]] + m[1..];
    }
  }

  /** The rule finds no match starting inside this placeholder's text. */
  ghost predicate Transparent(r: Rule, h: Hole) {
    forall j, rest :: 0 <= j < |Placeholder(h)| ==> RuleMatch(r, Placeholder(h)[j..] + rest).None?
  }

  lemma NoMatchUnlessFirst(r: Rule, s: string, c: char)
    requires |s| > 0 && s[0] != c
    requires c == (match r case Decimal => s[0] case ExitCode => 'e' case Tx => 't')
    ensures RuleMatch(r, s).None?
  {
    match r
    case Decimal =>
    case ExitCode =>
      assert !IsPrefix("exit code ", s) by { assert "exit code "[0] == 'e'; }
    case Tx =>
      assert !IsPrefix("tx-", s) by { assert "tx-"[0] == 't'; }
  }

  /** Neither `{value}` nor `{code}` holds a 't', so the `tx-` pass never
      starts inside them. */
  lemma TxTransparent(h: Hole)
    requires h == Value || h == Code
    ensures Transparent(Tx, h)
  {
    forall j, rest | 0 <= j < |Placeholder(h)|
      ensures RuleMatch(Tx, Placeholder(h)[j..] + rest).None?
    {
      var s := Placeholder(h)[j..] + rest;
      assert s[0] == Placeholder(h)[j];
      assert Placeholder(h)[j] != 't';
      NoMatchUnlessFirst(Tx, s, 't');
    }
  }

  /** The only 'e' of `{value}` is followed by '}', so the `exit code`
      pass never starts inside it. */
  lemma ExitCodeTransparent()
    ensures Transparent(ExitCode, Value)
  {
    var p := Placeholder(Value);
    forall j, rest | 0 <= j < |p|
      ensures RuleMatch(ExitCode, p[j..] + rest).None?
    {
      var s := p[j..] + rest;
      assert s[0] == p[j];
      if p[j] == 'e' {
        assert j == 5;
        assert s[1] == '}';
        assert !IsPrefix("exit code ", s) by { assert "exit code "[1] == 'x'; }
      } else {
        NoMatchUnlessFirst(ExitCode, s, 'e');
      }
    }
  }

  /** One step of a pass where nothing matches. */
  lemma SubNoMatch(r: Rule, s: string)
    requires |s| > 0 && RuleMatch(r, s).None?
    ensures Sub(r, s) == [s[0]] + Sub(r, s[1..])
  {
  }

  /** One step of a pass at a match. */
  lemma SubAtMatch(r: Rule, s: string, k: nat)
    requires |s| > 0 && RuleMatch(r, s) == Some(k)
    ensures Sub(r, s) == Kept(r) + Placeholder(RuleHole(r)) + Sub(r, s[k..])
  {
  }

  /** No match of `r` starts inside `x` when `rest` follows it. */
  predicate Clear(r: Rule, x: string, rest: string) {
    forall j :: 0 <= j < |x| ==> RuleMatch(r, x[j..] + rest).None?
  }

  lemma ClearTail(r: Rule, x: string, rest: string)
    requires |x| > 0 && Clear(r, x, rest)
    ensures RuleMatch(r, x + rest).None? && Clear(r, x[1..], rest)
  {
    assert x[0..] == x;
    forall j | 0 <= j < |x[1..]| ensures RuleMatch(r, x[1..][j..] + rest).None? {
      assert x[1..][j..] == x[j + 1..];
    }
  }

  lemma ScanOne(r: Rule, x: string, rest: string)
    requires |x| > 0 && RuleMatch(r, x + rest).None?
    ensures Sub(r, x + rest) == [x[0]] + Sub(r, x[1..] + rest)
  {
    var s := x + rest;
    SubNoMatch(r, s);
    assert s[1..] == x[1..] + rest;
  }

  lemma ConsJoin(x: string, y: string)
    requires |x| > 0
    ensures [x[0]] + (x[1..] + y) == x + y
  {
    assert x == [x[0]] + x[1..];
  }

  /** The pass copies text in which it finds no match. */
  lemma {:induction false} ScanThrough(r: Rule, x: string, rest: string)
    requires Clear(r, x, rest)
    ensures Sub(r, x + rest) == x + Sub(r, rest)
    decreases |x|
  {
    if |x| > 0 {
      ClearTail(r, x, rest);
      ScanOne(r, x, rest);
      ScanThrough(r, x[1..], rest);
      ConsJoin(x, Sub(r, rest));
    } else {
      assert x + rest == rest;
    }
  }

  /** Slicing facts for one step of `KeptPrefix`. */
  lemma KeptShift(segs: seq<Seg>, k: nat)
    requires 0 < k <= |segs| && segs[0].Keep?
    requires forall i :: 0 <= i < k - 1 ==> segs[1..][i].Keep?
    ensures forall i :: 0 <= i < k ==> segs[i].Keep?
    ensures segs[..k] == [segs[0]] + segs[1..][..k - 1] && segs[1..][k - 1..] == segs[k..]
  {
    forall i | 0 < i < k ensures segs[i].Keep? {
      assert segs[i] == segs[1..][i - 1];
    }
  }

  /** The first `k` characters of the pattern text hold no brace, so they
      come from `k` kept characters. */
  lemma {:induction false} KeptPrefix(segs: seq<Seg>, k: nat)
    requires ValidSegs(segs) && k <= |PatText(segs)| && NoBrace(PatText(segs)[..k])
    ensures k <= |segs|
    ensures forall i :: 0 <= i < k ==> segs[i].Keep?
    ensures PatText(segs[..k]) == PatText(segs)[..k] == MsgText(segs[..k])
    ensures PatText(segs[k..]) == PatText(segs)[k..]
    decreases k
  {
    if k > 0 {
      var t := PatText(segs);
      assert t[0] in t[..k];
      assert |segs| > 0;
      ValidTail(segs);
      match segs[0]
      case Cut(h, _) =>
        PlaceholderShape(h);
        assert false;
      case Keep(c) =>
        var t1 := PatText(segs[1..]);
        assert t == [c] + t1;
        assert t1[..k - 1] == t[1..k];
        assert NoBrace(t1[..k - 1]) by { assert forall x :: x in t1[..k - 1] ==> x in t[..k]; }
        KeptPrefix(segs[1..], k - 1);
        KeptShift(segs, k);
        assert t[..k] == [c] + t1[..k - 1];
    }
  }

  lemma {:induction false} PatTextAppend(xs: seq<Seg>, ys: seq<Seg>)
    ensures PatText(xs + ys) == PatText(xs) + PatText(ys)
    ensures MsgText(xs + ys) == MsgText(xs) + MsgText(ys)
    decreases |xs|
  {
    if |xs| > 0 {
      assert (xs + ys)[1..] == xs[1..] + ys;
      PatTextAppend(xs[1..], ys);
    } else {
      assert xs + ys == ys;
    }
  }

  lemma TailFacts(segs: seq<Seg>, k: nat, hs: set<Hole>)
    requires k <= |segs| && ValidSegs(segs) && CutsIn(segs, hs)
    ensures ValidSegs(segs[k..]) && CutsIn(segs[k..], hs)
  {
    forall i | 0 <= i < |segs[k..]| ensures SegOk(segs[k..][i]) && (segs[k..][i].Cut? ==> segs[k..][i].hole in hs) {
      assert segs[k..][i] == segs[i + k];
    }
  }

  /** One substitution pass, read on segmentations: the pass's output is the
      pattern text of another valid segmentation of the same message, whose
      new cuts are of the rule's kind. */
  lemma {:induction false} PassSegs(r: Rule, segs: seq<Seg>, hs: set<Hole>) returns (out: seq<Seg>)
    requires ValidSegs(segs) && CutsIn(segs, hs)
    requires forall h :: h in hs ==> Transparent(r, h)
    ensures ValidSegs(out) && CutsIn(out, hs + {RuleHole(r)})
    ensures PatText(out) == Sub(r, PatText(segs))
    ensures MsgText(out) == MsgText(segs)
    decreases |segs|
  {
    if |segs| == 0 {
      return [];
    }
    var t := PatText(segs);
    if segs[0].Cut? || RuleMatch(r, t).None? {
      TailFacts(segs, 1, hs);
      var tail := PassSegs(r, segs[1..], hs);
      out := [segs[0]] + tail;
      PassCopyStep(r, segs, hs, tail);
    } else {
      var k := RuleMatch(r, t).value;
      RuleMatchShape(r, t);
      KeptPrefix(segs, k);
      TailFacts(segs, k, hs);
      var tail := PassSegs(r, segs[k..], hs);
      out := segs[..|Kept(r)|] + [Cut(RuleHole(r), t[|Kept(r)|..k])] + tail;
      PassMatchStep(r, segs, hs, k, tail);
    }
  }

  /** The pass copies the first segment: a cut (the pass finds nothing inside
      its placeholder) or a kept character where nothing matches. */
  lemma PassCopyStep(r: Rule, segs: seq<Seg>, hs: set<Hole>, tail: seq<Seg>)
    requires |segs| > 0 && ValidSegs(segs) && CutsIn(segs, hs)
    requires forall h :: h in hs ==> Transparent(r, h)
    requires segs[0].Cut? || RuleMatch(r, PatText(segs)).None?
    requires ValidSegs(tail) && CutsIn(tail, hs + {RuleHole(r)})
    requires PatText(tail) == Sub(r, PatText(segs[1..])) && MsgText(tail) == MsgText(segs[1..])
    ensures var out := [segs[0]] + tail;
            ValidSegs(out) && CutsIn(out, hs + {RuleHole(r)})
            && PatText(out) == Sub(r, PatText(segs)) && MsgText(out) == MsgText(segs)
  {
    var out := [segs[0]] + tail;
    assert out[1..] == tail;
    assert SegOk(segs[0]);
    ValidCons(segs[0], tail);
    forall i | 0 <= i < |out| ensures out[i].Cut? ==> out[i].hole in hs + {RuleHole(r)} {
      if i > 0 {
        assert out[i] == tail[i - 1];
      }
    }
    match segs[0]
    case Cut(h, x) =>
      assert h in hs;
      ScanThroughPlaceholder(r, h, PatText(segs[1..]));
    case Keep(c) =>
      SubNoMatch(r, PatText(segs));
  }

  /** The pass replaces a match: its kept part stays as kept characters and
      the rest becomes one cut. */
  lemma PassMatchStep(r: Rule, segs: seq<Seg>, hs: set<Hole>, k: nat, tail: seq<Seg>)
    requires |segs| > 0 && ValidSegs(segs) && CutsIn(segs, hs)
    requires RuleMatch(r, PatText(segs)) == Some(k) && k <= |segs|
    requires ValidSegs(tail) && CutsIn(tail, hs + {RuleHole(r)})
    requires PatText(tail) == Sub(r, PatText(segs[k..])) && MsgText(tail) == MsgText(segs[k..])
    ensures var t := PatText(segs);
            var out := segs[..|Kept(r)|] + [Cut(RuleHole(r), t[|Kept(r)|..k])] + tail;
            ValidSegs(out) && CutsIn(out, hs + {RuleHole(r)})
            && PatText(out) == Sub(r, t) && MsgText(out) == MsgText(segs)
  {
    var t := PatText(segs);
    var n := |Kept(r)|;
    RuleMatchShape(r, t);
    KeptPrefix(segs, k);
    var cut := Cut(RuleHole(r), t[n..k]);
    MatchSegsValid(segs, n, k, cut, tail, hs + {RuleHole(r)});
    MatchSegsTexts(r, segs, k, tail);
  }

  lemma MatchSegsValid(segs: seq<Seg>, n: nat, k: nat, cut: Seg, tail: seq<Seg>, hs: set<Hole>)
    requires n < k <= |segs| && ValidSegs(segs) && forall i :: 0 <= i < k ==> segs[i].Keep?
    requires SegOk(cut) && cut.Cut? && cut.hole in hs
    requires ValidSegs(tail) && CutsIn(tail, hs)
    ensures ValidSegs(segs[..n] + [cut] + tail) && CutsIn(segs[..n] + [cut] + tail, hs)
  {
    var pre := segs[..n];
    assert ValidSegs(pre) by {
      forall i | 0 <= i < n ensures SegOk(pre[i]) {
        assert pre[i] == segs[i];
        assert SegOk(segs[i]);
      }
    }
    ValidCons(cut, tail);
    ValidAppend(pre, [cut] + tail);
    assert pre + [cut] + tail == pre + ([cut] + tail);
    CutsInJoin(segs, n, k, cut, tail, hs);
  }

  lemma MatchSegsTexts(r: Rule, segs: seq<Seg>, k: nat, tail: seq<Seg>)
    requires |segs| > 0 && ValidSegs(segs)
    requires RuleMatch(r, PatText(segs)) == Some(k) && k <= |segs|
    requires forall i :: 0 <= i < k ==> segs[i].Keep?
    requires PatText(segs[..k]) == PatText(segs)[..k] == MsgText(segs[..k])
    requires PatText(segs[k..]) == PatText(segs)[k..]
    requires PatText(tail) == Sub(r, PatText(segs[k..])) && MsgText(tail) == MsgText(segs[k..])
    ensures var t := PatText(segs);
            var out := segs[..|Kept(r)|] + [Cut(RuleHole(r), t[|Kept(r)|..k])] + tail;
            PatText(out) == Sub(r, t) && MsgText(out) == MsgText(segs)
  {
    var t := PatText(segs);
    var kept := Kept(r);
    SubAtMatch(r, t, k);
    Splice(segs, k, kept, RuleHole(r), tail);
  }

  /** Cutting `segs[|kept|..k]`, kept characters spelling `kept` and then
      more, into one cut of kind `h`, and following it with `tail`. */
  lemma Splice(segs: seq<Seg>, k: nat, kept: string, h: Hole, tail: seq<Seg>)
    requires |kept| < k <= |segs| && k <= |PatText(segs)|
    requires forall i :: 0 <= i < k ==> segs[i].Keep?
    requires PatText(segs[..k]) == PatText(segs)[..k] == MsgText(segs[..k])
    requires PatText(segs)[..|kept|] == kept
    requires MsgText(tail) == MsgText(segs[k..])
    ensures var t := PatText(segs);
            var out := segs[..|kept|] + [Cut(h, t[|kept|..k])] + tail;
            PatText(out) == kept + Placeholder(h) + PatText(tail) && MsgText(out) == MsgText(segs)
  {
    var t := PatText(segs);
    var n := |kept|;
    var cut := Cut(h, t[n..k]);
    KeptTexts(segs, k, n);
    JoinTexts(segs[..n], cut, tail);
    MatchSegsMsg(segs, t, n, k, tail);
  }

  /** The first `n` of `k` kept characters read the same on both sides. */
  lemma KeptTexts(segs: seq<Seg>, k: nat, n: nat)
    requires n <= k <= |segs| && k <= |PatText(segs)|
    requires forall i :: 0 <= i < k ==> segs[i].Keep?
    requires PatText(segs[..k]) == PatText(segs)[..k]
    ensures PatText(segs[..n]) == PatText(segs)[..n] == MsgText(segs[..n])
  {
    var sk := segs[..k];
    assert segs[..n] == sk[..n];
    forall i | 0 <= i < |sk| ensures sk[i].Keep? {
      assert sk[i] == segs[i];
    }
    KeepAllPrefix(sk, n);
    assert PatText(segs)[..k][..n] == PatText(segs)[..n];
  }

  /** The message side of a splice: the kept characters, the cut text and
      the rest make up the message. */
  lemma MatchSegsMsg(segs: seq<Seg>, t: string, n: nat, k: nat, tail: seq<Seg>)
    requires n <= k <= |segs| && k <= |t|
    requires MsgText(segs[..k]) == t[..k] && MsgText(segs[..n]) == t[..n]
    requires MsgText(tail) == MsgText(segs[k..])
    ensures MsgText(segs[..n]) + t[n..k] + MsgText(tail) == MsgText(segs)
  {
    MsgTextAppend(segs[..k], segs[k..]);
    assert segs == segs[..k] + segs[k..];
    SliceJoin(t, n, k);
  }

  lemma MsgTextAppend(xs: seq<Seg>, ys: seq<Seg>)
    ensures MsgText(xs + ys) == MsgText(xs) + MsgText(ys)
  {
    PatTextAppend(xs, ys);
  }

  lemma SliceJoin(t: string, n: nat, k: nat)
    requires n <= k <= |t|
    ensures t[..k] == t[..n] + t[n..k]
  {
  }

  lemma JoinTexts(pre: seq<Seg>, cut: Seg, tail: seq<Seg>)
    requires cut.Cut?
    ensures PatText(pre + [cut] + tail) == PatText(pre) + Placeholder(cut.hole) + PatText(tail)
    ensures MsgText(pre + [cut] + tail) == MsgText(pre) + cut.text + MsgText(tail)
  {
    PatTextAppend(pre, [cut] + tail);
    assert pre + [cut] + tail == pre + ([cut] + tail);
    CutCons(cut, tail);
  }

  lemma CutCons(cut: Seg, tail: seq<Seg>)
    requires cut.Cut?
    ensures PatText([cut] + tail) == Placeholder(cut.hole) + PatText(tail)
    ensures MsgText([cut] + tail) == cut.text + MsgText(tail)
  {
    assert ([cut] + tail)[1..] == tail;
  }

  /** The characters `segs[..n]` keep, when they are all kept characters. */
  lemma {:induction false} KeepAllPrefix(segs: seq<Seg>, n: nat)
    requires n <= |segs| && forall i :: 0 <= i < |segs| ==> segs[i].Keep?
    ensures |PatText(segs)| == |segs|
    ensures PatText(segs[..n]) == PatText(segs)[..n] == MsgText(segs[..n])
    decreases |segs|
  {
    KeepAllLength(segs);
    if |segs| > 0 {
      var t1 := PatText(segs[1..]);
      assert PatText(segs) == [segs[0].c] + t1;
      forall i | 0 <= i < |segs[1..]| ensures segs[1..][i].Keep? {
        assert segs[1..][i] == segs[i + 1];
      }
      if n > 0 {
        KeepAllPrefix(segs[1..], n - 1);
        assert segs[..n] == [segs[0]] + segs[1..][..n - 1];
        assert PatText(segs)[..n] == [segs[0].c] + t1[..n - 1];
      }
    }
  }

  lemma {:induction false} KeepAllLength(segs: seq<Seg>)
    requires forall i :: 0 <= i < |segs| ==> segs[i].Keep?
    ensures |PatText(segs)| == |segs|
    decreases |segs|
  {
    if |segs| > 0 {
      forall i | 0 <= i < |segs[1..]| ensures segs[1..][i].Keep? {
        assert segs[1..][i] == segs[i + 1];
      }
      KeepAllLength(segs[1..]);
    }
  }

  lemma CutsInJoin(segs: seq<Seg>, n: nat, k: nat, cut: Seg, tail: seq<Seg>, hs: set<Hole>)
    requires n < k <= |segs| && forall i :: 0 <= i < k ==> segs[i].Keep?
    requires cut.Cut? && cut.hole in hs && CutsIn(tail, hs)
    ensures CutsIn(segs[..n] + [cut] + tail, hs)
  {
    var out := segs[..n] + [cut] + tail;
    forall i | 0 <= i < |out| ensures out[i].Cut? ==> out[i].hole in hs {
      if i < n {
        assert out[i] == segs[i];
      } else if i > n {
        assert out[i] == tail[i - n - 1];
      }
    }
  }

  lemma ScanThroughPlaceholder(r: Rule, h: Hole, rest: string)
    requires Transparent(r, h)
    ensures Sub(r, Placeholder(h) + rest) == Placeholder(h) + Sub(r, rest)
  {
    ScanThrough(r, Placeholder(h), rest);
  }

  /** A pattern learned from a message without braces, once compiled by
      `find_solution`, matches that message. */
  lemma LearnedPatternMatches(message: string)
    requires NoBrace(message)
    ensures Search(Compile(Generalize(message)), message).Some?
  {
    var s0 := KeepAll(message);
    KeepAllTexts(message);
    assert ValidSegs(s0) by {
      forall i | 0 <= i < |s0| ensures s0[i].Keep? && s0[i].c != '{' {
        assert message[i] in message;
      }
    }
    var none: set<Hole> := {};
    var s1 := PassSegs(Decimal, s0, none);
    ExitCodeTransparent();
    assert none + {Value} == {Value};
    var s2 := PassSegs(ExitCode, s1, {Value});
    TxTransparent(Value);
    TxTransparent(Code);
    var s3 := PassSegs(Tx, s2, {Value, Code});
    assert PatText(s3) == Generalize(message);
    SegsMatch(s3);
  }
}
