/** How `find_solution` fills the winning pattern's `solution_script` with
    the groups its regex captured: `{service}` first, then each group in
    turn for whichever other placeholder kind is still present. */
module ScriptBinding {
  import opened Common
  import opened PatternCompiler

  /** Python's `s.replace(pat, rep)`: every non-overlapping occurrence of
      `pat`, scanned from the left, replaced by `rep`. */
  function ReplaceAll(s: string, pat: string, rep: string): string
    requires |pat| > 0
    decreases |s|
  {
    if |s| < |pat| then s
    else if s[..|pat|] == pat then rep + ReplaceAll(s[|pat|..], pat, rep)
    else [s[0]] + ReplaceAll(s[1..], pat, rep)
  }

  /** The `if/elif` chain's order for binding a group. */
  const BindOrder: seq<Hole> := [Value, Code, Txid, Target, Resource, Table, Id, Query]

  /** The first kind in `hs` whose placeholder the script still contains. */
  function FirstPresent(s: string, hs: seq<Hole>): (r: Option<Hole>)
    ensures r.Some? ==> r.value in hs && Contains(s, Placeholder(r.value))
    ensures r.None? ==> forall h :: h in hs ==> !Contains(s, Placeholder(h))
    decreases |hs|
  {
    if |hs| == 0 then None
    else if Contains(s, Placeholder(hs[0])) then Some(hs[0])
    else FirstPresent(s, hs[1..])
  }

  /** One round of the loop over `match.groups()`. */
  function BindGroup(s: string, g: string): string {
    match FirstPresent(s, BindOrder)
    case Some(h) => ReplaceAll(s, Placeholder(h), g)
    case None => s
  }

  /** The loop over `match.groups()`, group by group. */
  function BindGroups(s: string, groups: seq<string>): string
    decreases |groups|
  {
    if |groups| == 0 then s else BindGroups(BindGroup(s, groups[0]), groups[1..])
  }

  /** The script `find_solution` returns for a match with these groups. */
  function Bind(script: string, groups: seq<string>): string {
    var s := if Contains(script, Placeholder(Service)) && |groups| > 0
             then ReplaceAll(script, Placeholder(Service), groups[0])
             else script;
    BindGroups(s, groups)
  }

  /** The binding as `find_solution` performs it, updating its copy of the
      script in place. */
  method BindScript(script: string, groups: seq<string>) returns (s: string)
    ensures s == Bind(script, groups)
  {
    s := script;
    if Contains(s, Placeholder(Service)) && |groups| > 0 {
      s := ReplaceAll(s, Placeholder(Service), groups[0]);
    }
    var i := 0;
    while i < |groups|
      invariant 0 <= i <= |groups|
      invariant BindGroups(s, groups[i..]) == Bind(script, groups)
    {
      assert groups[i..][1..] == groups[i + 1..];
      var h := FirstPresent(s, BindOrder);
      if h.Some? {
        s := ReplaceAll(s, Placeholder(h.value), groups[i]);
      }
      i := i + 1;
    }
  }


  /** Where an occurrence of `sub` starts. */
  lemma {:induction false} ContainsWitness(s: string, sub: string) returns (k: nat)
    requires Contains(s, sub)
    ensures k <= |s| && IsPrefix(sub, s[k..])
    decreases |s|
  {
    if IsPrefix(sub, s) {
      k := 0;
    } else {
      var j := ContainsWitness(s[1..], sub);
      k := j + 1;
      assert s[1..][j..] == s[k..];
    }
  }

  lemma {:induction false} ContainsAtPrefix(s: string, sub: string, k: nat)
    requires k <= |s| && IsPrefix(sub, s[k..])
    ensures Contains(s, sub)
    decreases k
  {
    if k > 0 {
      assert s[1..][k - 1..] == s[k..];
      ContainsAtPrefix(s[1..], sub, k - 1);
    }
  }

  lemma NoBraceTail(s: string)
    requires |s| > 0 && NoBrace(s)
    ensures s[0] != '{' && NoBrace(s[1..])
  {
    assert s[0] in s;
    assert forall c :: c in s[1..] ==> c in s;
  }

  /** A brace-opened pattern is not found in text without braces. */
  lemma {:induction false} NoBraceNoContains(s: string, pat: string)
    requires |pat| > 0 && pat[0] == '{' && NoBrace(s)
    ensures !Contains(s, pat)
    decreases |s|
  {
    if |s| > 0 {
      NoBraceTail(s);
      if |pat| <= |s| {
        assert s[..|pat|][0] != pat[0];
      }
      NoBraceNoContains(s[1..], pat);
    }
  }

  lemma {:induction false} ReplaceNothing(s: string, pat: string, rep: string)
    requires |pat| > 0 && pat[0] == '{' && NoBrace(s)
    ensures ReplaceAll(s, pat, rep) == s
    decreases |s|
  {
    if |s| >= |pat| {
      assert s[..|pat|] != pat by { assert s[0] != '{'; }
      assert NoBrace(s[1..]) by { assert forall c :: c in s[1..] ==> c in s; }
      ReplaceNothing(s[1..], pat, rep);
      assert s == [s[0]] + s[1..];
    }
  }

  lemma {:induction false} ReplaceSkip(a: string, x: string, pat: string, rep: string)
    requires |pat| > 0 && pat[0] == '{' && NoBrace(a)
    ensures ReplaceAll(a + x, pat, rep) == a + ReplaceAll(x, pat, rep)
    decreases |a|
  {
    if |a| > 0 {
      var s := a + x;
      assert NoBrace(a[1..]) by { assert forall c :: c in a[1..] ==> c in a; }
      ReplaceSkip(a[1..], x, pat, rep);
      assert s[1..] == a[1..] + x;
      if |s| >= |pat| {
        assert s[..|pat|] != pat by { assert s[0] == a[0] != '{'; }
      }
      assert a == [a[0]] + a[1..];
    } else {
      assert a + x == x;
    }
  }

  lemma ReplaceHit(x: string, pat: string, rep: string)
    requires |pat| > 0
    ensures ReplaceAll(pat + x, pat, rep) == rep + ReplaceAll(x, pat, rep)
  {
    var s := pat + x;
    assert s[..|pat|] == pat;
    assert s[|pat|..] == x;
  }

  /** The one occurrence of a placeholder in otherwise brace-free text is
      replaced, the rest kept. */
  lemma ReplaceOnce(a: string, b: string, h: Hole, rep: string)
    requires NoBrace(a) && NoBrace(b)
    ensures ReplaceAll(a + Placeholder(h) + b, Placeholder(h), rep) == a + rep + b
  {
    var p := Placeholder(h);
    PlaceholderShape(h);
    assert a + p + b == a + (p + b);
    ReplaceSkip(a, p + b, p, rep);
    ReplaceHit(b, p, rep);
    ReplaceNothing(b, p, rep);
  }

  lemma FirstPresentNone(s: string, hs: seq<Hole>)
    requires NoBrace(s)
    ensures FirstPresent(s, hs).None?
  {
    forall h | h in hs ensures !Contains(s, Placeholder(h)) {
      PlaceholderShape(h);
      NoBraceNoContains(s, Placeholder(h));
    }
  }

  /** In brace-free text around one placeholder, that placeholder is the only
      one present. */
  lemma OnlyPlaceholder(a: string, h: Hole, b: string, g: Hole)
    requires NoBrace(a) && NoBrace(b)
    ensures Contains(a + Placeholder(h) + b, Placeholder(g)) <==> g == h
  {
    if g == h {
      PlaceholderPresent(a, h, b);
    }
    if Contains(a + Placeholder(h) + b, Placeholder(g)) {
      PlaceholderAbsent(a, h, b, g);
    }
  }

  lemma PlaceholderPresent(a: string, h: Hole, b: string)
    ensures Contains(a + Placeholder(h) + b, Placeholder(h))
  {
    var s := a + Placeholder(h) + b;
    assert s[|a|..] == Placeholder(h) + b;
    ContainsAtPrefix(s, Placeholder(h), |a|);
  }

  lemma PlaceholderAbsent(a: string, h: Hole, b: string, g: Hole)
    requires NoBrace(a) && NoBrace(b) && Contains(a + Placeholder(h) + b, Placeholder(g))
    ensures g == h
  {
    PlaceholderShape(g);
    PlaceholderOneBrace(h);
    OnlyAtBrace(a, Placeholder(h), b, Placeholder(g));
    PlaceholderPrefixUnique(g, h, Placeholder(h) + b);
  }

  /** In `a + p + b` with a single '{', at the start of `p`, a text that
      opens with '{' can only occur where `p` starts. */
  lemma OnlyAtBrace(a: string, p: string, b: string, q: string)
    requires NoBrace(a) && NoBrace(b) && forall k :: 0 < k < |p| ==> p[k] != '{'
    requires |q| > 0 && q[0] == '{' && Contains(a + p + b, q)
    ensures IsPrefix(q, p + b)
  {
    var s := a + p + b;
    var k := ContainsWitness(s, q);
    BraceAt(s, k, q);
    BraceIndex(a, p, b, k);
    DropFront(a, p, b);
  }

  lemma DropFront(a: string, p: string, b: string)
    ensures (a + p + b)[|a|..] == p + b
  {
  }

  /** The only brace in `a + p + b` is the one that opens `p`. */
  lemma BraceIndex(a: string, p: string, b: string, k: nat)
    requires NoBrace(a) && NoBrace(b) && forall i :: 0 < i < |p| ==> p[i] != '{'
    requires k < |a + p + b| && (a + p + b)[k] == '{'
    ensures k == |a|
  {
    var s := a + p + b;
    forall i | 0 <= i < |s| && i != |a| ensures s[i] != '{' {
      if i < |a| {
        assert s[i] == a[i] && a[i] in a;
      } else if i < |a| + |p| {
        assert s[i] == p[i - |a|];
      } else {
        assert s[i] == b[i - |a| - |p|] && b[i - |a| - |p|] in b;
      }
    }
  }

  /** An occurrence of a text that opens with '{' sits on a '{'. */
  lemma BraceAt(s: string, k: nat, p: string)
    requires k <= |s| && IsPrefix(p, s[k..]) && |p| > 0 && p[0] == '{'
    ensures k < |s| && s[k] == '{'
  {
    assert s[k..][0] == p[0];
  }

  lemma FirstPresentOnly(a: string, h: Hole, b: string, hs: seq<Hole>)
    requires NoBrace(a) && NoBrace(b) && h in hs
    ensures FirstPresent(a + Placeholder(h) + b, hs) == Some(h)
  {
    var r := FirstPresent(a + Placeholder(h) + b, hs);
    OnlyPlaceholder(a, h, b, h);
    if r.Some? {
      OnlyPlaceholder(a, h, b, r.value);
    }
  }

  /** Once no placeholder is left, the remaining groups change nothing. */
  lemma {:induction false} BindGroupsDone(s: string, groups: seq<string>)
    requires NoBrace(s)
    ensures BindGroups(s, groups) == s
    decreases |groups|
  {
    if |groups| > 0 {
      FirstPresentNone(s, BindOrder);
      BindGroupsDone(s, groups[1..]);
    }
  }

  /** A script without placeholders is returned verbatim, whatever was
      captured. */
  lemma BindVerbatim(script: string, groups: seq<string>)
    requires NoBrace(script)
    ensures Bind(script, groups) == script
  {
    PlaceholderShape(Service);
    NoBraceNoContains(script, Placeholder(Service));
    BindGroupsDone(script, groups);
  }

  /** `{service}` receives the first group, and only when there is one;
      without groups every placeholder stays as written. */
  lemma BindService(a: string, b: string, groups: seq<string>)
    requires NoBrace(a) && NoBrace(b)
    ensures |groups| > 0 && NoBrace(groups[0]) ==>
      Bind(a + Placeholder(Service) + b, groups) == a + groups[0] + b
    ensures |groups| == 0 ==> Bind(a + Placeholder(Service) + b, groups) == a + Placeholder(Service) + b
  {
    if |groups| > 0 && NoBrace(groups[0]) {
      OnlyPlaceholder(a, Service, b, Service);
      ReplaceOnce(a, b, Service, groups[0]);
      NoBraceJoin(a, groups[0], b);
      BindGroupsDone(a + groups[0] + b, groups);
    }
  }

  lemma NoBraceJoin(a: string, b: string, c: string)
    requires NoBrace(a) && NoBrace(b) && NoBrace(c)
    ensures NoBrace(a + b + c)
  {
    assert forall x :: x in a + b + c ==> x in a || x in b || x in c;
  }

  /** Binding is positional: a single placeholder of any other kind takes
      the first group, whichever hole of the pattern captured it. */
  lemma BindFirstGroup(a: string, h: Hole, b: string, groups: seq<string>)
    requires NoBrace(a) && NoBrace(b) && h in BindOrder
    requires |groups| > 0 && NoBrace(groups[0])
    ensures Bind(a + Placeholder(h) + b, groups) == a + groups[0] + b
  {
    var s := a + Placeholder(h) + b;
    OnlyPlaceholder(a, h, b, Service);
    assert h != Service;
    FirstPresentOnly(a, h, b, BindOrder);
    ReplaceOnce(a, b, h, groups[0]);
    NoBraceJoin(a, groups[0], b);
    BindGroupsDone(a + groups[0] + b, groups[1..]);
  }

  /** With `{service}` and one more placeholder, both receive the first
      group: the second group is never used. */
  lemma BindServiceThen(a: string, b: string, h: Hole, c: string, groups: seq<string>)
    requires NoBrace(a) && NoBrace(b) && NoBrace(c) && h in BindOrder
    requires |groups| > 0 && NoBrace(groups[0])
    ensures Bind(a + Placeholder(Service) + b + Placeholder(h) + c, groups)
            == a + groups[0] + b + groups[0] + c
  {
    var g := groups[0];
    var s := a + Placeholder(Service) + b + Placeholder(h) + c;
    var ab := a + g + b;
    var s1 := ab + Placeholder(h) + c;
    ServiceStep(a, b, h, c, g);
    assert Bind(s, groups) == BindGroups(s1, groups);
    NoBraceJoin(a, g, b);
    OnlyPlaceholder(ab, h, c, Service);
    assert h != Service;
    assert Bind(s1, groups) == BindGroups(s1, groups);
    BindFirstGroup(ab, h, c, groups);
  }

  /** The `{service}` step on a script with one more placeholder. */
  lemma ServiceStep(a: string, b: string, h: Hole, c: string, g: string)
    requires NoBrace(a) && NoBrace(b) && NoBrace(c) && h in BindOrder
    ensures Contains(a + Placeholder(Service) + b + Placeholder(h) + c, Placeholder(Service))
    ensures ReplaceAll(a + Placeholder(Service) + b + Placeholder(h) + c, Placeholder(Service), g)
            == a + g + b + Placeholder(h) + c
  {
    PlaceholderShape(Service);
    assert h != Service;
    ReplaceHitOther(h, c, g);
    ReplaceFirstOnly(a, Placeholder(Service), b, Placeholder(h) + c, g);
    FirstAt(a, Placeholder(Service), b, Placeholder(h) + c);
    Regroup(a, Placeholder(Service), b, Placeholder(h), c);
    Regroup(a, g, b, Placeholder(h), c);
  }

  lemma FirstAt(a: string, p: string, b: string, rest: string)
    ensures Contains(a + p + b + rest, p)
  {
    var s := a + p + b + rest;
    assert s[|a|..] == p + (b + rest);
    ContainsAtPrefix(s, p, |a|);
  }

  lemma Regroup(a: string, p: string, b: string, q: string, c: string)
    ensures a + p + b + q + c == a + p + b + (q + c)
  {
  }

  /** A pattern met once in brace-free text, before a part the replacement
      leaves alone, is replaced there only. */
  lemma ReplaceFirstOnly(a: string, p: string, b: string, rest: string, g: string)
    requires |p| > 0 && p[0] == '{' && NoBrace(a) && NoBrace(b)
    requires ReplaceAll(rest, p, g) == rest
    ensures ReplaceAll(a + p + b + rest, p, g) == a + g + b + rest
  {
    assert a + p + b + rest == a + (p + (b + rest));
    ReplaceSkip(a, p + (b + rest), p, g);
    ReplaceHit(b + rest, p, g);
    ReplaceSkip(b, rest, p, g);
    assert a + (g + (b + rest)) == a + g + b + rest;
  }

  /** Replacing `{service}` leaves another placeholder in brace-free text alone. */
  lemma ReplaceHitOther(h: Hole, c: string, g: string)
    requires h != Service && NoBrace(c)
    ensures ReplaceAll(Placeholder(h) + c, Placeholder(Service), g) == Placeholder(h) + c
  {
    var p := Placeholder(Service);
    var s := Placeholder(h) + c;
    PlaceholderShape(h);
    PlaceholderShape(Service);
    PlaceholderOneBrace(h);
    if |s| >= |p| && s[..|p|] == p {
      PlaceholderPrefixUnique(Service, h, s);
    }
    var rest := s[1..];
    assert rest == Placeholder(h)[1..] + c;
    assert NoBrace(rest) by {
      forall k | 0 <= k < |rest| ensures rest[k] != '{' {
        if k < |Placeholder(h)| - 1 {
          assert rest[k] == Placeholder(h)[k + 1];
        } else {
          assert rest[k] == c[k - |Placeholder(h)| + 1];
          assert c[k - |Placeholder(h)| + 1] in c;
        }
      }
    }
    ReplaceNothing(rest, p, g);
    if |s| >= |p| {
      assert ReplaceAll(s, p, g) == [s[0]] + ReplaceAll(rest, p, g);
    } else {
      assert ReplaceAll(s, p, g) == s;
    }
    assert s == [s[0]] + rest;
  }
}
