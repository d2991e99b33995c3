/** How `MonitoringEngine.find_solution` turns an `issue_pattern` template
    into a regular expression: `re.escape` the whole template, then replace
    each escaped placeholder by a capture group, one placeholder kind after
    the other.

    A compiled pattern is a sequence of tokens, each a literal character or
    a capture group for one of nine hole kinds. `re.escape` turns every
    character into one escaped unit, and no unit starts with '{' (the brace
    itself is escaped), so an escaped placeholder can only be found aligned
    to units; replacing it in the escaped text is therefore the same as
    replacing the run of literal tokens that spells it. */
module PatternCompiler {
  import opened Common

  /** The nine placeholder kinds a template may contain. */
  datatype Hole = Service | Value | Code | Txid | Target | Resource | Table | Id | Query

  function Name(h: Hole): string {
    match h
    case Service => "service"
    case Value => "value"
    case Code => "code"
    case Txid => "txid"
    case Target => "target"
    case Resource => "resource"
    case Table => "table"
    case Id => "id"
    case Query => "query"
  }

  /** The placeholder text in a template, e.g. `{service}`. */
  function Placeholder(h: Hole): string {
    "{" + Name(h) + "}"
  }

  /** The order of the `replace` calls in `find_solution`. */
  const Holes: seq<Hole> := [Service, Value, Code, Txid, Target, Resource, Table, Id, Query]

  /** One unit of a compiled pattern. */
  datatype Tok = Lit(c: char) | Group(hole: Hole)

  /** `re.escape(pattern)`: each character becomes one literal unit. */
  function Escape(s: string): (r: seq<Tok>)
    ensures |r| == |s|
    ensures forall i :: 0 <= i < |s| ==> r[i] == Lit(s[i])
  {
    seq(|s|, i requires 0 <= i < |s| => Lit(s[i]))
  }

  /** `search_pattern.replace(escaped placeholder, group)`: every
      non-overlapping occurrence of the placeholder's units, scanned from
      the left, becomes one group. */
  function ReplaceTok(toks: seq<Tok>, h: Hole): (r: seq<Tok>)
    ensures |r| <= |toks|
    decreases |toks|
  {
    var p := Escape(Placeholder(h));
    if |toks| == 0 then []
    else if |p| <= |toks| && toks[..|p|] == p then [Group(h)] + ReplaceTok(toks[|p|..], h)
    else [toks[0]] + ReplaceTok(toks[1..], h)
  }

  /** The replace calls applied one after the other, in the order `hs`. */
  function ApplySteps(toks: seq<Tok>, hs: seq<Hole>): seq<Tok>
    decreases |hs|
  {
    if |hs| == 0 then toks else ApplySteps(ReplaceTok(toks, hs[0]), hs[1..])
  }

  /** The regular expression `find_solution` builds from a template. */
  function Compile(pattern: string): seq<Tok> {
    ApplySteps(Escape(pattern), Holes)
  }

  /** The first kind in `hs` whose placeholder starts `t`. */
  function PlaceholderAt(t: string, hs: seq<Hole>): (r: Option<Hole>)
    ensures r.Some? ==> r.value in hs && IsPrefix(Placeholder(r.value), t)
    ensures r.None? ==> forall h :: h in hs ==> !IsPrefix(Placeholder(h), t)
    decreases |hs|
  {
    if |hs| == 0 then None
    else if IsPrefix(Placeholder(hs[0]), t) then Some(hs[0])
    else PlaceholderAt(t, hs[1..])
  }

  /** One left-to-right pass that recognises the placeholders of the kinds `hs`. */
  function TokenizeWith(t: string, hs: seq<Hole>): seq<Tok>
    decreases |t|
  {
    if |t| == 0 then []
    else match PlaceholderAt(t, hs)
      case Some(h) => [Group(h)] + TokenizeWith(t[|Placeholder(h)|..], hs)
      case None => [Lit(t[0])] + TokenizeWith(t[1..], hs)
  }

  /** The template read in one pass: every placeholder of the nine kinds
      becomes a group, every other character a literal. */
  function Tokenize(t: string): seq<Tok> {
    TokenizeWith(t, Holes)
  }

  /** The template text a token sequence spells. */
  function Render(toks: seq<Tok>): string
    decreases |toks|
  {
    if |toks| == 0 then ""
    else match toks[0]
      case Lit(c) => [c] + Render(toks[1..])
      case Group(h) => Placeholder(h) + Render(toks[1..])
  }

  /** The holes of a compiled pattern, in order: the regex's groups. */
  function GroupHoles(toks: seq<Tok>): (r: seq<Hole>)
    ensures |r| <= |toks|
    decreases |toks|
  {
    if |toks| == 0 then []
    else match toks[0]
      case Lit(_) => GroupHoles(toks[1..])
      case Group(h) => [h] + GroupHoles(toks[1..])
  }

  predicate NameChar(c: char) { 'a' <= c <= 'z' }

  /** A placeholder opens with '{', closes with '}', and holds only
      lower-case letters in between. */
  lemma PlaceholderShape(h: Hole)
    ensures |Placeholder(h)| >= 3 && Placeholder(h)[0] == '{'
    ensures Placeholder(h)[|Placeholder(h)| - 1] == '}'
    ensures forall k :: 0 < k < |Placeholder(h)| - 1 ==> NameChar(Placeholder(h)[k])
  {
    var p := Placeholder(h);
    assert p[1..|p| - 1] == Name(h);
    assert forall k :: 0 <= k < |Name(h)| ==> NameChar(Name(h)[k]) by {
      match h
      case Service =>
      case Value =>
      case Code =>
      case Txid =>
      case Target =>
      case Resource =>
      case Table =>
      case Id =>
      case Query =>
    }
  }

  /** No character after the first of a placeholder is '{'. */
  lemma PlaceholderOneBrace(h: Hole)
    ensures forall k :: 0 < k < |Placeholder(h)| ==> Placeholder(h)[k] != '{'
  {
    PlaceholderShape(h);
  }

  lemma {:induction false} NameInjective(g: Hole, h: Hole)
    requires Name(g) == Name(h)
    ensures g == h
  {
    match g
    case Service =>
    case Value =>
    case Code =>
    case Txid =>
    case Target =>
    case Resource =>
    case Table =>
    case Id =>
    case Query =>
  }

  /** Two placeholders never both start the same text: the names are
      letters, closed by '}', and pairwise different. */
  lemma PlaceholderPrefixUnique(g: Hole, h: Hole, t: string)
    requires IsPrefix(Placeholder(g), t) && IsPrefix(Placeholder(h), t)
    ensures g == h
  {
    PlaceholderShape(g);
    PlaceholderShape(h);
    var pg, ph := Placeholder(g), Placeholder(h);
    var n := if |pg| < |ph| then |pg| else |ph|;
    assert pg[n - 1] == t[n - 1] == ph[n - 1];
    BraceOnlyAtEnd(g, n - 1);
    BraceOnlyAtEnd(h, n - 1);
    assert |pg| == |ph|;
    assert pg == t[..|pg|] == ph;
    assert Name(g) == pg[1..|pg| - 1] == ph[1..|ph| - 1] == Name(h);
    NameInjective(g, h);
  }

  /** The only '}' of a placeholder is its last character. */
  lemma BraceOnlyAtEnd(h: Hole, k: nat)
    requires k < |Placeholder(h)|
    ensures Placeholder(h)[k] == '}' <==> k == |Placeholder(h)| - 1
  {
    PlaceholderShape(h);
  }

  /** Text that does not start with '{' starts with no placeholder. */
  lemma {:induction false} NoBraceNoPlaceholder(t: string, hs: seq<Hole>)
    requires |t| > 0 && t[0] != '{'
    ensures PlaceholderAt(t, hs).None?
    decreases |hs|
  {
    if |hs| > 0 {
      PlaceholderShape(hs[0]);
      NoBraceNoPlaceholder(t, hs[1..]);
    }
  }

  /** A stretch that starts no placeholder and then holds no '{' is read
      as literals, whatever kinds are recognised. */
  lemma {:induction false} LiteralRun(t: string, hs: seq<Hole>, n: nat)
    requires n <= |t|
    requires n > 0 ==> PlaceholderAt(t, hs).None?
    requires forall k :: 0 < k < n ==> t[k] != '{'
    ensures TokenizeWith(t, hs) == Escape(t[..n]) + TokenizeWith(t[n..], hs)
    decreases n
  {
    if n > 0 {
      LiteralRun(t, hs, n - 1);
      if n > 1 {
        NoBraceNoPlaceholder(t[n - 1..], hs);
      } else {
        assert t[n - 1..] == t;
      }
      LiteralAt(t, hs, n);
      EscapeSnoc(t, n);
      SnocJoin(Escape(t[..n - 1]), Lit(t[n - 1]), TokenizeWith(t[n..], hs));
    } else {
      assert Escape(t[..0]) == [];
      assert t[0..] == t;
    }
  }

  /** The character before position n, when no placeholder starts there,
      is read as one literal. */
  lemma LiteralAt(t: string, hs: seq<Hole>, n: nat)
    requires 0 < n <= |t| && PlaceholderAt(t[n - 1..], hs).None?
    ensures TokenizeWith(t[n - 1..], hs) == [Lit(t[n - 1])] + TokenizeWith(t[n..], hs)
  {
    TokenizeLit(t[n - 1..], hs);
    assert t[n - 1..][1..] == t[n..];
  }

  lemma EscapeSnoc(t: string, n: nat)
    requires 0 < n <= |t|
    ensures Escape(t[..n]) == Escape(t[..n - 1]) + [Lit(t[n - 1])]
  {
  }

  lemma SnocJoin(a: seq<Tok>, x: Tok, b: seq<Tok>)
    ensures a + ([x] + b) == (a + [x]) + b
  {
  }

  /** A text that starts with a placeholder of a recognised kind is read
      its group first. */
  lemma TokenizeGroup(t: string, hs: seq<Hole>, h: Hole)
    requires |t| > 0 && PlaceholderAt(t, hs) == Some(h)
    ensures TokenizeWith(t, hs) == [Group(h)] + TokenizeWith(t[|Placeholder(h)|..], hs)
  {
  }

  /** A text that starts with no placeholder is read a literal first. */
  lemma TokenizeLit(t: string, hs: seq<Hole>)
    requires |t| > 0 && PlaceholderAt(t, hs).None?
    ensures TokenizeWith(t, hs) == [Lit(t[0])] + TokenizeWith(t[1..], hs)
  {
  }

  /** With no kind recognised, the pass is `re.escape`. */
  lemma EscapeIsTokenizeNone(t: string)
    ensures TokenizeWith(t, []) == Escape(t)
  {
    PlaceholderAt_Empty(t);
    LiteralRunNone(t);
  }

  lemma PlaceholderAt_Empty(t: string)
    ensures PlaceholderAt(t, []).None?
  {
  }

  lemma {:induction false} LiteralRunNone(t: string)
    ensures TokenizeWith(t, []) == Escape(t)
    decreases |t|
  {
    if |t| > 0 {
      LiteralRunNone(t[1..]);
      assert Escape(t) == [Lit(t[0])] + Escape(t[1..]);
    }
  }

  /** If the pass's output starts with the literal units of `w`, the text
      starts with `w`. */
  lemma {:induction false} LiteralPrefixInverse(w: string, t: string, hs: seq<Hole>)
    requires |w| <= |TokenizeWith(t, hs)| && TokenizeWith(t, hs)[..|w|] == Escape(w)
    ensures IsPrefix(w, t)
    decreases |w|
  {
    if |w| > 0 {
      var r := TokenizeWith(t, hs);
      EscapeCons(w);
      HeadOf(r, Escape(w));
      FirstLiteral(t, hs, w[0]);
      TailOf(r, Lit(w[0]), TokenizeWith(t[1..], hs), Escape(w));
      LiteralPrefixInverse(w[1..], t[1..], hs);
      PrefixCons(w, t);
    }
  }

  lemma HeadOf(r: seq<Tok>, e: seq<Tok>)
    requires 0 < |e| <= |r| && r[..|e|] == e
    ensures r[0] == e[0]
  {
    assert r[0] == r[..|e|][0];
  }

  lemma TailOf(r: seq<Tok>, x: Tok, r1: seq<Tok>, e: seq<Tok>)
    requires r == [x] + r1 && 0 < |e| <= |r| && r[..|e|] == e
    ensures |e| - 1 <= |r1| && r1[..|e| - 1] == e[1..]
  {
    assert r1[..|e| - 1] == r[..|e|][1..];
  }

  lemma EscapeCons(w: string)
    requires |w| > 0
    ensures Escape(w)[0] == Lit(w[0]) && Escape(w)[1..] == Escape(w[1..])
  {
  }

  /** A pass whose output starts with a literal read that character first. */
  lemma FirstLiteral(t: string, hs: seq<Hole>, c: char)
    requires |TokenizeWith(t, hs)| > 0 && TokenizeWith(t, hs)[0] == Lit(c)
    ensures |t| > 0 && t[0] == c
    ensures TokenizeWith(t, hs) == [Lit(c)] + TokenizeWith(t[1..], hs)
  {
  }

  lemma PrefixCons(w: string, t: string)
    requires |w| > 0 && |t| > 0 && w[0] == t[0] && IsPrefix(w[1..], t[1..])
    ensures IsPrefix(w, t)
  {
    assert t[..|w|] == [t[0]] + t[1..][..|w| - 1];
    assert w == [w[0]] + w[1..];
  }

  lemma ReplaceAtPlaceholder(h: Hole, x: seq<Tok>)
    ensures ReplaceTok(Escape(Placeholder(h)) + x, h) == [Group(h)] + ReplaceTok(x, h)
  {
    var p := Escape(Placeholder(h));
    var toks := p + x;
    PlaceholderShape(h);
    assert toks[..|p|] == p;
    assert toks[|p|..] == x;
  }

  /** One replace call adds one recognised kind to the pass. */
  lemma {:induction false} ReplaceStep(t: string, hs: seq<Hole>, h: Hole)
    requires h !in hs
    ensures ReplaceTok(TokenizeWith(t, hs), h) == TokenizeWith(t, hs + [h])
    decreases |t|
  {
    var ph := Placeholder(h);
    if |t| > 0 {
      match PlaceholderAt(t, hs)
      case Some(g) =>
        ReplaceStep(t[|Placeholder(g)|..], hs, h);
        ReplaceStepEarlier(t, hs, h, g);
      case None =>
        if IsPrefix(ph, t) {
          ReplaceStep(t[|ph|..], hs, h);
          ReplaceStepHit(t, hs, h);
        } else {
          ReplaceStep(t[1..], hs, h);
          ReplaceStepMiss(t, hs, h);
        }
    }
  }

  /** The text starts with a placeholder already recognised. */
  lemma ReplaceStepEarlier(t: string, hs: seq<Hole>, h: Hole, g: Hole)
    requires |t| > 0 && PlaceholderAt(t, hs) == Some(g)
    requires ReplaceTok(TokenizeWith(t[|Placeholder(g)|..], hs), h)
             == TokenizeWith(t[|Placeholder(g)|..], hs + [h])
    ensures ReplaceTok(TokenizeWith(t, hs), h) == TokenizeWith(t, hs + [h])
  {
    PlaceholderAtAppend(t, hs, h);
    var p := Escape(Placeholder(h));
    var rest := TokenizeWith(t[|Placeholder(g)|..], hs);
    var r := [Group(g)] + rest;
    assert TokenizeWith(t, hs) == r;
    PlaceholderShape(h);
    assert p[0] == Lit('{');
    assert r[0] == Group(g);
    assert !(|p| <= |r| && r[..|p|] == p) by {
      if |p| <= |r| {
        assert r[..|p|][0] == r[0] != p[0];
      }
    }
    assert r[1..] == rest;
    assert ReplaceTok(r, h) == [Group(g)] + ReplaceTok(rest, h);
  }

  /** The text starts with the placeholder being replaced. */
  lemma ReplaceStepHit(t: string, hs: seq<Hole>, h: Hole)
    requires |t| > 0 && PlaceholderAt(t, hs).None? && IsPrefix(Placeholder(h), t)
    requires ReplaceTok(TokenizeWith(t[|Placeholder(h)|..], hs), h)
             == TokenizeWith(t[|Placeholder(h)|..], hs + [h])
    ensures ReplaceTok(TokenizeWith(t, hs), h) == TokenizeWith(t, hs + [h])
  {
    HitOld(t, hs, h);
    HitNew(t, hs, h);
    ReplaceAtPlaceholder(h, TokenizeWith(t[|Placeholder(h)|..], hs));
  }

  /** Before the new kind is recognised, its placeholder reads as literals. */
  lemma HitOld(t: string, hs: seq<Hole>, h: Hole)
    requires |t| > 0 && PlaceholderAt(t, hs).None? && IsPrefix(Placeholder(h), t)
    ensures TokenizeWith(t, hs)
            == Escape(Placeholder(h)) + TokenizeWith(t[|Placeholder(h)|..], hs)
  {
    var ph := Placeholder(h);
    PlaceholderOneBrace(h);
    forall k | 0 < k < |ph| ensures t[k] != '{' {
      assert t[k] == t[..|ph|][k] == ph[k];
    }
    LiteralRun(t, hs, |ph|);
  }

  /** Once it is recognised, it reads as its group. */
  lemma HitNew(t: string, hs: seq<Hole>, h: Hole)
    requires |t| > 0 && PlaceholderAt(t, hs).None? && IsPrefix(Placeholder(h), t)
    ensures TokenizeWith(t, hs + [h])
            == [Group(h)] + TokenizeWith(t[|Placeholder(h)|..], hs + [h])
  {
    PlaceholderAtAppend(t, hs, h);
  }

  /** The text starts with no placeholder of the kinds so far, nor the new one. */
  lemma ReplaceStepMiss(t: string, hs: seq<Hole>, h: Hole)
    requires |t| > 0 && PlaceholderAt(t, hs).None? && !IsPrefix(Placeholder(h), t)
    requires ReplaceTok(TokenizeWith(t[1..], hs), h) == TokenizeWith(t[1..], hs + [h])
    ensures ReplaceTok(TokenizeWith(t, hs), h) == TokenizeWith(t, hs + [h])
  {
    var p := Escape(Placeholder(h));
    PlaceholderAtAppend(t, hs, h);
    assert PlaceholderAt(t, hs + [h]).None?;
    var r := TokenizeWith(t, hs);
    assert r == [Lit(t[0])] + TokenizeWith(t[1..], hs);
    assert !(|p| <= |r| && r[..|p|] == p) by {
      if |p| <= |r| && r[..|p|] == p {
        LiteralPrefixInverse(Placeholder(h), t, hs);
      }
    }
    assert r[1..] == TokenizeWith(t[1..], hs);
    assert ReplaceTok(r, h) == [Lit(t[0])] + ReplaceTok(TokenizeWith(t[1..], hs), h);
  }

  /** Appending a kind leaves an earlier hit alone and can only add a hit
      for the new kind. */
  lemma {:induction false} PlaceholderAtAppend(t: string, hs: seq<Hole>, h: Hole)
    ensures PlaceholderAt(t, hs).Some? ==> PlaceholderAt(t, hs + [h]) == PlaceholderAt(t, hs)
    ensures PlaceholderAt(t, hs).None? ==>
      PlaceholderAt(t, hs + [h]) == (if IsPrefix(Placeholder(h), t) then Some(h) else None)
    decreases |hs|
  {
    if |hs| > 0 {
      assert (hs + [h])[0] == hs[0];
      assert (hs + [h])[1..] == hs[1..] + [h];
      PlaceholderAtAppend(t, hs[1..], h);
    } else {
      assert (hs + [h])[1..] == [];
    }
  }

  /** No kind appears twice. */
  predicate Distinct(hs: seq<Hole>) {
    forall i, j :: 0 <= i < j < |hs| ==> hs[i] != hs[j]
  }

  lemma HolesDistinct()
    ensures Distinct(Holes)
  {
  }

  lemma DistinctNext(done: seq<Hole>, todo: seq<Hole>)
    requires |todo| > 0 && Distinct(done + todo)
    ensures todo[0] !in done && done + todo == (done + [todo[0]]) + todo[1..]
  {
    forall i | 0 <= i < |done| ensures done[i] != todo[0] {
      assert (done + todo)[i] == done[i];
      assert (done + todo)[|done|] == todo[0];
    }
    assert done + todo == (done + [todo[0]]) + todo[1..];
  }

  /** The chain of replace calls is one pass over all the kinds it names. */
  lemma {:induction false} StepsAreTokenize(t: string, done: seq<Hole>, todo: seq<Hole>)
    requires Distinct(done + todo)
    ensures ApplySteps(TokenizeWith(t, done), todo) == TokenizeWith(t, done + todo)
    decreases |todo|
  {
    if |todo| > 0 {
      DistinctNext(done, todo);
      ReplaceStep(t, done, todo[0]);
      StepsAreTokenize(t, done + [todo[0]], todo[1..]);
    } else {
      assert done + todo == done;
    }
  }

  /** Compiling a template by escaping it and running the nine replace
      calls is the same as reading it in one pass. */
  lemma CompileIsTokenize(t: string)
    ensures Compile(t) == Tokenize(t)
  {
    EscapeIsTokenizeNone(t);
    HolesDistinct();
    assert [] + Holes == Holes;
    StepsAreTokenize(t, [], Holes);
  }


  /** The compiled pattern spells the template back. */
  lemma {:induction false} RenderTokenize(t: string, hs: seq<Hole>)
    ensures Render(TokenizeWith(t, hs)) == t
    decreases |t|
  {
    if |t| > 0 {
      match PlaceholderAt(t, hs)
      case Some(h) =>
        TokenizeGroup(t, hs, h);
        RenderTokenize(t[|Placeholder(h)|..], hs);
        RenderGroup(h, TokenizeWith(t[|Placeholder(h)|..], hs));
        PrefixJoin(Placeholder(h), t);
      case None =>
        TokenizeLit(t, hs);
        RenderTokenize(t[1..], hs);
        RenderLit(t[0], TokenizeWith(t[1..], hs));
        assert t == [t[0]] + t[1..];
    }
  }

  lemma RenderGroup(h: Hole, rest: seq<Tok>)
    ensures Render([Group(h)] + rest) == Placeholder(h) + Render(rest)
  {
    assert ([Group(h)] + rest)[1..] == rest;
  }

  lemma RenderLit(c: char, rest: seq<Tok>)
    ensures Render([Lit(c)] + rest) == [c] + Render(rest)
  {
    assert ([Lit(c)] + rest)[1..] == rest;
  }

  lemma PrefixJoin(p: string, t: string)
    requires IsPrefix(p, t)
    ensures p + t[|p|..] == t
  {
    assert t == t[..|p|] + t[|p|..];
  }

  /** A literal never opens a placeholder. */
  predicate Clean(toks: seq<Tok>) {
    forall i :: 0 <= i < |toks| ==> toks[i] != Lit('{')
  }

  /** Reading a rendered pattern whose literals hold no '{' gives it back:
      the compiler recognises exactly the placeholders written. */
  lemma {:induction false} TokenizeRender(toks: seq<Tok>)
    requires Clean(toks)
    ensures Tokenize(Render(toks)) == toks
    decreases |toks|
  {
    if |toks| > 0 {
      CleanTail(toks);
      TokenizeRender(toks[1..]);
      TokenizeRenderStep(toks);
    }
  }

  lemma CleanTail(toks: seq<Tok>)
    requires |toks| > 0 && Clean(toks)
    ensures Clean(toks[1..]) && toks[0] != Lit('{')
  {
    forall i | 0 <= i < |toks[1..]| ensures toks[1..][i] != Lit('{') {
      assert toks[1..][i] == toks[i + 1];
    }
  }

  lemma {:induction false} TokenizeRenderStep(toks: seq<Tok>)
    requires |toks| > 0 && toks[0] != Lit('{')
    requires Tokenize(Render(toks[1..])) == toks[1..]
    ensures Tokenize(Render(toks)) == toks
  {
    var rest := Render(toks[1..]);
    assert toks == [toks[0]] + toks[1..];
    match toks[0]
    case Lit(c) =>
      RenderLit(c, toks[1..]);
      TokenizeLiteralThen([c], rest);
    case Group(h) =>
      RenderGroup(h, toks[1..]);
      TokenizePlaceholderThen(h, rest);
  }

  /** Splitting the template text splits its tokens, when the first part
      has no '{'. */
  lemma TokenizeLiteralThen(a: string, b: string)
    requires forall k :: 0 <= k < |a| ==> a[k] != '{'
    ensures Tokenize(a + b) == Escape(a) + Tokenize(b)
  {
    if |a| > 0 {
      NoBraceNoPlaceholder(a + b, Holes);
    }
    LiteralRun(a + b, Holes, |a|);
    assert (a + b)[..|a|] == a;
    assert (a + b)[|a|..] == b;
  }

  /** A placeholder at the front of the template becomes its group. */
  lemma TokenizePlaceholderThen(h: Hole, b: string)
    ensures Tokenize(Placeholder(h) + b) == [Group(h)] + Tokenize(b)
  {
    var t := Placeholder(h) + b;
    PlaceholderShape(h);
    assert IsPrefix(Placeholder(h), t);
    var g := PlaceholderAt(t, Holes);
    assert g.Some? by { assert h in Holes; }
    PlaceholderPrefixUnique(g.value, h, t);
    assert t[|Placeholder(h)|..] == b;
  }
}
