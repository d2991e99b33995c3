/** Python string primitives used by both the monitoring engine and the
    service-desk helpers, stated over `string` (a `seq<char>`). */
module Common {

  datatype Option<+T> = None | Some(value: T)

  /** `str.isspace()` for one character: the ASCII controls TAB..CR,
      FS..US, SPACE, and the Unicode separators Python also counts. */
  predicate IsSpace(c: char) {
    ('\t' <= c <= '\r') || ('\U{001C}' <= c <= ' ') || c == '\U{0085}' || c == '\U{00A0}'
    || c == '\U{1680}' || ('\U{2000}' <= c <= '\U{200A}') || c == '\U{2028}' || c == '\U{2029}'
    || c == '\U{202F}' || c == '\U{205F}' || c == '\U{3000}'
  }

  predicate IsDigit(c: char) { '0' <= c <= '9' }

  predicate AllDigits(s: string) { forall i :: 0 <= i < |s| ==> IsDigit(s[i]) }

  /** Holds no opening brace, so no placeholder can start in it. */
  predicate NoBrace(s: string) { '{' !in s }

  predicate IsPrefix(p: string, s: string) { |p| <= |s| && s[..|p|] == p }

  predicate EndsWith(s: string, suffix: string) { |suffix| <= |s| && s[|s| - |suffix|..] == suffix }

  /** Python's `sub in s`. */
  predicate Contains(s: string, sub: string)
    decreases |s|
  {
    IsPrefix(sub, s) || (|s| > 0 && Contains(s[1..], sub))
  }

  /** `str.lstrip()`: the result is the suffix left after the leading
      whitespace run. */
  function LStrip(s: string): (r: string)
    ensures |r| <= |s| && r == s[|s| - |r|..]
    ensures |r| > 0 ==> !IsSpace(r[0])
    ensures forall i :: 0 <= i < |s| - |r| ==> IsSpace(s[i])
    decreases |s|
  {
    if |s| > 0 && IsSpace(s[0]) then LStrip(s[1..]) else s
  }

  /** `str.rstrip()`: the prefix left after the trailing whitespace run. */
  function RStrip(s: string): (r: string)
    ensures |r| <= |s| && r == s[..|r|]
    ensures |r| > 0 ==> !IsSpace(r[|r| - 1])
    ensures forall i :: |r| <= i < |s| ==> IsSpace(s[i])
    decreases |s|
  {
    if |s| > 0 && IsSpace(s[|s| - 1]) then RStrip(s[..|s| - 1]) else s
  }

  /** `str.strip()`. */
  function Strip(s: string): string {
    RStrip(LStrip(s))
  }

  /** `sep.join(parts)`. */
  function Join(parts: seq<string>, sep: string): string
    decreases |parts|
  {
    if |parts| == 0 then ""
    else if |parts| == 1 then parts[0]
    else parts[0] + sep + Join(parts[1..], sep)
  }

  /** `s.split(sep)` for a one-character separator: every piece between
      separators, so there is always one more piece than separators. */
  function SplitOn(s: string, sep: char): (parts: seq<string>)
    ensures |parts| >= 1
    ensures forall i :: 0 <= i < |parts| ==> sep !in parts[i]
    ensures Join(parts, [sep]) == s
    decreases |s|
  {
    if |s| == 0 then [""]
    else
      var rest := SplitOn(s[1..], sep);
      if s[0] == sep then
        var parts := [""] + rest;
        assert parts[1..] == rest;
        assert Join(parts, [sep]) == "" + [sep] + Join(rest, [sep]);
        assert s == [s[0]] + s[1..];
        parts
      else
        var parts := [[s[0]] + rest[0]] + rest[1..];
        assert parts[1..] == rest[1..];
        assert s == [s[0]] + s[1..];
        assert |rest| > 1 ==> Join(rest, [sep]) == rest[0] + [sep] + Join(rest[1..], [sep]);
        assert |rest| > 1 ==> Join(parts, [sep]) == [s[0]] + rest[0] + [sep] + Join(rest[1..], [sep]);
        assert forall c :: c in parts[0] ==> c == s[0] || c in rest[0];
        parts
  }

  /** Splitting a join of separator-free pieces gives the pieces back. */
  lemma {:induction false} SplitJoin(parts: seq<string>, sep: char)
    requires |parts| >= 1
    requires forall i :: 0 <= i < |parts| ==> sep !in parts[i]
    ensures SplitOn(Join(parts, [sep]), sep) == parts
    decreases |parts|, |parts[0]|
  {
    var s := Join(parts, [sep]);
    if |parts[0]| > 0 {
      var tail := [parts[0][1..]] + parts[1..];
      assert tail[0] == parts[0][1..];
      assert tail[1..] == parts[1..];
      assert forall i :: 0 <= i < |tail| ==> sep !in tail[i] by {
        forall i | 0 <= i < |tail| ensures sep !in tail[i] {
          if i == 0 {
            assert forall c :: c in parts[0][1..] ==> c in parts[0];
          } else {
            assert tail[i] == parts[i];
          }
        }
      }
      SplitJoin(tail, sep);
      var t := Join(tail, [sep]);
      if |parts| == 1 {
        assert s == parts[0] == [parts[0][0]] + t;
      } else {
        assert s == [parts[0][0]] + t;
      }
      assert s[0] == parts[0][0] && s[0] != sep by { assert parts[0][0] in parts[0]; }
      assert s[1..] == t;
      assert [parts[0][0]] + tail[0] == parts[0];
      assert parts == [[parts[0][0]] + tail[0]] + tail[1..];
    } else if |parts| > 1 {
      var tail := parts[1..];
      SplitJoin(tail, sep);
      assert s == [sep] + Join(tail, [sep]);
      assert s[1..] == Join(tail, [sep]);
      assert parts == [""] + tail;
    } else {
      assert s == "";
    }
  }

  /** Index just past the first word of `s` (which starts with no space). */
  function WordEnd(s: string): (k: nat)
    ensures k <= |s|
    ensures forall i :: 0 <= i < k ==> !IsSpace(s[i])
    ensures k < |s| ==> IsSpace(s[k])
    decreases |s|
  {
    if |s| == 0 || IsSpace(s[0]) then 0 else 1 + WordEnd(s[1..])
  }

  /** True of a non-empty run of non-whitespace characters. */
  predicate IsWord(w: string) {
    |w| > 0 && forall j :: 0 <= j < |w| ==> !IsSpace(w[j])
  }

  /** The first word of a text that starts with no space. */
  lemma FirstWord(t: string)
    requires |t| > 0 && !IsSpace(t[0])
    ensures 0 < WordEnd(t) <= |t| && IsWord(t[..WordEnd(t)])
  {
    var k := WordEnd(t);
    forall j | 0 <= j < k ensures !IsSpace(t[..k][j]) {
      assert t[..k][j] == t[j];
    }
  }

  lemma AllWordsCons(w: string, ws: seq<string>)
    requires IsWord(w) && forall i :: 0 <= i < |ws| ==> IsWord(ws[i])
    ensures forall i :: 0 <= i < |[w] + ws| ==> IsWord(([w] + ws)[i])
  {
    forall i | 0 < i < |[w] + ws| ensures IsWord(([w] + ws)[i]) {
      assert ([w] + ws)[i] == ws[i - 1];
    }
  }

  /** `str.split()` with no argument: the maximal runs of non-whitespace. */
  function Words(s: string): (ws: seq<string>)
    ensures forall i :: 0 <= i < |ws| ==> IsWord(ws[i])
    decreases |s|
  {
    var t := LStrip(s);
    if |t| == 0 then []
    else
      FirstWord(t);
      var k := WordEnd(t);
      var rest := Words(t[k..]);
      AllWordsCons(t[..k], rest);
      [t[..k]] + rest
  }

  /** True of a text made only of whitespace (the empty text included). */
  predicate AllSpace(s: string) {
    forall i :: 0 <= i < |s| ==> IsSpace(s[i])
  }

  lemma {:induction false} LStripSpaces(p: string, t: string)
    requires AllSpace(p)
    ensures LStrip(p + t) == LStrip(t)
    decreases |p|
  {
    if |p| > 0 {
      assert (p + t)[0] == p[0];
      assert (p + t)[1..] == p[1..] + t;
      LStripSpaces(p[1..], t);
    } else {
      assert p + t == t;
    }
  }

  /** Leading whitespace yields no word. */
  lemma {:induction false} WordsSpacePrefix(p: string, t: string)
    requires AllSpace(p)
    ensures Words(p + t) == Words(t)
  {
    LStripSpaces(p, t);
  }

  /** A text of whitespace only splits into no words. */
  lemma {:induction false} WordsBlank(p: string)
    requires AllSpace(p)
    ensures Words(p) == []
  {
    LStripSpaces(p, "");
    assert p + "" == p;
    assert LStrip(p) == "";
  }

  /** The first word of a text that starts with it, followed by whitespace
      or by nothing at all. */
  lemma {:induction false} WordAhead(w: string, sep: string, t: string)
    requires IsWord(w) && AllSpace(sep) && (|sep| > 0 || |t| == 0)
    ensures LStrip(w + sep + t) == w + sep + t
    ensures WordEnd(w + sep + t) == |w|
    ensures (w + sep + t)[..|w|] == w && (w + sep + t)[|w|..] == sep + t
  {
    var s := w + sep + t;
    assert s[0] == w[0] && !IsSpace(w[0]);
    assert LStrip(s) == s;
    assert forall i :: 0 <= i < |w| ==> s[i] == w[i];
    assert |sep| > 0 ==> s[|w|] == sep[0] && IsSpace(sep[0]);
    assert s[..|w|] == w;
    assert s[|w|..] == sep + t;
  }

  /** Whitespace, a word, whitespace and more text: the word comes first,
      then the words of the rest. */
  lemma {:induction false} WordsStep(p: string, w: string, sep: string, t: string)
    requires AllSpace(p) && IsWord(w) && |sep| > 0 && AllSpace(sep)
    ensures Words(p + w + sep + t) == [w] + Words(t)
  {
    assert p + w + sep + t == p + (w + sep + t);
    WordsSpacePrefix(p, w + sep + t);
    WordAhead(w, sep, t);
    WordsSpacePrefix(sep, t);
  }

  lemma {:induction false} WordThenBlank(w: string, q: string)
    requires IsWord(w) && AllSpace(q)
    ensures Words(w + q) == [w]
  {
    WordAhead(w, q, "");
    assert w + q + "" == w + q;
    WordsBlank(q);
    assert q + "" == q;
  }

  /** Whitespace, a last word and trailing whitespace: that one word. */
  lemma {:induction false} WordsLast(p: string, w: string, q: string)
    requires AllSpace(p) && IsWord(w) && AllSpace(q)
    ensures Words(p + w + q) == [w]
  {
    assert p + w + q == p + (w + q);
    WordsSpacePrefix(p, w + q);
    WordThenBlank(w, q);
  }

  /** ASCII `str.lower()`. */
  function LowerChar(c: char): char {
    if 'A' <= c <= 'Z' then (c as int + 32) as char else c
  }

  function Lower(s: string): (r: string)
    ensures |r| == |s| && forall i :: 0 <= i < |s| ==> r[i] == LowerChar(s[i])
  {
    seq(|s|, i requires 0 <= i < |s| => LowerChar(s[i]))
  }

  /** Python's `<` on two strings: code-point lexicographic order, a proper
      prefix being smaller. */
  predicate LexLess(a: string, b: string)
    decreases |a|
  {
    |b| > 0 && (|a| == 0 || a[0] < b[0] || (a[0] == b[0] && LexLess(a[1..], b[1..])))
  }

  function DigitChar(d: nat): char
    requires d < 10
  {
    ('0' as int + d) as char
  }

  /** `str(n)` for a natural number: its decimal digits, no leading zero. */
  function NatToString(n: nat): (s: string)
    ensures |s| >= 1 && AllDigits(s)
    ensures |s| > 1 ==> s[0] != '0'
    decreases n
  {
    if n < 10 then [DigitChar(n)] else NatToString(n / 10) + [DigitChar(n % 10)]
  }

  /** `str(i)` for a Python int: a minus sign before the digits of a
      negative number. */
  function IntToString(i: int): (s: string)
    ensures i < 0 <==> (|s| > 0 && s[0] == '-')
  {
    if i < 0 then "-" + NatToString(-i) else NatToString(i)
  }
}
