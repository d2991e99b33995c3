/** Identifiers as the service-desk helpers receive them: the JSON payloads
    and the tool arguments carry ids either as integers or as strings. */
module ServerIds {
  import opened Common

  /** A JSON id. Python compares an int and a str as different, so
      `IntId(5) != StrId("5")` just as `5 != "5"`. */
  datatype JsonId = IntId(i: int) | StrId(s: string)

  /** Python truthiness of an id: `0` and `""` are false. */
  predicate Truthy(id: JsonId) {
    match id
    case IntId(i) => i != 0
    case StrId(s) => s != ""
  }

  /** An optional id field read with `dict.get`: absent or null is `None`. */
  predicate TruthyField(id: Option<JsonId>) {
    id.Some? && Truthy(id.value)
  }

  /** `str(x)` of an id. */
  function IdText(id: JsonId): string {
    match id
    case IntId(i) => IntToString(i)
    case StrId(s) => s
  }

  /** `s.split('-')[0]`: the text before the first '-', or all of it. */
  function BeforeDash(s: string): (r: string)
    ensures IsPrefix(r, s) && '-' !in r
    ensures |r| < |s| ==> s[|r|] == '-'
    decreases |s|
  {
    if |s| == 0 || s[0] == '-' then "" else [s[0]] + BeforeDash(s[1..])
  }

  /** `ensure_string_id`: `None` stays `None`; any other id becomes its
      text, cut before its first '-'. */
  function EnsureStringId(id: Option<JsonId>): (r: Option<string>)
    ensures r.None? <==> id.None?
    ensures r.Some? ==> '-' !in r.value && IsPrefix(r.value, IdText(id.value))
  {
    match id
    case None => None
    case Some(x) => Some(BeforeDash(IdText(x)))
  }

  /** The cut keeps the whole text exactly when the text holds no '-'. */
  lemma {:induction false} BeforeDashWhole(s: string)
    ensures BeforeDash(s) == s <==> '-' !in s
    decreases |s|
  {
    if |s| > 0 && s[0] != '-' {
      BeforeDashWhole(s[1..]);
      assert s == [s[0]] + s[1..];
    }
  }

  /** Normalising an id that is already normalised changes nothing. */
  lemma EnsureStringIdIdempotent(id: Option<JsonId>)
    requires id.Some?
    ensures EnsureStringId(Some(StrId(EnsureStringId(id).value))) == EnsureStringId(id)
  {
    BeforeDashWhole(BeforeDash(IdText(id.value)));
  }

  /** A negative integer id normalises to the empty string: its text
      starts with the minus sign. */
  lemma NegativeIdIsEmpty(i: int)
    requires i < 0
    ensures EnsureStringId(Some(IntId(i))) == Some("")
  {
  }

  /** A non-negative integer id keeps all of its digits. */
  lemma NaturalIdKept(n: nat)
    ensures EnsureStringId(Some(IntId(n))) == Some(NatToString(n))
  {
    var s := NatToString(n);
    assert forall k :: 0 <= k < |s| ==> IsDigit(s[k]);
    BeforeDashWhole(s);
  }
}
