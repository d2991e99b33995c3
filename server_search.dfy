/** The argument normalisation in `search_incidents`: the `updated_since`
    time period and the page size. */
module ServerSearch {
  import opened Common

  /** The units the service desk accepts at the end of a time period. */
  predicate EndsInUnit(s: string) {
    |s| > 0 && (s[|s| - 1] == 'd' || s[|s| - 1] == 'w' || s[|s| - 1] == 'm')
  }

  /** `s.replace(" ", "")`. */
  function RemoveSpaces(s: string): (r: string)
    ensures ' ' !in r && |r| <= |s|
    decreases |s|
  {
    if |s| == 0 then ""
    else if s[|s| - 1] == ' ' then RemoveSpaces(s[..|s| - 1])
    else RemoveSpaces(s[..|s| - 1]) + [s[|s| - 1]]
  }

  /** The normal form of a time period: spaces removed, and days assumed
      when no unit ends it. */
  function TimePeriod(s: string): (r: string)
    ensures EndsInUnit(r) && ' ' !in r
  {
    var t := RemoveSpaces(s);
    if EndsInUnit(t) then t else t + "d"
  }

  /** The normalisation as `search_incidents` performs it: an all-digit
      period gets 'd' appended, spaces are removed, and 'd' is appended
      again when no unit ends the result. An empty or absent period sets
      no `updated` parameter. */
  method NormaliseUpdatedSince(since: Option<string>) returns (updated: Option<string>)
    ensures updated.Some? <==> since.Some? && since.value != ""
    ensures updated.Some? ==> updated.value == TimePeriod(since.value)
  {
    updated := None;
    if since.Some? && since.value != "" {
      var u := since.value;
      if AllDigits(u) {
        DigitsPeriod(u);
        u := u + "d";
      }
      u := RemoveSpaces(u);
      if !EndsInUnit(u) {
        u := u + "d";
      }
      updated := Some(u);
    }
  }

  /** Text without spaces is its own space-free form. */
  lemma {:induction false} RemoveSpacesFixed(s: string)
    requires ' ' !in s
    ensures RemoveSpaces(s) == s
    decreases |s|
  {
    if |s| > 0 {
      RemoveSpacesFixed(s[..|s| - 1]);
      assert s == s[..|s| - 1] + [s[|s| - 1]];
    }
  }

  /** Spaces are removed piecewise: with `RemoveSpacesFixed` and the
      one-character cases this pins down `replace(" ", "")` exactly. */
  lemma {:induction false} RemoveSpacesAppend(a: string, b: string)
    ensures RemoveSpaces(a + b) == RemoveSpaces(a) + RemoveSpaces(b)
    decreases |b|
  {
    if |b| == 0 {
      assert a + b == a;
    } else {
      var b' := b[..|b| - 1];
      RemoveSpacesAppend(a, b');
      assert (a + b)[..|a + b| - 1] == a + b';
      assert (a + b)[|a + b| - 1] == b[|b| - 1];
    }
  }

  /** The all-digits step makes no difference to the final period: the
      digits hold no space and end in no unit. */
  lemma DigitsPeriod(u: string)
    requires |u| > 0 && AllDigits(u)
    ensures RemoveSpaces(u + "d") == RemoveSpaces(u) + "d"
    ensures !EndsInUnit(RemoveSpaces(u))
  {
    assert ' ' !in u by {
      forall k | 0 <= k < |u| ensures u[k] != ' ' {
        assert IsDigit(u[k]);
      }
    }
    RemoveSpacesFixed(u);
    assert IsDigit(u[|u| - 1]);
    assert (u + "d")[..|u + "d"| - 1] == u;
  }

  /** Normalising a normalised period changes nothing. */
  lemma TimePeriodIdempotent(s: string)
    ensures TimePeriod(TimePeriod(s)) == TimePeriod(s)
  {
    RemoveSpacesFixed(TimePeriod(s));
  }

  /** A bare number of days, as in "7": the period becomes "7d". */
  lemma NumberMeansDays(n: nat)
    ensures TimePeriod(NatToString(n)) == NatToString(n) + "d"
  {
    DigitsPeriod(NatToString(n));
    RemoveSpacesFixed(NatToString(n));
  }

  /** The value of a decimal digit string. */
  function DecimalValue(s: string): nat
    requires AllDigits(s)
    decreases |s|
  {
    if |s| == 0 then 0
    else DecimalValue(s[..|s| - 1]) * 10 + (s[|s| - 1] as int - '0' as int)
  }

  /** `str(n)` reads back as `n`. */
  lemma {:induction false} NatToStringValue(n: nat)
    ensures DecimalValue(NatToString(n)) == n
    decreases n
  {
    var s := NatToString(n);
    if n >= 10 {
      NatToStringValue(n / 10);
      assert s[..|s| - 1] == NatToString(n / 10);
    }
  }

  /** `str(min(limit, 100))`, set only for a positive int limit. */
  function PerPage(limit: Option<int>): (r: Option<string>)
    ensures r.Some? <==> limit.Some? && limit.value > 0
    ensures r.Some? ==> AllDigits(r.value) && 1 <= DecimalValue(r.value) <= 100
    ensures r.Some? ==> DecimalValue(r.value) == (if limit.value < 100 then limit.value else 100)
  {
    if limit.Some? && limit.value != 0 && limit.value > 0 then
      var n := if limit.value < 100 then limit.value else 100;
      NatToStringValue(n);
      Some(NatToString(n))
    else None
  }
}
