/** Base-10 conversions of Go's strconv package as the source uses them:
    `ParseInt(s, 10, 64)` and `FormatInt(x, 10)`. */
module Strconv {
  import opened Types

  predicate IsDigit(c: char) {
    '0' <= c <= '9'
  }

  predicate AllDigits(s: string) {
    forall i :: 0 <= i < |s| ==> IsDigit(s[i])
  }

  function DigitValue(c: char): (d: nat)
    requires IsDigit(c)
    ensures d < 10
  {
    c as int - '0' as int
  }

  function DigitChar(d: nat): (c: char)
    requires d < 10
    ensures IsDigit(c) && DigitValue(c) == d
  {
    ('0' as int + d) as char
  }

  /** The value of a string of decimal digits, most significant first (leading zeros allowed). */
  function DecimalValue(s: string): nat
    requires AllDigits(s)
  {
    if s == [] then 0 else 10 * DecimalValue(s[..|s| - 1]) + DigitValue(s[|s| - 1])
  }

  /** `strconv.ParseInt(s, 10, 64)`, `None` standing for a non-nil error: an optional `+` or `-`
      sign, then one or more decimal digits (no underscores, since the base is given), and the
      value must fit in an int64 (otherwise the range error). */
  function ParseInt(s: string): (r: Option<int64>)
    ensures r.Some? ==> s != [] && (IsDigit(s[0]) || ((s[0] == '+' || s[0] == '-') && |s| >= 2))
    ensures r.Some? ==> forall i :: 0 < i < |s| ==> IsDigit(s[i])
    ensures r.Some? && s[0] == '-' ==> r.value <= 0
    ensures r.Some? && s[0] != '-' ==> r.value >= 0
    ensures r.Some? && AllDigits(s) ==> r.value == DecimalValue(s)
  {
    if s == [] then None
    else
      var negative := s[0] == '-';
      var digits := if s[0] == '+' || s[0] == '-' then s[1..] else s;
      if digits == [] || !AllDigits(digits) then None
      else
        var magnitude: int := DecimalValue(digits);
        var v := if negative then -magnitude else magnitude;
        if IsInt64(v) then Some(v) else None
  }

  /** The shortest decimal form of `n`: no sign, no leading zero. */
  function FormatNat(n: nat): (s: string)
    ensures s != [] && AllDigits(s)
    ensures s[0] == '0' ==> n == 0
  {
    if n < 10 then [DigitChar(n)] else FormatNat(n / 10) + [DigitChar(n % 10)]
  }

  /** `strconv.FormatInt(x, 10)`. */
  function FormatInt(x: int): (s: string)
    ensures s != []
    ensures forall i :: 0 <= i < |s| ==> IsDigit(s[i]) || (i == 0 && s[i] == '-')
    ensures s[0] == '-' <==> x < 0
  {
    if x < 0 then "-" + FormatNat(-x) else FormatNat(x)
  }

  lemma {:induction false} FormatNatValue(n: nat)
    ensures DecimalValue(FormatNat(n)) == n
  {
    if n >= 10 {
      var s := FormatNat(n);
      assert s[..|s| - 1] == FormatNat(n / 10);
      FormatNatValue(n / 10);
    }
  }

  /** Parsing the formatted form of any int64 gives the value back. */
  lemma ParseFormatRoundTrip(x: int64)
    ensures ParseInt(FormatInt(x)) == Some(x)
  {
    if x < 0 {
      var m: nat := -(x as int);
      FormatNatValue(m);
      assert FormatInt(x)[1..] == FormatNat(m);
    } else {
      FormatNatValue(x);
    }
  }

  /** FormatInt is injective on int64, so distinct timestamps give distinct names. */
  lemma FormatIntInjective(x: int64, y: int64)
    requires FormatInt(x) == FormatInt(y)
    ensures x == y
  {
    ParseFormatRoundTrip(x);
    ParseFormatRoundTrip(y);
  }
}
