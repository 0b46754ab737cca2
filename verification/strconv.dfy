/** Decimal integer text as Go's `strconv` reads and writes it:
    `ParseInt(s, 10, 64)` and the decimal formatting used by `Itoa`. */
module Strconv {
  import opened Wrappers

  const MinInt64: int := -0x8000_0000_0000_0000
  const MaxInt64: int := 0x7FFF_FFFF_FFFF_FFFF

  predicate InInt64(x: int) {
    MinInt64 <= x <= MaxInt64
  }

  /** Only the ASCII digits count in base 10; other Unicode digits do not. */
  predicate IsDigit(ch: char) {
    '0' <= ch <= '9'
  }

  predicate AllDigits(s: string) {
    forall i :: 0 <= i < |s| ==> IsDigit(s[i])
  }

  function DigitValue(ch: char): (d: nat)
    requires IsDigit(ch)
    ensures d < 10
  {
    (ch as int) - ('0' as int)
  }

  function DigitChar(d: nat): (ch: char)
    requires d < 10
    ensures IsDigit(ch) && DigitValue(ch) == d
  {
    (('0' as int) + d) as char
  }

  /** The value of a string of decimal digits, most significant first. */
  function DigitsValue(s: string): nat
    requires AllDigits(s)
    decreases |s|
  {
    if |s| == 0 then 0 else DigitsValue(s[..|s| - 1]) * 10 + DigitValue(s[|s| - 1])
  }

  /** `strconv.ParseInt(s, 10, 64)`: an optional `+` or `-`, then one or more
      ASCII digits, no underscores (they are accepted only with base 0), and a
      value that fits in 64 signed bits. Every other input is an error, here
      `None`. */
  function ParseInt(s: string): (r: Option<int>)
    ensures r.Some? ==> InInt64(r.value)
    ensures r.Some? ==> |s| > 0 && (IsDigit(s[0]) || (|s| > 1 && (s[0] == '+' || s[0] == '-')))
    ensures r.Some? ==> forall i :: 1 <= i < |s| ==> IsDigit(s[i])
    ensures r.Some? && r.value < 0 ==> s[0] == '-'
  {
    if |s| == 0 then None
    else
      var body := if s[0] == '+' || s[0] == '-' then s[1..] else s;
      if |body| == 0 || !AllDigits(body) then None
      else
        var v: int := if s[0] == '-' then -(DigitsValue(body) as int) else DigitsValue(body);
        if InInt64(v) then Some(v) else None
  }

  /** Decimal digits of a natural number, without leading zeros. */
  function FormatNat(n: nat): (s: string)
    ensures |s| > 0 && AllDigits(s)
    decreases n
  {
    if n < 10 then [DigitChar(n)] else FormatNat(n / 10) + [DigitChar(n % 10)]
  }

  /** `strconv.Itoa`: a minus sign for negative values, then the digits. */
  function FormatInt(x: int): (s: string)
    ensures |s| > 0
    ensures x < 0 <==> s[0] == '-'
  {
    if x < 0 then "-" + FormatNat(-x) else FormatNat(x)
  }

  lemma {:induction false} FormatNatValue(n: nat)
    ensures DigitsValue(FormatNat(n)) == n
    decreases n
  {
    var s := FormatNat(n);
    if n >= 10 {
      FormatNatValue(n / 10);
      assert s[..|s| - 1] == FormatNat(n / 10);
    }
  }

  /** An unsigned run of digits is read as its value, when that fits. */
  lemma ParseUnsigned(d: string)
    requires |d| > 0 && AllDigits(d)
    ensures ParseInt(d) == if InInt64(DigitsValue(d)) then Some(DigitsValue(d) as int) else None
  {
    assert IsDigit(d[0]);
  }

  /** A minus sign before a run of digits negates its value. */
  lemma ParseNegative(d: string)
    requires |d| > 0 && AllDigits(d)
    ensures var v := -(DigitsValue(d) as int);
            ParseInt("-" + d) == if InInt64(v) then Some(v) else None
  {
    assert ("-" + d)[1..] == d;
  }

  /** A plus sign before a run of digits changes nothing. */
  lemma ParsePlus(d: string)
    requires |d| > 0 && AllDigits(d)
    ensures ParseInt("+" + d) == ParseInt(d)
  {
    assert ("+" + d)[1..] == d;
    assert IsDigit(d[0]);
  }

  /** Reading back what `FormatInt` wrote gives the value again, for every
      value `ParseInt` can represent. */
  lemma ParseFormatRoundTrip(x: int)
    requires InInt64(x)
    ensures ParseInt(FormatInt(x)) == Some(x)
  {
    if x < 0 {
      FormatNatValue(-x);
      ParseNegative(FormatNat(-x));
    } else {
      FormatNatValue(x);
      ParseUnsigned(FormatNat(x));
    }
  }

  /** A value outside 64 bits, written in decimal as `FormatInt` writes it,
      is rejected. (No spelling at all parses to such a value: see the range
      clause of `ParseInt`.) */
  lemma ParseIntRejectsOutOfRange(x: int)
    requires !InInt64(x)
    ensures ParseInt(FormatInt(x)) == None
  {
    if x < 0 {
      var d := FormatNat(-x);
      FormatNatValue(-x);
      ParseNegative(d);
      assert -(DigitsValue(d) as int) == x;
    } else {
      var d := FormatNat(x);
      FormatNatValue(x);
      ParseUnsigned(d);
      assert DigitsValue(d) as int == x;
    }
  }
}
