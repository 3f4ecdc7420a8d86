/**
 * The pieces of java.lang.String and java.lang.Long the core relies on:
 * case-insensitive comparison, decimal printing of integers and Long.parseLong.
 */
module Text {
  import opened Wrappers

  /** Case folding of one character: ASCII upper-case letters fold to lower case. */
  function FoldChar(c: char): char {
    if 'A' <= c <= 'Z' then (c as int + 32) as char else c
  }

  /** The folded form of a string, character by character; it has the same length. */
  function Lower(s: string): (r: string)
    ensures |r| == |s|
    ensures forall i :: 0 <= i < |s| ==> r[i] == FoldChar(s[i])
  {
    seq(|s|, i requires 0 <= i < |s| => FoldChar(s[i]))
  }

  /** String.equalsIgnoreCase: the two strings fold to the same string. */
  predicate EqualsIgnoreCase(a: string, b: string) {
    Lower(a) == Lower(b)
  }

  lemma LowerAppend(a: string, b: string)
    ensures Lower(a + b) == Lower(a) + Lower(b)
  {
    assert forall i :: 0 <= i < |a + b| ==> Lower(a + b)[i] == (Lower(a) + Lower(b))[i];
  }

  predicate IsDigit(c: char) { '0' <= c <= '9' }

  predicate AllDigits(s: string) { forall i :: 0 <= i < |s| ==> IsDigit(s[i]) }

  function DigitChar(d: nat): (c: char)
    requires d < 10
    ensures IsDigit(c)
  {
    ('0' as int + d) as char
  }

  /** Integer.toString / Long.toString of a non-negative value: its decimal digits, most significant first. */
  function NatToDecimal(n: nat): (s: string)
    ensures |s| >= 1 && AllDigits(s)
    ensures FoldChar(s[0]) == s[0]
    decreases n
  {
    if n < 10 then [DigitChar(n)] else NatToDecimal(n / 10) + [DigitChar(n % 10)]
  }

  /** String.valueOf(long): a minus sign for negative values, then the decimal digits. */
  function LongToString(v: int): string {
    if v < 0 then "-" + NatToDecimal(-v) else NatToDecimal(v)
  }

  /** The value of a string of decimal digits, most significant first. */
  function DigitsValue(s: string): nat
    requires AllDigits(s)
  {
    if |s| == 0 then 0 else DigitsValue(s[..|s| - 1]) * 10 + (s[|s| - 1] as int - '0' as int)
  }

  function Pow10(k: nat): (p: nat)
    ensures p >= 1
  {
    if k == 0 then 1 else 10 * Pow10(k - 1)
  }

  const LONG_MIN: int := -0x8000_0000_0000_0000
  const LONG_MAX: int := 0x7FFF_FFFF_FFFF_FFFF

  predicate InLongRange(v: int) { LONG_MIN <= v <= LONG_MAX }

  /**
   * Long.parseLong on ASCII input: an optional '+' or '-' then at least one decimal digit,
   * with a value inside the range of a Java long; None stands for NumberFormatException.
   */
  function ParseLong(s: string): (r: Option<int>)
    ensures r.Some? ==> InLongRange(r.value)
  {
    if |s| == 0 then None
    else if s[0] == '-' || s[0] == '+' then
      if |s| == 1 || !AllDigits(s[1..]) then None
      else
        var m: int := DigitsValue(s[1..]);
        var v: int := if s[0] == '-' then -m else m;
        if InLongRange(v) then Some(v) else None
    else if AllDigits(s) && DigitsValue(s) <= LONG_MAX then Some(DigitsValue(s))
    else None
  }

  /** Reading back the digits Integer.toString printed gives the number again. */
  lemma {:induction false} DigitsRoundTrip(n: nat)
    ensures DigitsValue(NatToDecimal(n)) == n
  {
    if n >= 10 {
      DigitsRoundTrip(n / 10);
      var s := NatToDecimal(n);
      assert s[..|s| - 1] == NatToDecimal(n / 10);
    }
  }

  /** Parsing what String.valueOf(long) printed gives the same long back. */
  lemma LongRoundTrip(v: int)
    requires InLongRange(v)
    ensures ParseLong(LongToString(v)) == Some(v)
  {
    if v < 0 {
      DigitsRoundTrip(-v);
      var s := LongToString(v);
      assert s[1..] == NatToDecimal(-v);
    } else {
      DigitsRoundTrip(v);
    }
  }

  /** A number printed with k digits is below 10^k. */
  lemma {:induction false} DecimalBound(n: nat)
    ensures n < Pow10(|NatToDecimal(n)|)
  {
    if n >= 10 {
      DecimalBound(n / 10);
    }
  }

  lemma {:induction false} Pow10Monotone(a: nat, b: nat)
    requires a <= b
    ensures Pow10(a) <= Pow10(b)
  {
    if a < b {
      Pow10Monotone(a, b - 1);
    }
  }
}
