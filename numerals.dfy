/**
 * Decimal rendering and reading of machine integers, as the sNBT codec
 * uses them: `itoa` on the writing side and Rust's `str::parse` on the
 * reading side. Both are library code outside the codec; they are modelled
 * here as pure functions so that the codec's round trips can be stated.
 */
module Numerals {

  datatype Option<+T> = None | Some(value: T)

  newtype i8 = x: int | -0x80 <= x < 0x80
  newtype i16 = x: int | -0x8000 <= x < 0x8000
  newtype i32 = x: int | -0x8000_0000 <= x < 0x8000_0000
  newtype i64 = x: int | -0x8000_0000_0000_0000 <= x < 0x8000_0000_0000_0000
  newtype u8 = x: int | 0 <= x < 0x100
  newtype u16 = x: int | 0 <= x < 0x1_0000
  newtype u32 = x: int | 0 <= x < 0x1_0000_0000
  newtype u64 = x: int | 0 <= x < 0x1_0000_0000_0000_0000

  predicate IsDigit(c: char) {
    '0' <= c <= '9'
  }

  predicate AllDigits(s: string) {
    forall i :: 0 <= i < |s| ==> IsDigit(s[i])
  }

  function DigitChar(d: nat): (c: char)
    requires d < 10
    ensures IsDigit(c) && DigitValue(c) == d
  {
    (d + '0' as int) as char
  }

  function DigitValue(c: char): nat
    requires IsDigit(c)
  {
    c as int - '0' as int
  }

  /** The digits itoa writes for a non-negative number: no leading zero. */
  function NatText(n: nat): (s: string)
    ensures |s| > 0 && AllDigits(s)
    ensures (s[0] == '0') == (n == 0)
    ensures n == 0 ==> s == "0"
    decreases n
  {
    if n < 10 then [DigitChar(n)] else NatText(n / 10) + [DigitChar(n % 10)]
  }

  /**
   * itoa: a minus sign exactly for a negative number, then the digits of
   * the magnitude, with no leading zero unless the number is zero.
   */
  function Itoa(x: int): (s: string)
    ensures |s| > 0 && (s[0] == '-') == (x < 0)
    ensures var digits := if x < 0 then s[1..] else s;
      && |digits| > 0 && AllDigits(digits)
      && (digits[0] == '0') == (x == 0)
      && DigitsValue(digits) == if x < 0 then -x else x
  {
    if x < 0 then
      DigitsValueOfNatText(-x);
      assert ("-" + NatText(-x))[1..] == NatText(-x);
      "-" + NatText(-x)
    else
      DigitsValueOfNatText(x);
      NatText(x)
  }

  /** The number a non-empty run of decimal digits denotes. */
  function DigitsValue(s: string): nat
    requires AllDigits(s)
    decreases |s|
  {
    if |s| == 0 then 0 else DigitsValue(s[..|s| - 1]) * 10 + DigitValue(s[|s| - 1])
  }

  lemma {:induction false} DigitsValueOfNatText(n: nat)
    ensures DigitsValue(NatText(n)) == n
    decreases n
  {
    if n >= 10 {
      var s := NatText(n);
      assert s[..|s| - 1] == NatText(n / 10);
      DigitsValueOfNatText(n / 10);
    }
  }

  /** An optional `+` or `-`, then one or more ASCII digits and nothing else. */
  predicate IsSignedDigits(t: string) {
    |t| > 0 && (AllDigits(t) || ((t[0] == '-' || t[0] == '+') && |t| > 1 && AllDigits(t[1..])))
  }

  /** The number such a text denotes: the sign applied to the value of the digits. */
  function SignedValue(t: string): int
    requires IsSignedDigits(t)
  {
    if t[0] == '-' then -(DigitsValue(t[1..]) as int)
    else if t[0] == '+' then DigitsValue(t[1..])
    else DigitsValue(t)
  }

  /**
   * Rust's `str::parse` for a signed integer type whose range is [lo, hi]:
   * it accepts exactly the signed digit texts whose value is in range, and
   * returns that value; anything else is an error.
   */
  function ParseSigned(t: string, lo: int, hi: int): (r: Option<int>)
    ensures r.Some? <==> IsSignedDigits(t) && lo <= SignedValue(t) <= hi
    ensures r.Some? ==> r.value == SignedValue(t)
  {
    var neg := |t| > 0 && t[0] == '-';
    var digits := if |t| > 0 && (t[0] == '-' || t[0] == '+') then t[1..] else t;
    if |digits| == 0 || !AllDigits(digits) then None
    else
      var m: int := DigitsValue(digits);
      var x: int := if neg then -m else m;
      if lo <= x <= hi then Some(x) else None
  }

  /** A leading `+`, a negative zero and leading zeros are all accepted. */
  lemma ParseSignedLenient()
    ensures ParseSigned("+5", -128, 127) == Some(5)
    ensures ParseSigned("-0", -128, 127) == Some(0)
    ensures ParseSigned("007", -128, 127) == Some(7)
    ensures ParseSigned("-", -128, 127) == None && ParseSigned("+-5", -128, 127) == None
  {
    assert DigitsValue("5") == 5 by { assert "5"[..0] == ""; }
    assert DigitsValue("0") == 0 by { assert "0"[..0] == ""; }
    assert DigitsValue("007") == 7 by {
      assert "007"[..2] == "00" && "00"[..1] == "0" && "0"[..0] == "";
    }
    assert "+5"[1..] == "5" && "-0"[1..] == "0";
    assert !IsDigit("+-5"[1..][0]);
  }

  /** Reading back what itoa wrote gives the number, whenever it is in range. */
  lemma ParseSignedItoa(x: int, lo: int, hi: int)
    ensures ParseSigned(Itoa(x), lo, hi) == if lo <= x <= hi then Some(x) else None
  {
    var t := Itoa(x);
    if x < 0 {
      assert t[1..] == NatText(-x);
      DigitsValueOfNatText(-x);
    } else {
      DigitsValueOfNatText(x);
    }
  }
}
