/**
  Rust's decimal rendering of integers (`to_string`, `format!("{}")`) and
  its `str::parse` for `u32` and `i64`, together with the fixed-width
  integer types the repository uses.
 */
module Decimal {
  import opened Wrappers

  const U32_BOUND: int := 0x1_0000_0000
  const I64_MIN: int := -0x8000_0000_0000_0000
  const I64_MAX: int := 0x7fff_ffff_ffff_ffff

  /** Rust's `u32`. */
  type U32 = x: int | 0 <= x < 0x1_0000_0000

  /** Rust's `i64`. */
  type I64 = x: int | -0x8000_0000_0000_0000 <= x <= 0x7fff_ffff_ffff_ffff

  /** Rust's `usize` on a 64-bit target. */
  type USize = x: int | 0 <= x < 0x1_0000_0000_0000_0000

  predicate IsDigit(c: char) {
    '0' <= c <= '9'
  }

  predicate AllDigits(s: string) {
    forall i :: 0 <= i < |s| ==> IsDigit(s[i])
  }

  function DigitValue(c: char): (d: nat)
    requires IsDigit(c)
    ensures d < 10
  {
    c as int - '0' as int
  }

  function DigitChar(d: nat): (c: char)
    requires d < 10
    ensures IsDigit(c) && DigitValue(c) == d
  {
    ('0' as int + d) as char
  }

  /** The number a string of ASCII digits denotes (leading zeros allowed). */
  function DigitsValue(s: string): nat
    requires AllDigits(s)
    decreases |s|
  {
    if s == [] then 0 else DigitsValue(s[..|s| - 1]) * 10 + DigitValue(s[|s| - 1])
  }

  /** Decimal rendering of a natural number, without leading zeros. */
  function NatToString(n: nat): (s: string)
    ensures |s| > 0 && AllDigits(s)
    ensures |s| > 1 ==> s[0] != '0'
    ensures n < 10 <==> |s| == 1
    ensures n < 100 <==> |s| <= 2
  {
    if n < 10 then [DigitChar(n)] else NatToString(n / 10) + [DigitChar(n % 10)]
  }

  /**
    Decimal rendering of an integer: a '-' sign exactly for negatives, then
    the magnitude's digits without leading zeros.
   */
  function IntToString(i: int): (s: string)
    ensures |s| > 0
    ensures s[0] == '-' || IsDigit(s[0])
    ensures s[0] == '-' <==> i < 0
    ensures var t := if i < 0 then s[1..] else s;
            && 0 < |t| && AllDigits(t) && (|t| > 1 ==> t[0] != '0')
            && DigitsValue(t) == (if i < 0 then -i else i)
  {
    if i < 0 then
      DigitsValueOfNatToString(-i);
      assert ("-" + NatToString(-i))[1..] == NatToString(-i);
      "-" + NatToString(-i)
    else
      DigitsValueOfNatToString(i);
      NatToString(i)
  }

  lemma {:induction false} DigitsValueOfNatToString(n: nat)
    ensures DigitsValue(NatToString(n)) == n
  {
    if n >= 10 {
      var s := NatToString(n);
      assert s[..|s| - 1] == NatToString(n / 10);
      DigitsValueOfNatToString(n / 10);
    }
  }

  /** Distinct numbers render to distinct strings. */
  lemma NatToStringInjective(a: nat, b: nat)
    ensures NatToString(a) == NatToString(b) <==> a == b
  {
    DigitsValueOfNatToString(a);
    DigitsValueOfNatToString(b);
  }

  lemma IntToStringInjective(a: int, b: int)
    ensures IntToString(a) == IntToString(b) <==> a == b
  {
    if IntToString(a) == IntToString(b) {
      if a < 0 && b < 0 {
        assert NatToString(-a) == IntToString(a)[1..];
        assert NatToString(-b) == IntToString(b)[1..];
        NatToStringInjective(-a, -b);
      } else if a >= 0 && b >= 0 {
        NatToStringInjective(a, b);
      }
    }
  }

  /** A non-empty run of ASCII digits, read without any bound. */
  function ParseDigits(s: string): (r: Option<nat>)
    ensures r.Some? <==> |s| > 0 && AllDigits(s)
  {
    if |s| > 0 && AllDigits(s) then Some(DigitsValue(s)) else None
  }

  /** Rust's `str::parse::<u32>`: an optional '+', one or more digits, a value below 2^32. */
  function ParseU32(s: string): (r: Option<U32>)
    ensures r.Some? ==> |s| > 0 && s[0] != '-' && (s[0] == '+' ==> |s| > 1)
    ensures r.Some? ==> AllDigits(if s[0] == '+' then s[1..] else s)
  {
    var digits := if |s| > 0 && s[0] == '+' then s[1..] else s;
    match ParseDigits(digits)
    case Some(v) => if v < U32_BOUND then Some(v) else None
    case None => None
  }

  /** Rust's `str::parse::<i64>`: an optional '+' or '-', one or more digits, a value in range. */
  function ParseI64(s: string): (r: Option<I64>)
    ensures r.Some? ==> |s| > 0 && (s[0] == '+' || s[0] == '-' ==> |s| > 1)
    ensures r.Some? ==> AllDigits(if s[0] == '+' || s[0] == '-' then s[1..] else s)
    ensures r.Some? && r.value < 0 ==> s[0] == '-'
  {
    if |s| > 0 && s[0] == '-' then
      match ParseDigits(s[1..])
      case Some(v) => if v <= -I64_MIN then Some(-(v as int)) else None
      case None => None
    else
      var digits := if |s| > 0 && s[0] == '+' then s[1..] else s;
      match ParseDigits(digits)
      case Some(v) => if v <= I64_MAX then Some(v) else None
      case None => None
  }

  /** Parsing undoes rendering for every `u32`. */
  lemma ParseU32RoundTrip(n: U32)
    ensures ParseU32(NatToString(n)) == Some(n)
  {
    DigitsValueOfNatToString(n);
  }

  /** Parsing undoes rendering for every `i64`. */
  lemma ParseI64RoundTrip(i: I64)
    ensures ParseI64(IntToString(i)) == Some(i)
  {
    if i < 0 {
      ParseNegativeRoundTrip(i);
    } else {
      var t := NatToString(i);
      DigitsValueOfNatToString(i);
      assert ParseDigits(t) == Some(i);
      assert t[0] != '-' && t[0] != '+';
    }
  }

  lemma ParseNegativeRoundTrip(i: I64)
    requires i < 0
    ensures ParseI64(IntToString(i)) == Some(i)
  {
    var n: nat := -(i as int);
    var t := NatToString(n);
    DigitsValueOfNatToString(n);
    var s := "-" + t;
    assert s[0] == '-' && s[1..] == t;
    assert ParseDigits(s[1..]) == Some(n);
    assert IntToString(i) == s;
  }

  /** A rendered number of 2^32 or more is refused as a `u32`. */
  lemma ParseU32RejectsOverflow(n: nat)
    requires n >= U32_BOUND
    ensures ParseU32(NatToString(n)) == None
  {
    DigitsValueOfNatToString(n);
  }

  /** Any run of digits, zero-padded or behind a '+', is accepted exactly when its value fits in 32 bits. */
  lemma ParseU32Digits(d: string)
    requires 0 < |d| && AllDigits(d)
    ensures ParseU32(d) == (if DigitsValue(d) < U32_BOUND then Some(DigitsValue(d)) else None)
    ensures ParseU32("+" + d) == ParseU32(d)
  {
    assert d[0] != '+' by { assert IsDigit(d[0]); }
    assert ("+" + d)[1..] == d;
  }

  lemma ParseI64Unsigned(d: string)
    requires 0 < |d| && AllDigits(d)
    ensures ParseI64(d) == (if DigitsValue(d) <= I64_MAX then Some(DigitsValue(d)) else None)
  {
    assert IsDigit(d[0]);
    assert ParseDigits(d) == Some(DigitsValue(d));
  }

  lemma ParseI64Plus(d: string)
    requires 0 < |d| && AllDigits(d)
    ensures ParseI64("+" + d) == (if DigitsValue(d) <= I64_MAX then Some(DigitsValue(d)) else None)
  {
    var p := "+" + d;
    assert p[0] == '+' && p[1..] == d;
    assert ParseDigits(d) == Some(DigitsValue(d));
  }

  lemma ParseI64Minus(d: string)
    requires 0 < |d| && AllDigits(d)
    ensures ParseI64("-" + d) == (if DigitsValue(d) <= -I64_MIN then Some(-(DigitsValue(d) as int)) else None)
  {
    var m := "-" + d;
    assert m[1..] == d;
    ParseI64Signed(m);
  }

  lemma ParseI64Signed(m: string)
    requires 1 < |m| && m[0] == '-' && AllDigits(m[1..])
    ensures ParseI64(m) == (if DigitsValue(m[1..]) <= -I64_MIN then Some(-(DigitsValue(m[1..]) as int)) else None)
  {
  }

  /**
    Any run of digits, zero-padded or behind a '+' or '-', is accepted with
    its signed value exactly when that value is in `i64` range.
   */
  lemma ParseI64Digits(d: string)
    requires 0 < |d| && AllDigits(d)
    ensures ParseI64(d) == (if DigitsValue(d) <= I64_MAX then Some(DigitsValue(d)) else None)
    ensures ParseI64("+" + d) == ParseI64(d)
    ensures ParseI64("-" + d) == (if DigitsValue(d) <= -I64_MIN then Some(-(DigitsValue(d) as int)) else None)
  {
    ParseI64Unsigned(d);
    ParseI64Plus(d);
    ParseI64Minus(d);
  }

  /** Inputs Rust's `u32` parser refuses, and two it accepts in non-canonical form. */
  lemma ParseU32Examples()
    ensures ParseU32("") == None && ParseU32("+") == None
    ensures ParseU32("-1") == None && ParseU32(" 1") == None && ParseU32("1.0") == None
    ensures ParseU32("+7") == Some(7) && ParseU32("007") == Some(7)
  {
    assert !AllDigits(" 1") by { assert !IsDigit(" 1"[0]); }
    assert !AllDigits("1.0") by { assert !IsDigit("1.0"[1]); }
    assert !AllDigits("-1") by { assert !IsDigit("-1"[0]); }
    assert "+7"[1..] == "7" && "7"[..0] == [];
    assert DigitsValue("7") == 7;
    assert "007"[..2] == "00" && "00"[..1] == "0" && "0"[..0] == [];
    assert DigitsValue("007") == 7;
  }

  /** Rust's release-build `i64` arithmetic: the result reduced into range modulo 2^64. */
  function WrapI64(x: int): (r: I64)
    ensures I64_MIN <= x <= I64_MAX ==> r == x
    ensures (r - x) % 0x1_0000_0000_0000_0000 == 0
  {
    (x - I64_MIN) % 0x1_0000_0000_0000_0000 + I64_MIN
  }
}
