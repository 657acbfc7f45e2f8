/** Go's `strconv.Atoi` on a 64-bit platform, its inverse `strconv.Itoa`,
    and the `int32(x)` conversion of a Go `int`. */
module StrConv {
  import opened Wrappers
  import opened GoStrings

  const MinInt64: int := -0x8000_0000_0000_0000
  const MaxInt64: int := 0x7FFF_FFFF_FFFF_FFFF

  /** The range of Go's `int32`. */
  type Int32 = x: int | -0x8000_0000 <= x < 0x8000_0000

  const Zero: Byte := 0x30   // '0'
  const Plus: Byte := 0x2B   // '+'
  const Minus: Byte := 0x2D  // '-'

  predicate IsDigit(b: Byte) {
    Zero <= b <= Zero + 9
  }

  predicate AllDigits(s: Bytes) {
    forall i :: 0 <= i < |s| ==> IsDigit(s[i])
  }

  /** The value of a string of ASCII decimal digits, most significant first. */
  function DigitsValue(s: Bytes): nat
    requires AllDigits(s)
  {
    if |s| == 0 then 0 else DigitsValue(s[..|s| - 1]) * 10 + (s[|s| - 1] - Zero) as int
  }

  /** A string of `n` digits is worth less than `10^n`. */
  lemma {:induction false} DigitsValueBound(s: Bytes)
    requires AllDigits(s)
    ensures DigitsValue(s) < Pow10(|s|)
    decreases |s|
  {
    if |s| > 0 {
      DigitsValueBound(s[..|s| - 1]);
    }
  }

  function Pow10(n: nat): (p: nat)
    ensures p >= 1
  {
    if n == 0 then 1 else 10 * Pow10(n - 1)
  }

  /** Powers of ten grow with the exponent. */
  lemma {:induction false} Pow10Monotone(n: nat, m: nat)
    requires n <= m
    ensures Pow10(n) <= Pow10(m)
    decreases m - n
  {
    if n < m {
      Pow10Monotone(n, m - 1);
    }
  }

  /** `10^18` is within Go's 64-bit `int`. */
  lemma Pow10Of18()
    ensures Pow10(18) == 1_000_000_000_000_000_000
  {
    assert Pow10(1) == 10;
    assert Pow10(2) == 100;
    assert Pow10(3) == 1000;
    assert Pow10(4) == 10000;
    assert Pow10(5) == 100000;
    assert Pow10(6) == 1000000;
    assert Pow10(7) == 10000000;
    assert Pow10(8) == 100000000;
    assert Pow10(9) == 1000000000;
    assert Pow10(10) == 10000000000;
    assert Pow10(11) == 100000000000;
    assert Pow10(12) == 1000000000000;
    assert Pow10(13) == 10000000000000;
    assert Pow10(14) == 100000000000000;
    assert Pow10(15) == 1000000000000000;
    assert Pow10(16) == 10000000000000000;
    assert Pow10(17) == 100000000000000000;
    assert Pow10(18) == 1000000000000000000;
  }

  /** Up to 18 digits, with or without a minus sign, are in range. */
  lemma ShortDigitsInRange(s: Bytes)
    ensures 0 < |s| <= 18 && AllDigits(s) ==> DigitsValue(s) <= MaxInt64
    ensures 1 < |s| <= 19 && AllDigits(s[1..]) ==> DigitsValue(s[1..]) <= MaxInt64
  {
    if 0 < |s| <= 18 && AllDigits(s) {
      DigitsValueBound(s);
      Pow10Monotone(|s|, 18);
      Pow10Of18();
    }
    if 1 < |s| <= 19 && AllDigits(s[1..]) {
      DigitsValueBound(s[1..]);
      Pow10Monotone(|s| - 1, 18);
      Pow10Of18();
    }
  }

  /** The text after an optional leading `+` or `-`. */
  function Unsigned(s: Bytes): Bytes {
    if |s| > 0 && (s[0] == Plus || s[0] == Minus) then s[1..] else s
  }

  /** Go's decimal integer syntax: an optional sign, then one or more
      ASCII digits. Leading zeros are allowed. */
  predicate IsDecimal(s: Bytes) {
    |Unsigned(s)| > 0 && AllDigits(Unsigned(s))
  }

  /** The integer a decimal text denotes, with no range limit. */
  function DecimalValue(s: Bytes): int
    requires IsDecimal(s)
  {
    if s[0] == Minus then 0 - DigitsValue(Unsigned(s)) else DigitsValue(Unsigned(s))
  }

  /** `strconv.Atoi` with Go's 64-bit `int`: an optional `+` or `-` sign
      followed by at least one ASCII decimal digit, whose value lies in the
      64-bit range. Anything else is an error (`None`); the syntax and range
      errors Go distinguishes are merged, since the only caller here tests
      the error against `nil`. */
  function Atoi(s: Bytes): (r: Option<int>)
    ensures r.Some? <==> IsDecimal(s) && MinInt64 <= DecimalValue(s) <= MaxInt64
    ensures r.Some? ==> r.value == DecimalValue(s)
    ensures |s| == 0 ==> r.None?
    ensures 0 < |s| <= 18 && AllDigits(s) ==> r == Some(DigitsValue(s))
    ensures 1 < |s| <= 19 && s[0] == Minus && AllDigits(s[1..]) ==> r == Some(0 - DigitsValue(s[1..]))
  {
    ShortDigitsInRange(s);
    if |s| == 0 then None
    else
      var digits := if s[0] == Plus || s[0] == Minus then s[1..] else s;
      if |digits| == 0 || !AllDigits(digits) then None
      else
        var n: int := DigitsValue(digits);
        if s[0] == Minus then
          if -n < MinInt64 then None else Some(-n)
        else
          if n > MaxInt64 then None else Some(n)
  }

  /** A sign alone is not a number, and a plus sign and leading zeros are
      accepted: `+`, `-` and 19 nines are errors, `+05` is 5. */
  lemma AtoiEdges()
    ensures Atoi([Plus]).None? && Atoi([Minus]).None?
    ensures Atoi([Plus, Zero, Zero + 5]) == Some(5)
    ensures Atoi(seq(19, _ => Zero + 9)).None?
  {
    var nines := seq(19, _ => Zero + 9);
    var eighteen := nines[..18];
    assert nines[..|nines| - 1] == eighteen;
    ShortDigitsInRange(eighteen);
    assert DigitsValue(eighteen) == Pow10(18) - 1 by {
      NinesValue(eighteen);
    }
    Pow10Of18();
    var five := [Zero, Zero + 5];
    assert [Plus, Zero, Zero + 5][1..] == five;
    assert five[..1] == [Zero] && [Zero][..0] == [];
    assert DigitsValue([Zero]) == 0;
    assert DigitsValue(five) == 5;
  }

  /** `n` nines are worth `10^n - 1`. */
  lemma {:induction false} NinesValue(s: Bytes)
    requires forall i :: 0 <= i < |s| ==> s[i] == Zero + 9
    ensures AllDigits(s) && DigitsValue(s) == Pow10(|s|) - 1
    decreases |s|
  {
    if |s| > 0 {
      NinesValue(s[..|s| - 1]);
    }
  }

  /** The ASCII character of a decimal digit. */
  function Digit(d: nat): (c: Byte)
    requires d < 10
    ensures IsDigit(c) && (c - Zero) as int == d
  {
    Zero + d as bv8
  }

  /** The shortest decimal rendering of a natural number. */
  function NatToDigits(n: nat): (s: Bytes)
    ensures |s| > 0 && AllDigits(s)
    ensures DigitsValue(s) == n
    ensures s[0] != Zero || n == 0
  {
    if n < 10 then [Digit(n)]
    else
      var prefix := NatToDigits(n / 10);
      var s := prefix + [Digit(n % 10)];
      assert s[..|s| - 1] == prefix;
      s
  }

  /** `strconv.Itoa`: the canonical decimal rendering, with a leading `-`
      for negative numbers. */
  function Itoa(v: int): (s: Bytes)
    ensures |s| > 0
    ensures v < 0 <==> s[0] == Minus
  {
    if v < 0 then [Minus] + NatToDigits(-v) else NatToDigits(v)
  }

  /** Every 64-bit integer survives rendering and parsing back. */
  lemma AtoiItoa(v: int)
    requires MinInt64 <= v <= MaxInt64
    ensures Atoi(Itoa(v)) == Some(v)
  {
    if v < 0 {
      assert Itoa(v)[1..] == NatToDigits(-v);
    }
  }

  /** Go's `int32(v)`: keep the low 32 bits of the two's-complement
      representation. The result is the unique `Int32` congruent to `v`
      modulo 2^32, so values already in range are unchanged. */
  function WrapInt32(v: int): (r: Int32)
    ensures (r - v) % 0x1_0000_0000 == 0
    ensures -0x8000_0000 <= v < 0x8000_0000 ==> r == v
  {
    (v + 0x8000_0000) % 0x1_0000_0000 - 0x8000_0000
  }
}
