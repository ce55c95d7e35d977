/**
 * Java's 32-bit `int` arithmetic and the decimal rendering of `String.format("%d")`,
 * written out on Dafny's unbounded integers.
 */
module JavaInts {

  const MinInt: int := -0x8000_0000
  const MaxInt: int := 0x7fff_ffff
  const Modulus: int := 0x1_0000_0000

  /** The values a Java `int` can hold. */
  type i32 = x: int | MinInt <= x <= MaxInt

  /** Two's-complement wrap-around: add or subtract 2^32 until the value is a Java `int`. */
  function Wrap(x: int): i32
    decreases if x < MinInt then MinInt - x else if x > MaxInt then x - MaxInt else 0
  {
    if x < MinInt then Wrap(x + Modulus) else if x > MaxInt then Wrap(x - Modulus) else x
  }

  /** `Wrap` is reduction modulo 2^32 into the range of `int`, and leaves every `int` as it is. */
  lemma {:induction false} WrapIsMod(x: int)
    ensures Wrap(x) == (x - MinInt) % Modulus + MinInt
    ensures MinInt <= x <= MaxInt ==> Wrap(x) == x
    decreases if x < MinInt then MinInt - x else if x > MaxInt then x - MaxInt else 0
  {
    if x < MinInt {
      WrapIsMod(x + Modulus);
      assert (x + Modulus - MinInt) % Modulus == (x - MinInt) % Modulus;
    } else if x > MaxInt {
      WrapIsMod(x - Modulus);
      assert (x - Modulus - MinInt) % Modulus == (x - MinInt) % Modulus;
    }
  }

  /** Adding any multiple of 2^32 does not change the wrapped value. */
  lemma {:induction false} ShiftByModulus(x: int, k: int)
    ensures Wrap(x - k * Modulus) == Wrap(x)
    decreases if k < 0 then -k else k
  {
    if k > 0 {
      ShiftByModulus(x, k - 1);
      assert Wrap(x - k * Modulus) == Wrap(x - (k - 1) * Modulus) by { WrapStep(x - k * Modulus); }
    } else if k < 0 {
      ShiftByModulus(x, k + 1);
      assert Wrap(x - (k + 1) * Modulus) == Wrap(x - k * Modulus) by { WrapStep(x - (k + 1) * Modulus); }
    }
  }

  lemma WrapStep(x: int)
    ensures Wrap(x + Modulus) == Wrap(x)
  {
  }

  /** Java's `31 * result + h` on a wrapped `result` is the wrap of the unwrapped value. */
  lemma WrapMulAdd(a: int, h: int)
    ensures Wrap(31 * Wrap(a) + h) == Wrap(31 * a + h)
  {
    var k := (a - MinInt) / Modulus;
    WrapIsMod(a);
    assert Wrap(a) == a - k * Modulus;
    assert 31 * Wrap(a) + h == (31 * a + h) - (31 * k) * Modulus;
    ShiftByModulus(31 * a + h, 31 * k);
  }

  function DigitChar(d: nat): (c: char)
    requires d < 10
    ensures '0' <= c <= '9' && c as int - '0' as int == d
  {
    "0123456789"[d]
  }

  /** The decimal digits of `n`, most significant first, without leading zeros. */
  function NatToString(n: nat): (s: string)
    ensures 1 <= |s|
    ensures forall i | 0 <= i < |s| :: '0' <= s[i] <= '9'
    ensures |s| > 1 ==> s[0] != '0'
    decreases n
  {
    if n < 10 then [DigitChar(n)] else NatToString(n / 10) + [DigitChar(n % 10)]
  }

  /** The number a string of decimal digits denotes. */
  function DigitsValue(s: string): nat
    requires forall i | 0 <= i < |s| :: '0' <= s[i] <= '9'
  {
    if s == [] then 0 else 10 * DigitsValue(s[..|s| - 1]) + (s[|s| - 1] as int - '0' as int)
  }

  /** Reading the digits back gives the number: `NatToString` loses nothing. */
  lemma {:induction false} NatToStringRoundTrip(n: nat)
    ensures DigitsValue(NatToString(n)) == n
  {
    if n >= 10 {
      NatToStringRoundTrip(n / 10);
      var s := NatToString(n);
      assert s[..|s| - 1] == NatToString(n / 10);
    }
  }

  /** `String.format("%d", i)`: a minus sign for negative numbers, then the digits. */
  function IntToString(i: int): string
  {
    if i < 0 then "-" + NatToString(-i) else NatToString(i)
  }
}
