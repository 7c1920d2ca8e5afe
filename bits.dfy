/** Machine integers and the bitwise operators the blend cache uses, written out
    over unbounded integers so that every shift, mask and truncation is explicit. */
module Bits {

  /** C `unsigned int` (GBlenderPixel), `unsigned short`, `signed short` and `unsigned char`. */
  type uint32 = x: int | 0 <= x < 0x1_0000_0000
  type uint16 = x: int | 0 <= x < 0x1_0000
  type int16 = x: int | -0x8000 <= x < 0x8000
  type byte = x: int | 0 <= x < 0x100

  /** 2 to the k. Never zero, which `Shr` needs to divide by it and the mask
      lemmas need for `Pow2(k) - 1` to be a `nat`. */
  function Pow2(k: nat): (p: nat)
    ensures p >= 1
  {
    if k == 0 then 1 else 2 * Pow2(k - 1)
  }

  /** The powers of two the byte shifts use. */
  lemma Pow2Bytes()
    ensures Pow2(0) == 1 && Pow2(8) == 0x100 && Pow2(16) == 0x1_0000
  {
    assert Pow2(4) == 0x10;
    assert Pow2(8) == 0x100;
    assert Pow2(12) == 0x1000;
  }

  /** Unsigned 32-bit wrap-around of a C `unsigned int` expression. */
  function Wrap32(x: nat): (w: uint32)
    ensures x < 0x1_0000_0000 ==> w == x
  {
    x % 0x1_0000_0000
  }

  /** The truncating cast `(unsigned short)x`. */
  function Wrap16(x: nat): (w: uint16)
    ensures x < 0x1_0000 ==> w == x
  {
    x % 0x1_0000
  }

  /** C `x & y`, one bit at a time from the least significant end. */
  function BitAnd(x: nat, y: nat): nat
  {
    if x == 0 || y == 0 then 0
    else 2 * BitAnd(x / 2, y / 2) + (if x % 2 == 1 && y % 2 == 1 then 1 else 0)
  }

  /** C `x | y`, one bit at a time from the least significant end. */
  function BitOr(x: nat, y: nat): nat
  {
    if x == 0 then y
    else if y == 0 then x
    else 2 * BitOr(x / 2, y / 2) + (if x % 2 == 1 || y % 2 == 1 then 1 else 0)
  }

  /** C `x << k` on a value that does not overflow. */
  function Shl(x: nat, k: nat): nat
  {
    x * Pow2(k)
  }

  /** C `x >> k` on an unsigned value. */
  function Shr(x: nat, k: nat): nat
  {
    DivNonNegative(x, Pow2(k));
    x / Pow2(k)
  }

  /** A quotient of naturals is a natural. */
  lemma DivNonNegative(x: nat, d: nat)
    requires d > 0
    ensures x / d >= 0
  {
  }

  /** A positive multiple of d is at least d. */
  lemma {:induction false} MulAtLeast(d: nat, e: nat)
    requires e >= 1
    ensures d * e >= d
  {
    if e > 1 {
      MulAtLeast(d, e - 1);
      assert d * e == d * (e - 1) + d;
    }
  }

  /** Division and remainder are determined by any decomposition x == d*q + r with 0 <= r < d. */
  lemma DivModUnique(x: nat, d: nat, q: nat, r: nat)
    requires d > 0 && r < d && x == d * q + r
    ensures x / d == q && x % d == r
  {
    var q', r' := x / d, x % d;
    assert d * q' + r' == d * q + r;
    if q' < q {
      assert d * q == d * q' + d * (q - q');
      MulAtLeast(d, q - q');
    } else if q' > q {
      assert d * q' == d * q + d * (q' - q);
      MulAtLeast(d, q' - q);
    }
  }

  /** Taking the low bit off first and then reducing modulo m is the same as reducing modulo 2m. */
  lemma ModDouble(x: nat, m: nat)
    requires m > 0
    ensures x % (2 * m) == 2 * ((x / 2) % m) + x % 2
  {
    var h := x / 2;
    var t, s := h / m, h % m;
    assert x == (2 * m) * t + (2 * s + x % 2);
    DivModUnique(x, 2 * m, t, 2 * s + x % 2);
  }

  /** Masking with `2^k - 1` keeps the k low bits: `x & (2^k - 1) == x % 2^k`. */
  lemma {:induction false} BitAndLowMask(x: nat, k: nat)
    ensures BitAnd(x, Pow2(k) - 1) == x % Pow2(k)
  {
    if k == 0 {
      assert Pow2(k) == 1;
      DivModUnique(x, 1, x, 0);
    } else if x == 0 {
      DivModUnique(0, Pow2(k), 0, 0);
    } else {
      var m := Pow2(k - 1);
      var mask := Pow2(k) - 1;
      assert Pow2(k) == 2 * m;
      assert mask == 2 * (m - 1) + 1;
      DivModUnique(mask, 2, m - 1, 1);
      BitAndLowMask(x / 2, k - 1);
      calc {
        BitAnd(x, mask);
        2 * BitAnd(x / 2, m - 1) + (if x % 2 == 1 then 1 else 0);
        2 * ((x / 2) % m) + x % 2;
        { ModDouble(x, m); }
        x % (2 * m);
      }
    }
  }

  /** Or-ing a value below `2^k` into a value shifted left by k is addition:
      the two operands have no set bit in common. */
  lemma {:induction false} BitOrShifted(x: nat, y: nat, k: nat)
    requires y < Pow2(k)
    ensures BitOr(x * Pow2(k), y) == x * Pow2(k) + y
  {
    if k > 0 && x > 0 && y > 0 {
      var m := Pow2(k - 1);
      var hi := x * Pow2(k);
      assert hi == 2 * (x * m);
      assert hi / 2 == x * m && hi % 2 == 0;
      BitOrShifted(x, y / 2, k - 1);
    }
  }

  /** A 32-bit wrap leaves the residue modulo any power of two up to 2^32 unchanged. */
  lemma Wrap32Mod256(x: nat)
    ensures Wrap32(x) % 256 == x % 256
  {
    var q := x / 0x1_0000_0000;
    var r := Wrap32(x);
    assert x == 256 * (0x100_0000 * q + r / 256) + r % 256;
    DivModUnique(x, 256, 0x100_0000 * q + r / 256, r % 256);
  }
}
