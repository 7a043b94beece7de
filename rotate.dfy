/** The 32-bit circular left rotation `(accum << 1) | (accum >> 31)` that
    advances the cloaking keystream. */
module Rotate {
  import opened CString

  const ALL_ONES: u32 := 0xFFFF_FFFF

  /** Rotate left by one bit: the low 31 bits move up one place and the top
      bit comes back in at the bottom. */
  function Rotl1(a: u32): (r: u32)
    ensures r % 2 == a / 0x8000_0000
    ensures r / 2 == a % 0x8000_0000
  {
    if a < 0x8000_0000 then 2 * a else 2 * a - ALL_ONES
  }

  /** `Rotl1` is the C code's `(a << 1) | (a >> 31)` written arithmetically:
      the left shift is a doubling modulo 2^32, the right shift keeps the top
      bit alone, and the two share no bit, so the `|` is a sum. */
  lemma Rotl1IsShiftOr(a: u32)
    ensures Rotl1(a) == (2 * a) % 0x1_0000_0000 + a / 0x8000_0000
    ensures (2 * a) % 0x1_0000_0000 % 2 == 0 && a / 0x8000_0000 < 2
  {
  }

  /** `n` successive one-bit rotations. */
  function RotlN(a: u32, n: nat): u32
    decreases n
  {
    if n == 0 then a else RotlN(Rotl1(a), n - 1)
  }

  /** Rotating `m` times and then `n` times is rotating `m + n` times. */
  lemma {:induction false} RotlNAdd(a: u32, m: nat, n: nat)
    ensures RotlN(RotlN(a, m), n) == RotlN(a, m + n)
    decreases m
  {
    if m > 0 {
      RotlNAdd(Rotl1(a), m - 1, n);
    }
  }

  /** One more rotation after `n` of them. */
  lemma RotlNSucc(a: u32, n: nat)
    ensures RotlN(a, n + 1) == Rotl1(RotlN(a, n))
  {
    RotlNAdd(a, n, 1);
  }

  function Pow2(n: nat): nat
  {
    if n == 0 then 1 else 2 * Pow2(n - 1)
  }

  lemma {:induction false} Pow2Add(m: nat, n: nat)
    ensures Pow2(m + n) == Pow2(m) * Pow2(n)
  {
    if m > 0 {
      Pow2Add(m - 1, n);
    }
  }

  lemma Pow2Of32()
    ensures Pow2(32) == 0x1_0000_0000
  {
    Pow2Add(2, 2);
    Pow2Add(4, 4);
    Pow2Add(8, 8);
    Pow2Add(16, 16);
  }

  /** Below all-ones, a rotation is a doubling modulo 2^32 - 1. */
  lemma Rotl1Doubles(r: u32)
    requires r < ALL_ONES
    ensures Rotl1(r) == (2 * (r as int)) % ALL_ONES
  {
  }

  lemma DoubleMod(x: int)
    ensures (2 * (x % ALL_ONES)) % ALL_ONES == (2 * x) % ALL_ONES
  {
    var q, r := x / ALL_ONES, x % ALL_ONES;
    assert 2 * x == (2 * q) * ALL_ONES + 2 * r;
    ShiftMod(2 * q, 2 * r);
  }

  lemma ShiftMod(q: int, y: int)
    ensures (q * ALL_ONES + y) % ALL_ONES == y % ALL_ONES
  {
  }

  lemma MulTwice(a: int, p: int)
    ensures a * (2 * p) == 2 * (a * p)
  {
  }

  /** Below all-ones, `n` rotations multiply by 2^n modulo 2^32 - 1. */
  lemma {:induction false} RotlNMultiplies(a: u32, n: nat)
    requires a < ALL_ONES
    ensures RotlN(a, n) < ALL_ONES
    ensures RotlN(a, n) == (a * Pow2(n)) % ALL_ONES
  {
    if n > 0 {
      var p := Pow2(n - 1);
      RotlNMultiplies(a, n - 1);
      RotlNSucc(a, n - 1);
      Rotl1Doubles(RotlN(a, n - 1));
      DoubleMod(a * p);
      MulTwice(a, p);
    }
  }

  /** The all-ones pattern is fixed by every rotation. */
  lemma {:induction false} RotlNAllOnes(n: nat)
    ensures RotlN(ALL_ONES, n) == ALL_ONES
  {
    if n > 0 {
      RotlNAllOnes(n - 1);
    }
  }

  lemma WrapOnce(a: int)
    requires 0 <= a < ALL_ONES
    ensures (a * 0x1_0000_0000) % ALL_ONES == a
  {
    assert a * 0x1_0000_0000 == a * ALL_ONES + a;
  }

  /** Thirty-two one-bit rotations give back the original value. */
  lemma RotlNFullCycle(a: u32)
    ensures RotlN(a, 32) == a
  {
    if a < ALL_ONES {
      RotlNMultiplies(a, 32);
      Pow2Of32();
      WrapOnce(a);
    } else {
      RotlNAllOnes(32);
    }
  }

  /** The keystream repeats with period 32: the `accum` used after `m + 32`
      rotations is the one used after `m`. */
  lemma RotlNPeriod(a: u32, m: nat)
    ensures RotlN(a, m + 32) == RotlN(a, m)
  {
    RotlNAdd(a, m, 32);
    RotlNFullCycle(RotlN(a, m));
  }
}
