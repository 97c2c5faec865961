/** 32-bit mask arithmetic: the bitwise operators of `u32`, and what they
    come to when the mask is a netmask. */
module Bits {
  import opened Prelude

  function Pow2(n: nat): (r: nat)
    ensures r > 0
  {
    if n == 0 then 1 else 2 * Pow2(n - 1)
  }

  /** Bit `i` of `x`. */
  function Bit(x: nat, i: nat): nat {
    if i == 0 then x % 2 else Bit(x / 2, i - 1)
  }

  function BitAnd(a: nat, b: nat): nat {
    if a == 0 then 0 else (if a % 2 == 1 && b % 2 == 1 then 1 else 0) + 2 * BitAnd(a / 2, b / 2)
  }

  function BitOr(a: nat, b: nat): nat
    decreases a + b
  {
    if a == 0 && b == 0 then 0
    else (if a % 2 == 1 || b % 2 == 1 then 1 else 0) + 2 * BitOr(a / 2, b / 2)
  }

  /** `!x` on `u32`. */
  function BitNot(x: U32): U32 {
    U32_MAX - x
  }

  /** `count_ones`. */
  function CountOnes(x: nat): nat {
    if x == 0 then 0 else x % 2 + CountOnes(x / 2)
  }

  /** `u32::MAX.checked_shl(k).unwrap_or(0)`: one place at a time, the top bit
      falling off, and zero for a shift of 32 or more. */
  function ShlMax(k: nat): U32 {
    if k >= 32 then 0 else if k == 0 then U32_MAX else ShlMax(k - 1) * 2 % 0x1_0000_0000
  }

  /** `&` and `|` act on every bit position separately. */
  lemma {:induction false} OperatorsActBitwise(a: nat, b: nat, i: nat)
    ensures Bit(BitAnd(a, b), i) == (if Bit(a, i) == 1 && Bit(b, i) == 1 then 1 else 0)
    ensures Bit(BitOr(a, b), i) == (if Bit(a, i) == 1 || Bit(b, i) == 1 then 1 else 0)
    decreases i
  {
    ZeroBits(i);
    if i == 0 {
    } else {
      OperatorsActBitwise(a / 2, b / 2, i - 1);
    }
  }

  lemma {:induction false} ZeroBits(i: nat)
    ensures Bit(0, i) == 0
  {
    if i == 0 {
    } else {
      ZeroBits(i - 1);
    }
  }

  lemma {:induction false} Pow2At32()
    ensures Pow2(32) == 0x1_0000_0000
  {
    Pow2Plus8(8);
    Pow2Plus8(16);
    Pow2Plus8(24);
  }

  lemma {:induction false} Pow2Plus8(n: nat)
    ensures Pow2(8) == 256
    ensures Pow2(n + 8) == 256 * Pow2(n)
  {
    assert Pow2(n + 2) == 4 * Pow2(n);
    assert Pow2(n + 4) == 4 * Pow2(n + 2);
    assert Pow2(n + 6) == 4 * Pow2(n + 4);
  }

  lemma {:induction false} Pow2Monotone(a: nat, b: nat)
    requires a <= b
    ensures Pow2(a) <= Pow2(b)
  {
    if a < b { Pow2Monotone(a, b - 1); }
  }

  /** The low `h` bits of `x`, as a number. */
  function LowBits(x: nat, h: nat): (r: nat)
    ensures r <= x
    ensures r < Pow2(h)
  {
    if h == 0 then 0 else x % 2 + 2 * LowBits(x / 2, h - 1)
  }

  /** `x` with its low `h` bits cleared. */
  function Cleared(x: nat, h: nat): nat {
    x - LowBits(x, h)
  }

  /** The low `h` bits are the remainder modulo `2^h`. */
  lemma {:induction false} LowBitsIsRemainder(x: nat, h: nat)
    ensures LowBits(x, h) == x % Pow2(h)
  {
    if h == 0 {
    } else {
      LowBitsIsRemainder(x / 2, h - 1);
      DoubledRemainder(x, Pow2(h - 1));
    }
  }

  lemma {:induction false} DoubledRemainder(x: nat, m: nat)
    requires m > 0
    ensures x % (2 * m) == 2 * ((x / 2) % m) + x % 2
  {
    var q, r := (x / 2) / m, (x / 2) % m;
    assert x / 2 == m * q + r;
    Recompose(x, m, q, r);
  }

  lemma {:induction false} Recompose(x: nat, m: nat, q: nat, r: nat)
    requires m > 0 && r < m && x / 2 == m * q + r
    ensures x % (2 * m) == 2 * r + x % 2
  {
    assert (2 * m) * q == 2 * (m * q);
    RemainderUnique(x, 2 * m, q, 2 * r + x % 2);
  }

  lemma {:induction false} RemainderUnique(x: nat, m: nat, q: nat, r: nat)
    requires m > 0 && r < m && x == m * q + r
    ensures x % m == r
  {
    var q', r' := x / m, x % m;
    assert m * (q - q') == r' - r;
    if q > q' {
      MulAtLeast(m, q - q');
    } else if q < q' {
      MulAtLeast(m, q' - q);
    }
  }

  lemma {:induction false} MulAtLeast(m: nat, k: nat)
    requires k > 0
    ensures m * k >= m
  {
  }

  /** Clearing the low bits rounds down to the start of an aligned block: exactly the
      next `2^h - 1` numbers round down to an aligned `base`. */
  lemma {:induction false} ClearedIsBlockStart(x: nat, base: nat, h: nat)
    requires LowBits(base, h) == 0
    ensures Cleared(x, h) == base <==> base <= x <= base + Pow2(h) - 1
    decreases h
  {
    if h == 0 {
    } else {
      ClearedIsBlockStart(x / 2, base / 2, h - 1);
    }
  }

  /** Numbers that share a small block share every larger one. */
  lemma {:induction false} ClearedCoarser(x: nat, y: nat, h: nat, k: nat)
    requires h <= k && Cleared(x, h) == Cleared(y, h)
    ensures Cleared(x, k) == Cleared(y, k)
    decreases h
  {
    if h == 0 {
    } else {
      ClearedCoarser(x / 2, y / 2, h - 1, k - 1);
    }
  }

  /** Masking with `w` ones keeps a number of `w` bits. */
  lemma {:induction false} AndWithOnes(x: nat, w: nat)
    requires x < Pow2(w)
    ensures BitAnd(x, Pow2(w) - 1) == x
  {
    if w == 0 {
    } else {
      AndWithOnes(x / 2, w - 1);
      HalfMask(w, 0);
    }
  }

  /** Masking with `w - h` leading ones followed by `h` zeros clears the low `h` bits. */
  lemma {:induction false} AndWithMask(x: nat, w: nat, h: nat)
    requires h <= w && x < Pow2(w)
    ensures Pow2(h) <= Pow2(w)
    ensures BitAnd(x, Pow2(w) - Pow2(h)) == Cleared(x, h)
    decreases w
  {
    Pow2Monotone(h, w);
    if h == 0 {
      AndWithOnes(x, w);
    } else {
      AndWithMask(x / 2, w - 1, h - 1);
      HalfMask(w, h);
      AndStep(x, Pow2(w) - Pow2(h));
    }
  }

  lemma {:induction false} AndStep(a: nat, b: nat)
    requires b % 2 == 0
    ensures BitAnd(a, b) == 2 * BitAnd(a / 2, b / 2)
  {
  }

  /** A mask of `w` bits loses its lowest bit when halved, which is set only without zeros. */
  lemma {:induction false} HalfMask(w: nat, h: nat)
    requires h <= w && w > 0
    ensures Pow2(h) <= Pow2(w)
    ensures var h' := if h == 0 then 0 else h - 1;
      && Pow2(h') <= Pow2(w - 1)
      && (Pow2(w) - Pow2(h)) / 2 == Pow2(w - 1) - Pow2(h')
    ensures (Pow2(w) - Pow2(h)) % 2 == if h == 0 then 1 else 0
  {
    Pow2Monotone(h, w);
  }

  lemma {:induction false} HalfLowOnes(h: nat)
    requires h > 0
    ensures (Pow2(h) - 1) / 2 == Pow2(h - 1) - 1
    ensures (Pow2(h) - 1) % 2 == 1
  {
  }

  /** Setting the low `h` bits. */
  lemma {:induction false} OrWithLowOnes(x: nat, h: nat)
    ensures BitOr(x, Pow2(h) - 1) == Cleared(x, h) + Pow2(h) - 1
    decreases h
  {
    if h == 0 {
      OrWithZero(x);
    } else {
      OrWithLowOnes(x / 2, h - 1);
      HalfLowOnes(h);
    }
  }

  lemma {:induction false} OrWithZero(x: nat)
    ensures BitOr(x, 0) == x
  {
    if x == 0 {
    } else {
      OrWithZero(x / 2);
    }
  }

  lemma {:induction false} AndLowOnes(x: nat, h: nat)
    ensures BitAnd(x, Pow2(h) - 1) == LowBits(x, h)
    decreases h
  {
    if h == 0 {
      AndWithZero(x);
    } else {
      AndLowOnes(x / 2, h - 1);
      HalfLowOnes(h);
    }
  }

  lemma {:induction false} AndWithZero(x: nat)
    ensures BitAnd(x, 0) == 0
  {
    if x == 0 {
    } else {
      AndWithZero(x / 2);
    }
  }

  lemma {:induction false} OnesInMask(w: nat, h: nat)
    requires h <= w
    ensures Pow2(h) <= Pow2(w)
    ensures CountOnes(Pow2(w) - Pow2(h)) == w - h
    decreases w
  {
    Pow2Monotone(h, w);
    if h < w {
      Pow2Monotone(h, w - 1);
      if h == 0 {
        OnesInMask(w - 1, 0);
        assert (Pow2(w) - 1) / 2 == Pow2(w - 1) - 1;
      } else {
        OnesInMask(w - 1, h - 1);
        assert (Pow2(w) - Pow2(h)) / 2 == Pow2(w - 1) - Pow2(h - 1);
      }
    }
  }

  /** Shifting an all-ones word left by `k` leaves `k` low zeros. */
  lemma {:induction false} ShlMaxValue(k: nat)
    requires k <= 32
    ensures Pow2(k) <= 0x1_0000_0000
    ensures ShlMax(k) == 0x1_0000_0000 - Pow2(k)
  {
    Pow2At32();
    if 0 < k < 32 {
      Pow2Monotone(k, 31);
      ShlMaxValue(k - 1);
      DoubledComplement(Pow2(k - 1));
    }
  }

  lemma {:induction false} DoubledComplement(p: nat)
    requires 0 < p <= 0x8000_0000
    ensures (0x1_0000_0000 - p) * 2 % 0x1_0000_0000 == 0x1_0000_0000 - 2 * p
  {
  }
}
