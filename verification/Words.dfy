/**
 Unsigned machine words. A word is a natural number and the width is given where
 it matters; the bitwise operators are defined on the binary expansion, so that
 every operator has a one-line law saying which bits it sets.
 */
module Words {

  type Byte = b: int | 0 <= b < 256

  const WORD64 := 0x1_0000_0000_0000_0000
  const WORD32 := 0x1_0000_0000

  function Pow2(n: nat): (p: nat)
    ensures p >= 1
  {
    if n == 0 then 1 else 2 * Pow2(n - 1)
  }

  /** Bit `k` of `v`, counted from the least significant one. */
  predicate Bit(v: nat, k: nat)
    decreases k, v
  {
    if k == 0 then v % 2 == 1 else Bit(v / 2, k - 1)
  }

  /** The low `width` bits of `v`: a narrowing cast. */
  function Trunc(v: nat, width: nat): nat
    decreases width, v
  {
    if width == 0 then 0 else 2 * Trunc(v / 2, width - 1) + v % 2
  }

  function Double(v: nat, k: nat): nat
    decreases k, v
  {
    if k == 0 then v else 2 * Double(v, k - 1)
  }

  /** `v << k` in an unsigned type of `width` bits: bits shifted past the top are lost. */
  function Shl(v: nat, k: nat, width: nat): nat {
    Trunc(Double(v, k), width)
  }

  /** `v >> k`. */
  function Shr(v: nat, k: nat): nat
    decreases k, v
  {
    if k == 0 then v else Shr(v / 2, k - 1)
  }

  /** `x & y`. */
  function And(x: nat, y: nat): nat {
    if x == 0 then 0
    else 2 * And(x / 2, y / 2) + (if x % 2 == 1 && y % 2 == 1 then 1 else 0)
  }

  /** `x | y`. */
  function Or(x: nat, y: nat): nat {
    if x == 0 then y
    else 2 * Or(x / 2, y / 2) + (if x % 2 == 1 || y % 2 == 1 then 1 else 0)
  }

  /** `~x` in an unsigned type of `width` bits. */
  function Not(x: nat, width: nat): nat
    decreases width, x
  {
    if width == 0 then 0 else 2 * Not(x / 2, width - 1) + (1 - x % 2)
  }

  /** Number of bits of the binary expansion of `v`; zero has none. */
  function BitWidth(v: nat): nat {
    if v == 0 then 0 else 1 + BitWidth(v / 2)
  }

  // ---------- which bits each operator sets ----------

  lemma {:induction false} BitZero(k: nat)
    ensures !Bit(0, k)
    decreases k
  {
    if k > 0 { BitZero(k - 1); }
  }

  lemma {:induction false} BitTrunc(v: nat, width: nat, k: nat)
    ensures Bit(Trunc(v, width), k) == (k < width && Bit(v, k))
    decreases k
  {
    if width == 0 {
      BitZero(k);
    } else if k > 0 {
      assert Trunc(v, width) / 2 == Trunc(v / 2, width - 1);
      BitTrunc(v / 2, width - 1, k - 1);
    }
  }

  lemma {:induction false} BitDouble(v: nat, s: nat, k: nat)
    ensures Bit(Double(v, s), k) == (k >= s && Bit(v, k - s))
    decreases k
  {
    if s > 0 && k > 0 {
      assert Double(v, s) / 2 == Double(v, s - 1);
      BitDouble(v, s - 1, k - 1);
    }
  }

  lemma {:induction false} BitShl(v: nat, s: nat, width: nat, k: nat)
    ensures Bit(Shl(v, s, width), k) == (s <= k < width && Bit(v, k - s))
  {
    BitTrunc(Double(v, s), width, k);
    BitDouble(v, s, k);
  }

  lemma {:induction false} BitShr(v: nat, s: nat, k: nat)
    ensures Bit(Shr(v, s), k) == Bit(v, k + s)
    decreases s
  {
    if s > 0 { BitShr(v / 2, s - 1, k); }
  }

  lemma {:induction false} BitAnd(x: nat, y: nat, k: nat)
    ensures Bit(And(x, y), k) == (Bit(x, k) && Bit(y, k))
    decreases k
  {
    if x == 0 {
      BitZero(k);
    } else if k > 0 {
      assert And(x, y) / 2 == And(x / 2, y / 2);
      BitAnd(x / 2, y / 2, k - 1);
    }
  }

  lemma {:induction false} BitOr(x: nat, y: nat, k: nat)
    ensures Bit(Or(x, y), k) == (Bit(x, k) || Bit(y, k))
    decreases k
  {
    if x == 0 {
      BitZero(k);
    } else if k > 0 {
      assert Or(x, y) / 2 == Or(x / 2, y / 2);
      BitOr(x / 2, y / 2, k - 1);
    }
  }

  lemma {:induction false} BitNot(x: nat, width: nat, k: nat)
    ensures Bit(Not(x, width), k) == (k < width && !Bit(x, k))
    decreases k
  {
    if width == 0 {
      BitZero(k);
    } else if k > 0 {
      assert Not(x, width) / 2 == Not(x / 2, width - 1);
      BitNot(x / 2, width - 1, k - 1);
    }
  }

  lemma {:induction false} BitMask(n: nat, k: nat)
    ensures Bit(Pow2(n) - 1, k) == (k < n)
    decreases k
  {
    if n == 0 {
      BitZero(k);
    } else if k > 0 {
      assert (Pow2(n) - 1) / 2 == Pow2(n - 1) - 1;
      BitMask(n - 1, k - 1);
    }
  }

  lemma {:induction false} HighBitsClear(v: nat, width: nat, k: nat)
    requires v < Pow2(width) && width <= k
    ensures !Bit(v, k)
    decreases k
  {
    if width == 0 {
      BitZero(k);
    } else {
      HighBitsClear(v / 2, width - 1, k - 1);
    }
  }

  // ---------- sizes and equality ----------

  lemma {:induction false} TruncBound(v: nat, width: nat)
    ensures Trunc(v, width) < Pow2(width)
    decreases width
  {
    if width > 0 { TruncBound(v / 2, width - 1); }
  }

  lemma {:induction false} AndBound(x: nat, y: nat)
    ensures And(x, y) <= x
  {
    if x > 0 { AndBound(x / 2, y / 2); }
  }

  lemma {:induction false} OrBound(x: nat, y: nat, width: nat)
    requires x < Pow2(width) && y < Pow2(width)
    ensures Or(x, y) < Pow2(width)
    decreases width
  {
    if width > 0 && x > 0 { OrBound(x / 2, y / 2, width - 1); }
  }

  lemma {:induction false} ShrBound(v: nat, s: nat, width: nat)
    requires v < Pow2(width) && s <= width
    ensures Shr(v, s) < Pow2(width - s)
    decreases s
  {
    if s > 0 { ShrBound(v / 2, s - 1, width - 1); }
  }

  lemma {:induction false} ShrAtMost(v: nat, s: nat)
    ensures Shr(v, s) <= v
    decreases s
  {
    if s > 0 { ShrAtMost(v / 2, s - 1); }
  }

  lemma {:induction false} TruncId(v: nat, width: nat)
    requires v < Pow2(width)
    ensures Trunc(v, width) == v
    decreases width
  {
    if width > 0 { TruncId(v / 2, width - 1); }
  }

  /** Words of the same width with the same bits are equal. */
  lemma {:induction false} SameBits(x: nat, y: nat, width: nat)
    requires x < Pow2(width) && y < Pow2(width)
    requires forall k: nat :: k < width ==> Bit(x, k) == Bit(y, k)
    ensures x == y
    decreases width
  {
    if width > 0 {
      assert Bit(x, 0) == Bit(y, 0);
      forall k: nat | k < width - 1
        ensures Bit(x / 2, k) == Bit(y / 2, k)
      {
        assert Bit(x, k + 1) == Bit(y, k + 1);
      }
      SameBits(x / 2, y / 2, width - 1);
    }
  }

  // ---------- the operators as arithmetic ----------

  lemma {:induction false} DoubleIsTimes(v: nat, k: nat)
    ensures Double(v, k) == v * Pow2(k)
    decreases k
  {
    if k > 0 { DoubleIsTimes(v, k - 1); }
  }

  lemma {:induction false} Pow2Add(a: nat, b: nat)
    ensures Pow2(a + b) == Pow2(a) * Pow2(b)
    decreases a
  {
    if a > 0 { Pow2Add(a - 1, b); }
  }

  lemma {:induction false} Pow2Monotone(a: nat, b: nat)
    requires a <= b
    ensures Pow2(a) <= Pow2(b)
    decreases b
  {
    if a < b { Pow2Monotone(a, b - 1); }
  }

  lemma {:induction false} PowByte()
    ensures Pow2(8) == 256
  {
  }

  lemma {:induction false} Pow2Values()
    ensures Pow2(7) == 128 && Pow2(8) == 256 && Pow2(16) == 0x1_0000
    ensures Pow2(31) == 0x8000_0000 && Pow2(32) == WORD32
    ensures Pow2(63) == 0x8000_0000_0000_0000 && Pow2(64) == WORD64
  {
    assert Pow2(4) == 16;
    Pow2Add(4, 3);
    Pow2Add(4, 4);
    Pow2Add(8, 8);
    Pow2Add(16, 16);
    Pow2Add(32, 32);
  }

  /** `v` needs exactly BitWidth(v) bits. */
  lemma {:induction false} BitWidthBounds(v: nat)
    requires v > 0
    ensures BitWidth(v) >= 1
    ensures Pow2(BitWidth(v) - 1) <= v < Pow2(BitWidth(v))
  {
    if v > 1 { BitWidthBounds(v / 2); }
  }

  lemma {:induction false} BitWidthUnique(v: nat, w: nat)
    requires w >= 1 && Pow2(w - 1) <= v < Pow2(w)
    ensures BitWidth(v) == w
  {
    BitWidthBounds(v);
    if BitWidth(v) < w { Pow2Monotone(BitWidth(v), w - 1); }
    if w < BitWidth(v) { Pow2Monotone(w, BitWidth(v) - 1); }
  }

  lemma {:induction false} SmallMultiple(k: int, d: int)
    requires d > 0
    ensures -d < k * d < d ==> k == 0
  {
  }

  lemma {:induction false} DivModUnique(x: nat, d: nat, q: nat, r: nat)
    requires x == q * d + r && r < d
    ensures x / d == q && x % d == r
  {
    var q', r' := x / d, x % d;
    assert x == q' * d + r' && r' < d;
    assert (q' - q) * d == r - r';
    SmallMultiple(q' - q, d);
  }

  lemma {:induction false} HalfDivMod(v: nat, d: nat)
    requires d > 0
    ensures v / (2 * d) == v / 2 / d
    ensures v % (2 * d) == 2 * (v / 2 % d) + v % 2
  {
    var q, r := v / 2 / d, v / 2 % d;
    assert v / 2 == q * d + r;
    assert v == q * (2 * d) + (2 * r + v % 2);
    DivModUnique(v, 2 * d, q, 2 * r + v % 2);
  }

  /** Truncation is the remainder by the power of two. */
  lemma {:induction false} TruncIsMod(v: nat, width: nat)
    ensures Trunc(v, width) == v % Pow2(width)
    decreases width
  {
    if width > 0 {
      TruncIsMod(v / 2, width - 1);
      HalfDivMod(v, Pow2(width - 1));
    }
  }

  /** A right shift divides. */
  lemma {:induction false} ShrIsDiv(v: nat, k: nat)
    ensures Shr(v, k) == v / Pow2(k)
    decreases k
  {
    if k > 0 {
      ShrIsDiv(v / 2, k - 1);
      HalfDivMod(v, Pow2(k - 1));
    }
  }

  /** A left shift multiplies, modulo the width of the type. */
  lemma {:induction false} ShlIsTimes(v: nat, k: nat, width: nat)
    ensures Shl(v, k, width) == v * Pow2(k) % Pow2(width)
    ensures v * Pow2(k) < Pow2(width) ==> Shl(v, k, width) == v * Pow2(k)
  {
    DoubleIsTimes(v, k);
    TruncIsMod(Double(v, k), width);
    if Double(v, k) < Pow2(width) { TruncId(Double(v, k), width); }
  }

  lemma {:induction false} ShlOne(k: nat, width: nat)
    requires k < width
    ensures Shl(1, k, width) == Pow2(k)
  {
    Pow2Monotone(k + 1, width);
    ShlIsTimes(1, k, width);
  }

  /** Masking with 2^n - 1 keeps the low n bits. */
  lemma {:induction false} AndMask(x: nat, n: nat)
    ensures And(x, Pow2(n) - 1) == Trunc(x, n)
    decreases n
  {
    if n == 0 {
      AndZero(x);
    } else if x == 0 {
      TruncId(0, n);
    } else {
      assert (Pow2(n) - 1) / 2 == Pow2(n - 1) - 1;
      AndMask(x / 2, n - 1);
    }
  }

  lemma {:induction false} LowSevenBits(v: nat)
    ensures And(v, 0x7F) == v % 128
  {
    assert Pow2(7) == 128;
    AndMask(v, 7);
    TruncIsMod(v, 7);
  }

  lemma {:induction false} AndZero(x: nat)
    ensures And(x, 0) == 0
  {
    if x > 0 { AndZero(x / 2); }
  }

  /** Setting a bit above all others adds its weight. */
  lemma {:induction false} OrHigh(x: nat, n: nat)
    requires x < Pow2(n)
    ensures Or(x, Pow2(n)) == x + Pow2(n)
    decreases n
  {
    if n > 0 && x > 0 { OrHigh(x / 2, n - 1); }
  }
}
