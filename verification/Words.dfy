/** Fixed-width machine words, modelled as naturals below a power of two.
    The bit operators of the program are defined bit by bit, and the lemmas below say what
    masking, shifting and or-ing mean for the number a word stands for. */
module Words {

  function Pow2(n: nat): (p: nat)
    ensures p >= 1
  {
    if n == 0 then 1 else 2 * Pow2(n - 1)
  }

  type Octet = x: nat | x < 0x100
  type Group = x: nat | x < 0x1_0000
  type Word32 = x: nat | x < 0x1_0000_0000
  type Word64 = x: nat | x < 0x1_0000_0000_0000_0000

  /** Bit `i` of `x`, counted from the least significant one. */
  predicate Bit(x: nat, i: nat) {
    if i == 0 then x % 2 == 1 else Bit(x / 2, i - 1)
  }

  function And(x: nat, y: nat): nat {
    if x == 0 || y == 0 then 0
    else 2 * And(x / 2, y / 2) + (if x % 2 == 1 && y % 2 == 1 then 1 else 0)
  }

  function Or(x: nat, y: nat): nat {
    if x == 0 then y
    else if y == 0 then x
    else 2 * Or(x / 2, y / 2) + (if x % 2 == 1 || y % 2 == 1 then 1 else 0)
  }

  /** `~x` in a word of `w` bits. */
  function Not(x: nat, w: nat): nat
    requires x < Pow2(w)
  {
    Pow2(w) - 1 - x
  }

  /** `x` followed by `k` zero bits: a left shift that loses nothing. */
  function Scale(x: nat, k: nat): nat {
    if k == 0 then x else 2 * Scale(x, k - 1)
  }

  /** `x << k` in a word of `w` bits: what leaves the word is lost. */
  function Shl(x: nat, k: nat, w: nat): nat {
    LowBits(Scale(x, k), w)
  }

  /** `x >> k`. */
  function Shr(x: nat, k: nat): nat {
    if k == 0 then x else Shr(x / 2, k - 1)
  }

  /** The number made of the `k` least significant bits of `x`. */
  function LowBits(x: nat, k: nat): (r: nat)
    ensures r < Pow2(k)
  {
    if k == 0 then 0 else 2 * LowBits(x / 2, k - 1) + x % 2
  }

  // ---- the definitions are the bitwise operators ----

  lemma {:induction false} AndIsBitwise(x: nat, y: nat, i: nat)
    ensures Bit(And(x, y), i) <==> Bit(x, i) && Bit(y, i)
  {
    if x == 0 || y == 0 {
      ZeroHasNoBit(i);
    } else if i > 0 {
      AndIsBitwise(x / 2, y / 2, i - 1);
    }
  }

  lemma {:induction false} OrIsBitwise(x: nat, y: nat, i: nat)
    ensures Bit(Or(x, y), i) <==> Bit(x, i) || Bit(y, i)
  {
    if x == 0 || y == 0 {
      ZeroHasNoBit(i);
    } else if i > 0 {
      OrIsBitwise(x / 2, y / 2, i - 1);
    }
  }

  lemma {:induction false} NotIsBitwise(x: nat, w: nat, i: nat)
    requires x < Pow2(w) && i < w
    ensures Bit(Not(x, w), i) <==> !Bit(x, i)
  {
    NotHalves(x, w);
    if i > 0 {
      hide Not;
      NotIsBitwise(x / 2, w - 1, i - 1);
    }
  }

  lemma NotHalves(x: nat, w: nat)
    requires w > 0 && x < Pow2(w)
    ensures x / 2 < Pow2(w - 1) && Not(x, w) / 2 == Not(x / 2, w - 1) && Not(x, w) % 2 == 1 - x % 2
  {
  }

  lemma {:induction false} ShrIsBitwise(x: nat, k: nat, i: nat)
    ensures Bit(Shr(x, k), i) <==> Bit(x, i + k)
  {
    if k > 0 {
      ShrIsBitwise(x / 2, k - 1, i);
    }
  }

  lemma {:induction false} ZeroHasNoBit(i: nat)
    ensures !Bit(0, i)
  {
    if i > 0 {
      ZeroHasNoBit(i - 1);
    }
  }

  // ---- powers of two, multiples and remainders ----

  lemma {:induction false} Pow2Sum(a: nat, b: nat)
    ensures Pow2(a + b) == Scale(Pow2(a), b) == Pow2(a) * Pow2(b)
  {
    if b == 0 {
    } else {
      Pow2Sum(a, b - 1);
      assert Pow2(a) * Pow2(b) == 2 * (Pow2(a) * Pow2(b - 1));
    }
  }

  lemma {:induction false} Pow2Monotonic(a: nat, b: nat)
    requires a < b
    ensures Pow2(a) < Pow2(b)
    decreases b
  {
    if a < b - 1 {
      Pow2Monotonic(a, b - 1);
    }
  }

  lemma Pow2Values()
    ensures Pow2(8) == 0x100 && Pow2(16) == 0x1_0000 && Pow2(20) == 0x10_0000 && Pow2(24) == 0x100_0000
    ensures Pow2(32) == 0x1_0000_0000 && Pow2(48) == 0x1_0000_0000_0000
    ensures Pow2(64) == 0x1_0000_0000_0000_0000
  {
    assert Pow2(4) == 16;
    Pow2Sum(4, 4);
    Pow2Sum(8, 8);
    Pow2Sum(16, 4);
    Pow2Sum(16, 8);
    Pow2Sum(16, 16);
    Pow2Sum(32, 16);
    Pow2Sum(32, 32);
  }

  lemma {:induction false} ScaleIsTimes(x: nat, k: nat)
    ensures Scale(x, k) == x * Pow2(k)
  {
    if k > 0 {
      ScaleIsTimes(x, k - 1);
      assert x * Pow2(k) == 2 * (x * Pow2(k - 1));
    }
  }

  /** Every number is its high part, scaled back, and its low bits. */
  lemma {:induction false} CutAt(x: nat, k: nat)
    ensures x == Scale(Shr(x, k), k) + LowBits(x, k)
  {
    if k > 0 {
      CutAt(x / 2, k - 1);
    }
  }

  /** Shifting right divides by a power of two, and the low bits are the remainder. */
  lemma ShrIsQuotient(x: nat, k: nat)
    ensures Shr(x, k) == x / Pow2(k) && LowBits(x, k) == x % Pow2(k)
  {
    CutAt(x, k);
    ScaleIsTimes(Shr(x, k), k);
    QuotientIs(x, Pow2(k), Shr(x, k), LowBits(x, k));
  }

  /** Division is determined by its defining equation. */
  lemma QuotientIs(x: int, d: int, q: int, r: int)
    requires d > 0 && 0 <= r < d && x == q * d + r
    ensures x / d == q && x % d == r
  {
    var z := x / d - q;
    assert d * z == d * (x / d) - d * q == r - x % d;
    SmallMultiple(d, z);
  }

  lemma SmallMultiple(d: int, z: int)
    requires -d < d * z < d
    ensures z == 0
  {
  }

  // ---- and and or work independently above and below a cut ----

  lemma {:induction false} OrStep(x: nat, y: nat)
    ensures Or(x, y) == 2 * Or(x / 2, y / 2) + (if x % 2 == 1 || y % 2 == 1 then 1 else 0)
  {
  }

  lemma {:induction false} AndStep(x: nat, y: nat)
    ensures And(x, y) == 2 * And(x / 2, y / 2) + (if x % 2 == 1 && y % 2 == 1 then 1 else 0)
  {
  }

  /** The halves and the last bit of a number with `b` as its low part. */
  lemma ScaleHalves(a: nat, b: nat, k: nat)
    requires k > 0 && b < Pow2(k)
    ensures (Scale(a, k) + b) / 2 == Scale(a, k - 1) + b / 2 && (Scale(a, k) + b) % 2 == b % 2
    ensures b / 2 < Pow2(k - 1)
  {
  }

  lemma {:induction false} OrSplit(a: nat, b: nat, c: nat, d: nat, k: nat)
    requires b < Pow2(k) && d < Pow2(k)
    ensures Or(Scale(a, k) + b, Scale(c, k) + d) == Scale(Or(a, c), k) + Or(b, d)
    decreases k
  {
    hide Or, Pow2;
    if k > 0 {
      ScaleHalves(a, b, k);
      ScaleHalves(c, d, k);
      OrSplit(a, b / 2, c, d / 2, k - 1);
      OrStep(Scale(a, k) + b, Scale(c, k) + d);
      OrStep(b, d);
    } else {
      NoBits(b);
      NoBits(d);
    }
  }

  lemma {:induction false} AndSplit(a: nat, b: nat, c: nat, d: nat, k: nat)
    requires b < Pow2(k) && d < Pow2(k)
    ensures And(Scale(a, k) + b, Scale(c, k) + d) == Scale(And(a, c), k) + And(b, d)
    decreases k
  {
    hide And, Pow2;
    if k > 0 {
      ScaleHalves(a, b, k);
      ScaleHalves(c, d, k);
      AndSplit(a, b / 2, c, d / 2, k - 1);
      AndStep(Scale(a, k) + b, Scale(c, k) + d);
      AndStep(b, d);
    } else {
      NoBits(b);
      NoBits(d);
    }
  }

  lemma NoBits(b: nat)
    requires b < Pow2(0)
    ensures b == 0 && Or(0, 0) == 0 && And(0, 0) == 0
  {
  }

  lemma {:induction false} OrBound(x: nat, y: nat, k: nat)
    requires x < Pow2(k) && y < Pow2(k)
    ensures Or(x, y) < Pow2(k)
  {
    if k > 0 && x > 0 && y > 0 {
      OrBound(x / 2, y / 2, k - 1);
    }
  }

  lemma {:induction false} AndBound(x: nat, y: nat)
    ensures And(x, y) <= x && And(x, y) <= y
  {
    if x > 0 && y > 0 {
      AndBound(x / 2, y / 2);
    }
  }

  // ---- words made of four equal fields ----

  /** Four `k`-bit fields side by side, `a` the most significant. */
  function Four(a: nat, b: nat, c: nat, d: nat, k: nat): nat {
    Scale(Scale(Scale(a, k) + b, k) + c, k) + d
  }

  lemma {:induction false} ScaleSum(x: nat, i: nat, j: nat)
    ensures Scale(x, i + j) == Scale(Scale(x, i), j)
  {
    if j > 0 {
      ScaleSum(x, i, j - 1);
    }
  }

  lemma ShrByNone(x: nat)
    ensures Shr(x, 0) == x
  {
  }

  lemma {:induction false} ShrSum(x: nat, i: nat, j: nat)
    ensures Shr(x, i + j) == Shr(Shr(x, i), j)
  {
    if i > 0 {
      ShrSum(x / 2, i - 1, j);
    }
  }

  lemma {:induction false} ScaleZero(k: nat)
    ensures Scale(0, k) == 0
  {
    if k > 0 {
      ScaleZero(k - 1);
    }
  }

  lemma {:induction false} ScaleBound(x: nat, n: nat, k: nat)
    requires x < Pow2(n)
    ensures Scale(x, k) < Pow2(n + k)
  {
    if k > 0 {
      ScaleBound(x, n, k - 1);
    }
  }

  /** A shift that stays inside the word loses nothing. */
  lemma ShlIsScale(x: nat, n: nat, k: nat, w: nat)
    requires x < Pow2(n) && n + k <= w
    ensures Shl(x, k, w) == Scale(x, k) < Pow2(w)
  {
    ScaleBound(x, n, k);
    if n + k < w { Pow2Monotonic(n + k, w); }
    LowBitsOfSmall(Scale(x, k), w);
  }

  lemma OrAppend(x: nat, y: nat, k: nat, shift: nat)
    requires y < Pow2(k)
    ensures Or(Scale(x, k + shift), Scale(y, shift)) == Scale(Scale(x, k) + y, shift)
  {
    ScaleSum(x, k, shift);
    ScaleZero(k);
    OrSplit(x, 0, 0, y, k);
    OrSplit(Scale(x, k), 0, y, 0, shift);
  }

  lemma ScaleByNone(x: nat)
    ensures Scale(x, 0) == x
  {
  }

  lemma OrOfFields(a: nat, b: nat, c: nat, d: nat, k: nat)
    requires b < Pow2(k) && c < Pow2(k) && d < Pow2(k)
    ensures Or(Or(Or(Scale(a, 3 * k), Scale(b, 2 * k)), Scale(c, k)), d) == Four(a, b, c, d, k)
  {
    hide Or, Scale, Pow2;
    ScaleByNone(d);
    ScaleByNone(Scale(Scale(Scale(a, k) + b, k) + c, k) + d);
    OrAppend(a, b, k, 2 * k);
    OrAppend(Scale(a, k) + b, c, k, k);
    OrAppend(Scale(Scale(a, k) + b, k) + c, d, k, 0);
  }

  /** Or-ing two words or-s their fields. */
  lemma OrOfFours(a: nat, b: nat, c: nat, d: nat, e: nat, f: nat, g: nat, h: nat, k: nat)
    requires b < Pow2(k) && c < Pow2(k) && d < Pow2(k) && f < Pow2(k) && g < Pow2(k) && h < Pow2(k)
    ensures Or(Four(a, b, c, d, k), Four(e, f, g, h, k)) == Four(Or(a, e), Or(b, f), Or(c, g), Or(d, h), k)
  {
    hide Or, Scale, Pow2;
    OrSplit(a, b, e, f, k);
    OrSplit(Scale(a, k) + b, c, Scale(e, k) + f, g, k);
    OrSplit(Scale(Scale(a, k) + b, k) + c, d, Scale(Scale(e, k) + f, k) + g, h, k);
  }

  // ---- masks ----

  /** Masking with the low `k` bits keeps just those. */
  lemma {:induction false} AndLowMask(x: nat, k: nat)
    ensures And(x, Pow2(k) - 1) == LowBits(x, k)
  {
    if k > 0 {
      AndLowMask(x / 2, k - 1);
      AndStep(x, Pow2(k) - 1);
    }
  }

  /** Masking a `w`-bit word with its bits `k` and above clears the low `k` bits. */
  lemma {:induction false} AndHighMask(x: nat, k: nat, w: nat)
    requires k <= w && x < Pow2(w)
    ensures Pow2(k) <= Pow2(w)
    ensures And(x, Pow2(w) - Pow2(k)) == x - LowBits(x, k)
    decreases w
  {
    if k == 0 {
      AndLowMask(x, w);
      LowBitsOfSmall(x, w);
    } else {
      hide And;
      AndHighMask(x / 2, k - 1, w - 1);
      AndStep(x, Pow2(w) - Pow2(k));
      assert (Pow2(w) - Pow2(k)) / 2 == Pow2(w - 1) - Pow2(k - 1);
    }
  }

  lemma {:induction false} LowBitsOfSmall(x: nat, w: nat)
    requires x < Pow2(w)
    ensures LowBits(x, w) == x
  {
    if w > 0 {
      LowBitsOfSmall(x / 2, w - 1);
    }
  }

  lemma OnesHalves(k: nat)
    requires k > 0
    ensures (Pow2(k) - 1) / 2 == Pow2(k - 1) - 1 && (Pow2(k) - 1) % 2 == 1
  {
  }

  lemma OrWithNone(x: nat)
    ensures Or(x, 0) == x
  {
  }

  /** Or-ing the low `k` bits moves up to the last number with the same bits above. */
  lemma {:induction false} OrLowMask(x: nat, k: nat)
    ensures Or(x, Pow2(k) - 1) == x - LowBits(x, k) + Pow2(k) - 1
  {
    hide Or;
    if k > 0 {
      OrLowMask(x / 2, k - 1);
      OrStep(x, Pow2(k) - 1);
      OnesHalves(k);
    } else {
      OrWithNone(x);
    }
  }

  // ---- bits and shifts in numbers ----

  /** Bit `i` is set if the number without its `i` low bits is odd. */
  lemma BitMeans(x: nat, i: nat)
    ensures Bit(x, i) <==> x / Pow2(i) % 2 == 1
  {
    hide Pow2;
    ShrIsBitwise(x, i, 0);
    ShrIsQuotient(x, i);
  }

  /** A left shift multiplies, modulo the size of the word. */
  lemma ShlMeans(x: nat, k: nat, w: nat)
    ensures Shl(x, k, w) == x * Pow2(k) % Pow2(w)
  {
    hide Pow2, LowBits, Scale;
    ScaleIsTimes(x, k);
    ShrIsQuotient(Scale(x, k), w);
  }

  /** The bits of two parts side by side. */
  lemma {:induction false} BitInParts(x: nat, y: nat, j: nat, i: nat)
    requires y < Pow2(j)
    ensures Bit(Scale(x, j) + y, i) <==> if i < j then Bit(y, i) else Bit(x, i - j)
  {
    if j > 0 {
      ScaleHalves(x, y, j);
      if i > 0 {
        BitInParts(x, y / 2, j - 1, i - 1);
      }
    }
  }
}
