/** Python's bitwise operators on non-negative integers, and what they mean
    arithmetically for the contiguous masks the source uses. */
module Bits {

  function Pow2(n: nat): (p: nat)
    ensures p > 0
  {
    if n == 0 then 1 else 2 * Pow2(n - 1)
  }

  /** x & y */
  function And(x: nat, y: nat): nat {
    if x == 0 || y == 0 then 0
    else 2 * And(x / 2, y / 2) + (if x % 2 == 1 && y % 2 == 1 then 1 else 0)
  }

  /** x | y */
  function Or(x: nat, y: nat): nat
    decreases x + y
  {
    if x == 0 then y
    else if y == 0 then x
    else 2 * Or(x / 2, y / 2) + (if x % 2 == 1 || y % 2 == 1 then 1 else 0)
  }

  /** x & ~y, where ~ complements all of Python's infinitely many bits */
  function AndNot(x: nat, y: nat): nat {
    if x == 0 then 0
    else 2 * AndNot(x / 2, y / 2) + (if x % 2 == 1 && y % 2 == 0 then 1 else 0)
  }

  /** x >> n */
  function Shr(x: nat, n: nat): nat {
    if n == 0 then x else Shr(x / 2, n - 1)
  }

  /** x << n */
  function Shl(x: nat, n: nat): nat {
    x * Pow2(n)
  }

  lemma {:induction false} ShlIsTimes(x: nat, k: nat)
    ensures Shl(x, k) == x * Pow2(k)
  {
  }

  /** The number whose bits lo .. lo + width - 1 are set. */
  function Mask(lo: nat, width: nat): nat {
    if lo > 0 then 2 * Mask(lo - 1, width)
    else if width > 0 then 2 * Mask(0, width - 1) + 1
    else 0
  }

  lemma {:induction false} MaskIsDifference(lo: nat, width: nat)
    ensures Mask(lo, width) == Pow2(lo + width) - Pow2(lo)
    decreases lo + width
  {
    if lo > 0 {
      MaskIsDifference(lo - 1, width);
    } else if width > 0 {
      MaskIsDifference(0, width - 1);
    }
  }

  lemma Pow2Values()
    ensures Pow2(8) == 0x100 && Pow2(12) == 0x1000 && Pow2(21) == 0x20_0000 && Pow2(30) == 0x4000_0000
    ensures Pow2(0) == 1 && Pow2(1) == 2 && Pow2(3) == 8 && Pow2(7) == 128 && Pow2(9) == 512
    ensures Pow2(16) == 0x1_0000 && Pow2(24) == 0x100_0000 && Pow2(27) == 0x800_0000 && Pow2(32) == 0x1_0000_0000
    ensures Pow2(39) == 0x80_0000_0000 && Pow2(47) == 0x8000_0000_0000 && Pow2(48) == 0x1_0000_0000_0000
    ensures Pow2(52) == 0x10_0000_0000_0000 && Pow2(63) == 0x8000_0000_0000_0000
    ensures Pow2(64) == 0x1_0000_0000_0000_0000
  {
  }

  lemma ModStep(x: nat, p: nat)
    requires p > 0
    ensures x % (2 * p) == 2 * ((x / 2) % p) + x % 2
  {
    var h := x / 2;
    var q, r := h / p, h % p;
    assert x == (2 * p) * q + (2 * r + x % 2) by {
      assert h == p * q + r;
      assert 2 * h == (2 * p) * q + 2 * r;
    }
    DivModUnique(x, 2 * p, q, 2 * r + x % 2);
  }

  lemma {:induction false} ShrIsDiv(x: nat, n: nat)
    ensures Shr(x, n) == x / Pow2(n)
  {
    if n > 0 {
      ShrIsDiv(x / 2, n - 1);
      DivDiv(x, 2, Pow2(n - 1));
    }
  }

  /** AndMask with the powers of two given as numbers. */
  lemma AndMaskAs(x: nat, lo: nat, width: nat, mask: nat, low: nat, high: nat)
    requires low == Pow2(lo) && high == Pow2(lo + width) && mask == high - low
    ensures And(x, mask) == x % high - x % low
  {
    AndMask(x, lo, width);
    MaskIsDifference(lo, width);
  }

  lemma AtLeastOnce(d: nat, k: int)
    requires k >= 1
    ensures d * k >= d
  {
  }

  lemma CancelFactor(d: nat, a: int, b: int)
    requires d * a < d * b
    ensures a < b
  {
  }

  lemma DivModUnique(x: nat, d: nat, q: int, r: int)
    requires d > 0 && 0 <= r < d
    requires x == d * q + r
    ensures x / d == q && x % d == r
  {
    var q', r' := x / d, x % d;
    var e := q' - q;
    assert d * e == r - r' by {
      assert x == d * q' + r';
      assert d * e == d * q' - d * q;
    }
    if e >= 1 {
      AtLeastOnce(d, e);
    } else if e <= -1 {
      assert d * -e == -(d * e);
      AtLeastOnce(d, -e);
    }
  }

  /** Rounding down to a multiple of size inside a block of k sizes. */
  lemma RoundDown(x: nat, size: nat, k: nat)
    requires size > 0 && k > 0
    ensures size * k > 0
    ensures x % size <= x % (size * k)
    ensures var a := x % (size * k) - x % size; a % size == 0 && a + size <= size * k
  {
    var big := size * k;
    assert big > 0 by { AtLeastOnce(size, k); }
    var q, r := x / big, x % big;
    var q2, r2 := r / size, r % size;
    assert x == size * (k * q + q2) + r2 by {
      assert big * q == size * (k * q);
    }
    DivModUnique(x, size, k * q + q2, r2);
    assert size * q2 == r - r2;
    DivModUnique(r - r2, size, q2, 0);
    CancelFactor(size, q2, k);
    assert size * k == size * q2 + size * (k - q2);
    AtLeastOnce(size, k - q2);
  }

  /** x & mask keeps bits lo .. lo + width - 1 in place. */
  lemma {:induction false} AndMask(x: nat, lo: nat, width: nat)
    ensures And(x, Mask(lo, width)) == x % Pow2(lo + width) - x % Pow2(lo)
    decreases lo + width
  {
    if lo > 0 {
      AndMask(x / 2, lo - 1, width);
      ModStep(x, Pow2(lo + width - 1));
      ModStep(x, Pow2(lo - 1));
    } else if width > 0 {
      AndMask(x / 2, 0, width - 1);
      ModStep(x, Pow2(width - 1));
    }
  }

  lemma {:induction false} AndCommutes(x: nat, y: nat)
    ensures And(x, y) == And(y, x)
  {
    if x != 0 && y != 0 {
      AndCommutes(x / 2, y / 2);
    }
  }

  lemma {:induction false} OrIsSum(x: nat, y: nat)
    ensures And(x, y) <= x && And(x, y) <= y
    ensures Or(x, y) == x + y - And(x, y)
    decreases x + y
  {
    if x != 0 && y != 0 {
      OrIsSum(x / 2, y / 2);
    }
  }

  lemma {:induction false} AndNotIsDifference(x: nat, y: nat)
    ensures And(x, y) <= x
    ensures AndNot(x, y) == x - And(x, y)
  {
    if x != 0 {
      AndNotIsDifference(x / 2, y / 2);
    }
  }

  lemma {:induction false} DisjointHighLow(x: nat, y: nat, k: nat)
    requires x % Pow2(k) == 0 && y < Pow2(k)
    ensures And(x, y) == 0
    decreases k
  {
    if x != 0 && y != 0 {
      ModStep(x, Pow2(k - 1));
      DisjointHighLow(x / 2, y / 2, k - 1);
    }
  }

  /** A value with k clear low bits, or-ed with a k-bit value, is their sum. */
  lemma OrHighLow(x: nat, y: nat, k: nat)
    requires x % Pow2(k) == 0 && y < Pow2(k)
    ensures Or(x, y) == x + y
  {
    DisjointHighLow(x, y, k);
    OrIsSum(x, y);
  }

  /** Dividing twice is dividing by the product. */
  lemma DivDiv(x: nat, s: nat, k: nat)
    requires s > 0 && k > 0
    ensures s * k > 0 && x / (s * k) == x / s / k
  {
    AtLeastOnce(s, k);
    var a := x / s;
    var q, r := a / k, a % k;
    assert x == (s * k) * q + (s * r + x % s) by {
      assert x == s * a + x % s;
      assert s * a == s * (k * q) + s * r;
      assert s * (k * q) == (s * k) * q;
    }
    assert s * k == s * r + s * (k - r);
    AtLeastOnce(s, k - r);
    DivModUnique(x, s * k, q, s * r + x % s);
  }

  /** Masking with a single bit. */
  lemma OneBit(x: nat, p: nat)
    requires p > 0
    ensures x % (2 * p) - x % p == if x / p % 2 == 1 then p else 0
  {
    var q, r := x / p, x % p;
    var k, b := q / 2, q % 2;
    assert x == p * q + r;
    assert p * q == (2 * p) * k + p * b by {
      assert q == 2 * k + b;
    }
    DivModUnique(x, 2 * p, k, p * b + r);
  }

  // ---------------------------------------------------------------- bit by bit

  predicate Bit(x: nat, n: nat) {
    if n == 0 then x % 2 == 1 else Bit(x / 2, n - 1)
  }

  lemma {:induction false} BitOps(x: nat, y: nat, n: nat)
    ensures Bit(And(x, y), n) == (Bit(x, n) && Bit(y, n))
    ensures Bit(Or(x, y), n) == (Bit(x, n) || Bit(y, n))
    ensures Bit(AndNot(x, y), n) == (Bit(x, n) && !Bit(y, n))
  {
    hide And, Or, AndNot;
    HalfAnd(x, y);
    HalfOr(x, y);
    HalfAndNot(x, y);
    if n > 0 {
      BitOps(x / 2, y / 2, n - 1);
    }
  }

  lemma HalfAnd(x: nat, y: nat)
    ensures And(x, y) / 2 == And(x / 2, y / 2) && (And(x, y) % 2 == 1 <==> x % 2 == 1 && y % 2 == 1)
  {
  }

  lemma HalfOr(x: nat, y: nat)
    ensures Or(x, y) / 2 == Or(x / 2, y / 2) && (Or(x, y) % 2 == 1 <==> x % 2 == 1 || y % 2 == 1)
  {
  }

  lemma HalfAndNot(x: nat, y: nat)
    ensures AndNot(x, y) / 2 == AndNot(x / 2, y / 2) && (AndNot(x, y) % 2 == 1 <==> x % 2 == 1 && y % 2 == 0)
  {
  }

  lemma {:induction false} ZeroHasNoBits(n: nat)
    ensures !Bit(0, n)
  {
    if n > 0 {
      ZeroHasNoBits(n - 1);
    }
  }

  /** Numbers with the same bits are equal. */
  lemma {:induction false} SameBits(x: nat, y: nat)
    requires forall n: nat :: Bit(x, n) == Bit(y, n)
    ensures x == y
    decreases x + y
  {
    assert Bit(x, 0) == Bit(y, 0);
    if x != 0 || y != 0 {
      forall n: nat
        ensures Bit(x / 2, n) == Bit(y / 2, n)
      {
        assert Bit(x, n + 1) == Bit(y, n + 1);
      }
      SameBits(x / 2, y / 2);
    }
  }

  lemma {:induction false} BitOfShr(x: nat, n: nat)
    ensures Bit(x, n) == (Shr(x, n) % 2 == 1)
  {
    if n > 0 {
      BitOfShr(x / 2, n - 1);
    }
  }

  lemma {:induction false} OrBelow(x: nat, y: nat, k: nat)
    requires x < Pow2(k) && y < Pow2(k)
    ensures Or(x, y) < Pow2(k)
    decreases k
  {
    if k > 0 {
      OrBelow(x / 2, y / 2, k - 1);
    }
  }

  /** Parts selected by a mask and by its complement or together to their sum. */
  lemma {:induction false} JoinMasked(x: nat, y: nat, mask: nat)
    ensures Or(And(x, mask), AndNot(y, mask)) == And(x, mask) + y - And(y, mask)
  {
    SplitDisjoint(x, y, mask);
    OrIsSum(And(x, mask), AndNot(y, mask));
    AndNotIsDifference(y, mask);
  }

  lemma {:induction false} SplitDisjoint(x: nat, y: nat, mask: nat)
    ensures And(And(x, mask), AndNot(y, mask)) == 0
    decreases x + y
  {
    if x != 0 && y != 0 && mask != 0 {
      SplitDisjoint(x / 2, y / 2, mask / 2);
    }
  }
}
