/**
 Fixed-width unsigned words, and the bit operations of the C and ARM code
 written out on natural numbers, one bit at a time.
 */
module Words {

  type Byte = x: int | 0 <= x < 0x100
  type Half = x: int | 0 <= x < 0x1_0000
  type Word = x: int | 0 <= x < 0x1_0000_0000
  type DWord = x: int | 0 <= x < 0x1_0000_0000_0000_0000

  /** Left shift without a word boundary: v * 2^k. */
  function Shl(v: nat, k: nat): nat
    decreases k
  {
    if k == 0 then v else 2 * Shl(v, k - 1)
  }

  /** Right shift: the floor of v / 2^k. */
  function Shr(v: nat, k: nat): nat
    decreases k
  {
    if k == 0 then v else Shr(v, k - 1) / 2
  }

  /** The k lowest bits. */
  function Low(v: nat, k: nat): nat
    decreases k
  {
    if k == 0 then 0 else 2 * Low(v / 2, k - 1) + v % 2
  }

  function Pow2(k: nat): nat {
    Shl(1, k)
  }

  /** Bitwise inclusive or. */
  function Or(a: nat, b: nat): nat
    decreases a + b
  {
    if a == 0 && b == 0 then 0
    else 2 * Or(a / 2, b / 2) + if a % 2 == 1 || b % 2 == 1 then 1 else 0
  }

  /** Bitwise and. */
  function And(a: nat, b: nat): nat
    decreases a + b
  {
    if a == 0 && b == 0 then 0
    else 2 * And(a / 2, b / 2) + if a % 2 == 1 && b % 2 == 1 then 1 else 0
  }

  lemma {:induction false} ShlAdd(a: nat, b: nat, k: nat)
    ensures Shl(a + b, k) == Shl(a, k) + Shl(b, k)
    decreases k
  {
    if k > 0 {
      ShlAdd(a, b, k - 1);
    }
  }

  lemma {:induction false} ShlShl(v: nat, j: nat, k: nat)
    ensures Shl(Shl(v, j), k) == Shl(v, j + k)
    decreases k
  {
    if k > 0 {
      ShlShl(v, j, k - 1);
    }
  }

  lemma ShlDouble(v: nat, k: nat)
    ensures Shl(2 * v, k) == Shl(v, k + 1)
  {
    ShlAdd(v, v, k);
  }

  lemma {:induction false} ShlOrder(a: nat, b: nat, k: nat)
    ensures a < b <==> Shl(a, k) < Shl(b, k)
    decreases k
  {
    if k > 0 {
      ShlOrder(a, b, k - 1);
    }
  }

  lemma {:induction false} ShlMonotone(v: nat, j: nat, k: nat)
    requires j <= k
    ensures Shl(v, j) <= Shl(v, k)
    decreases k
  {
    if j < k {
      ShlMonotone(v, j, k - 1);
    }
  }

  lemma {:induction false} ShlZero(k: nat)
    ensures Shl(0, k) == 0
    decreases k
  {
    if k > 0 {
      ShlZero(k - 1);
    }
  }

  /** A left shift multiplies by the power of two. */
  lemma {:induction false} ShlProduct(v: nat, k: nat)
    ensures Shl(v, k) == Pow2(k) * v
    decreases k
  {
    if k > 0 {
      ShlProduct(v, k - 1);
      Associate(Pow2(k - 1), v);
    }
  }

  lemma Associate(p: nat, v: nat)
    ensures (2 * p) * v == 2 * (p * v)
  {
  }

  lemma Shl32(v: nat)
    ensures Shl(v, 32) == v * 0x1_0000_0000
  {
    Shl8(v);
    Shl8(v * 0x100);
    ShlShl(v, 8, 8);
    Shl8(v * 0x1_0000);
    ShlShl(v, 16, 8);
    Shl8(v * 0x100_0000);
    ShlShl(v, 24, 8);
  }

  lemma Shl8(v: nat)
    ensures Shl(v, 8) == v * 0x100
  {
    ShlShl(v, 4, 4);
  }

  lemma {:induction false} ShrShlAdd(y: nat, b: nat, k: nat)
    ensures Shr(Shl(y, k) + b, k) == y + Shr(b, k)
    decreases k
  {
    if k > 0 {
      ShlDouble(y, k - 1);
      ShrShlAdd(2 * y, b, k - 1);
    }
  }

  lemma {:induction false} ShrHalf(v: nat, k: nat)
    ensures Shr(v / 2, k) == Shr(v, k) / 2 == Shr(v, k + 1)
    decreases k
  {
    if k > 0 {
      ShrHalf(v, k - 1);
    }
  }

  /** Division with remainder by a power of two, in terms of bits. */
  lemma {:induction false} ShrLow(v: nat, k: nat)
    ensures v == Shl(Shr(v, k), k) + Low(v, k)
    ensures Low(v, k) < Pow2(k)
    decreases k
  {
    if k > 0 {
      ShrLow(v / 2, k - 1);
      ShrHalf(v, k - 1);
    }
  }

  /** Fields that do not overlap are combined by or as they are by addition. */
  lemma {:induction false} OrDisjoint(x: nat, b: nat, k: nat)
    requires b < Pow2(k)
    ensures Or(Shl(x, k), b) == Or(b, Shl(x, k)) == Shl(x, k) + b
    decreases k
  {
    if k == 0 {
      OrZero(x);
    } else {
      OrDisjoint(x, b / 2, k - 1);
    }
  }

  lemma {:induction false} OrZero(a: nat)
    ensures Or(a, 0) == a && Or(0, a) == a
  {
    if a > 0 {
      OrZero(a / 2);
    }
  }

  lemma {:induction false} OrCommutes(a: nat, b: nat)
    ensures Or(a, b) == Or(b, a)
    decreases a + b
  {
    if a > 0 || b > 0 {
      OrCommutes(a / 2, b / 2);
    }
  }

  lemma {:induction false} OrBound(a: nat, b: nat, k: nat)
    requires a < Pow2(k) && b < Pow2(k)
    ensures Or(a, b) < Pow2(k)
    decreases k
  {
    if k > 0 {
      OrBound(a / 2, b / 2, k - 1);
    }
  }

  lemma {:induction false} AndBound(a: nat, b: nat)
    ensures And(a, b) <= a && And(a, b) <= b
    decreases a + b
  {
    if a > 0 || b > 0 {
      AndBound(a / 2, b / 2);
    }
  }

  lemma {:induction false} AndCommutes(a: nat, b: nat)
    ensures And(a, b) == And(b, a)
    decreases a + b
  {
    if a > 0 || b > 0 {
      AndCommutes(a / 2, b / 2);
    }
  }

  lemma {:induction false} AndSelf(a: nat)
    ensures And(a, a) == a
  {
    if a > 0 {
      AndSelf(a / 2);
    }
  }

  /** Masking with 2^k - 1 keeps the k lowest bits. */
  lemma {:induction false} AndMask(a: nat, k: nat)
    requires Pow2(k) > 0
    ensures And(a, Pow2(k) - 1) == Low(a, k)
    decreases k
  {
    if k == 0 {
      AndBound(a, 0);
    } else {
      Pow2Positive(k - 1);
      AndMask(a / 2, k - 1);
      assert (Pow2(k) - 1) / 2 == Pow2(k - 1) - 1;
    }
  }

  lemma {:induction false} Pow2Positive(k: nat)
    ensures Pow2(k) > 0
    decreases k
  {
    if k > 0 {
      Pow2Positive(k - 1);
    }
  }

  /** The test `x & (x - 1) == 0` holds of a positive number only when it is a power of two. */
  lemma {:induction false} AndPredecessor(x: nat) returns (k: nat)
    requires x > 0 && And(x, x - 1) == 0
    ensures x == Pow2(k)
  {
    if x % 2 == 1 {
      AndSelf(x / 2);
      assert (x - 1) / 2 == x / 2;
      k := 0;
    } else {
      assert (x - 1) / 2 == x / 2 - 1;
      var j := AndPredecessor(x / 2);
      k := j + 1;
    }
  }

  lemma MulLe(x: nat, y: nat, b: nat)
    requires x <= y
    ensures x * b <= y * b
  {
    assert y * b == x * b + (y - x) * b;
  }

  lemma QuotientAtMost(x: nat, d: nat, k: nat)
    requires d > 0 && x <= k * d
    ensures 0 <= x / d <= k
  {
    var q := x / d;
    assert x == q * d + x % d;
    if q > k {
      MulLe(k + 1, q, d);
    }
  }

  lemma QuotientBelow(x: nat, d: nat, k: nat)
    requires d > 0 && x < k * d
    ensures 0 <= x / d < k
  {
    var q := x / d;
    assert x == q * d + x % d;
    if q >= k {
      MulLe(k, q, d);
    }
  }

  lemma QuotientMonotone(x: nat, y: nat, d: nat)
    requires d > 0 && x <= y
    ensures 0 <= x / d <= y / d
  {
    assert x == x / d * d + x % d && y == y / d * d + y % d;
    FloorsOrdered(x / d, x % d, y / d, y % d, d);
  }

  lemma FloorsOrdered(p: nat, r: nat, q: nat, s: nat, d: nat)
    requires s < d && p * d + r <= q * d + s
    ensures p <= q
  {
    if p > q {
      MulLe(q + 1, p, d);
    }
  }

  /** Quotient and remainder are the only pair that satisfies Euclid's equation. */
  lemma DivModUnique(a: nat, b: nat, q: nat, r: nat)
    requires a == q * b + r && r < b
    ensures q == a / b && r == a % b
  {
    var q', r' := a / b, a % b;
    assert a == q' * b + r';
    if q < q' {
      MulLe(q + 1, q', b);
      assert false;
    } else if q' < q {
      MulLe(q' + 1, q, b);
      assert false;
    }
  }

  // ----- 64-bit multiplication -----

  /** A product that is cut to 64 bits comes out the same if a factor was cut before. */
  lemma CutProduct(d: nat, p: nat)
    ensures (d % 0x1_0000_0000_0000_0000) * p % 0x1_0000_0000_0000_0000 == d * p % 0x1_0000_0000_0000_0000
  {
    var w := 0x1_0000_0000_0000_0000;
    var q, r := d / w, d % w;
    assert d * p == (q * p) * w + r * p by {
      ProductOfSum(q, w, r, p);
    }
    SameResidue(q * p, r * p, w);
  }

  lemma ProductOfSum(q: nat, w: nat, r: nat, p: nat)
    ensures (q * w + r) * p == (q * p) * w + r * p
  {
  }

  lemma SameResidue(m: nat, x: nat, w: nat)
    requires w > 0
    ensures (m * w + x) % w == x % w
  {
    assert m * w + x == (m + x / w) * w + x % w;
    DivModUnique(m * w + x, w, m + x / w, x % w);
  }
}
