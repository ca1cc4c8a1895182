/**
 The unsigned 64-bit divider for ARM. Every 64-bit number is a pair of 32-bit registers,
 least significant word first; registers are the local variables of the methods.
 */
module Uldivmod {
  import opened Words

  function Val(lo: Word, hi: Word): (v: DWord)
  {
    hi * 0x1_0000_0000 + lo
  }

  // ----- instructions -----

  /** The number of significant bits. */
  function BitLength(v: nat): nat {
    if v == 0 then 0 else 1 + BitLength(v / 2)
  }

  lemma {:induction false} BitLengthBounds(v: nat)
    ensures v < Pow2(BitLength(v))
    ensures v > 0 ==> BitLength(v) > 0 && Pow2(BitLength(v) - 1) <= v
  {
    if v > 0 {
      BitLengthBounds(v / 2);
    }
  }

  lemma {:induction false} BitLengthAtMost(v: nat, k: nat)
    requires v < Pow2(k)
    ensures BitLength(v) <= k
  {
    BitLengthBounds(v);
    if BitLength(v) > k {
      ShlMonotone(1, k, BitLength(v) - 1);
    }
  }

  lemma {:induction false} BitLengthUnique(v: nat, n: nat)
    requires v < Pow2(n) && n > 0 && Pow2(n - 1) <= v
    ensures BitLength(v) == n
  {
    BitLengthBounds(v);
    BitLengthAtMost(v, n);
    if BitLength(v) < n {
      ShlMonotone(1, BitLength(v), n - 1);
    }
  }

  /** The clz instruction. */
  function Clz(w: Word): (c: Word)
    ensures c == 32 - BitLength(w) <= 32
  {
    Shl32(1);
    BitLengthAtMost(w, 32);
    32 - BitLength(w)
  }

  /** Logical shift left by a register, whose bottom byte is the amount. */
  function Lsl(w: Word, amount: Word): (r: Word)
    ensures amount < 0x100 ==> r == ShiftLeft(w, amount)
  {
    ShiftLeft(w, amount % 0x100)
  }

  /** Logical shift right by a register, whose bottom byte is the amount. */
  function Lsr(w: Word, amount: Word): (r: Word)
    ensures amount < 0x100 ==> r == ShiftRight(w, amount)
  {
    ShiftRight(w, amount % 0x100)
  }

  function ShiftLeft(w: Word, s: nat): Word
    decreases s
  {
    if s == 0 then w
    else
      var doubled := 2 * ShiftLeft(w, s - 1);
      if doubled < 0x1_0000_0000 then doubled else doubled - 0x1_0000_0000
  }

  function ShiftRight(w: Word, s: nat): Word
    decreases s
  {
    if s == 0 then w else ShiftRight(w, s - 1) / 2
  }

  function Orr(a: Word, b: Word): (r: Word)
    ensures r == Or(a, b)
  {
    Shl32(1);
    OrBound(a, b, 32);
    Or(a, b)
  }

  function AndWord(a: Word, b: Word): (r: Word)
    ensures r == And(a, b)
  {
    AndBound(a, b);
    And(a, b)
  }

  // ----- single-word shifts -----

  /** A left shift splits the shifted number into the word that stays and what is moved out. */
  lemma {:induction false} ShiftLeftValue(w: Word, s: nat) returns (out: nat)
    ensures Shl(w, s) == out * 0x1_0000_0000 + ShiftLeft(w, s)
    decreases s
  {
    if s == 0 {
      out := 0;
    } else {
      out := ShiftLeftValue(w, s - 1);
      out := 2 * out + if 2 * ShiftLeft(w, s - 1) < 0x1_0000_0000 then 0 else 1;
    }
  }

  lemma {:induction false} ShiftRightValue(w: Word, s: nat)
    ensures ShiftRight(w, s) == Shr(w, s)
    decreases s
  {
    if s > 0 {
      ShiftRightValue(w, s - 1);
    }
  }

  /** What a left shift by d moves out of the word is what a right shift by 32 - d keeps. */
  lemma ShiftedOut(w: Word, d: nat)
    requires d <= 32
    ensures Shl(w, d) == ShiftRight(w, 32 - d) * 0x1_0000_0000 + ShiftLeft(w, d)
    ensures ShiftRight(w, 32 - d) < Pow2(d)
  {
    var out := ShiftLeftValue(w, d);
    DivModUnique(Shl(w, d), 0x1_0000_0000, out, ShiftLeft(w, d));
    ShiftRightKeeps(w, d);
    ShlWordBound(w, d);
  }

  lemma {:induction false} ShlWordBound(w: Word, d: nat)
    ensures Shl(w, d) < Pow2(d) * 0x1_0000_0000
    decreases d
  {
    if d > 0 {
      ShlWordBound(w, d - 1);
    }
  }

  lemma {:induction false} ShiftRightKeeps(w: Word, d: nat)
    requires d <= 32
    ensures ShiftRight(w, 32 - d) == Shl(w, d) / 0x1_0000_0000
    decreases 32 - d
  {
    if d == 32 {
      Shl32(w);
    } else {
      ShiftRightKeeps(w, d + 1);
    }
  }

  /** A left shift leaves the low bits clear. */
  lemma {:induction false} ShiftLeftMultiple(w: Word, s: nat) returns (z: nat)
    requires s <= 32
    ensures ShiftLeft(w, s) == Shl(z, s)
    decreases s
  {
    if s == 0 {
      z := w;
    } else {
      z := ShiftLeftMultiple(w, s - 1);
      if Shl(z, s) >= 0x1_0000_0000 {
        var p := Pow2(32 - s);
        Shl32(1);
        ShlShl(1, 32 - s, s);
        ShlOrder(z, p, s);
        ShlAdd(z - p, p, s);
        z := z - p;
      }
    }
  }

  lemma {:induction false} ShiftRightGone(w: Word, s: nat)
    requires s >= 32
    ensures ShiftRight(w, s) == 0
    decreases s
  {
    if s == 32 {
      ShiftedOut(w, 0);
    } else {
      ShiftRightGone(w, s - 1);
    }
  }

  lemma {:induction false} ShiftLeftGone(w: Word, s: nat)
    requires s >= 32
    ensures ShiftLeft(w, s) == 0
    decreases s
  {
    if s == 32 {
      ShiftedOut(w, 32);
      Shl32(w);
    } else {
      ShiftLeftGone(w, s - 1);
    }
  }

  // ----- register pairs -----

  /** The leading-zero count that the two clz and the conditional add leave in one register. */
  function Clz64(lo: Word, hi: Word): (c: Word)
    ensures c == 64 - BitLength(Val(lo, hi)) <= 64
  {
    ClzPair(lo, hi);
    if hi == 0 then Clz(hi) + Clz(lo) else Clz(hi)
  }

  lemma {:induction false} ClzPair(lo: Word, hi: Word)
    ensures hi == 0 ==> Clz(hi) + Clz(lo) == 64 - BitLength(Val(lo, hi))
    ensures hi != 0 ==> Clz(hi) == 64 - BitLength(Val(lo, hi))
  {
    if hi != 0 {
      var n := BitLength(hi);
      BitLengthBounds(hi);
      assert Val(lo, hi) < Pow2(n + 32) by {
        Pow2Times32(n);
      }
      assert Pow2(n + 31) <= Val(lo, hi) by {
        Pow2Times32(n - 1);
      }
      BitLengthUnique(Val(lo, hi), n + 32);
    }
  }

  lemma Pow2Times32(n: nat)
    ensures Pow2(n + 32) == Pow2(n) * 0x1_0000_0000
  {
    ShlShl(1, n, 32);
    Shl32(Pow2(n));
  }

  /**
   The shift of a register pair left by `d`: the `mi` instructions run when d < 32, the `pl`
   instruction otherwise, and the low word is shifted last.
   */
  function ShiftPair(lo: Word, hi: Word, d: Word): (r: (Word, Word))
    requires 0 < d < 64
    requires Shl(Val(lo, hi), d) < 0x1_0000_0000_0000_0000
    ensures Val(r.0, r.1) == Shl(Val(lo, hi), d)
  {
    if d < 32 then
      ShiftWithin(lo, hi, d);
      (Lsl(lo, d), Orr(Lsl(hi, d), Lsr(lo, 32 - d)))
    else
      ShiftAcross(lo, hi, d);
      (Lsl(lo, d), Lsl(lo, d - 32))
  }

  lemma ShlVal(lo: Word, hi: Word, d: nat)
    ensures Shl(Val(lo, hi), d) == Shl(hi, d) * 0x1_0000_0000 + Shl(lo, d)
  {
    ShlAdd(hi * 0x1_0000_0000, lo, d);
    Shl32(hi);
    ShlShl(hi, 32, d);
    ShlShl(hi, d, 32);
    Shl32(Shl(hi, d));
  }

  lemma ShiftWithin(lo: Word, hi: Word, d: Word)
    requires 0 < d < 32
    requires Shl(Val(lo, hi), d) < 0x1_0000_0000_0000_0000
    ensures Val(Lsl(lo, d), Orr(Lsl(hi, d), Lsr(lo, 32 - d))) == Shl(Val(lo, hi), d)
  {
    ShlVal(lo, hi, d);
    ShiftedOut(lo, d);
    var high := ShiftWithinHigh(lo, hi, d);
    assert Val(ShiftLeft(lo, d), high) == Shl(Val(lo, hi), d);
  }

  lemma ShiftWithinHigh(lo: Word, hi: Word, d: nat) returns (high: Word)
    requires 0 < d < 32
    requires Shl(hi, d) * 0x1_0000_0000 + Shl(lo, d) < 0x1_0000_0000_0000_0000
    ensures high == Orr(ShiftLeft(hi, d), ShiftRight(lo, 32 - d)) == Shl(hi, d) + ShiftRight(lo, 32 - d)
  {
    ShiftedOut(lo, d);
    var out := ShiftLeftValue(hi, d);
    NothingOut(Shl(hi, d), ShiftRight(lo, 32 - d), ShiftLeft(lo, d), out, ShiftLeft(hi, d));
    assert ShiftLeft(hi, d) == Shl(hi, d);
    OrDisjoint(hi, ShiftRight(lo, 32 - d), d);
    high := Orr(ShiftLeft(hi, d), ShiftRight(lo, 32 - d));
  }

  lemma NothingOut(h: nat, carried: nat, low: Word, out: nat, high: Word)
    requires h == out * 0x1_0000_0000 + high
    requires h * 0x1_0000_0000 + carried * 0x1_0000_0000 + low < 0x1_0000_0000_0000_0000
    ensures out == 0
  {
  }

  lemma ShiftAcross(lo: Word, hi: Word, d: Word)
    requires 32 <= d < 64
    requires Shl(Val(lo, hi), d) < 0x1_0000_0000_0000_0000
    ensures Val(Lsl(lo, d), Lsl(lo, d - 32)) == Shl(Val(lo, hi), d)
  {
    ShlVal(lo, hi, d);
    AtLeastOneWord(hi, d);
    assert Shl(hi, d) == 0;
    ShiftLeftGone(lo, d);
    assert Shl(lo, d) == Shl(lo, d - 32) * 0x1_0000_0000 by {
      ShlShl(lo, d - 32, 32);
      Shl32(Shl(lo, d - 32));
    }
    var out := ShiftLeftValue(lo, d - 32);
    NothingOut(Shl(lo, d - 32), 0, 0, out, ShiftLeft(lo, d - 32));
  }

  lemma AtLeastOneWord(hi: Word, d: nat)
    requires d >= 32
    ensures if hi > 0 then Shl(hi, d) >= 0x1_0000_0000 else Shl(hi, d) == 0
  {
    ShlMonotone(hi, 32, d);
    Shl32(hi);
    ShlZero(d);
  }

  /** subs/sbc: 64-bit subtraction with the borrow carried between the words. */
  function SubPair(a0: Word, a1: Word, b0: Word, b1: Word): (r: (Word, Word))
    requires Val(a0, a1) >= Val(b0, b1)
    ensures Val(r.0, r.1) == Val(a0, a1) - Val(b0, b1)
  {
    var borrow := if a0 < b0 then 1 else 0;
    ((a0 - b0) % 0x1_0000_0000, (a1 - b1 - borrow) % 0x1_0000_0000)
  }

  /** movs hi, lsr #1 followed by rrx on the low word: the carry moves into its top bit. */
  function HalvePair(lo: Word, hi: Word): (r: (Word, Word))
    ensures Val(r.0, r.1) == Val(lo, hi) / 2
  {
    var carry := hi % 2;
    (carry * 0x8000_0000 + lo / 2, hi / 2)
  }

  /** cmp/cmpeq on the two words, as the unsigned comparison of the pairs. */
  predicate AtLeast(a0: Word, a1: Word, b0: Word, b1: Word)
    ensures AtLeast(a0, a1, b0, b1) <==> Val(a0, a1) >= Val(b0, b1)
  {
    if a1 == b1 then a0 >= b0 else a1 >= b1
  }

  /** Adding one quotient bit that lies below all the bits already set. */
  lemma OrQuotientBit(d0: Word, d1: Word, c0: Word, c1: Word, x: nat, j: nat)
    requires j < 64 && Val(c0, c1) == Pow2(j) && Val(d0, d1) == Shl(x, j + 1)
    ensures Val(Orr(d0, c0), Orr(d1, c1)) == Val(d0, d1) + Val(c0, c1)
  {
    if j < 32 {
      LowQuotientBit(d0, d1, c0, c1, x, j);
    } else {
      HighQuotientBit(d0, d1, c0, c1, x, j);
    }
  }

  lemma LowQuotientBit(d0: Word, d1: Word, c0: Word, c1: Word, x: nat, j: nat)
    requires j < 32 && Val(c0, c1) == Pow2(j) && Val(d0, d1) == Shl(x, j + 1)
    ensures Or(d0, c0) == d0 + c0 && Or(d1, c1) == d1 + c1
  {
    Shl32(1);
    ShlOrder(0, 1, j);
    ShlZero(j);
    ShlMonotone(1, j + 1, 32);
    var y := LowWordMultiple(d0, d1, x, j + 1);
    OrDisjoint(y, c0, j + 1);
    OrZero(d1);
  }

  lemma LowWordMultiple(d0: Word, d1: Word, x: nat, k: nat) returns (y: nat)
    requires k <= 32 && Val(d0, d1) == Shl(x, k)
    ensures d0 == Shl(y, k)
  {
    var h := Shl(d1, 32 - k);
    assert Shl(h, k) == d1 * 0x1_0000_0000 by {
      Shl32(d1);
      ShlShl(d1, 32 - k, k);
    }
    y := ShlSub(x, h, k, d0);
  }

  lemma ShlSub(x: nat, h: nat, k: nat, d: nat) returns (y: nat)
    requires Shl(x, k) == Shl(h, k) + d
    ensures d == Shl(y, k)
  {
    ShlOrder(x, h, k);
    y := x - h;
    ShlAdd(y, h, k);
  }

  lemma HighQuotientBit(d0: Word, d1: Word, c0: Word, c1: Word, x: nat, j: nat)
    requires 32 <= j < 64 && Val(c0, c1) == Pow2(j) && Val(d0, d1) == Shl(x, j + 1)
    ensures Or(d0, c0) == d0 + c0 && Or(d1, c1) == d1 + c1
  {
    assert c0 == 0 && c1 == Pow2(j - 32) by {
      Pow2Times32(j - 32);
    }
    assert d0 == 0 && d1 == Shl(x, j - 31) by {
      ShlShl(x, j - 31, 32);
      Shl32(Shl(x, j - 31));
    }
    Pow2Positive(j - 32);
    OrDisjoint(x, c1, j - 31);
    OrZero(d0);
  }

  // ----- L_div_64_64 and L_subtract -----

  /** max(0, clz B - clz A) */
  ghost function RoundsAfterFirst(a: DWord, b: DWord): nat {
    var shift := BitLength(a) - BitLength(b);
    if shift > 0 then shift else 0
  }

  /** Shifting the divisor so that its top bit meets the dividend's makes it more than half the dividend. */
  lemma Aligned(a: DWord, b: DWord, s: nat)
    requires b > 0 && a > 0
    requires s == BitLength(a) - BitLength(b)
    ensures a < 2 * Shl(b, s)
    ensures Shl(b, s) < 0x1_0000_0000_0000_0000
  {
    var m := BitLength(b);
    BitLengthBounds(a);
    BitLengthBounds(b);
    ShlOrder(b, Pow2(m), s);
    ShlShl(1, m, s);
    ShlOrder(b, Pow2(m - 1), s);
    ShlShl(1, m - 1, s);
    assert Pow2(m - 1 + s + 1) == 2 * Pow2(m - 1 + s);
    DWordBound(a);
  }

  lemma DWordBound(a: DWord)
    ensures Pow2(BitLength(a)) <= 0x1_0000_0000_0000_0000
  {
    Pow2Times32(32);
    Shl32(1);
    BitLengthAtMost(a, 64);
    ShlMonotone(1, BitLength(a), 64);
  }

  lemma NotShorter(a: DWord, b: DWord)
    requires b > 0 && BitLength(a) <= BitLength(b)
    ensures a < 2 * b
  {
    BitLengthBounds(a);
    BitLengthBounds(b);
    ShlMonotone(1, BitLength(a), BitLength(b));
  }

  lemma OneShifted(s: nat)
    requires s < 64
    ensures Pow2(s) < 0x1_0000_0000_0000_0000
  {
    Pow2Times32(32);
    Shl32(1);
    ShlMonotone(1, s + 1, 64);
    Pow2Positive(s);
  }

  /**
   L_div_64_64 up to L_done_shift: bring the top bit of the divisor up to the dividend's, and
   set the quotient bit C that belongs to this shift.
   */
  method AlignDivisor(a0: Word, a1: Word, divisorLow: Word, divisorHigh: Word)
    returns (b0: Word, b1: Word, c0: Word, c1: Word, ghost shift: nat)
    requires Val(divisorLow, divisorHigh) != 0
    ensures shift == RoundsAfterFirst(Val(a0, a1), Val(divisorLow, divisorHigh)) < 64
    ensures Val(b0, b1) == Shl(Val(divisorLow, divisorHigh), shift) && Val(c0, c1) == Pow2(shift)
    ensures Val(a0, a1) < 2 * Val(b0, b1)
  {
    b0, b1, c0, c1, shift := divisorLow, divisorHigh, 1, 0, 0;
    var clzA, clzB := Clz64(a0, a1), Clz64(b0, b1);
    if clzB > clzA {
      var d := clzB - clzA;
      shift := d;
      Aligned(Val(a0, a1), Val(b0, b1), d);
      var b := ShiftPair(b0, b1, d);
      b0, b1 := b.0, b.1;
      OneShifted(d);
      var c := ShiftPair(c0, c1, d);
      c0, c1 := c.0, c.1;
    } else {
      NotShorter(Val(a0, a1), Val(b0, b1));
    }
  }

  /**
   What a round of L_subtract keeps, over the numbers in the register pairs. The shifted divisor is
   the divisor times C, it is more than half of what is left of the dividend, and the quotient has
   only bits above C; x is the quotient without the bits that are still to come.
   */
  ghost predicate RoundInvariant(dividend: nat, divisor: nat, a: nat, b: nat, c: nat, d: nat, x: nat, j: nat)
  {
    && j < 64
    && c == Pow2(j)
    && b == Shl(divisor, j)
    && d == Shl(x, j + 1)
    && a < 2 * b
    && dividend == d * divisor + a
  }

  /** What holds at L_update, when the bit of this round is settled. */
  ghost predicate UpdateInvariant(dividend: nat, divisor: nat, a: nat, b: nat, c: nat, d: nat, x: nat, j: nat)
  {
    && j < 64
    && c == Pow2(j)
    && b == Shl(divisor, j)
    && d == Shl(x, j)
    && a < b
    && dividend == d * divisor + a
  }

  lemma RoundStart(dividend: nat, divisor: nat, b: nat, c: nat, j: nat)
    requires j < 64 && c == Pow2(j) && b == Shl(divisor, j) && dividend < 2 * b
    ensures RoundInvariant(dividend, divisor, dividend, b, c, 0, 0, j)
  {
    ShlZero(j + 1);
  }

  lemma SkipBit(dividend: nat, divisor: nat, a: nat, b: nat, c: nat, d: nat, x: nat, j: nat)
    requires RoundInvariant(dividend, divisor, a, b, c, d, x, j) && a < b
    ensures UpdateInvariant(dividend, divisor, a, b, c, d, 2 * x, j)
  {
    ShlDouble(x, j);
  }

  lemma TakeBit(dividend: nat, divisor: nat, a: nat, b: nat, c: nat, d: nat, x: nat, j: nat)
    requires RoundInvariant(dividend, divisor, a, b, c, d, x, j) && a >= b
    ensures UpdateInvariant(dividend, divisor, a - b, b, c, d + c, 2 * x + 1, j)
  {
    ShlDouble(x, j);
    ShlAdd(2 * x, 1, j);
    ShlProduct(divisor, j);
    assert (d + c) * divisor == d * divisor + c * divisor;
  }

  lemma NextBit(dividend: nat, divisor: nat, a: nat, b: nat, c: nat, d: nat, x: nat, j: nat)
    requires UpdateInvariant(dividend, divisor, a, b, c, d, x, j) && c / 2 != 0
    ensures j > 0 && RoundInvariant(dividend, divisor, a, b / 2, c / 2, d, x, j - 1)
  {
  }

  lemma Finished(dividend: nat, divisor: nat, a: nat, b: nat, c: nat, d: nat, x: nat, j: nat)
    requires divisor > 0 && UpdateInvariant(dividend, divisor, a, b, c, d, x, j)
    requires a == 0 || c / 2 == 0
    ensures dividend == d * divisor + a && a < divisor
  {
    if j > 0 {
      Pow2Positive(j - 1);
    }
  }

  /** One round of L_subtract up to L_update: the divisor is taken off, if it fits, and the bit is set. */
  method SubtractBit(a0: Word, a1: Word, b0: Word, b1: Word, c0: Word, c1: Word, d0: Word, d1: Word,
                     ghost dividend: nat, ghost divisor: nat, ghost x: nat, ghost j: nat)
    returns (r0: Word, r1: Word, q0: Word, q1: Word, ghost newX: nat)
    requires RoundInvariant(dividend, divisor, Val(a0, a1), Val(b0, b1), Val(c0, c1), Val(d0, d1), x, j)
    ensures UpdateInvariant(dividend, divisor, Val(r0, r1), Val(b0, b1), Val(c0, c1), Val(q0, q1), newX, j)
  {
    if AtLeast(a0, a1, b0, b1) {
      TakeBit(dividend, divisor, Val(a0, a1), Val(b0, b1), Val(c0, c1), Val(d0, d1), x, j);
      OrQuotientBit(d0, d1, c0, c1, x, j);
      var a := SubPair(a0, a1, b0, b1);
      return a.0, a.1, Orr(d0, c0), Orr(d1, c1), 2 * x + 1;
    } else {
      SkipBit(dividend, divisor, Val(a0, a1), Val(b0, b1), Val(c0, c1), Val(d0, d1), x, j);
      return a0, a1, d0, d1, 2 * x;
    }
  }

  /** L_subtract, given what the alignment has set up: one quotient bit a round. */
  method ShiftSubtract(dividendLow: Word, dividendHigh: Word, shiftedLow: Word, shiftedHigh: Word,
                       bitLow: Word, bitHigh: Word,
                       ghost divisor: DWord, ghost shift: nat)
    returns (q0: Word, q1: Word, r0: Word, r1: Word, ghost rounds: nat)
    requires divisor > 0 && shift < 64
    requires Val(shiftedLow, shiftedHigh) == Shl(divisor, shift) && Val(bitLow, bitHigh) == Pow2(shift)
    requires Val(dividendLow, dividendHigh) < 2 * Val(shiftedLow, shiftedHigh)
    ensures Val(dividendLow, dividendHigh) == Val(q0, q1) * divisor + Val(r0, r1)
    ensures Val(r0, r1) < divisor
    ensures rounds <= shift + 1
  {
    ghost var dividend := Val(dividendLow, dividendHigh);
    var a0, a1, b0, b1, c0, c1 := dividendLow, dividendHigh, shiftedLow, shiftedHigh, bitLow, bitHigh;
    var d0: Word, d1: Word := 0, 0;
    ghost var j: nat, x: nat := shift, 0;
    RoundStart(dividend, divisor, Val(b0, b1), Val(c0, c1), j);
    rounds := 0;
    while true
      invariant RoundInvariant(dividend, divisor, Val(a0, a1), Val(b0, b1), Val(c0, c1), Val(d0, d1), x, j)
      invariant rounds + j == shift
      decreases j
    {
      rounds := rounds + 1;
      a0, a1, d0, d1, x := SubtractBit(a0, a1, b0, b1, c0, c1, d0, d1, dividend, divisor, x, j);
      if a0 == 0 && a1 == 0 {
        Finished(dividend, divisor, Val(a0, a1), Val(b0, b1), Val(c0, c1), Val(d0, d1), x, j);
        break;
      }
      var c := HalvePair(c0, c1);
      if c.0 == 0 && c.1 == 0 {
        Finished(dividend, divisor, Val(a0, a1), Val(b0, b1), Val(c0, c1), Val(d0, d1), x, j);
        break;
      }
      NextBit(dividend, divisor, Val(a0, a1), Val(b0, b1), Val(c0, c1), Val(d0, d1), x, j);
      c0, c1 := c.0, c.1;
      var b := HalvePair(b0, b1);
      b0, b1 := b.0, b.1;
      j := j - 1;
    }
    return d0, d1, a0, a1, rounds;
  }

  // ----- L_div_32_32 -----

  /** __aeabi_uidivmod, the 32-bit primitive: quotient and remainder. */
  function Uidivmod(a: Word, b: Word): (r: (Word, Word))
    requires b != 0
    ensures a == r.0 * b + r.1 && r.1 < b
  {
    MulLe(1, b, a);
    QuotientAtMost(a, b, a);
    (a / b, a % b)
  }

  // ----- L_pow2 -----

  /** Right shift of a register pair by k < 32 through its two words. */
  lemma PairShiftedRight(a0: Word, a1: Word, k: nat)
    requires k < 32
    ensures Val(Orr(ShiftRight(a0, k), ShiftLeft(a1, 32 - k)), ShiftRight(a1, k)) == Shr(Val(a0, a1), k)
  {
    var d := 32 - k;
    ShiftedOut(a0, d);
    ShiftedOut(a1, d);
    var z := ShiftLeftMultiple(a1, d);
    OrDisjoint(z, ShiftRight(a0, k), d);
    assert Shl(Shl(a1, d), k) == a1 * 0x1_0000_0000 by {
      ShlShl(a1, d, k);
      Shl32(a1);
    }
    ShrShlAdd(Shl(a1, d), a0, k);
    ShiftRightValue(a0, k);
  }

  /** With the divisor 2^k in the low word: masking gives the k lowest bits. */
  lemma LowPowerOfTwo(a0: Word, a1: Word, b0: Word, b1: Word, c0: Word, c1: Word) returns (k: nat)
    requires b0 != 0 && Val(c0, c1) == Val(b0, b1) - 1
    requires And(c0, b0) == 0 && And(b1, c1) == 0
    ensures b1 == 0 && b0 == Pow2(k) && k == 31 - Clz(b0)
    ensures Val(AndWord(a0, c0), AndWord(a1, c1)) == Low(Val(a0, a1), k)
  {
    BorrowStaysLow(b0, b1, c0, c1);
    AndSelf(b1);
    AndCommutes(c0, b0);
    k := AndPredecessor(b0);
    ClzOfPow2(b0, k);
    AndMask(a0, k);
    AndBound(a1, 0);
    LowOfPair(a0, a1, k);
    NoHighWord(AndWord(a0, c0));
  }

  lemma BorrowStaysLow(b0: Word, b1: Word, c0: Word, c1: Word)
    requires b0 != 0 && Val(c0, c1) == Val(b0, b1) - 1
    ensures c0 == b0 - 1 && c1 == b1
  {
  }

  lemma NoHighWord(w: Word)
    ensures Val(w, 0) == w
  {
  }

  lemma ClzOfPow2(w: Word, k: nat)
    requires w == Pow2(k)
    ensures k == 31 - Clz(w)
  {
    Pow2Positive(k);
    BitLengthUnique(w, k + 1);
  }

  lemma LowOfPair(a0: Word, a1: Word, k: nat)
    requires k <= 32
    ensures Low(Val(a0, a1), k) == Low(a0, k)
  {
    Shl32(a1);
    ShlShl(a1, 32 - k, k);
    LowShlAdd(Shl(a1, 32 - k), a0, k);
  }

  lemma {:induction false} LowShlAdd(y: nat, b: nat, k: nat)
    ensures Low(Shl(y, k) + b, k) == Low(b, k)
    decreases k
  {
    if k > 0 {
      HalfOfSum(Shl(y, k - 1), b);
      LowShlAdd(y, b / 2, k - 1);
    }
  }

  lemma HalfOfSum(m: nat, b: nat)
    ensures (2 * m + b) / 2 == m + b / 2 && (2 * m + b) % 2 == b % 2
  {
  }

  /** With the divisor 2^(k + 32): the low word of the dividend is all remainder. */
  lemma HighPowerOfTwo(a0: Word, a1: Word, b1: Word, c0: Word, c1: Word) returns (k: nat)
    requires b1 != 0 && Val(c0, c1) == Val(0, b1) - 1
    requires And(b1, c1) == 0
    ensures b1 == Pow2(k) && k == 31 - Clz(b1)
    ensures AndWord(a0, c0) == a0 && AndWord(a1, c1) == Low(a1, k)
  {
    assert c0 == 0xffff_ffff && c1 == b1 - 1;
    k := AndPredecessor(b1);
    Pow2Positive(k);
    BitLengthUnique(b1, k + 1);
    AndMask(a1, k);
    MaskWord(a0);
  }

  lemma MaskWord(w: Word)
    ensures And(w, 0xffff_ffff) == w
  {
    var k: nat := 32;
    Shl32(1);
    AndMask(w, k);
    ShrLow(w, k);
    ShiftRightGone(w, k);
    ShiftRightValue(w, k);
    ShlZero(k);
  }

  lemma DivisionByPow2(a: nat, b: nat, k: nat)
    requires b == Pow2(k)
    ensures a == Shr(a, k) * b + Low(a, k) && Low(a, k) < b
  {
    ShrLow(a, k);
    ShlProduct(Shr(a, k), k);
  }

  lemma HighWordDivision(a0: Word, a1: Word, b1: Word, q: Word, r: Word)
    requires a1 == q * b1 + r && r < b1
    ensures Val(a0, a1) == Val(q, 0) * Val(0, b1) + Val(a0, r)
    ensures Val(a0, r) < Val(0, b1)
  {
    assert q * (b1 * 0x1_0000_0000) == (q * b1) * 0x1_0000_0000;
  }

  /** L_pow2: the remainder by masking with B - 1, the quotient by shifting. */
  method DividePow2(a0: Word, a1: Word, b0: Word, b1: Word, c0: Word, c1: Word)
    returns (q0: Word, q1: Word, r0: Word, r1: Word)
    requires Val(b0, b1) != 0 && Val(c0, c1) == Val(b0, b1) - 1
    requires And(c0, b0) == 0 && And(b1, c1) == 0
    ensures Val(a0, a1) == Val(q0, q1) * Val(b0, b1) + Val(r0, r1)
    ensures Val(r0, r1) < Val(b0, b1)
  {
    r0, r1 := AndWord(a0, c0), AndWord(a1, c1);
    var d0 := Clz(b0);
    if d0 <= 31 {
      var d1 := d0 + 1;
      d0 := 31 - d0;
      ghost var k := LowPowerOfTwo(a0, a1, b0, b1, c0, c1);
      PairShiftedRight(a0, a1, k);
      DivisionByPow2(Val(a0, a1), b0, k);
      q0 := Orr(Lsr(a0, d0), Lsl(a1, d1));
      q1 := Lsr(a1, d0);
    } else {
      ghost var k := HighPowerOfTwo(a0, a1, b1, c0, c1);
      d0 := 31 - Clz(b1);
      q0 := Lsr(a1, d0);
      d0 := d0 + 32;
      q1 := Lsr(a1, d0);
      ShiftRightValue(a1, k);
      ShiftRightGone(a1, d0);
      DivisionByPow2(a1, b1, k);
      HighWordDivision(a0, a1, b1, q0, r1);
    }
  }

  // ----- dispatch -----

  /**
   __aeabi_uldivmod: 64-bit unsigned division of register pairs. Dividing by zero answers zero;
   otherwise the result is the quotient and the remainder of the numbers the pairs stand for.
   */
  method Divide(a0: Word, a1: Word, b0: Word, b1: Word)
    returns (q0: Word, q1: Word, r0: Word, r1: Word, ghost rounds: nat)
    ensures Val(b0, b1) == 0 ==> Val(q0, q1) == Val(r0, r1) == 0
    ensures Val(b0, b1) != 0 ==> Val(q0, q1) == Val(a0, a1) / Val(b0, b1)
    ensures Val(b0, b1) != 0 ==> Val(r0, r1) == Val(a0, a1) % Val(b0, b1)
    ensures rounds <= RoundsAfterFirst(Val(a0, a1), Val(b0, b1)) + 1
  {
    rounds := 0;
    if b0 == 0 && b1 == 0 {
      return 0, 0, 0, 0, 0;
    }
    var c := SubPair(b0, b1, 1, 0);
    if AndWord(c.0, b0) == 0 && AndWord(b1, c.1) == 0 {
      q0, q1, r0, r1 := DividePow2(a0, a1, b0, b1, c.0, c.1);
    } else if a1 == 0 && b1 == 0 {
      var qr := Uidivmod(a0, b0);
      q0, q1, r0, r1 := qr.0, 0, qr.1, 0;
    } else {
      var s0, s1, bit0, bit1;
      ghost var shift;
      s0, s1, bit0, bit1, shift := AlignDivisor(a0, a1, b0, b1);
      q0, q1, r0, r1, rounds := ShiftSubtract(a0, a1, s0, s1, bit0, bit1, Val(b0, b1), shift);
    }
    DivModUnique(Val(a0, a1), Val(b0, b1), Val(q0, q1), Val(r0, r1));
  }
}
