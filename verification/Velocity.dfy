/**
 The velocity of a stroke from its time, on the linear curve, in the 32-bit arithmetic of the module.
 */
module Velocity {
  import opened Words

  /** stime64_to_utime32: nanoseconds to units of 2^10 nanoseconds, cut to 32 bits. */
  function ToUnits(nanoseconds: int): Word {
    nanoseconds / 0x400 % 0x1_0000_0000
  }

  /** time_to_velocity on the linear curve, with the thresholds `min` and `max`. */
  function OfTime(min: Word, max: Word, t: Word): (v: Byte)
  {
    if t <= min then 127
    else if t >= max then 0
    else
      QuotientAtMost(127 * (max - t) % 0x1_0000_0000, max - min, 127);
      127 * (max - t) % 0x1_0000_0000 / (max - min)
  }

  function OfStroke(min: Word, max: Word, nanoseconds: int): Byte {
    OfTime(min, max, ToUnits(nanoseconds))
  }

  /** Velocities are MIDI data bytes, whatever the thresholds. */
  lemma InRange(min: Word, max: Word, t: Word)
    ensures OfTime(min, max, t) <= 127
  {
    if min < t < max {
      QuotientAtMost(127 * (max - t) % 0x1_0000_0000, max - min, 127);
    }
  }

  /** A faster stroke never gives a lower velocity. */
  ghost predicate Monotone(min: Word, max: Word) {
    forall t1: Word, t2: Word :: t1 <= t2 ==> OfTime(min, max, t2) <= OfTime(min, max, t1)
  }

  /** Inside the thresholds, and without overflow, the curve is a quotient. */
  lemma Inside(min: Word, max: Word, t: Word)
    requires min < t < max && 127 * (max - min - 1) < 0x1_0000_0000
    ensures OfTime(min, max, t) == 127 * (max - t) / (max - min)
  {
  }

  /** The curve: 127 up to the lower threshold, 0 from the upper one, and the floor of the straight line between. */
  lemma CurveIs(min: Word, max: Word, t: Word)
    ensures t <= min ==> OfTime(min, max, t) == 127
    ensures t > min && t >= max ==> OfTime(min, max, t) == 0
    ensures min < t < max && 127 * (max - min - 1) < 0x1_0000_0000 ==>
              OfTime(min, max, t) * (max - min) <= 127 * (max - t) < (OfTime(min, max, t) + 1) * (max - min)
  {
    if min < t < max && 127 * (max - min - 1) < 0x1_0000_0000 {
      Inside(min, max, t);
      FloorOf(127 * (max - t), max - min);
    }
  }

  lemma FloorOf(x: nat, d: nat)
    requires d > 0
    ensures x / d * d <= x < (x / d + 1) * d
  {
  }

  lemma NoOverflow(min: Word, max: Word, t1: Word, t2: Word)
    requires min < max && 127 * (max - min - 1) < 0x1_0000_0000 && t1 <= t2
    ensures OfTime(min, max, t2) <= OfTime(min, max, t1)
  {
    InRange(min, max, t2);
    if min < t1 && t2 < max {
      Inside(min, max, t1);
      Inside(min, max, t2);
      QuotientMonotone(127 * (max - t2), 127 * (max - t1), max - min);
    } else {
      InRange(min, max, t1);
    }
  }

  lemma SmallQuotients(x: nat, d: nat)
    requires d > 0
    ensures x < d ==> x / d == 0
    ensures x >= d ==> x / d >= 1
  {
    if x < d {
      DivModUnique(x, d, 0, x);
    } else {
      QuotientMonotone(d, x, d);
      DivModUnique(d, d, 1, 0);
    }
  }

  /**
   Where the product overflows, one unit less of stroke time takes the velocity from at least 1 to 0:
   `k` units below the maximum the product is just under a multiple of 2^32, at k + 1 just above.
   */
  lemma OverflowDrops(min: Word, max: Word, k: nat)
    requires min < max && k + 1 < max - min
    requires 127 * k % 0x1_0000_0000 >= max - min && 127 * (k + 1) % 0x1_0000_0000 < max - min
    ensures OfTime(min, max, max - k) >= 1 && OfTime(min, max, max - (k + 1)) == 0
  {
    SmallQuotients(127 * k % 0x1_0000_0000, max - min);
    SmallQuotients(127 * (k + 1) % 0x1_0000_0000, max - min);
  }

  /** The curve is monotone exactly if the product with the longest time inside it fits 32 bits. */
  lemma MonotoneIff(min: Word, max: Word)
    ensures Monotone(min, max) <==> max <= min || 127 * (max - min - 1) < 0x1_0000_0000
  {
    if max <= min {
    } else if 127 * (max - min - 1) < 0x1_0000_0000 {
      forall t1: Word, t2: Word | t1 <= t2
        ensures OfTime(min, max, t2) <= OfTime(min, max, t1)
      {
        NoOverflow(min, max, t1, t2);
      }
    } else if max - min <= 0xffff_fff0 {
      OverflowDrops(min, max, 33818640);
    } else {
      OverflowDrops(min, max, 270549121);
    }
  }

  /** Without overflow every velocity is attained by some stroke time, if the thresholds are 127 apart. */
  lemma Attained(min: Word, max: Word, v: Byte) returns (t: Word)
    requires max - min >= 127 && 127 * (max - min - 1) < 0x1_0000_0000 && v <= 127
    ensures OfTime(min, max, t) == v
  {
    var d := max - min;
    if v == 127 {
      t := min;
    } else if v == 0 {
      t := max;
    } else {
      var k := (v * d + 126) / 127;
      MulLe(1, v, d);
      MulLe(v, 126, d);
      assert v * d <= 127 * k < v * d + 127;
      t := max - k;
      DivModUnique(127 * k, d, v, 127 * k - v * d);
    }
  }

  /** With closer thresholds the velocity next to the highest is skipped. */
  lemma NotAttained(min: Word, max: Word, t: Word)
    requires max - min < 127
    ensures OfTime(min, max, t) != 126
  {
    if min < t < max {
      Inside(min, max, t);
      QuotientBelow(127 * (max - t), max - min, 126);
    }
  }

  ghost predicate IsAttained(min: Word, max: Word, v: Byte) {
    exists t: Word :: OfTime(min, max, t) == v
  }

  /** Every velocity is attained if and only if the thresholds are at least 127 apart. */
  lemma AttainedIff(min: Word, max: Word)
    requires max <= min || 127 * (max - min - 1) < 0x1_0000_0000
    ensures (forall v: Byte :: v <= 127 ==> IsAttained(min, max, v)) <==> max - min >= 127
  {
    if max - min >= 127 {
      forall v: Byte | v <= 127
        ensures IsAttained(min, max, v)
      {
        var t := Attained(min, max, v);
      }
    } else {
      forall t: Word
        ensures OfTime(min, max, t) != 126
      {
        NotAttained(min, max, t);
      }
      assert !IsAttained(min, max, 126);
    }
  }

  /** Below 2^42 ns the units are of 1024 ns, rounded down. */
  lemma UnitsAre(ns: int)
    requires 0 <= ns < 0x400_0000_0000
    ensures 0x400 * ToUnits(ns) <= ns < 0x400 * (ToUnits(ns) + 1)
  {
    assert 0 <= ns / 0x400 < 0x1_0000_0000;
  }

  lemma UnitsOrdered(ns1: int, ns2: int)
    requires 0 <= ns1 <= ns2 < 0x400_0000_0000
    ensures ToUnits(ns1) <= ToUnits(ns2)
  {
    assert 0 <= ns1 / 0x400 <= ns2 / 0x400 < 0x1_0000_0000;
  }

  /** Strokes below 2^42 ns, a little over 73 minutes, are ordered as their times are. */
  lemma StrokesMonotone(min: Word, max: Word, ns1: int, ns2: int)
    requires Monotone(min, max) && 0 <= ns1 <= ns2 < 0x400_0000_0000
    ensures OfStroke(min, max, ns2) <= OfStroke(min, max, ns1)
  {
    UnitsOrdered(ns1, ns2);
  }

  /** A longer stroke below the bound never gives a higher velocity. */
  ghost predicate OrderedBelow(min: Word, max: Word, bound: nat) {
    forall ns1, ns2 :: 0 <= ns1 <= ns2 < bound ==> OfStroke(min, max, ns2) <= OfStroke(min, max, ns1)
  }

  /** That bound cannot be raised, unless every stroke gives 127. */
  lemma OrderedBelowIff(min: Word, max: Word, bound: nat)
    requires Monotone(min, max)
    ensures OrderedBelow(min, max, bound) <==> bound <= 0x400_0000_0000 || (max <= min && min == 0xffff_ffff)
  {
    if bound <= 0x400_0000_0000 {
      forall ns1, ns2 | 0 <= ns1 <= ns2 < bound
        ensures OfStroke(min, max, ns2) <= OfStroke(min, max, ns1)
      {
        StrokesMonotone(min, max, ns1, ns2);
      }
    } else if min < max || min < 0xffff_ffff {
      var slow: Word := if min < max then max else min + 1;
      UnitsOf(slow);
      UnitsWrap(0);
      assert OfStroke(min, max, slow * 0x400) == 0;
      assert OfStroke(min, max, 0x400_0000_0000) == 127;
    }
  }

  lemma UnitsOf(t: Word)
    ensures ToUnits(t * 0x400) == t
  {
  }

  lemma UnitsWrap(ns: int)
    ensures ToUnits(ns + 0x400_0000_0000) == ToUnits(ns)
  {
    var u := ns / 0x400;
    assert (ns + 0x400_0000_0000) / 0x400 == u + 0x1_0000_0000;
    assert (u + 0x1_0000_0000) % 0x1_0000_0000 == u % 0x1_0000_0000;
  }

  /** Longer ones start over: multiples of 2^42 ns are cut off. */
  lemma StrokesWrap(min: Word, max: Word, ns: int)
    ensures OfStroke(min, max, ns + 0x400_0000_0000) == OfStroke(min, max, ns)
  {
    UnitsWrap(ns);
  }
}
