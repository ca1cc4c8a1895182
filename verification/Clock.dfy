/**
 The MIDI clock: kernel time scaled by a fraction that is built and reduced with trial primes, in
 64-bit arithmetic.
 */
module Clock {
  import opened Words
  import Uldivmod

  const NSEC_PER_SEC: nat := 10_0000_0000

  /** The trial primes, and the 1 that ends the list. */
  const PRIMES: seq<nat> := [7, 5, 3, 2, 1]

  // ----- arithmetic -----

  lemma Cancel(p: nat, x: nat, y: nat)
    requires p > 0 && p * x == p * y
    ensures x == y
  {
  }

  lemma Exactly(n: nat, p: nat)
    requires p > 0 && n % p == 0
    ensures n == p * (n / p)
    ensures p > 1 && n > 0 ==> 0 < n / p < n
  {
    var k := n / p;
    assert n == p * k;
    if p > 1 && k > 0 {
      MulLe(2, p, k);
    }
  }

  lemma Associate3(a: nat, b: nat, c: nat)
    ensures a * (b * c) == (a * b) * c
  {
  }

  ghost predicate Divides(d: nat, n: nat) {
    exists q: nat :: q * d == n
  }

  lemma DividesFactor(p: nat, k: nat, n: nat)
    requires Divides(p * k, n)
    ensures Divides(k, n)
  {
    var q: nat :| q * (p * k) == n;
    assert (q * p) * k == n;
  }

  /** The fraction n / (d * f) is n0 / (d0 * f0), and nothing has overflowed. */
  ghost predicate Exact(n0: nat, k0: nat, n: nat, d: nat, f: nat) {
    n * k0 == n0 * (d * f) && d * f <= k0
  }

  lemma ExactNumerator(n0: nat, k0: nat, n: nat, d: nat, f: nat, p: nat)
    requires p > 0 && Exact(n0, k0, p * n, d, p * f)
    ensures Exact(n0, k0, n, d, f)
  {
    var m := d * f;
    assert d * (p * f) == p * m;
    assert (p * n) * k0 == p * (n * k0);
    assert n0 * (p * m) == p * (n0 * m);
    Cancel(p, n * k0, n0 * m);
    MulLe(1, p, m);
  }

  lemma ExactDenominator(n0: nat, k0: nat, n: nat, d: nat, f: nat, p: nat)
    requires f > 0 && Exact(n0, k0, n, d, p * f)
    ensures Exact(n0, k0, n, d * p, f) && d * p <= k0
  {
    assert d * (p * f) == (d * p) * f;
    MulLe(1, f, d * p);
  }

  /** What _divide_frac keeps of numerator, factor and the denominator that is built, before it is cut to 64 bits. */
  ghost predicate Dividing(n0: nat, d0: nat, f0: nat, n: nat, d: nat, f: nat) {
    && f > 0
    && Divides(n, n0)
    && (n0 > 0 ==> n > 0)
    && Exact(n0, d0 * f0, n, d, f) && (d0 > 0 ==> d > 0)
  }

  lemma DividingStarts(n0: nat, d0: nat, f0: nat)
    requires f0 > 0
    ensures Dividing(n0, d0, f0, n0, d0, f0)
  {
    assert 1 * n0 == n0;
  }

  lemma NumeratorTakesPrime(n0: nat, d0: nat, f0: nat, n: nat, d: nat, f: nat, p: nat)
    requires Dividing(n0, d0, f0, n, d, f) && p > 1 && n % p == 0 && f % p == 0
    ensures Dividing(n0, d0, f0, n / p, d, f / p) && f / p < f && 0 <= n / p <= n
  {
    Exactly(n, p);
    Exactly(f, p);
    DividesFactor(p, n / p, n0);
    ExactNumerator(n0, d0 * f0, n / p, d, f / p, p);
  }

  lemma DenominatorTakesPrime(n0: nat, d0: nat, f0: nat, n: nat, d: nat, f: nat, p: nat)
    requires Dividing(n0, d0, f0, n, d, f) && p > 1 && f % p == 0
    ensures Dividing(n0, d0, f0, n, d * p, f / p) && f / p < f
  {
    Exactly(f, p);
    ExactDenominator(n0, d0 * f0, n, d, f / p, p);
    if d > 0 {
      MulLe(1, d, p);
    }
  }

  // ----- _divide_frac -----

  /** The inner loop of _divide_frac for one prime; `whole` is the denominator before it is cut to 64 bits. */
  method TakePrime(numer: DWord, denom: DWord, fac: DWord, p: nat,
                   ghost n0: nat, ghost d0: nat, ghost f0: nat, ghost whole: nat)
    returns (n: DWord, d: DWord, f: DWord, ghost newWhole: nat)
    requires 1 < p && Dividing(n0, d0, f0, numer, whole, fac) && denom == whole % 0x1_0000_0000_0000_0000
    ensures Dividing(n0, d0, f0, n, newWhole, f) && d == newWhole % 0x1_0000_0000_0000_0000
  {
    n, d, f, newWhole := numer, denom, fac, whole;
    while f % p == 0
      invariant Dividing(n0, d0, f0, n, newWhole, f) && d == newWhole % 0x1_0000_0000_0000_0000
      decreases f
    {
      if n % p == 0 {
        NumeratorTakesPrime(n0, d0, f0, n, newWhole, f, p);
        n := n / p;
      } else {
        DenominatorTakesPrime(n0, d0, f0, n, newWhole, f, p);
        CutProduct(newWhole, p);
        d, newWhole := d * p % 0x1_0000_0000_0000_0000, newWhole * p;
      }
      f := f / p;
    }
  }

  /**
   _divide_frac: divides numer / denom by a factor. It ends for every positive factor. With the
   denominator `whole` that is built the result is exactly the quotient, and it is so with 64 bits
   of it if and only if `whole` has no more, or the numerator is zero.
   */
  method DivideFrac(numer: DWord, denom: DWord, fac: DWord) returns (n: DWord, d: DWord, ghost whole: nat)
    requires fac > 0
    ensures Divides(n, numer) && (numer > 0 ==> n > 0)
    ensures n * (denom * fac) == numer * whole && whole <= denom * fac && (denom > 0 ==> whole > 0)
    ensures d == whole % 0x1_0000_0000_0000_0000
    ensures n * (denom * fac) == numer * d <==> whole < 0x1_0000_0000_0000_0000 || numer == 0
  {
    DividingStarts(numer, denom, fac);
    var i, f := 0, fac;
    n, d, whole := numer, denom, denom;
    while PRIMES[i] > 1
      invariant 0 <= i <= 4
      invariant Dividing(numer, denom, fac, n, whole, f) && d == whole % 0x1_0000_0000_0000_0000
      decreases 4 - i
    {
      n, d, f, whole := TakePrime(n, d, f, PRIMES[i], numer, denom, fac, whole);
      i := i + 1;
    }
    if whole > 0 {
      MulLe(1, whole, f);
    }
    CutProduct(whole, f);
    d, whole := d * f % 0x1_0000_0000_0000_0000, whole * f;
    CutIsExact(numer, whole);
  }

  /** A multiple keeps its value when one factor is cut to 64 bits only if nothing is cut off. */
  lemma CutIsExact(n: nat, whole: nat)
    ensures n * whole == n * (whole % 0x1_0000_0000_0000_0000) <==> whole < 0x1_0000_0000_0000_0000 || n == 0
  {
    if n > 0 && n * whole == n * (whole % 0x1_0000_0000_0000_0000) {
      Cancel(n, whole, whole % 0x1_0000_0000_0000_0000);
    }
  }

  // ----- _normalize_frac -----

  ghost predicate Common(p: nat, n: nat, d: nat)
    requires p > 0
  {
    n % p == 0 && d % p == 0
  }

  /** The fraction is n0 / d0, a factor g has been divided out of both. */
  ghost predicate Reduced(n0: nat, d0: nat, n: nat, d: nat) {
    exists g: nat :: g > 0 && n0 == g * n && d0 == g * d
  }

  lemma ReducedBy(g: nat, n0: nat, d0: nat, n: nat, d: nat)
    requires g > 0 && n0 == g * n && d0 == g * d
    ensures Reduced(n0, d0, n, d)
  {
  }

  lemma ReduceStep(n0: nat, d0: nat, n: nat, d: nat, p: nat)
    requires Reduced(n0, d0, n, d) && p > 1 && Common(p, n, d)
    ensures Reduced(n0, d0, n / p, d / p)
  {
    var g: nat :| g > 0 && n0 == g * n && d0 == g * d;
    Exactly(n, p);
    Exactly(d, p);
    Associate3(g, p, n / p);
    Associate3(g, p, d / p);
    ReducedBy(g * p, n0, d0, n / p, d / p);
  }

  /** Dividing by one prime does not bring back another one. */
  lemma StaysReduced(n: nat, d: nat, p: nat, q: nat)
    requires p > 1 && q > 0 && Common(p, n, d) && !Common(q, n, d)
    ensures 0 <= n / p && 0 <= d / p && !Common(q, n / p, d / p)
  {
    Exactly(n, p);
    Exactly(d, p);
    if Common(q, n / p, d / p) {
      MultipleOfMultiple(n / p, p, q);
      MultipleOfMultiple(d / p, p, q);
    }
  }

  lemma MultipleOfMultiple(k: nat, p: nat, q: nat)
    requires q > 0 && k % q == 0
    ensures (p * k) % q == 0
  {
    Exactly(k, q);
    var m := p * (k / q);
    assert p * (q * (k / q)) == m * q;
    DivModUnique(p * k, q, m, 0);
  }

  /** The inner loop of _normalize_frac for one prime; `done` are the primes before it. */
  method ReduceByPrime(numer: DWord, denom: DWord, p: nat, ghost done: seq<nat>) returns (n: DWord, d: DWord)
    requires p > 1 && numer + denom > 0
    requires forall q :: q in done ==> q > 0 && !Common(q, numer, denom)
    ensures Reduced(numer, denom, n, d) && n + d > 0
    ensures !Common(p, n, d) && forall q :: q in done ==> q > 0 && !Common(q, n, d)
  {
    n, d := numer, denom;
    assert numer == 1 * n && denom == 1 * d;
    while n % p == 0 && d % p == 0
      invariant Reduced(numer, denom, n, d) && n + d > 0
      invariant forall q :: q in done ==> q > 0 && !Common(q, n, d)
      decreases n + d
    {
      ReduceStep(numer, denom, n, d, p);
      Exactly(n, p);
      Exactly(d, p);
      forall q | q in done
        ensures q > 0 && !Common(q, n / p, d / p)
      {
        StaysReduced(n, d, p, q);
      }
      n, d := n / p, d / p;
    }
  }

  lemma ReducedTwice(n0: nat, d0: nat, n1: nat, d1: nat, n2: nat, d2: nat)
    requires Reduced(n0, d0, n1, d1) && Reduced(n1, d1, n2, d2)
    ensures Reduced(n0, d0, n2, d2)
  {
    var g: nat :| g > 0 && n0 == g * n1 && d0 == g * d1;
    var h: nat :| h > 0 && n1 == h * n2 && d1 == h * d2;
    Associate3(g, h, n2);
    Associate3(g, h, d2);
    MulLe(1, g, h);
    ReducedBy(g * h, n0, d0, n2, d2);
  }

  /** _normalize_frac: the same fraction without a common factor 7, 5, 3 or 2. */
  method NormalizeFrac(numer: DWord, denom: DWord) returns (n: DWord, d: DWord)
    requires numer + denom > 0
    ensures Reduced(numer, denom, n, d) && n + d > 0
    ensures !Common(7, n, d) && !Common(5, n, d) && !Common(3, n, d) && !Common(2, n, d)
  {
    n, d := numer, denom;
    assert numer == 1 * n && denom == 1 * d;
    var i := 0;
    while PRIMES[i] > 1
      invariant 0 <= i <= 4
      invariant Reduced(numer, denom, n, d) && n + d > 0
      invariant forall q :: q in PRIMES[..i] ==> q > 0 && !Common(q, n, d)
      decreases 4 - i
    {
      var n', d' := ReduceByPrime(n, d, PRIMES[i], PRIMES[..i]);
      ReducedTwice(numer, denom, n, d, n', d');
      n, d, i := n', d', i + 1;
    }
    assert PRIMES[..4] == [7, 5, 3, 2];
    assert PRIMES[..4][0] == 7 && PRIMES[..4][1] == 5 && PRIMES[..4][2] == 3 && PRIMES[..4][3] == 2;
  }

  // ----- lowest terms -----

  /** No number above one divides both. */
  ghost predicate LowestTerms(n: nat, d: nat) {
    forall k: nat :: k > 1 && Divides(k, n) ==> !Divides(k, d)
  }

  function Pow10(k: nat): nat {
    if k == 0 then 1 else 10 * Pow10(k - 1)
  }

  lemma Distribute(x: nat, y: nat, z: nat)
    ensures (x + y) * z == x * z + y * z
  {
  }

  lemma DistributeLeft(z: nat, x: nat, y: nat)
    ensures z * (x + y) == z * x + z * y
  {
  }

  lemma Swap3(r: nat, p: nat, b: nat)
    ensures r * (p * b) == p * (r * b)
  {
  }

  /** A product and the product of the residues have the same residue. */
  lemma ProductResidue(q: nat, d: nat, p: nat) returns (m: nat)
    requires p > 0
    ensures q * d == p * m + (q % p) * (d % p)
  {
    m := ExpandProduct(q, d, p, q / p, q % p, d / p, d % p);
  }

  lemma ExpandProduct(q: nat, d: nat, p: nat, a: nat, r: nat, b: nat, s: nat) returns (m: nat)
    requires q == p * a + r && d == p * b + s
    ensures q * d == p * m + r * s
  {
    assert q * d == (p * a) * d + r * d by {
      Distribute(p * a, r, d);
    }
    assert (p * a) * d == p * (a * d) by {
      Associate3(p, a, d);
    }
    assert r * d == p * (r * b) + r * s by {
      DistributeLeft(r, p * b, s);
      Swap3(r, p, b);
    }
    m := a * d + r * b;
    DistributeLeft(p, a * d, r * b);
  }

  lemma QuotientEven(q: nat, d: nat)
    requires d % 2 != 0 && (q * d) % 2 == 0
    ensures q % 2 == 0
  {
    var m := ProductResidue(q, d, 2);
  }

  lemma QuotientFives(q: nat, d: nat)
    requires d % 5 != 0 && (q * d) % 5 == 0
    ensures q % 5 == 0
  {
    var m := ProductResidue(q, d, 5);
    ResidueProduct(q % 5, d % 5);
  }

  lemma ResidueProduct(r: nat, s: nat)
    requires r < 5 && 0 < s < 5 && (r * s) % 5 == 0
    ensures r == 0
  {
    assert s == 1 || s == 2 || s == 3 || s == 4;
  }

  lemma FactorOfOne(q: nat, d: nat)
    requires q * d == 1
    ensures d == 1
  {
  }

  lemma TenDivides(q: nat)
    requires q % 2 == 0 && q % 5 == 0
    ensures q == 10 * (q / 5 / 2)
  {
    var b := q / 5;
    assert q == 5 * b;
    assert b % 2 == 0;
  }

  lemma CancelTen(product: nat, m: nat, tenth: nat, d: nat)
    requires product == 10 * m && product == (10 * tenth) * d
    ensures tenth * d == m
  {
    Associate3(10, tenth, d);
  }

  lemma TenTimes(m: nat)
    ensures (10 * m) % 2 == 0 && (10 * m) % 5 == 0
  {
    DivModUnique(10 * m, 2, 5 * m, 0);
    DivModUnique(10 * m, 5, 2 * m, 0);
  }

  lemma TenthDivides(q: nat, d: nat, m: nat) returns (tenth: nat)
    requires q * d == 10 * m && d % 2 != 0 && d % 5 != 0
    ensures tenth * d == m
  {
    TenTimes(m);
    QuotientEven(q, d);
    QuotientFives(q, d);
    TenDivides(q);
    tenth := q / 5 / 2;
    CancelTen(q * d, m, tenth, d);
  }

  /** A divisor of a power of ten without the factors 2 and 5 is one. */
  lemma {:induction false} DivisorOfPow10(q: nat, d: nat, k: nat)
    requires q * d == Pow10(k) && d % 2 != 0 && d % 5 != 0
    ensures d == 1
    decreases k
  {
    if k == 0 {
      FactorOfOne(q, d);
    } else {
      var tenth := TenthDivides(q, d, Pow10(k - 1));
      DivisorOfPow10(tenth, d, k - 1);
    }
  }

  lemma DividesTransitively(a: nat, b: nat, c: nat)
    requires Divides(a, b) && Divides(b, c)
    ensures Divides(a, c)
  {
    var q: nat :| q * a == b;
    var r: nat :| r * b == c;
    assert (r * q) * a == c;
  }

  lemma PrimeDivides(p: nat, k: nat, n: nat)
    requires p > 0 && k % p == 0 && Divides(k, n)
    ensures n % p == 0
  {
    var q: nat :| q * k == n;
    MultipleOfMultiple(k, q, p);
  }

  /** Without the common factors 2 and 5, a fraction over a divisor of 10^9 is in lowest terms. */
  lemma ReducedOverPow10(n: nat, d: nat)
    requires Divides(d, NSEC_PER_SEC) && !Common(2, n, d) && !Common(5, n, d)
    ensures LowestTerms(n, d)
  {
    assert Pow10(9) == NSEC_PER_SEC;
    forall k: nat | k > 1 && Divides(k, n)
      ensures !Divides(k, d)
    {
      if Divides(k, d) {
        DividesTransitively(k, d, NSEC_PER_SEC);
        var q: nat :| q * k == NSEC_PER_SEC;
        if k % 2 == 0 {
          PrimeDivides(2, k, n);
          PrimeDivides(2, k, d);
        } else if k % 5 == 0 {
          PrimeDivides(5, k, n);
          PrimeDivides(5, k, d);
        } else {
          DivisorOfPow10(q, k, 9);
        }
      }
    }
  }

  // ----- the clock -----

  /** A 64-bit word as MIDITimestamp, which is signed; sums of timestamps wrap around. */
  function ToTimestamp(x: int): int {
    (x + 0x8000_0000_0000_0000) % 0x1_0000_0000_0000_0000 - 0x8000_0000_0000_0000
  }

  /** _get_real_time at kernel time t. */
  function RealTime(numer: DWord, denom: DWord, t: DWord): int
    requires denom > 0
  {
    ToTimestamp(t * numer % 0x1_0000_0000_0000_0000 / denom)
  }

  /** What a clock that was made at t0 tells at t. */
  function Reading(numer: DWord, denom: DWord, t0: DWord, t: DWord): int
    requires denom > 0
  {
    ToTimestamp(RealTime(numer, denom, t) + ToTimestamp(-RealTime(numer, denom, t0)))
  }

  lemma SplitWords(x: DWord)
    ensures Uldivmod.Val(x % 0x1_0000_0000, x / 0x1_0000_0000) == x
  {
  }

  class MidiClock {
    var refs: int
    var offset: int
    var rate: Word
    var numer: DWord
    var denom: DWord
    /** The kernel time at which the clock was made. */
    ghost var created: DWord

    constructor ()
    {
    }

    ghost predicate Valid()
      reads this
    {
      && rate > 0 && numer > 0 && denom > 0
      && numer * NSEC_PER_SEC == rate * denom
      && LowestTerms(numer, denom)
      && offset == ToTimestamp(-RealTime(numer, denom, created))
    }

    /** _get_real_time at kernel time t: the quotient comes from the 64-bit divider. */
    method GetRealTime(t: DWord) returns (time: int)
      requires denom > 0
      ensures time == RealTime(numer, denom, t)
    {
      var product: DWord := t * numer % 0x1_0000_0000_0000_0000;
      SplitWords(product);
      SplitWords(denom);
      var q0, q1, r0, r1;
      ghost var rounds;
      q0, q1, r0, r1, rounds := Uldivmod.Divide(product % 0x1_0000_0000, product / 0x1_0000_0000,
                                                denom % 0x1_0000_0000, denom / 0x1_0000_0000);
      time := ToTimestamp(Uldivmod.Val(q0, q1));
    }

    /**
     MIDIClockGetNow at kernel time t: the ticks since the clock was made, as long as the product
     does not overflow, exactly if they fit a signed 64-bit number; otherwise it is negative.
     */
    method GetNow(t: DWord) returns (now: int)
      requires Valid()
      ensures now == Reading(numer, denom, created, t)
      ensures created <= t && t * numer < 0x1_0000_0000_0000_0000 ==>
                && (now == Ticks(rate, t) - Ticks(rate, created) <==> TicksFit(rate, created, t))
                && (now >= 0 <==> TicksFit(rate, created, t))
    {
      var time := GetRealTime(t);
      now := ToTimestamp(time + offset);
      if created <= t && t * numer < 0x1_0000_0000_0000_0000 {
        NowIsTicksSinceCreation(rate, numer, denom, created, t);
      }
    }
  }

  /**
   MIDIClockCreate at kernel time t: for every rate the fraction is rate / 10^9 in lowest terms, the
   rate 0 stands for nanoseconds, and the clock starts at zero.
   */
  method Create(rate: Word, t: DWord) returns (clock: MidiClock)
    ensures fresh(clock) && clock.Valid() && clock.refs == 1
    ensures rate > 0 ==> clock.rate == rate && clock.numer * 1_000_000_000 == rate * clock.denom
    ensures rate == 0 ==> clock.rate == 1_000_000_000 && clock.numer == clock.denom == 1
    ensures LowestTerms(clock.numer, clock.denom)
    ensures clock.created == t
  {
    clock := new MidiClock();
    clock.refs := 1;
    clock.numer, clock.denom := 1, NSEC_PER_SEC;
    var r: Word := if rate == 0 then clock.denom / clock.numer else rate;
    var d, n;
    ghost var whole;
    d, n, whole := DivideFrac(clock.denom, clock.numer, r);
    assert d * r == NSEC_PER_SEC * n && n > 0 && d > 0;
    var n', d' := NormalizeFrac(n, d);
    ScaledFraction(n, d, n', d', r);
    ReducedOverPow10(n', d');
    UnitFraction(n', d');
    clock.numer, clock.denom := n', d';
    clock.rate := r;
    clock.created := t;
    var time := clock.GetRealTime(t);
    clock.offset := ToTimestamp(-1 * time);
  }

  lemma UnitFraction(n: nat, d: nat)
    requires LowestTerms(n, d) && n > 0
    ensures n == d ==> n == 1
  {
    assert 1 * n == n;
    assert Divides(n, n);
  }

  /** Reducing keeps the value of the fraction, and its denominator a divisor of 10^9. */
  lemma ScaledFraction(n: nat, d: nat, n': nat, d': nat, r: nat)
    requires n > 0 && d > 0 && d * r == NSEC_PER_SEC * n && Divides(d, NSEC_PER_SEC) && Reduced(n, d, n', d')
    ensures n' > 0 && d' > 0 && n' * NSEC_PER_SEC == r * d' && Divides(d', NSEC_PER_SEC)
  {
    var g: nat :| g > 0 && n == g * n' && d == g * d';
    assert (g * d') * r == g * (r * d');
    assert NSEC_PER_SEC * (g * n') == g * (n' * NSEC_PER_SEC);
    Cancel(g, r * d', n' * NSEC_PER_SEC);
    DividesFactor(g, d', NSEC_PER_SEC);
  }

  // ----- time -----

  /** Equal fractions have the same floor. */
  lemma SameFloor(a: nat, b: nat, c: nat, d: nat)
    requires b > 0 && d > 0 && a * d == c * b
    ensures a / b == c / d
  {
    var q, r := a / b, a % b;
    assert a == q * b + r;
    assert a * d == (q * d) * b + r * d by {
      Distribute(q * b, r, d);
      Associate3(q, b, d);
      Swap3(q, b, d);
    }
    FloorBounds(c, b, d, q * d, r);
    DivModUnique(c, d, q, c - q * d);
  }

  lemma FloorBounds(c: nat, b: nat, d: nat, qd: nat, r: nat)
    requires b > 0 && d > 0 && r < b && c * b == qd * b + r * d
    ensures qd <= c < qd + d
  {
    assert r * d < d * b by {
      MulLe(r + 1, b, d);
      Distribute(r, 1, d);
    }
    Distribute(qd, d, b);
    OrderOfProducts(qd, c, b);
    OrderOfProducts(qd + d, c, b);
  }

  lemma OrderOfProducts(x: nat, y: nat, b: nat)
    requires b > 0
    ensures x * b <= y * b <==> x <= y
  {
    if x <= y {
      MulLe(x, y, b);
    } else {
      MulLe(y + 1, x, b);
      Distribute(y, 1, b);
    }
  }

  /** What the clock measures, exactly: kernel time in units of the rate. */
  function Ticks(rate: Word, t: DWord): nat {
    t * rate / NSEC_PER_SEC
  }

  /** Without overflow of the product the scaled time is the floor of the exact one. */
  lemma ScaledTime(rate: Word, numer: DWord, denom: DWord, t: DWord)
    requires denom > 0 && numer * NSEC_PER_SEC == rate * denom
    requires t * numer < 0x1_0000_0000_0000_0000
    ensures t * numer % 0x1_0000_0000_0000_0000 / denom == Ticks(rate, t)
  {
    assert (t * numer) * NSEC_PER_SEC == (t * rate) * denom by {
      Associate3(t, numer, NSEC_PER_SEC);
      Associate3(t, rate, denom);
    }
    SameFloor(t * numer, denom, t * rate, NSEC_PER_SEC);
  }

  lemma TicksMonotone(rate: Word, t0: DWord, t: DWord)
    requires t0 <= t
    ensures Ticks(rate, t0) <= Ticks(rate, t)
  {
    MulLe(t0, t, rate);
    QuotientMonotone(t0 * rate, t * rate, NSEC_PER_SEC);
  }

  lemma TimestampOf(x: int)
    ensures 0 <= x < 0x8000_0000_0000_0000 ==> ToTimestamp(x) == x
    ensures 0x8000_0000_0000_0000 <= x < 0x1_8000_0000_0000_0000 ==> ToTimestamp(x) == x - 0x1_0000_0000_0000_0000
    ensures -0x8000_0000_0000_0000 <= x < 0 ==> ToTimestamp(x) == x
    ensures -0x1_8000_0000_0000_0000 <= x < -0x8000_0000_0000_0000 ==> ToTimestamp(x) == x + 0x1_0000_0000_0000_0000
  {
  }

  /** Timestamps wrap around, so a difference comes out right exactly if it is one, and negative if not. */
  lemma DifferenceWraps(a: nat, b: nat)
    requires a < 0x1_0000_0000_0000_0000 && b < 0x1_0000_0000_0000_0000 && b <= a
    ensures ToTimestamp(ToTimestamp(a) + ToTimestamp(-ToTimestamp(b)))
         == if a - b < 0x8000_0000_0000_0000 then a - b else a - b - 0x1_0000_0000_0000_0000
  {
    TimestampOf(a);
    TimestampOf(b);
    TimestampOf(-ToTimestamp(b));
    TimestampOf(ToTimestamp(a) + ToTimestamp(-ToTimestamp(b)));
  }

  /** The ticks between two kernel times fit a signed 64-bit number. */
  predicate TicksFit(rate: Word, t0: DWord, t: DWord) {
    Ticks(rate, t) - Ticks(rate, t0) < 0x8000_0000_0000_0000
  }

  /**
   A clock made at t0 tells at t the ticks since t0, which is zero at t0, never negative, and grows
   with kernel time; but only as long as these ticks fit a signed 64-bit number.
   */
  lemma NowIsTicksSinceCreation(rate: Word, numer: DWord, denom: DWord, t0: DWord, t: DWord)
    requires denom > 0 && numer * NSEC_PER_SEC == rate * denom && t0 <= t
    requires t * numer < 0x1_0000_0000_0000_0000
    ensures Ticks(rate, t0) <= Ticks(rate, t)
    ensures Reading(numer, denom, t0, t) == Ticks(rate, t) - Ticks(rate, t0) <==> TicksFit(rate, t0, t)
    ensures Reading(numer, denom, t0, t) >= 0 <==> TicksFit(rate, t0, t)
  {
    MulLe(t0, t, numer);
    ScaledTime(rate, numer, denom, t0);
    ScaledTime(rate, numer, denom, t);
    TicksMonotone(rate, t0, t);
    TicksBound(rate, numer, denom, t);
    TicksBound(rate, numer, denom, t0);
    DifferenceWraps(Ticks(rate, t), Ticks(rate, t0));
  }

  /** Two readings of a clock, one after the other, are in order and not negative exactly if the later one is right. */
  lemma ReadingsOrdered(rate: Word, numer: DWord, denom: DWord, t0: DWord, t1: DWord, t2: DWord)
    requires denom > 0 && numer * NSEC_PER_SEC == rate * denom && t0 <= t1 <= t2
    requires t2 * numer < 0x1_0000_0000_0000_0000
    ensures 0 <= Reading(numer, denom, t0, t1) <= Reading(numer, denom, t0, t2) <==> TicksFit(rate, t0, t2)
    ensures Reading(numer, denom, t0, t0) == 0
  {
    MulLe(t1, t2, numer);
    MulLe(t0, t2, numer);
    NowIsTicksSinceCreation(rate, numer, denom, t0, t0);
    NowIsTicksSinceCreation(rate, numer, denom, t0, t1);
    NowIsTicksSinceCreation(rate, numer, denom, t0, t2);
    TicksMonotone(rate, t1, t2);
  }

  lemma TicksBound(rate: Word, numer: DWord, denom: DWord, t: DWord)
    requires denom > 0 && numer * NSEC_PER_SEC == rate * denom && t * numer < 0x1_0000_0000_0000_0000
    ensures Ticks(rate, t) < 0x1_0000_0000_0000_0000
    ensures denom > 1 ==> Ticks(rate, t) < 0x8000_0000_0000_0000
  {
    ScaledTime(rate, numer, denom, t);
    MulLe(1, denom, t * numer);
    QuotientAtMost(t * numer, denom, t * numer);
    if denom > 1 {
      QuotientAtMostHalf(t * numer, denom);
    }
  }

  lemma QuotientAtMostHalf(x: nat, d: nat)
    requires d > 1
    ensures 0 <= 2 * (x / d) <= x
  {
    var q := x / d;
    assert x == d * q + x % d;
    MulLe(2, d, q);
  }

  /** With any rate that is no multiple of 10^9 the ticks always fit. */
  lemma NowIsExact(rate: Word, numer: DWord, denom: DWord, t0: DWord, t: DWord)
    requires denom > 1 && numer * NSEC_PER_SEC == rate * denom && t0 <= t
    requires t * numer < 0x1_0000_0000_0000_0000
    ensures Reading(numer, denom, t0, t) == Ticks(rate, t) - Ticks(rate, t0) >= 0
  {
    TicksBound(rate, numer, denom, t);
    NowIsTicksSinceCreation(rate, numer, denom, t0, t);
  }

  lemma DenominatorOne(numer: DWord, k: nat, denom: DWord)
    requires LowestTerms(numer, denom) && numer == k * denom && denom > 0
    ensures denom == 1
  {
    assert 1 * denom == denom;
    assert Divides(denom, numer) && Divides(denom, denom);
  }

  /** The fraction of a clock has the denominator 1 exactly if the rate is a multiple of 10^9. */
  lemma WholeRate(rate: Word, numer: DWord, denom: DWord)
    requires numer * NSEC_PER_SEC == rate * denom && LowestTerms(numer, denom) && denom > 0
    ensures denom == 1 <==> rate % NSEC_PER_SEC == 0
    ensures denom == 1 ==> rate == numer * NSEC_PER_SEC
  {
    if rate % NSEC_PER_SEC == 0 {
      var k := rate / NSEC_PER_SEC;
      assert rate == k * NSEC_PER_SEC;
      assert numer * NSEC_PER_SEC == (k * denom) * NSEC_PER_SEC;
      DenominatorOne(numer, k, denom);
    }
  }

  /**
   The reading of a clock is negative at some time although the product does not overflow, exactly
   if its rate is a multiple of 10^9.
   */
  lemma NegativeIff(rate: Word, numer: DWord, denom: DWord)
    requires rate > 0 && numer * NSEC_PER_SEC == rate * denom && LowestTerms(numer, denom) && denom > 0
    ensures (exists t0: DWord, t: DWord ::
               t0 <= t && t * numer < 0x1_0000_0000_0000_0000 && Reading(numer, denom, t0, t) < 0)
       <==> rate % NSEC_PER_SEC == 0
  {
    WholeRate(rate, numer, denom);
    if rate % NSEC_PER_SEC == 0 {
      var t := HalfRange(numer);
      LeavesRange(rate, numer, t);
      assert Reading(numer, denom, 0, t) < 0;
    } else {
      forall t0: DWord, t: DWord | t0 <= t && t * numer < 0x1_0000_0000_0000_0000
        ensures Reading(numer, denom, t0, t) >= 0
      {
        NowIsExact(rate, numer, denom, t0, t);
      }
    }
  }

  /** A time at which the product with at most four ticks a nanosecond has just left the signed range. */
  lemma HalfRange(numer: nat) returns (t: DWord)
    requires 0 < numer <= 4
    ensures 0x8000_0000_0000_0000 <= t * numer < 0x1_0000_0000_0000_0000
  {
    t := if numer == 1 then 0x8000_0000_0000_0000
         else if numer == 2 then 0x4000_0000_0000_0000
         else if numer == 3 then 0x2aaa_aaaa_aaaa_aaab
         else 0x2000_0000_0000_0000;
  }

  lemma LeavesRange(rate: Word, numer: DWord, t: DWord)
    requires rate == numer * NSEC_PER_SEC
    requires 0x8000_0000_0000_0000 <= t * numer < 0x1_0000_0000_0000_0000
    ensures Reading(numer, 1, 0, t) < 0
  {
    var product: DWord := t * numer;
    ScaledTime(rate, numer, 1, t);
    assert Ticks(rate, t) == product;
    assert Ticks(rate, 0) == 0;
    NowIsTicksSinceCreation(rate, numer, 1, 0, t);
  }
}
