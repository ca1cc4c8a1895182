/**
 The integer exponential series of the 64-bit division test: powers, factorials, and the sum that
 stops at the first term that adds nothing.
 */
module ExpSeries {
  import opened Words
  import opened Wrappers

  function Power(z: nat, k: nat): nat {
    if k == 0 then 1 else Power(z, k - 1) * z
  }

  function Factorial(n: nat): (f: nat)
    ensures f > 0
  {
    if n == 0 then 1 else FactorialPositive(n, Factorial(n - 1)); n * Factorial(n - 1)
  }

  lemma FactorialPositive(n: nat, f: nat)
    requires n > 0 && f > 0
    ensures n * f > 0
  {
  }

  /** The term of the series, an integer division. */
  function Term(z: nat, k: nat): nat {
    Power(z, k) / Factorial(k)
  }

  function Sum(z: nat, n: nat): nat {
    if n == 0 then 0 else Sum(z, n - 1) + Term(z, n - 1)
  }

  /** power: a loop that multiplies exponent - 1 times. */
  method ComputePower(base: nat, exponent: nat) returns (result: nat)
    ensures result == Power(base, exponent)
  {
    result := base;
    if exponent == 0 {
      return 1;
    }
    var e := exponent - 1;
    assert Power(base, 1) == 1 * base;
    while e > 0
      invariant 0 <= e < exponent
      invariant result == Power(base, exponent - e)
    {
      result := result * base;
      e := e - 1;
    }
  }

  /** The product of the numbers from k + 1 to n. */
  function Descending(n: nat, k: nat): nat
    requires k <= n
    decreases n - k
  {
    if k == n then 1 else (k + 1) * Descending(n, k + 1)
  }

  lemma Regroup(a: nat, b: nat, c: nat)
    ensures (a * b) * c == b * (a * c)
  {
  }

  lemma {:induction false} DescendingTimesFactorial(n: nat, k: nat)
    requires k <= n
    ensures Descending(n, k) * Factorial(k) == Factorial(n)
    decreases n - k
  {
    if k < n {
      DescendingTimesFactorial(n, k + 1);
      Regroup(k + 1, Descending(n, k + 1), Factorial(k));
    }
  }

  /** fac: a loop that multiplies downwards. */
  method ComputeFactorial(n: nat) returns (result: nat)
    ensures result == Factorial(n)
  {
    result := n;
    if result == 0 {
      return 1;
    }
    var m := n - 1;
    assert Descending(n, n) == 1;
    while m > 0
      invariant 0 <= m < n
      invariant result == Descending(n, m)
    {
      result := result * m;
      m := m - 1;
    }
    DescendingTimesFactorial(n, 0);
  }

  // ----- where the terms vanish -----

  lemma ZeroTerm(z: nat, k: nat)
    ensures Term(z, k) == 0 <==> Power(z, k) < Factorial(k)
  {
    var p, f := Power(z, k), Factorial(k);
    if p < f {
      DivModUnique(p, f, 0, p);
    } else {
      var q := p / f;
      assert p == f * q + p % f;
    }
  }

  lemma ProductLe(a: nat, b: nat, c: nat, d: nat)
    requires a <= b && c <= d
    ensures a * c <= b * d
  {
    MulLe(a, b, c);
    MulLe(c, d, b);
  }

  lemma ProductLess(a: nat, b: nat, c: nat, d: nat)
    requires a < b && c <= d && d > 0
    ensures a * c < b * d
  {
    ProductLe(a, b - 1, c, d);
    assert (b - 1) * d == b * d - d;
  }

  /** As long as k is at most z the terms do not vanish. */
  lemma {:induction false} PowerAtLeastFactorial(z: nat, k: nat)
    requires k <= z
    ensures Power(z, k) >= Factorial(k)
  {
    if k > 0 {
      PowerAtLeastFactorial(z, k - 1);
      ProductLe(Factorial(k - 1), Power(z, k - 1), k, z);
    }
  }

  /** Behind a term that vanishes all terms vanish. */
  lemma {:induction false} VanishedForGood(z: nat, k: nat, n: nat)
    requires Power(z, k) < Factorial(k) && k <= n
    ensures Power(z, n) < Factorial(n)
    decreases n
  {
    if k < n {
      VanishedForGood(z, k, n - 1);
      if n <= z {
        PowerAtLeastFactorial(z, n - 1);
      }
      ProductLess(Power(z, n - 1), Factorial(n - 1), z, n);
      OneStep(z, n, 1);
    }
  }

  /** From 2z on every step halves the quotient of power and factorial, at least. */
  lemma {:induction false} Halving(z: nat, t: nat)
    ensures Power(z, 2 * z + t) * Pow2(t) <= Power(z, 2 * z) * Factorial(2 * z + t)
    decreases t
  {
    var p := Power(z, 2 * z);
    if t == 0 {
      MulLe(1, Factorial(2 * z), p);
    } else {
      Halving(z, t - 1);
      var n := 2 * z + t;
      HalvingStep(Power(z, n - 1), z, Pow2(t - 1), p, Factorial(n - 1), n);
      OneStep(z, n, t);
    }
  }

  lemma OneStep(z: nat, n: nat, t: nat)
    requires n > 0 && t > 0
    ensures Power(z, n) == Power(z, n - 1) * z && Factorial(n) == n * Factorial(n - 1) && Pow2(t) == 2 * Pow2(t - 1)
  {
  }

  lemma HalvingStep(a: nat, z: nat, w: nat, p: nat, f: nat, n: nat)
    requires a * w <= p * f && 2 * z <= n
    ensures (a * z) * (2 * w) <= p * (n * f)
  {
    Regroup(z, a, 2 * w);
    assert (a * z) * (2 * w) == (a * w) * (2 * z);
    ProductLe(a * w, p * f, 2 * z, n);
    assert (p * f) * n == p * (n * f);
  }

  lemma {:induction false} BelowPow2(t: nat)
    ensures t < Pow2(t)
    decreases t
  {
    if t > 0 {
      BelowPow2(t - 1);
    }
  }

  /** For every z some power is below the factorial. */
  lemma SomeTermVanishes(z: nat) returns (n: nat)
    ensures Power(z, n) < Factorial(n)
  {
    var p := Power(z, 2 * z);
    n := 2 * z + p;
    Halving(z, p);
    BelowPow2(p);
    if Power(z, n) >= Factorial(n) {
      ProductLess(p, Pow2(p), Factorial(n), Power(z, n));
      assert false;
    }
  }

  lemma {:induction false} SumSettled(z: nat, k: nat, n: nat)
    requires Power(z, k) < Factorial(k) && k <= n
    ensures Sum(z, n) == Sum(z, k)
    decreases n
  {
    if k < n {
      SumSettled(z, k, n - 1);
      VanishedForGood(z, k, n - 1);
      ZeroTerm(z, n - 1);
    }
  }

  /** The index where the loop stops: the first term that vanishes. */
  ghost predicate StopsAt(z: nat, k: nat) {
    Term(z, k) == 0 && forall j: nat :: j < k ==> Term(z, j) > 0
  }

  /** The loop stops at `stop`, and the sum of the first `stop` or more terms is `result`. */
  ghost predicate Settled(z: nat, stop: nat, result: nat) {
    StopsAt(z, stop) && forall n: nat :: n >= stop ==> Sum(z, n) == result
  }

  /** div64_u64(power(z, k), fac(k)) */
  method ComputeTerm(z: nat, k: nat) returns (term: nat)
    ensures term == Term(z, k)
  {
    var p := ComputePower(z, k);
    var f := ComputeFactorial(k);
    term := p / f;
  }

  /**
   e_tothe_z with exact numbers: it ends for every z, at the first term that vanishes, and nothing
   is lost: the result is the sum of however many terms from there on.
   */
  method EToTheZ(z: nat) returns (result: nat)
    ensures exists stop: nat :: Settled(z, stop, result)
  {
    ghost var bound := SomeTermVanishes(z);
    if z == 0 {
      ZeroSeries(0);
      assert Settled(z, 1, 1);
      return 1;
    }
    var k := 0;
    result := 0;
    while true
      invariant result == Sum(z, k)
      invariant forall j: nat :: j < k ==> Term(z, j) > 0
      invariant k <= bound
      decreases bound - k
    {
      var last := result;
      var term := ComputeTerm(z, k);
      result := result + term;
      if result <= last {
        Settles(z, k);
        assert Settled(z, k, last);
        return last;
      }
      BeforeBound(z, k, bound);
      k := k + 1;
    }
  }

  lemma BeforeBound(z: nat, k: nat, bound: nat)
    requires Power(z, bound) < Factorial(bound) && Term(z, k) > 0
    ensures k < bound
  {
    ZeroTerm(z, k);
    if k >= bound {
      VanishedForGood(z, bound, k);
    }
  }

  lemma Settles(z: nat, k: nat)
    requires Term(z, k) == 0
    ensures forall n: nat :: n >= k ==> Sum(z, n) == Sum(z, k)
  {
    ZeroTerm(z, k);
    forall n: nat | n >= k
      ensures Sum(z, n) == Sum(z, k)
    {
      SumSettled(z, k, n);
    }
  }

  lemma ZeroSeries(z: nat)
    requires z == 0
    ensures StopsAt(z, 1) && forall n: nat :: n >= 1 ==> Sum(z, n) == 1
  {
    assert Power(z, 1) == 0 && Factorial(1) == 1 && Factorial(0) == 1;
    assert Term(z, 0) == 1 && Term(z, 1) == 0;
    assert Sum(z, 1) == Sum(z, 0) + Term(z, 0) == 1;
    Settles(z, 1);
  }

  // ----- 64 bits -----

  lemma {:induction false} PowerMonotone(y: nat, z: nat, k: nat)
    requires y <= z
    ensures Power(y, k) <= Power(z, k)
    decreases k
  {
    if k > 0 {
      PowerMonotone(y, z, k - 1);
      ProductLe(Power(y, k - 1), Power(z, k - 1), y, z);
    }
  }

  lemma {:induction false} PowerGrows(z: nat, j: nat, k: nat)
    requires j <= k && z > 0
    ensures 0 < Power(z, j) <= Power(z, k)
    decreases k
  {
    if j < k {
      PowerGrows(z, j, k - 1);
      MulLe(1, z, Power(z, k - 1));
    } else if k > 0 {
      PowerGrows(z, k - 1, k - 1);
      MulLe(1, z, Power(z, k - 1));
    }
  }

  lemma {:induction false} FactorialGrows(j: nat, k: nat)
    requires j <= k
    ensures Factorial(j) <= Factorial(k)
    decreases k
  {
    if j < k {
      FactorialGrows(j, k - 1);
      MulLe(1, k, Factorial(k - 1));
    }
  }

  lemma Numbers()
    ensures Factorial(20) == 2432902008176640000 && Factorial(21) == 51090942171709440000
    ensures Power(8, 20) == 1152921504606846976 && Power(9, 20) == 12157665459056928801
  {
    assert Factorial(3) == 6;
    assert Factorial(6) == 720;
    assert Factorial(9) == 362880;
    assert Factorial(12) == 479001600;
    assert Factorial(15) == 1307674368000;
    assert Factorial(18) == 6402373705728000;
    assert Factorial(20) == 2432902008176640000;
    assert Factorial(21) == 51090942171709440000;
    assert Power(8, 3) == 512 && Power(9, 3) == 729;
    assert Power(8, 6) == 262144 && Power(9, 6) == 531441;
    assert Power(8, 9) == 134217728 && Power(9, 9) == 387420489;
    assert Power(8, 12) == 68719476736 && Power(9, 12) == 282429536481;
    assert Power(8, 15) == 35184372088832 && Power(9, 15) == 205891132094649;
    assert Power(8, 18) == 18014398509481984 && Power(9, 18) == 150094635296999121;
    assert Power(8, 20) == 1152921504606846976 && Power(9, 20) == 12157665459056928801;
  }

  /**
   The 64-bit numbers of the code are exact up to the stop exactly for z up to 8: with 9 the sum
   needs 21!, which is above 2^64.
   */
  lemma FitsIn64Bits(z: nat, stop: nat)
    requires StopsAt(z, stop)
    ensures Power(z, stop) < 0x1_0000_0000_0000_0000 && Factorial(stop) < 0x1_0000_0000_0000_0000 <==> z <= 8
  {
    Numbers();
    ZeroTerm(z, 20);
    if z <= 8 {
      PowerMonotone(z, 8, 20);
      assert stop <= 20;
      FactorialGrows(stop, 20);
      if z > 0 {
        PowerGrows(z, stop, 20);
      } else {
        ZeroPower(stop);
      }
    } else {
      PowerMonotone(9, z, 20);
      ZeroTerm(z, stop);
      if stop <= 20 {
        VanishedForGood(z, stop, 20);
      }
      FactorialGrows(21, stop);
    }
  }

  lemma ZeroPower(k: nat)
    ensures Power(0, k) <= 1
  {
  }

  /** power in 64-bit arithmetic: what is above 64 bits is lost. */
  method Power64(base: DWord, exponent: DWord) returns (result: DWord)
    ensures result == Power(base, exponent) % 0x1_0000_0000_0000_0000
  {
    result := base;
    if exponent == 0 {
      return 1;
    }
    var e := exponent - 1;
    assert Power(base, 1) == 1 * base;
    while e > 0
      invariant 0 <= e < exponent
      invariant result == Power(base, exponent - e) % 0x1_0000_0000_0000_0000
    {
      CutProduct(Power(base, exponent - e), base);
      result := result * base % 0x1_0000_0000_0000_0000;
      e := e - 1;
    }
  }

  /** fac in 64-bit arithmetic. */
  method Factorial64(n: DWord) returns (result: DWord)
    ensures result == Factorial(n) % 0x1_0000_0000_0000_0000
  {
    result := n;
    if result == 0 {
      return 1;
    }
    var k := n - 1;
    assert Descending(n, k) == n * 1;
    while k > 0
      invariant 0 <= k < n
      invariant result == Descending(n, k) % 0x1_0000_0000_0000_0000
    {
      CutProduct(Descending(n, k), k);
      DescendingDown(n, k);
      result := result * k % 0x1_0000_0000_0000_0000;
      k := k - 1;
    }
    DescendingTimesFactorial(n, 0);
  }

  lemma DescendingDown(n: nat, k: nat)
    requires 0 < k <= n
    ensures Descending(n, k - 1) == Descending(n, k) * k
  {
  }

  /** The sum of the first k terms is below the next power, as far as 8. */
  lemma {:induction false} SumBelowPower(z: nat, k: nat)
    requires z <= 8
    ensures Sum(z, k) <= Power(8, k)
    decreases k
  {
    if k > 0 {
      SumBelowPower(z, k - 1);
      PowerMonotone(z, 8, k - 1);
      TermAtMostPower(z, k - 1);
    }
  }

  lemma TermAtMostPower(z: nat, k: nat)
    ensures Term(z, k) <= Power(z, k)
  {
    MulLe(1, Factorial(k), Power(z, k));
    QuotientAtMost(Power(z, k), Factorial(k), Power(z, k));
  }

  /** Up to the stop everything that is computed for a z of at most 8 fits 64 bits. */
  lemma NothingLost(z: nat, k: nat)
    requires 0 < z <= 8 && forall j: nat :: j < k ==> Term(z, j) > 0
    ensures Power(z, k) < 0x1_0000_0000_0000_0000 && Factorial(k) < 0x1_0000_0000_0000_0000
    ensures Sum(z, k) + Term(z, k) < 0x1_0000_0000_0000_0000
  {
    Numbers();
    PowerMonotone(z, 8, 20);
    ZeroTerm(z, 20);
    assert k <= 20;
    FactorialGrows(k, 20);
    PowerGrows(z, k, 20);
    SumBelowPower(z, k + 1);
    PowerGrows(8, k + 1, 21);
    EightTo21();
  }

  lemma EightTo21()
    ensures Power(8, 21) < 0x1_0000_0000_0000_0000
  {
    Numbers();
    assert Power(8, 21) == Power(8, 20) * 8;
  }

  /**
   e_tothe_z in 64-bit arithmetic. It ends for every z, since the sum grows until it stops, unless the
   factorial is cut to zero before; and for a z of at most 8 it is the sum of the whole series.
   */
  method EToTheZ64(z: DWord) returns (result: Option<DWord>)
    ensures z <= 8 ==> result.Some? && exists stop: nat :: Settled(z, stop, result.value)
  {
    if z == 0 {
      ZeroSeries(0);
      assert Settled(z, 1, 1);
      return Some(1);
    }
    var k: DWord, sum: DWord := 0, 0;
    while true
      invariant k <= sum
      invariant z <= 8 ==> sum == Sum(z, k) && forall j: nat :: j < k ==> Term(z, j) > 0
      decreases 0x1_0000_0000_0000_0000 - sum
    {
      var last := sum;
      var divisor;
      sum, divisor := AddTerm64(z, k, sum);
      if divisor == 0 {
        return None;
      }
      if sum <= last {
        if z <= 8 {
          Settles(z, k);
          assert Settled(z, k, last);
        }
        return Some(last);
      }
      k := k + 1;
    }
  }

  /** One turn of the loop: the quotient of power and factorial is added, if the factorial is not cut to zero. */
  method AddTerm64(z: DWord, k: DWord, sum: DWord) returns (newSum: DWord, divisor: DWord)
    requires z > 0
    ensures 0 < z <= 8 && sum == Sum(z, k) && (forall j: nat :: j < k ==> Term(z, j) > 0) ==>
              divisor != 0 && newSum == Sum(z, k + 1) == sum + Term(z, k)
  {
    var p := Power64(z, k);
    divisor := Factorial64(k);
    newSum := sum;
    if divisor != 0 {
      var term := p / divisor;
      newSum := (sum + term) % 0x1_0000_0000_0000_0000;
    }
    if z <= 8 && sum == Sum(z, k) && forall j: nat :: j < k ==> Term(z, j) > 0 {
      NothingLost(z, k);
      NothingCut(Power(z, k));
      NothingCut(Factorial(k));
      NothingCut(sum + Term(z, k));
    }
  }

  lemma NothingCut(x: nat)
    requires x < 0x1_0000_0000_0000_0000
    ensures x % 0x1_0000_0000_0000_0000 == x
  {
  }
}
