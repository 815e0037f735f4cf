/** primes_rust.rs: trial division with the 6k +- 1 optimisation over `u32`, and the
    enumeration loop of `main`. */
module TrialRust {
  import opened MachineInts
  import opened Arithmetic
  import Primality

  /** `is_prime`: decides primality of n by trial division. */
  method IsPrime(n: u32) returns (result: bool)
    ensures result == Primality.IsPrime(n as int)
  {
    if n < 2 {
      return false;
    }
    if n == 2 || n == 3 {
      return true;
    }
    if n % 2 == 0 || n % 3 == 0 {
      assert (n as int) % (if n % 2 == 0 then 2 else 3) == 0;
      return false;
    }
    // `(n as f64).sqrt() as u32` is the floor square root of n.
    var root := FloorSqrt(n as int);
    FloorSqrtBelow(n as int, 0x1_0000);
    var sqrtN: u32 := root as u32;
    if sqrtN * sqrtN < n {
      sqrtN := sqrtN + 1;
    }
    // The corrected bound: n <= sqrtN^2 and (sqrtN - 1)^2 < n.
    CorrectedRoot(n as int, root, sqrtN as int);
    Primality.TrialStart(n as int);
    var i: u32 := 5;
    ghost var k: nat := 0;  // i == 6k + 5
    while i <= sqrtN
      invariant i as int == 6 * k + 5
      invariant Primality.Survives(n as int, i as int)
    {
      Primality.TrialDivisorBelow(n as int, sqrtN as int);
      if n % i == 0 || n % (i + 2) == 0 {
        assert (n as int) % (if n % i == 0 then i as int else i as int + 2) == 0;
        return false;
      }
      Primality.TrialRound(n as int, i as int, k);
      i, k := i + 6, k + 1;
    }
    PastRoot(n as int, sqrtN as int, i as int);
    Primality.SurvivesIffPrime(n as int, i as int);
    return true;
  }

  /** The enumeration of `main` (apart from printing): emits 2 when limit >= 2, then
      every odd n in 3..=limit that `is_prime` accepts, counting each. */
  method CountPrimes(limit: u32) returns (primes: seq<nat>, count: nat)
    ensures primes == Primality.PrimesUpTo(limit as int)
    ensures Primality.StrictlyAscending(primes)
    ensures forall x: nat :: x in primes <==> x <= limit as int && Primality.IsPrime(x)
    ensures count == |primes|
  {
    primes, count := [], 0;
    if limit >= 2 {
      primes, count := primes + [2], count + 1;
    }
    Primality.EnumerationStart(limit as int);
    // `(3..=limit).step_by(2)` yields 3, 5, ... up to limit and never overflows.
    var n: nat := 3;
    while n <= limit as int
      invariant n >= 3 && n % 2 == 1
      invariant primes == Primality.PrimesUpTo(if n - 1 <= limit as int then n - 1 else limit as int)
      invariant count == |primes|
    {
      var p := IsPrime(n as u32);
      Primality.OddCandidateStep(n, limit as int);
      if p {
        primes, count := primes + [n], count + 1;
      }
      n := n + 2;
    }
    Primality.PrimesUpToAscending(limit as int);
    Primality.PrimesUpToMembers(limit as int);
  }
}
