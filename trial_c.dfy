/** primes_c.c: trial division with the 6k +- 1 optimisation over `unsigned int`, and the
    enumeration loop of `main`. */
module TrialC {
  import opened MachineInts
  import opened Arithmetic
  import Primality

  /** `is_prime`: decides primality of n by trial division. */
  method IsPrime(n: u32) returns (result: bool)
    ensures result == Primality.IsPrime(n as int)
  {
    if n < 2 {
      return false;
    }
    if n == 2 || n == 3 {
      return true;
    }
    if n % 2 == 0 || n % 3 == 0 {
      assert (n as int) % (if n % 2 == 0 then 2 else 3) == 0;
      return false;
    }
    // `(unsigned int)sqrt(n)` is the floor square root of n.
    var root := FloorSqrt(n as int);
    FloorSqrtBelow(n as int, 0x1_0000);
    var sqrtN: u32 := root as u32;
    if sqrtN * sqrtN < n {
      sqrtN := sqrtN + 1;
    }
    // The corrected bound: n <= sqrtN^2 and (sqrtN - 1)^2 < n.
    CorrectedRoot(n as int, root, sqrtN as int);
    Primality.TrialStart(n as int);
    // for (i = 5; i <= sqrt_n; i += 6)
    var i: u32 := 5;
    ghost var k: nat := 0;  // i == 6k + 5
    while i <= sqrtN
      invariant i as int == 6 * k + 5
      invariant Primality.Survives(n as int, i as int)
    {
      Primality.TrialDivisorBelow(n as int, sqrtN as int);
      if n % i == 0 || n % (i + 2) == 0 {
        assert (n as int) % (if n % i == 0 then i as int else i as int + 2) == 0;
        return false;
      }
      Primality.TrialRound(n as int, i as int, k);
      i, k := i + 6, k + 1;
    }
    PastRoot(n as int, sqrtN as int, i as int);
    Primality.SurvivesIffPrime(n as int, i as int);
    return true;
  }

  /** The enumeration of `main` (apart from printing): emits 2 when limit >= 2, then
      every odd n in 3..limit that `is_prime` accepts, counting each in an
      `unsigned int`. The loop `for (n = 3; n <= limit; n += 2)` would wrap around
      and never end for limit == UINT_MAX, hence the precondition. */
  method CountPrimes(limit: u32) returns (primes: seq<nat>, count: u32)
    requires limit as int < U32_MAX
    ensures primes == Primality.PrimesUpTo(limit as int)
    ensures Primality.StrictlyAscending(primes)
    ensures forall x: nat :: x in primes <==> x <= limit as int && Primality.IsPrime(x)
    ensures count as int == |primes|
  {
    primes, count := [], 0;
    if limit >= 2 {
      primes, count := primes + [2], count + 1;
    }
    Primality.EnumerationStart(limit as int);
    // for (n = 3; n <= limit; n += 2)
    var n: u32 := 3;
    while n <= limit
      invariant n >= 3 && n as int % 2 == 1
      invariant primes == Primality.PrimesUpTo(if n as int - 1 <= limit as int then n as int - 1 else limit as int)
      invariant count as int == |primes| < n as int
    {
      // n is odd and below UINT_MAX, so n += 2 does not wrap around.
      assert n as int + 2 <= U32_MAX by {
        assert n as int % 2 == 1 && n as int < U32_MAX && U32_MAX % 2 == 1;
      }
      var p := IsPrime(n);
      Primality.OddCandidateStep(n as int, limit as int);
      if p {
        primes, count := primes + [n as nat], count + 1;
      }
      n := n + 2;
    }
    Primality.PrimesUpToAscending(limit as int);
    Primality.PrimesUpToMembers(limit as int);
  }
}
