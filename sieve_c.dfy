/** primes_c_sieve.c: the sieve of Eratosthenes over a heap array of `bool` indexed by
    `unsigned int`, and the enumeration loop of `main`. */
module SieveC {
  import opened MachineInts
  import opened Arithmetic
  import Primality

  /** A limit up to which no `unsigned int` computation of the sieve overflows: `limit + 1`, the even pass's `i += 2` and
      the inner loop's `j += step`, which reaches at most limit + 2 * sqrt(limit) < limit + 2^17. */
  const MAX_LIMIT: int := U32_MAX - 0x2_0000

  /** `optimized_sieve`: a table of limit + 1 flags, flag k true exactly when k is prime.
      `malloc` followed by `memset(.., true, ..)` is an allocation filled with true.
      Every write below is a checked array update, so that each write's index lies in
      [0, limit] is proved, where the program writes through a plain pointer. */
  method OptimizedSieve(limit: u32) returns (table: array<bool>)
    requires limit as int <= MAX_LIMIT
    ensures fresh(table)
    ensures table.Length == limit as int + 1
    ensures forall k :: 0 <= k < table.Length ==> table[k] == Primality.IsPrime(k)
  {
    table := InitialTable(limit);
    assert Primality.Sieved(table[..], 3) by {
      forall k | 0 <= k < table.Length ensures table[k] == Primality.Survives(k, 3) {
        Primality.AfterEvenPass(k);
      }
    }

    // `(unsigned int)sqrt(limit)` is the floor square root of limit.
    var root := FloorSqrt(limit as int);
    FloorSqrtBelow(limit as int, 0x1_0000);
    var sqrtLimit: u32 := root as u32;
    // for (i = 3; i <= sqrt_limit; i += 2)
    var i: u32 := 3;
    ghost var m: nat := 1;  // i == 2m + 1
    while i <= sqrtLimit
      invariant i as int == 2 * m + 1 && i >= 3
      invariant Primality.Sieved(table[..], i as int)
    {
      OddForm(i as int, m);
      OddRound(table, limit, i);
      i, m := i + 2, m + 1;
    }
    SquareMonotone(root + 1, i as int);
    Primality.SievedIsPrimality(table[..], i as int);
  }

  /** The set-up of `optimized_sieve` before the odd rounds: a fresh table of limit + 1
      flags, all true, then 0 and 1 cleared and the even pass run. Afterwards flag k is
      set exactly when k >= 2 and k is not an even number from 4 on. */
  method InitialTable(limit: u32) returns (table: array<bool>)
    requires limit as int <= MAX_LIMIT
    ensures fresh(table) && table.Length == limit as int + 1
    ensures forall k :: 0 <= k < table.Length ==> table[k] == (k >= 2 && !(4 <= k && k % 2 == 0))
  {
    table := new bool[limit + 1](_ => true);
    table[0] := false;
    if limit > 0 {
      table[1] := false;
    }
    if limit >= 4 {
      ClearEvens(table, limit);
    }
  }

  /** The even pass of `optimized_sieve`, `for (i = 4; i <= limit; i += 2)`: clears
      exactly the even indices from 4 to limit. */
  method ClearEvens(table: array<bool>, limit: u32)
    requires 4 <= limit as int <= MAX_LIMIT && table.Length == limit as int + 1
    modifies table
    ensures forall k :: 0 <= k < table.Length ==>
              table[k] == (old(table[k]) && !(4 <= k && k % 2 == 0))
  {
    var i: u32 := 4;
    while i <= limit
      invariant 4 <= i as int <= limit as int + 2 && i as int % 2 == 0
      invariant forall k :: 0 <= k < table.Length ==>
                  table[k] == (old(table[k]) && !(4 <= k < i as int && k % 2 == 0))
    {
      table[i] := false;
      i := i + 2;
    }
  }

  /** One round of the outer loop of `optimized_sieve`, for an odd i <= sqrt(limit):
      when the flag of i is still set, clears its odd multiples from i * i on. From a
      table sieved below i it leaves one sieved below i + 2. */
  method OddRound(table: array<bool>, limit: u32, i: u32)
    requires limit as int <= MAX_LIMIT && table.Length == limit as int + 1
    requires i >= 3 && i as int % 2 == 1 && i as int <= FloorSqrt(limit as int)
    requires Primality.Sieved(table[..], i as int)
    modifies table
    ensures Primality.Sieved(table[..], i as int + 2)
  {
    SquareMonotone(i as int, FloorSqrt(limit as int));
    ghost var before := table[..];
    assert table[i] == Primality.IsPrime(i as int) by {
      Primality.SurvivesSelf(i as int);
    }
    ghost var iIsPrime := table[i];
    if table[i] {
      ClearOddMultiples(table, limit, i);
    }
    Primality.SieveRoundAll(before, table[..], i as int, iIsPrime);
  }

  /** The inner loop of `optimized_sieve` for an odd i with i * i <= limit,
      `for (j = i * i; j <= limit; j += step)` with step = 2i: clears exactly i*i, i*i + 2i,
      i*i + 4i, ... up to limit, and nothing else. */
  method ClearOddMultiples(table: array<bool>, limit: u32, i: u32)
    requires limit as int <= MAX_LIMIT && table.Length == limit as int + 1
    requires i >= 3 && i as int % 2 == 1 && i as int * i as int <= limit as int
    modifies table
    ensures forall k :: 0 <= k < table.Length ==>
              table[k] == (old(table[k]) && !Primality.OddMultiple(k, i as int))
  {
    FloorSqrtBelow(limit as int, 0x1_0000);
    SquareBelow(i as int, FloorSqrt(limit as int) + 1);
    var j: u32 := i * i;
    var step: u32 := i * 2;
    ghost var c: nat := i as nat;  // j == i * c, c odd
    while j <= limit
      invariant j as int == i as int * c && c % 2 == 1 && c >= i as int
      invariant forall k :: 0 <= k < table.Length ==>
                  table[k] == (old(table[k]) && !(k < j as int && Primality.OddMultiple(k, i as int)))
    {
      Primality.OddMultipleAt(i as int, c);
      Primality.NoOddMultipleBetween(i as int, c);
      table[j] := false;
      assert i as int * (c + 2) == i as int * c + step as int;
      j, c := j + step, c + 2;
    }
  }

  /** The enumeration of `main` (apart from printing): builds the table, emits 2 when
      limit >= 2 and the flag of 2 is set, then every odd n in 3..=limit whose flag is
      set, counting each in an `unsigned int`. */
  method CountPrimes(limit: u32) returns (primes: seq<nat>, count: u32)
    requires limit as int <= MAX_LIMIT
    ensures primes == Primality.PrimesUpTo(limit as int)
    ensures Primality.StrictlyAscending(primes)
    ensures forall x: nat :: x in primes <==> x <= limit as int && Primality.IsPrime(x)
    ensures count as int == |primes|
  {
    var table := OptimizedSieve(limit);
    primes, count := [], 0;
    if limit >= 2 && table[2] {
      primes, count := primes + [2], count + 1;
    }
    Primality.EnumerationStart(limit as int);
    // for (n = 3; n <= limit; n += 2)
    var n: u32 := 3;
    while n <= limit
      invariant n >= 3 && n as int % 2 == 1
      invariant forall k :: 0 <= k < table.Length ==> table[k] == Primality.IsPrime(k)
      invariant primes == Primality.PrimesUpTo(if n as int - 1 <= limit as int then n as int - 1 else limit as int)
      invariant count as int == |primes| < n as int
    {
      // n is odd and below UINT_MAX, so n += 2 does not wrap around.
      assert n as int + 2 <= U32_MAX by {
        assert n as int % 2 == 1 && n as int < U32_MAX && U32_MAX % 2 == 1;
      }
      Primality.OddCandidateStep(n as int, limit as int);
      if table[n] {
        primes, count := primes + [n as nat], count + 1;
      }
      n := n + 2;
    }
    Primality.PrimesUpToAscending(limit as int);
    Primality.PrimesUpToMembers(limit as int);
  }
}
