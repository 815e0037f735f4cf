/** primes_rust_sieve.rs: the sieve of Eratosthenes over a `Vec<bool>` indexed by
    `usize`, and the enumeration loop of `main`. */
module SieveRust {
  import opened MachineInts
  import opened Arithmetic
  import Primality

  /** A limit up to which no `usize` computation of the sieve overflows: `limit + 1`, the even pass and
      the inner loop's `j += step`, which reaches at most limit + 2 * sqrt(limit) < limit + 2^33. */
  const MAX_LIMIT: int := USIZE_MAX - 0x2_0000_0000

  /** `optimized_sieve`: a table of limit + 1 flags, flag k true exactly when k is prime.
      `vec![true; limit + 1]` is an allocation filled with true.
      Every write below is a checked array update, so that each write's index lies in
      [0, limit] is proved, where the program writes through a raw pointer (`*ptr.add(i)`) without bounds checks. */
  method OptimizedSieve(limit: usize) returns (table: array<bool>)
    requires limit as int <= MAX_LIMIT
    ensures fresh(table)
    ensures table.Length == limit as int + 1
    ensures forall k :: 0 <= k < table.Length ==> table[k] == Primality.IsPrime(k)
  {
    table := InitialTable(limit);
    assert Primality.Sieved(table[..], 3) by {
      forall k | 0 <= k < table.Length ensures table[k] == Primality.Survives(k, 3) {
        Primality.AfterEvenPass(k);
      }
    }

    // `(limit as f64).sqrt() as usize` is the floor square root of limit below about 2^52;
    // above that it can be one more, which adds no write (see README, Left out).
    var root := FloorSqrt(limit as int);
    FloorSqrtBelow(limit as int, 0x1_0000_0000);
    var sqrtLimit: usize := root as usize;
    var i: usize := 3;
    ghost var m: nat := 1;  // i == 2m + 1
    while i <= sqrtLimit
      invariant i as int == 2 * m + 1 && i >= 3
      invariant Primality.Sieved(table[..], i as int)
    {
      OddForm(i as int, m);
      OddRound(table, limit, i);
      i, m := i + 2, m + 1;
    }
    SquareMonotone(root + 1, i as int);
    Primality.SievedIsPrimality(table[..], i as int);
  }

  /** The set-up of `optimized_sieve` before the odd rounds: a fresh table of limit + 1
      flags, all true, then 0 and 1 cleared and the even pass run. Afterwards flag k is
      set exactly when k >= 2 and k is not an even number from 4 on. */
  method InitialTable(limit: usize) returns (table: array<bool>)
    requires limit as int <= MAX_LIMIT
    ensures fresh(table) && table.Length == limit as int + 1
    ensures forall k :: 0 <= k < table.Length ==> table[k] == (k >= 2 && !(4 <= k && k % 2 == 0))
  {
    table := new bool[limit + 1](_ => true);
    table[0] := false;
    if limit > 0 {
      table[1] := false;
    }
    if limit >= 4 {
      ClearEvens(table, limit);
    }
  }

  /** The even pass of `optimized_sieve`, `for i in (4..=limit).step_by(2)`: clears
      exactly the even indices from 4 to limit. */
  method ClearEvens(table: array<bool>, limit: usize)
    requires 4 <= limit as int <= MAX_LIMIT && table.Length == limit as int + 1
    modifies table
    ensures forall k :: 0 <= k < table.Length ==>
              table[k] == (old(table[k]) && !(4 <= k && k % 2 == 0))
  {
    var i: usize := 4;
    while i <= limit
      invariant 4 <= i as int <= limit as int + 2 && i as int % 2 == 0
      invariant forall k :: 0 <= k < table.Length ==>
                  table[k] == (old(table[k]) && !(4 <= k < i as int && k % 2 == 0))
    {
      table[i] := false;
      i := i + 2;
    }
  }

  /** One round of the outer loop of `optimized_sieve`, for an odd i <= sqrt(limit):
      when the flag of i is still set, clears its odd multiples from i * i on. From a
      table sieved below i it leaves one sieved below i + 2. */
  method OddRound(table: array<bool>, limit: usize, i: usize)
    requires limit as int <= MAX_LIMIT && table.Length == limit as int + 1
    requires i >= 3 && i as int % 2 == 1 && i as int <= FloorSqrt(limit as int)
    requires Primality.Sieved(table[..], i as int)
    modifies table
    ensures Primality.Sieved(table[..], i as int + 2)
  {
    SquareMonotone(i as int, FloorSqrt(limit as int));
    ghost var before := table[..];
    assert table[i] == Primality.IsPrime(i as int) by {
      Primality.SurvivesSelf(i as int);
    }
    ghost var iIsPrime := table[i];
    if table[i] {
      ClearOddMultiples(table, limit, i);
    }
    Primality.SieveRoundAll(before, table[..], i as int, iIsPrime);
  }

  /** The inner loop of `optimized_sieve` for an odd i with i * i <= limit,
      `while j <= limit { ...; j += step }` with step = 2i: clears exactly i*i, i*i + 2i,
      i*i + 4i, ... up to limit, and nothing else. */
  method ClearOddMultiples(table: array<bool>, limit: usize, i: usize)
    requires limit as int <= MAX_LIMIT && table.Length == limit as int + 1
    requires i >= 3 && i as int % 2 == 1 && i as int * i as int <= limit as int
    modifies table
    ensures forall k :: 0 <= k < table.Length ==>
              table[k] == (old(table[k]) && !Primality.OddMultiple(k, i as int))
  {
    FloorSqrtBelow(limit as int, 0x1_0000_0000);
    SquareBelow(i as int, FloorSqrt(limit as int) + 1);
    var j: usize := i * i;
    var step: usize := i * 2;
    ghost var c: nat := i as nat;  // j == i * c, c odd
    while j <= limit
      invariant j as int == i as int * c && c % 2 == 1 && c >= i as int
      invariant forall k :: 0 <= k < table.Length ==>
                  table[k] == (old(table[k]) && !(k < j as int && Primality.OddMultiple(k, i as int)))
    {
      Primality.OddMultipleAt(i as int, c);
      Primality.NoOddMultipleBetween(i as int, c);
      table[j] := false;
      assert i as int * (c + 2) == i as int * c + step as int;
      j, c := j + step, c + 2;
    }
  }

  /** The enumeration of `main` (apart from printing): builds the table, emits 2 when
      limit >= 2 and the flag of 2 is set, then every odd n in 3..=limit whose flag is
      set, counting each. */
  method CountPrimes(limit: usize) returns (primes: seq<nat>, count: nat)
    requires limit as int <= MAX_LIMIT
    ensures primes == Primality.PrimesUpTo(limit as int)
    ensures Primality.StrictlyAscending(primes)
    ensures forall x: nat :: x in primes <==> x <= limit as int && Primality.IsPrime(x)
    ensures count as int == |primes|
  {
    var table := OptimizedSieve(limit);
    primes, count := [], 0;
    if limit >= 2 && table[2] {
      primes, count := primes + [2], count + 1;
    }
    Primality.EnumerationStart(limit as int);
    // `(3..=limit).step_by(2)` yields 3, 5, ... up to limit and never overflows.
    var n: nat := 3;
    while n <= limit as int
      invariant n >= 3 && n % 2 == 1
      invariant forall k :: 0 <= k < table.Length ==> table[k] == Primality.IsPrime(k)
      invariant primes == Primality.PrimesUpTo(if n - 1 <= limit as int then n - 1 else limit as int)
      invariant count == |primes|
    {
      Primality.OddCandidateStep(n, limit as int);
      // `*is_prime.get_unchecked(n)`
      if table[n] {
        primes, count := primes + [n], count + 1;
      }
      n := n + 2;
    }
    Primality.PrimesUpToAscending(limit as int);
    Primality.PrimesUpToMembers(limit as int);
  }
}
