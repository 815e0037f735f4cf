# Prime counting by trial division and by sieve, in Rust and C

The repository counts and prints the primes from 1 to a fixed limit (5,000,000) in four
programs:

- `primes_rust.rs` and `primes_c.c` test each odd candidate by trial division. They try
  the divisors 6k + 5 and 6k + 7 up to a corrected square root.
- `primes_rust_sieve.rs` and `primes_c_sieve.c` build a sieve of Eratosthenes. It is a
  flag table of limit + 1 entries, cleared in place: indices 0 and 1, then the even
  indices from 4, then, for every odd i up to the square root that is still flagged,
  i * i, i * i + 2i, and so on.

In every `main`, 2 is emitted first when the limit allows it. Then each odd n from 3 to
the limit that passes the test, or whose flag is set, is emitted, and `count` goes up by
one for each.

This project models the four programs in Dafny, one module per source file:

- `TrialRust`, `TrialC`, `SieveRust` and `SieveC` make the programs' integer widths
  explicit. `u32` and `unsigned int` are `MachineInts.u32`; Rust's `usize` on a 64-bit
  target is `MachineInts.usize`. As a result, every arithmetic step of `is_prime`, of
  `optimized_sieve` and of the C enumeration loops carries a proof that it does not
  overflow. The Rust enumeration loops are the exception: their `step_by` counter and
  their `i32` count are unbounded numbers in the model (see "Left out").
- Every array write is a checked update, so each write's index is proved to lie in
  [0, limit]. The Rust sieve writes through an unchecked raw pointer, so this is a
  safety result there.
- All four share one specification, in module `Primality`:
  - `IsPrime(n)`: n >= 2 and no d in [2, n - 1] divides n;
  - `PrimesUpTo(k)`: the ascending list of primes up to k;
  - `Survives(k, b)`: the state of a partly run sieve, and of a trial division that has
    tried every divisor below b.
- The floating-point square root is replaced by the exact floor square root
  `Arithmetic.FloorSqrt`.
- `Scenarios` derives the values of `PrimesUpTo` for the limits 0, 1, 2, 30 and 100.
- `CrossCheck.ScenarioThirty`, `CrossCheck.ScenarioHundred` and
  `CrossCheck.ScenarioSmallLimits` run the four `CountPrimes` methods at those limits.
  They state the lists and counts these methods return.
- `CrossCheck` runs the four enumerations side by side.

## Model

| member | source | states |
|---|---|---|
| Arithmetic.FloorSqrt | primes_rust_sieve.rs:24 | the truncated square root: r * r <= n < (r + 1) * (r + 1) |
| Arithmetic.CorrectedRoot | primes_rust.rs:17-20 | the correction `if sqrt_n * sqrt_n < n { sqrt_n += 1 }` yields s with n <= s * s and (s - 1) * (s - 1) < n |
| Arithmetic.PastRoot | primes_c.c:16 | once the 6k + 5 counter passes the corrected root s, n < i * i |
| TrialRust.IsPrime | primes_rust.rs:5-31 | `is_prime(n)` returns exactly IsPrime(n) for every `u32` n, including n < 2, 2, 3 and the multiples of 2 or 3; no `u32` step (`sqrt_n * sqrt_n`, `sqrt_n += 1`, `i + 2`, `i += 6`) overflows |
| TrialC.IsPrime | primes_c.c:6-22 | the same for `unsigned int` n and the `for` loop with `i += 6` |
| TrialRust.CountPrimes | primes_rust.rs:39-57 | the emitted list is PrimesUpTo(limit): strictly ascending, containing exactly the primes <= limit, with count equal to its length |
| TrialC.CountPrimes | primes_c.c:30-47 | the same, with an `unsigned int` count and `n += 2`, for every limit below UINT_MAX |
| SieveRust.OptimizedSieve | primes_rust_sieve.rs:4-41 | the table has limit + 1 entries and entry k is true exactly when k is prime, for every limit including 0 to 3; every write is in bounds |
| SieveRust.InitialTable | primes_rust_sieve.rs:5-21 | after `vec![true; limit + 1]`, the writes to 0 and 1 (the latter only when limit > 0) and the even pass, entry k is true exactly when k >= 2 and k is not an even number from 4 on |
| SieveRust.ClearEvens | primes_rust_sieve.rs:17-21 | clears exactly the even indices 4..=limit and changes nothing else |
| SieveRust.OddRound | primes_rust_sieve.rs:26-36 | one round of the outer loop takes a table sieved below odd i to one sieved below i + 2 |
| SieveRust.ClearOddMultiples | primes_rust_sieve.rs:27-34 | clears exactly i * i, i * i + 2i, ... up to limit and changes nothing else; `j += step` does not overflow |
| SieveRust.CountPrimes | primes_rust_sieve.rs:55-69 | the list read off the table is PrimesUpTo(limit): strictly ascending, exactly the primes <= limit, with count equal to its length |
| SieveC.OptimizedSieve | primes_c_sieve.c:8-39 | the table has limit + 1 entries and entry k is true exactly when k is prime; no `unsigned int` intermediate (`limit + 1`, `i * i`, `i * 2`, `j += step`, `i += 2`) overflows |
| SieveC.InitialTable | primes_c_sieve.c:9-24 | after `malloc` and `memset(.., true, ..)`, the clearing of 0 and 1 (the latter only when limit > 0) and the even pass, entry k is true exactly when k >= 2 and k is not an even number from 4 on |
| SieveC.ClearEvens | primes_c_sieve.c:20-24 | clears exactly the even indices 4..limit and changes nothing else |
| SieveC.OddRound | primes_c_sieve.c:28-36 | one round of the outer loop takes a table sieved below odd i to one sieved below i + 2 |
| SieveC.ClearOddMultiples | primes_c_sieve.c:29-35 | clears exactly i * i, i * i + 2i, ... up to limit and changes nothing else |
| SieveC.CountPrimes | primes_c_sieve.c:52-66 | the list read off the table is PrimesUpTo(limit), strictly ascending, exactly the primes <= limit, with an `unsigned int` count equal to its length |
| Primality.SurvivesSelf | primes_rust_sieve.rs:27 | a flag read at i, once every factor below i has been struck, is the primality of i |
| Primality.SurvivesIffPrime | primes_rust.rs:23-30 | once every divisor below b has been ruled out and b * b > k, k is prime exactly when it survives; this is why trial division may stop at the square root |
| Primality.SurvivesPastComposite | primes_rust_sieve.rs:27 | skipping a composite i (its flag is false) strikes nothing new |
| Primality.OddMultipleIffFactor | primes_rust_sieve.rs:29-33 | for odd i and a k with no factor below i, the inner loop's indices are exactly the proper multiples of i |
| Primality.SieveRound | primes_rust_sieve.rs:25-37 | outer-loop invariant for one k: round i turns Survives(k, i) into Survives(k, i + 2), striking odd multiples of a prime i and nothing for a composite i |
| Primality.OddMultipleIsComposite | primes_rust_sieve.rs:28-33 | every index the inner loop clears is composite, so the sieve never clears a prime |
| Primality.NextOddMultiple | primes_c_sieve.c:32 | between i * c and i * (c + 2) there is no index the inner loop has to clear |
| Primality.NoOddMultipleBetween | primes_c_sieve.c:32 | the same for every index strictly between those two |
| Primality.OddMultipleAt | primes_c_sieve.c:32-33 | i * c for odd c >= i is an index the inner loop must clear |
| Primality.AfterEvenPass | primes_c_sieve.c:14-24 | the table after the clearing of 0, 1 and the even numbers from 4 is the table sieved below 3 |
| Primality.SieveRoundAll | primes_c_sieve.c:28-36 | one outer round on whole tables keeps the invariant: sieved below i becomes sieved below i + 2 |
| Primality.SievedIsPrimality | primes_c_sieve.c:27-38 | after the outer loop, when i * i exceeds every index, entry k is IsPrime(k) |
| Primality.TrialStart | primes_c.c:9 | after the early exits for 2 and 3, no divisor below 5 divides n |
| Primality.TrialRound | primes_c.c:16-20 | one round of the 6k +- 1 loop: ruling out i and i + 2 rules out everything below i + 6 |
| Primality.SkippedCandidate | primes_rust.rs:22-28 | the candidates the 6k +- 1 loop skips are multiples of 2 or 3 |
| Primality.TrialDivisorBelow | primes_rust.rs:23-25 | the divisors tried, i and i + 2 with i <= sqrt_n, are below n: trial division never tests n against itself |
| Primality.PrimesUpToMembers | primes_c.c:41-47 | PrimesUpTo(k) holds exactly the primes <= k |
| Primality.PrimesUpToAscending | primes_c.c:41-47 | PrimesUpTo(k) is strictly ascending, so no prime is emitted twice |
| Primality.PrimesUpToStartsWithTwo | primes_rust.rs:46-49 | from limit 2 on, the first prime emitted is 2 |
| Primality.OddCandidateStep | primes_rust.rs:52-57 | stepping the odd candidate n by 2 extends the emitted list by n exactly when n is prime |
| Primality.EnumerationStart | primes_c.c:36-39 | before the odd loop, the emitted list is [2] when limit >= 2 and empty otherwise |
| Primality.PrimesUpToEven | primes_c.c:42 | the skipped even candidates above 2 add nothing to the list |
| Scenarios.AscendingUnique | primes_c.c:41-47 | two strictly ascending lists with the same members are equal: the output is fixed by the set of primes |
| Scenarios.SmallPrimality | primes_c.c:36-47 | helper for the concrete outputs, not a model of `is_prime`: below 121, being prime means having none of 2, 3, 5, 7 as a proper divisor |
| Scenarios.ListedPrimes | primes_c.c:36-47 | an ascending list of exactly the primes up to k is the output for limit k |
| Scenarios.PrimesUpToThirty | primes_c.c:36-47 | limit 30 prints 2, 3, 5, 7, 11, 13, 17, 19, 23, 29: ten primes |
| Scenarios.PrimesUpToHundred | primes_rust.rs:46-57 | limit 100 prints the 25 primes below 100 |
| Scenarios.SmallLimits | primes_rust.rs:46-49 | limits 0 and 1 print nothing; limit 2 prints exactly 2 |
| CrossCheck.CrossValidate | primes_c_sieve.c:52-66 | trial division and sieve, in Rust and in C, give the same prime list and the same count for every limit up to the C sieve's bound |
| CrossCheck.RunAll | primes_rust_sieve.rs:55-69 | the four enumerations, run with one limit, each return PrimesUpTo(limit) and its length as the count |
| CrossCheck.ScenarioThirty | primes_c.c:36-47 | with limit 30, each of the four `CountPrimes` methods returns 2, 3, 5, 7, 11, 13, 17, 19, 23, 29 and the count 10 |
| CrossCheck.ScenarioHundred | primes_rust.rs:46-57 | with limit 100, each of the four `CountPrimes` methods returns the 25 primes below 100 and the count 25 |
| CrossCheck.ScenarioSmallLimits | primes_rust_sieve.rs:58-69 | with limit 0 or 1, each of the four `CountPrimes` methods returns no primes and the count 0; with limit 2, exactly [2] and the count 1 |

## Left out

- Console output: the banners, `BufWriter`, `setvbuf`, `flush` and the `.unwrap()` on a
  failed write. Emission is appending to the returned sequence.
- Timing (`Instant::now`, `elapsed`, `clock`, `CLOCKS_PER_SEC`) and the formatting of
  seconds to three decimals. These are wall-clock readings and floating-point output.
- The constant `LIMIT = 5,000,000` becomes a parameter `limit` of every enumeration.
- The floating-point `sqrt` is replaced by the floor square root `FloorSqrt`.
  - For `u32` arguments a double square root truncates to exactly this value.
  - For `usize` arguments, the Rust sieve's `(limit as f64).sqrt() as usize` can be
    FloorSqrt(limit) + 1. This first happens at limit = (2^26 + 1)^2 - 1, about 2^52,
    where the exact root lies within half an ulp of 2^26 + 1 and rounds up. The
    program's root is never below the floor.
  - That extra value adds at most one outer round, and only when FloorSqrt(limit) + 1
    is odd. The i of that round has i * i > limit.
    That round writes nothing, so the program's table equals the one the model proves.
- `malloc`, `memset` and `free`, and Rust's `Vec` allocation, are modelled as
  `new bool[limit + 1]` filled with true.
  - A failed allocation is not modelled. The C program never checks `malloc` for NULL.
  - Freeing the table is not modelled.
- Raw-pointer access (`as_mut_ptr`, `ptr.add`, `get_unchecked`) is modelled as checked
  array indexing, so whether each access is in bounds becomes a proof obligation.
- TrialRust.CountPrimes: the Rust `count` is an `i32` by type inference, modelled as an
  unbounded `nat`. Below 2^32 there are fewer than 2^31 primes, so for a `u32` limit it
  cannot overflow, but the model does not prove that bound.
- SieveRust.CountPrimes: the same `i32` count, modelled as a `nat`. For a large `usize`
  limit it could exceed 2^31 - 1, and that overflow is not modelled.
- SieveRust.OptimizedSieve: requires limit <= usize::MAX - 2^33.
  - Every excluded limit is above isize::MAX.
  - For each excluded limit below usize::MAX, `vec![true; limit + 1]`
    (primes_rust_sieve.rs:5) asks for more than isize::MAX bytes and panics with
    "capacity overflow" in every build. The loops are never reached, so `j += step`
    never runs.
  - At limit == usize::MAX, a debug build panics on `limit + 1`. A release build wraps
    it to 0 and gets an empty `Vec`. Then `*ptr.add(0)` (line 11), `*ptr.add(1)`
    (line 13) and the even pass (line 19) write out of bounds. This is the only input
    at which the unsafe block writes out of bounds.
  - So the bound excludes no limit for which the program returns a table.
  - The same allocation panic also hits the limits from isize::MAX up to the bound.
    The model treats the allocation as succeeding there (see the allocation line above).
  - SieveRust.CountPrimes and its helpers take the same bound.
- SieveC.OptimizedSieve: requires limit <= UINT_MAX - 2^17, a sufficient bound under
  which no `unsigned int` step overflows. It is not the exact one.
  - No inner loop wraps below limit = UINT_MAX - 129026. There the round i = 65027
    reaches j = limit, and `j += step` wraps to 1027.
  - After such a wrap, j restarts at a small index that is not a multiple of i. The
    step 2i is twice an odd number, so j then runs through odd residues until it
    exceeds limit. The loop therefore ends, but it has cleared non-multiples of i, some
    of them primes. The model does not capture that wrong table.
  - Every inner loop ends for limit < UINT_MAX - 1.
  - For limit >= UINT_MAX - 1, the even pass (`for (i = 4; i <= limit; i += 2)`) never
    ends. Its last even index, UINT_MAX - 1, steps to 0 <= limit, so
    `optimized_sieve` never returns.
  - At limit == UINT_MAX, `(limit + 1) * sizeof(bool)` is 0. The writes at indices 0
    and 1 after `malloc(0)` are then out of bounds before any loop runs.
  - SieveC.CountPrimes and CrossCheck.CrossValidate take the same bound.
- TrialC.CountPrimes: requires limit < UINT_MAX. With limit == UINT_MAX, `n += 2`
  wraps around and the loop never ends.
