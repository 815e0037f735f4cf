/** The mathematical specification shared by the sieve and the trial-division
    programs: primality, the state of a partially run sieve, and the ascending
    sequence of primes that both programs emit. */
module Primality {
  import opened Arithmetic

  /** n is prime: n >= 2 and no d in [2, n - 1] divides n. */
  ghost predicate IsPrime(n: nat) {
    n >= 2 && forall d :: 2 <= d < n ==> n % d != 0
  }

  /** k >= 2 and no candidate factor d in [2, b), other than k itself, divides k.
      This is what a sieve table holds at k once every factor below b has been
      struck out, and what trial division knows once it has tried every divisor below b. */
  ghost predicate Survives(k: nat, b: nat) {
    k >= 2 && forall d :: 2 <= d < b && d < k ==> k % d != 0
  }

  /** k is one of the indices the sieve's inner loop clears for i: i*i, i*i + 2i, i*i + 4i, ... */
  ghost predicate OddMultiple(k: nat, i: nat) {
    i > 0 && i * i <= k && k % i == 0 && (k / i) % 2 == 1
  }

  /** Survives(k, k) is primality itself. */
  lemma SurvivesSelf(k: nat)
    ensures Survives(k, k) == IsPrime(k)
  {
  }

  /** A composite k has a divisor e with e * e <= k. */
  lemma SmallDivisor(k: nat, d: nat) returns (e: nat)
    requires 2 <= d < k && k % d == 0
    ensures 2 <= e < k && e * e <= k && k % e == 0
  {
    var q := k / d;
    assert k == d * q by { DivExact(k, d); }
    assert q >= 2 by { MulCancelLess(1, q, d); }
    if d <= q {
      e := d;
      assert d * d <= d * q by { MulMonotone(d, q, d); }
    } else {
      e := q;
      assert q * q <= q * d by { MulMonotone(q, d, q); }
      assert k % q == 0 by {
        assert k == q * d;
        MulModZero(q, d);
      }
    }
  }

  /** Once every candidate factor below b has been tried and b * b > k, surviving is being
      prime: a composite number always has a factor no larger than its square root. */
  lemma {:induction false} SurvivesIffPrime(k: nat, b: nat)
    requires k < b * b
    ensures Survives(k, b) <==> IsPrime(k)
  {
    if Survives(k, b) && !IsPrime(k) {
      var d :| 2 <= d < k && k % d == 0;
      var e := SmallDivisor(k, d);
      SquareBelow(e, b);
    }
  }

  /** Passing a composite candidate factor b strikes nothing new: any multiple of b is
      already a multiple of one of b's smaller factors. */
  lemma {:induction false} SurvivesPastComposite(k: nat, b: nat)
    requires b >= 2 && !IsPrime(b)
    ensures Survives(k, b + 1) == Survives(k, b)
  {
    if Survives(k, b) && b < k && k % b == 0 {
      var e :| 2 <= e < b && b % e == 0;
      DividesTransitive(k, b, e);
    }
  }

  /** i < i * i, for i >= 2. */
  lemma BelowSquare(i: nat)
    requires i >= 2
    ensures i < i * i
  {
    MulMonotone(2, i, i);
  }

  /** For an odd i >= 3 and a k that no factor below i strikes, the inner loop's indices
      are exactly the proper multiples of i. */
  lemma {:induction false} OddMultipleIffFactor(k: nat, i: nat)
    requires i >= 3 && i % 2 == 1 && Survives(k, i)
    ensures OddMultiple(k, i) <==> (k % i == 0 && i < k)
  {
    BelowSquare(i);
    if k % i == 0 && i < k {
      var q := k / i;
      assert k == i * q by { DivExact(k, i); }
      assert q >= 2 by { MulCancelLess(1, q, i); }
      assert q >= i by {
        if q < i {
          assert k % q == 0 by {
            assert k == q * i;
            MulModZero(q, i);
          }
          assert false;
        }
      }
      assert i * i <= k by { MulMonotone(i, q, i); }
      assert q % 2 == 1 by {
        if q % 2 == 0 {
          assert k % 2 == 0 by {
            assert k == 2 * ((q / 2) * i);
            MulModZero(2, (q / 2) * i);
          }
          assert false;
        }
      }
    }
  }

  /** One round of the sieve's outer loop, for odd i >= 3, brings a table that holds
      Survives(., i) to one that holds Survives(., i + 2): a prime i strikes exactly its
      odd multiples from i * i on, a composite i strikes nothing new, and the even
      candidate i + 1 strikes nothing new either. */
  lemma {:induction false} SieveRound(k: nat, i: nat)
    requires i >= 3 && i % 2 == 1
    ensures IsPrime(i) ==> Survives(k, i + 2) == (Survives(k, i) && !OddMultiple(k, i))
    ensures !IsPrime(i) ==> Survives(k, i + 2) == Survives(k, i)
  {
    assert !IsPrime(i + 1) by {
      assert (i + 1) % 2 == 0;
    }
    SurvivesPastComposite(k, i + 1);
    if IsPrime(i) {
      if Survives(k, i) {
        OddMultipleIffFactor(k, i);
      }
    } else {
      SurvivesPastComposite(k, i);
    }
  }

  /** Every index the inner loop clears is composite: the sieve never clears a prime. */
  lemma {:induction false} OddMultipleIsComposite(k: nat, i: nat)
    requires i >= 2 && OddMultiple(k, i)
    ensures !IsPrime(k)
  {
    BelowSquare(i);
    assert 2 <= i < k && k % i == 0;
  }

  /** The inner loop visits i * c, then i * (c + 2): no index it must clear lies between. */
  lemma {:induction false} NextOddMultiple(k: nat, i: nat, c: nat)
    requires i >= 1 && c % 2 == 1
    requires i * c <= k < i * c + 2 * i
    requires OddMultiple(k, i)
    ensures k == i * c
  {
    var q := k / i;
    DivExact(k, i);
    if q < c {
      MulAtLeast(i, c - q);
      assert false;
    }
    if q >= c + 2 {
      MulAtLeast(i, q - c - 1);
      assert false;
    }
    assert q == c || q == c + 1;
    assert q % 2 == 1;
    assert q == c;
  }

  /** The same for every index between i * c and i * (c + 2). */
  lemma NoOddMultipleBetween(i: nat, c: nat)
    requires i >= 1 && c % 2 == 1
    ensures forall k: nat :: i * c < k < i * c + 2 * i ==> !OddMultiple(k, i)
  {
    forall k: nat | i * c < k < i * c + 2 * i && OddMultiple(k, i) ensures false {
      NextOddMultiple(k, i, c);
    }
  }

  /** i * c, for odd c >= i, is one of the indices the inner loop clears. */
  lemma {:induction false} OddMultipleAt(i: nat, c: nat)
    requires i >= 1 && c >= i && c % 2 == 1
    ensures OddMultiple(i * c, i)
  {
    MulModZero(i, c);
    MulMonotone(i, c, i);
  }

  /** A sieve table (as a sequence of flags) in which every factor below b has been
      struck out. */
  ghost predicate Sieved(table: seq<bool>, b: nat) {
    forall k :: 0 <= k < |table| ==> table[k] == Survives(k, b)
  }

  /** After the fill with true, the clearing of 0 and 1 and the even pass, a table holds
      Survives(., 3): 2 and the odd numbers from 3 on. */
  lemma AfterEvenPass(k: nat)
    ensures Survives(k, 3) == (k >= 2 && !(4 <= k && k % 2 == 0))
  {
    if k >= 4 && k % 2 == 0 {
      assert k % 2 == 0 && 2 < k;
    }
  }

  /** One round of the outer loop on whole tables: from `before`, sieved below i, the
      round clears the odd multiples of i (when `struck`, i.e. when i is prime) and
      leaves a table sieved below i + 2. */
  lemma {:induction false} SieveRoundAll(before: seq<bool>, after: seq<bool>, i: nat, struck: bool)
    requires i >= 3 && i % 2 == 1 && Sieved(before, i) && |after| == |before|
    requires struck == IsPrime(i)
    requires forall k :: 0 <= k < |after| ==> after[k] == (before[k] && !(struck && OddMultiple(k, i)))
    ensures Sieved(after, i + 2)
  {
    forall k | 0 <= k < |after| ensures after[k] == Survives(k, i + 2) {
      SieveRound(k, i);
    }
  }

  /** Once b * b exceeds every index, a sieved table is the primality table. */
  lemma {:induction false} SievedIsPrimality(table: seq<bool>, b: nat)
    requires Sieved(table, b) && |table| <= b * b
    ensures forall k :: 0 <= k < |table| ==> table[k] == IsPrime(k)
  {
    forall k | 0 <= k < |table| ensures table[k] == IsPrime(k) {
      SurvivesIffPrime(k, b);
    }
  }

  /** With 2 and 3 excluded as factors, no candidate below 5 divides n. */
  lemma TrialStart(n: nat)
    requires n >= 5 && n % 2 != 0 && n % 3 != 0
    ensures Survives(n, 5)
  {
  }

  /** One round of the 6k +- 1 loop: for i = 6k + 5, once i and i + 2 are ruled out,
      so is everything below i + 6, because i + 1, i + 3 and i + 5 are even and i + 4 is
      a multiple of 3. */
  lemma {:induction false} TrialRound(n: nat, i: nat, k: nat)
    requires i == 6 * k + 5 && n % 2 != 0 && n % 3 != 0
    requires Survives(n, i) && n % i != 0 && n % (i + 2) != 0
    ensures Survives(n, i + 6)
  {
    forall d | 2 <= d < i + 6 && d < n ensures n % d != 0 {
      if i <= d && d != i && d != i + 2 {
        SkippedCandidate(i, k, d);
        if n % d == 0 {
          if d % 2 == 0 {
            DividesTransitive(n, d, 2);
          } else {
            DividesTransitive(n, d, 3);
          }
          assert false;
        }
      }
    }
  }

  /** The candidates in [6k + 5, 6k + 11) that trial division skips are multiples of 2
      or 3. */
  lemma SkippedCandidate(i: nat, k: nat, d: nat)
    requires i == 6 * k + 5 && i <= d < i + 6 && d != i && d != i + 2
    ensures d % 2 == 0 || d % 3 == 0
  {
    if d == i + 1 {
      assert d == 2 * (3 * k + 3);
    } else if d == i + 3 {
      assert d == 2 * (3 * k + 4);
    } else if d == i + 4 {
      assert d == 3 * (2 * k + 3);
    } else {
      assert d == 2 * (3 * k + 5);
    }
  }

  /** A candidate divisor at most sqrtN + 2 is below n, when sqrtN is the corrected root
      of n (sqrtN * sqrtN >= n > (sqrtN - 1) * (sqrtN - 1)) and the loop runs (sqrtN >= 5):
      so trial division never tests n against itself. */
  lemma TrialDivisorBelow(n: nat, sqrtN: nat)
    requires sqrtN >= 5 && (sqrtN - 1) * (sqrtN - 1) < n
    ensures sqrtN + 2 < n
  {
    var t := sqrtN - 1;
    MulMonotone(4, t, t);
  }

  /** Strictly increasing, hence free of duplicates. */
  ghost predicate StrictlyAscending(s: seq<nat>) {
    forall a, b :: 0 <= a < b < |s| ==> s[a] < s[b]
  }

  /** The primes 2, 3, 5, ... up to and including k, in ascending order. */
  ghost function PrimesUpTo(k: nat): seq<nat>
  {
    if k == 0 then [] else PrimesUpTo(k - 1) + (if IsPrime(k) then [k] else [])
  }

  /** PrimesUpTo(k) holds exactly the primes <= k. */
  lemma {:induction false} PrimesUpToMembers(k: nat)
    ensures forall x: nat :: x in PrimesUpTo(k) <==> x <= k && IsPrime(x)
  {
    if k > 0 {
      PrimesUpToMembers(k - 1);
    }
  }

  /** PrimesUpTo(k) is strictly ascending, so it lists no prime twice. */
  lemma {:induction false} PrimesUpToAscending(k: nat)
    ensures StrictlyAscending(PrimesUpTo(k))
  {
    if k > 0 {
      PrimesUpToAscending(k - 1);
      PrimesUpToMembers(k - 1);
      var s := PrimesUpTo(k - 1);
      forall a | 0 <= a < |s| ensures s[a] < k {
        assert s[a] in s;
      }
    }
  }

  /** From k = 2 on, the list starts with 2. */
  lemma {:induction false} PrimesUpToStartsWithTwo(k: nat)
    requires k >= 2
    ensures |PrimesUpTo(k)| > 0 && PrimesUpTo(k)[0] == 2
  {
    if k == 2 {
      assert PrimesUpTo(1) == [];
      assert IsPrime(2);
    } else {
      PrimesUpToStartsWithTwo(k - 1);
    }
  }

  /** The enumeration loops handle 2 first and then only odd candidates n: moving from
      n to n + 2 extends the primes up to n - 1 by n (if prime), since n + 1 is even. */
  lemma OddCandidateStep(n: nat, limit: nat)
    requires n >= 3 && n % 2 == 1 && n <= limit
    ensures PrimesUpTo(if n + 1 <= limit then n + 1 else limit)
         == PrimesUpTo(n - 1) + (if IsPrime(n) then [n] else [])
  {
    if n + 1 <= limit {
      PrimesUpToEven(n + 1);
    }
  }

  /** State of the enumeration before its first odd candidate: 2 has been emitted when
      limit >= 2, nothing otherwise. */
  lemma EnumerationStart(limit: nat)
    ensures PrimesUpTo(if 2 <= limit then 2 else limit) == (if limit >= 2 then [2] else [])
  {
    assert PrimesUpTo(1) == [];
    assert IsPrime(2);
  }

  /** An even number above 2 adds nothing to the list. */
  lemma PrimesUpToEven(k: nat)
    requires k >= 4 && k % 2 == 0
    ensures PrimesUpTo(k) == PrimesUpTo(k - 1)
  {
    assert !IsPrime(k) by {
      assert k % 2 == 0;
    }
  }
}
