/** Concrete outputs of the enumeration: the prime lists the programs print for small
    limits, derived from the characterisation of PrimesUpTo. */
module Scenarios {
  import opened Arithmetic
  import opened Primality

  /** Two strictly ascending sequences with the same elements are the same sequence:
      an ascending list is fixed by the set it lists. */
  lemma {:induction false} AscendingUnique(a: seq<nat>, b: seq<nat>)
    requires StrictlyAscending(a) && StrictlyAscending(b)
    requires forall x :: x in a <==> x in b
    ensures a == b
    decreases |a|
  {
    if |a| > 0 {
      assert a[0] in b;
    }
    if |b| > 0 {
      assert b[0] in a;
    }
    if |a| > 0 {
      var ia :| 0 <= ia < |a| && a[ia] == b[0];
      var ib :| 0 <= ib < |b| && b[ib] == a[0];
      AscendingFirst(a, ia);
      AscendingFirst(b, ib);
      forall x | x in a[1..] ensures x in b[1..] {
        var i :| 1 <= i < |a| && a[i] == x;
        assert a[0] < x;
        assert x in a;
        var j :| 0 <= j < |b| && b[j] == x;
        assert j != 0;
        assert b[1..][j - 1] == x;
      }
      forall x | x in b[1..] ensures x in a[1..] {
        var j :| 1 <= j < |b| && b[j] == x;
        assert b[0] < x;
        assert x in b;
        var i :| 0 <= i < |a| && a[i] == x;
        assert i != 0;
        assert a[1..][i - 1] == x;
      }
      AscendingUnique(a[1..], b[1..]);
      assert a == [a[0]] + a[1..];
      assert b == [b[0]] + b[1..];
    }
  }

  /** The first element of an ascending sequence is its least. */
  lemma AscendingFirst(s: seq<nat>, i: nat)
    requires StrictlyAscending(s) && i < |s|
    ensures s[0] <= s[i]
  {
    if i > 0 {
      assert s[0] < s[i];
    }
  }

  /** A sequence whose neighbours ascend is strictly ascending. */
  lemma {:induction false} NeighboursAscending(s: seq<nat>)
    requires forall i :: 0 <= i < |s| - 1 ==> s[i] < s[i + 1]
    ensures StrictlyAscending(s)
    decreases |s|
  {
    if |s| > 1 {
      NeighboursAscending(s[1..]);
      assert forall a, b :: 1 <= a < b < |s| ==> s[a] == s[1..][a - 1] && s[b] == s[1..][b - 1];
      assert forall b :: 1 <= b < |s| ==> s[0] < s[1] <= s[b];
    }
  }

  /** An ascending list of exactly the primes up to k is PrimesUpTo(k). */
  lemma ListedPrimes(k: nat, listed: seq<nat>)
    requires forall i :: 0 <= i < |listed| - 1 ==> listed[i] < listed[i + 1]
    requires forall x: nat :: x in listed <==> x <= k && IsPrime(x)
    ensures PrimesUpTo(k) == listed
  {
    NeighboursAscending(listed);
    PrimesUpToAscending(k);
    PrimesUpToMembers(k);
    AscendingUnique(PrimesUpTo(k), listed);
  }

  /** Below 121 = 11 * 11, a number is prime exactly when none of 2, 3, 5, 7 is a proper
      divisor of it. */
  lemma SmallPrimality(x: nat)
    requires x < 121
    ensures IsPrime(x) <==>
              x >= 2 && (x == 2 || x % 2 != 0) && (x == 3 || x % 3 != 0)
              && (x == 5 || x % 5 != 0) && (x == 7 || x % 7 != 0)
  {
    if x >= 2 && (x == 2 || x % 2 != 0) && (x == 3 || x % 3 != 0)
       && (x == 5 || x % 5 != 0) && (x == 7 || x % 7 != 0)
    {
      forall d | 2 <= d < 11 && d < x ensures x % d != 0 {
        if x % d == 0 {
          if d == 4 || d == 6 || d == 8 || d == 10 {
            DividesTransitive(x, d, 2);
          } else if d == 9 {
            DividesTransitive(x, d, 3);
          }
        }
      }
      assert Survives(x, 11);
      SurvivesIffPrime(x, 11);
    }
  }

  /** The test of SmallPrimality. */
  predicate SmallTest(x: nat) {
    x >= 2 && (x == 2 || x % 2 != 0) && (x == 3 || x % 3 != 0)
    && (x == 5 || x % 5 != 0) && (x == 7 || x % 7 != 0)
  }

  lemma TestUpToThirty(x: nat)
    requires x <= 30
    ensures SmallTest(x) <==> x in [2, 3, 5, 7, 11, 13, 17, 19, 23, 29]
  {
  }

  lemma TestUpToSixty(x: nat)
    requires 30 < x <= 60
    ensures SmallTest(x) <==> x in [31, 37, 41, 43, 47, 53, 59]
  {
  }

  lemma TestUpToHundred(x: nat)
    requires 60 < x <= 100
    ensures SmallTest(x) <==> x in [61, 67, 71, 73, 79, 83, 89, 97]
  {
  }

  /** The primes up to 30, one per line in the programs' output: ten of them. */
  lemma PrimesUpToThirty()
    ensures PrimesUpTo(30) == [2, 3, 5, 7, 11, 13, 17, 19, 23, 29]
    ensures |PrimesUpTo(30)| == 10
  {
    var expected: seq<nat> := [2, 3, 5, 7, 11, 13, 17, 19, 23, 29];
    forall x: nat ensures x in expected <==> x <= 30 && IsPrime(x) {
      if x <= 30 {
        SmallPrimality(x);
        TestUpToThirty(x);
      }
    }
    ListedPrimes(30, expected);
  }

  /** The primes below 100: twenty-five of them. */
  lemma PrimesUpToHundred()
    ensures PrimesUpTo(100) == [2, 3, 5, 7, 11, 13, 17, 19, 23, 29, 31, 37, 41, 43, 47,
                                53, 59, 61, 67, 71, 73, 79, 83, 89, 97]
    ensures |PrimesUpTo(100)| == 25
  {
    var expected: seq<nat> := [2, 3, 5, 7, 11, 13, 17, 19, 23, 29, 31, 37, 41, 43, 47,
                               53, 59, 61, 67, 71, 73, 79, 83, 89, 97];
    forall x: nat ensures x in expected <==> x <= 100 && IsPrime(x) {
      if x <= 100 {
        SmallPrimality(x);
        if x <= 30 {
          TestUpToThirty(x);
        } else if x <= 60 {
          TestUpToSixty(x);
        } else {
          TestUpToHundred(x);
        }
      }
    }
    ListedPrimes(100, expected);
  }

  /** Limits 0 and 1 give no primes; limit 2 gives exactly [2]. */
  lemma SmallLimits()
    ensures PrimesUpTo(0) == [] && PrimesUpTo(1) == []
    ensures PrimesUpTo(2) == [2]
  {
    assert !IsPrime(1);
    assert IsPrime(2);
  }
}
