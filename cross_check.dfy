/** The four programs side by side: run with the same limit, trial division and the
    sieve, in Rust and in C, print the same list of primes and the same count. */
module CrossCheck {
  import opened MachineInts
  import TrialRust
  import TrialC
  import SieveRust
  import SieveC
  import Primality
  import Scenarios

  /** Runs the four enumerations with one limit (the Rust sieve takes it as a `usize`)
      and compares their prime lists and their counts. */
  method CrossValidate(limit: u32) returns (sameLists: bool, sameCounts: bool)
    requires limit as int <= SieveC.MAX_LIMIT
    ensures sameLists && sameCounts
  {
    var trialRust, trialRustCount := TrialRust.CountPrimes(limit);
    var trialC, trialCCount := TrialC.CountPrimes(limit);
    var sieveRust, sieveRustCount := SieveRust.CountPrimes(limit as usize);
    var sieveC, sieveCCount := SieveC.CountPrimes(limit);
    sameLists := trialRust == trialC && trialC == sieveRust && sieveRust == sieveC;
    sameCounts := trialRustCount == trialCCount as int && trialCCount as int == sieveRustCount
                  && sieveRustCount == sieveCCount as int;
  }

  /** Runs the four enumerations with one limit and collects what they print: the four
      prime lists and the four counts, in the order trial Rust, trial C, sieve Rust,
      sieve C. Each list is the ascending list of the primes up to the limit. */
  method RunAll(limit: u32) returns (lists: seq<seq<nat>>, counts: seq<int>)
    requires limit as int <= SieveC.MAX_LIMIT
    ensures |lists| == 4 && |counts| == 4
    ensures forall r :: 0 <= r < 4 ==> lists[r] == Primality.PrimesUpTo(limit as int)
    ensures forall r :: 0 <= r < 4 ==> counts[r] == |Primality.PrimesUpTo(limit as int)|
  {
    var trialRust, trialRustCount := TrialRust.CountPrimes(limit);
    var trialC, trialCCount := TrialC.CountPrimes(limit);
    var sieveRust, sieveRustCount := SieveRust.CountPrimes(limit as usize);
    var sieveC, sieveCCount := SieveC.CountPrimes(limit);
    lists := [trialRust, trialC, sieveRust, sieveC];
    counts := [trialRustCount, trialCCount as int, sieveRustCount, sieveCCount as int];
  }

  /** With limit 30, each of the four programs prints 2, 3, 5, 7, 11, 13, 17, 19, 23, 29
      and the count 10. */
  method ScenarioThirty() returns (lists: seq<seq<nat>>, counts: seq<int>)
    ensures lists == [[2, 3, 5, 7, 11, 13, 17, 19, 23, 29], [2, 3, 5, 7, 11, 13, 17, 19, 23, 29],
                      [2, 3, 5, 7, 11, 13, 17, 19, 23, 29], [2, 3, 5, 7, 11, 13, 17, 19, 23, 29]]
    ensures counts == [10, 10, 10, 10]
  {
    lists, counts := RunAll(30);
    Scenarios.PrimesUpToThirty();
  }

  /** With limit 100, each of the four programs prints the twenty-five primes below 100
      and the count 25. */
  method ScenarioHundred() returns (lists: seq<seq<nat>>, counts: seq<int>)
    ensures forall r :: 0 <= r < |lists| ==>
              lists[r] == [2, 3, 5, 7, 11, 13, 17, 19, 23, 29, 31, 37, 41, 43, 47,
                           53, 59, 61, 67, 71, 73, 79, 83, 89, 97]
    ensures |lists| == 4 && counts == [25, 25, 25, 25]
  {
    lists, counts := RunAll(100);
    Scenarios.PrimesUpToHundred();
  }

  /** With limit 0 or 1 the four programs print nothing and the count 0; with limit 2,
      the single prime 2 and the count 1. */
  method ScenarioSmallLimits() returns (zero: seq<seq<nat>>, one: seq<seq<nat>>, two: seq<seq<nat>>,
                                        counts: seq<seq<int>>)
    ensures zero == [[], [], [], []] && one == [[], [], [], []]
    ensures two == [[2], [2], [2], [2]]
    ensures counts == [[0, 0, 0, 0], [0, 0, 0, 0], [1, 1, 1, 1]]
  {
    Scenarios.SmallLimits();
    var zeroCounts, oneCounts, twoCounts;
    zero, zeroCounts := RunAll(0);
    one, oneCounts := RunAll(1);
    two, twoCounts := RunAll(2);
    assert zeroCounts == [0, 0, 0, 0] && oneCounts == [0, 0, 0, 0];
    assert twoCounts == [1, 1, 1, 1];
    counts := [zeroCounts, oneCounts, twoCounts];
  }
}
