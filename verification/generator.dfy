/** The generator `generate_lotto_numbers` (app.py:31-80): a bounded
    rejection-sampling loop that draws candidates around the fixed numbers,
    avoids the excluded ones, and keeps distinct candidates that pass
    `is_valid`. */
module Generator {
  import opened Seqs
  import opened Lotto
  import opened Rules

  /** The attempt budget `trials_limit`. */
  const TrialsLimit: nat := 10000

  /** Python's `range(lo, hi)` as a list. */
  function Range(lo: int, hi: int): (r: seq<int>)
    ensures |r| == if lo <= hi then hi - lo else 0
    ensures forall i :: 0 <= i < |r| ==> r[i] == lo + i
    decreases hi - lo
  {
    if hi <= lo then [] else [lo] + Range(lo + 1, hi)
  }

  /** `available`: the numbers 1..45 that are not excluded, ascending. */
  function Available(excluded: seq<int>): (available: seq<int>)
    ensures forall n :: n in available <==> InRange(n) && n !in excluded
    ensures StrictlyIncreasing(available)
  {
    var all := Range(LowestNumber, HighestNumber + 1);
    assert forall n :: n in all <==> InRange(n) by {
      forall n
        ensures n in all <==> InRange(n)
      {
        if InRange(n) {
          assert all[n - LowestNumber] == n;
        }
      }
    }
    var r := Without(all, excluded);
    OrderedSubsequence(all, excluded);
    r
  }

  /** `Without` keeps the order of a strictly increasing list. */
  lemma {:induction false} OrderedSubsequence(s: seq<int>, drop: seq<int>)
    ensures StrictlyIncreasing(s) ==> StrictlyIncreasing(Without(s, drop))
    decreases |s|
  {
    if |s| > 0 && StrictlyIncreasing(s) {
      OrderedSubsequence(s[1..], drop);
      var rest := Without(s[1..], drop);
      assert forall k :: 0 <= k < |rest| ==> rest[k] in s[1..];
      assert forall k :: 0 <= k < |rest| ==> s[0] < rest[k];
    }
  }

  /** `candidates_pool`: the available numbers that are not fixed. */
  function CandidatesPool(available: seq<int>, fixed: seq<int>): (pool: seq<int>)
    ensures forall n :: n in pool <==> n in available && n !in fixed
    ensures StrictlyIncreasing(available) ==> StrictlyIncreasing(pool)
  {
    OrderedSubsequence(available, fixed);
    Without(available, fixed)
  }

  /** The numbers every attempt may draw from. */
  function Pool(fixed: seq<int>, excluded: seq<int>): seq<int> {
    CandidatesPool(Available(excluded), fixed)
  }

  /** `part` is what `random.sample(pool, k)` may return: `k` distinct
      members of `pool`. */
  predicate IsSample(part: seq<int>, pool: seq<int>, k: nat) {
    |part| == k && Distinct(part) && forall x :: x in part ==> x in pool
  }

  /** The random source: given the attempt number, the pool and how many to
      draw, the numbers drawn. */
  type Sampler = (nat, seq<int>, nat) -> seq<int>

  /** What the generator relies on from `random.sample`: from a duplicate-free
      pool with at least `k` members it returns a `k`-subset of the pool. No
      claim about the distribution is made. */
  ghost function SamplesWithoutReplacement(sample: Sampler): (samples: bool)
    ensures samples ==> forall t: nat, pool: seq<int> :: Distinct(pool) ==> sample(t, pool, 0) == []
  {
    forall t: nat, pool: seq<int>, k: nat :: Distinct(pool) && k <= |pool| ==> IsSample(sample(t, pool, k), pool, k)
  }

  /** Taking the first `k` members of the pool is a sampler of that kind, so
      the requirement on `random.sample` can be met. */
  lemma FirstMembersSample()
    ensures SamplesWithoutReplacement((t: nat, pool: seq<int>, k: nat) => if k <= |pool| then pool[..k] else pool)
  {
    forall pool: seq<int>, k: nat | Distinct(pool) && k <= |pool|
      ensures IsSample(pool[..k], pool, k)
    {
      assert forall x :: x in pool[..k] ==> x in pool;
    }
  }

  /** Fixed numbers the caller is meant to pass: at most six, no repeats,
      all in 1..45. */
  predicate WellFormedFixed(fixed: seq<int>) {
    |fixed| <= CombinationSize && Distinct(fixed) && forall x :: x in fixed ==> InRange(x)
  }

  /** A lottery combination: six distinct numbers in 1..45, ascending. */
  predicate IsCombination(r: seq<int>) {
    |r| == CombinationSize && StrictlyIncreasing(r) && forall x :: x in r ==> InRange(x)
  }

  /** `r` is a candidate some attempt can build: `sorted(fixed_numbers +
      random_part)` for a draw `random_part` of the missing count from the
      pool. */
  ghost predicate Drawn(r: seq<int>, fixed: seq<int>, excluded: seq<int>) {
    && |fixed| <= CombinationSize
    && exists part :: IsSample(part, Pool(fixed, excluded), CombinationSize - |fixed|) && r == Sort(fixed + part)
  }

  /** What a combination the generator returns looks like: six numbers,
      sorted, accepted by `is_valid`, holding every fixed number (repeats
      included), holding no excluded number unless it is also fixed, and a
      proper combination whenever the fixed numbers are well formed. */
  predicate Acceptable(r: seq<int>, useOddEven: bool, useConsecutive: bool,
                       fixed: seq<int>, excluded: seq<int>)
  {
    && |r| == CombinationSize
    && Sorted(r)
    && IsValid(r, useOddEven, useConsecutive)
    && multiset(fixed) <= multiset(r)
    && (forall x :: x in fixed ==> x in r)
    && (forall x :: x in r ==> x in fixed || (InRange(x) && x !in excluded))
    && (WellFormedFixed(fixed) ==> IsCombination(r))
  }

  /** What every combination the generator returns satisfies: it is
      acceptable and built from one draw. */
  ghost predicate Admissible(r: seq<int>, useOddEven: bool, useConsecutive: bool,
                             fixed: seq<int>, excluded: seq<int>)
  {
    Acceptable(r, useOddEven, useConsecutive, fixed, excluded) && Drawn(r, fixed, excluded)
  }

  /** The members of a candidate are the fixed numbers and the drawn ones. */
  lemma CandidateMembers(fixed: seq<int>, part: seq<int>, x: int)
    ensures x in Sort(fixed + part) <==> x in fixed || x in part
  {
    var nums := Sort(fixed + part);
    assert x in nums <==> x in multiset(nums);
    assert x in fixed + part <==> x in multiset(fixed + part);
  }

  /** The candidate of one attempt, `sorted(fixed_numbers + random_part)`,
      is admissible whenever `is_valid` accepts it. */
  lemma CandidateAdmissible(part: seq<int>, useOddEven: bool, useConsecutive: bool,
                            fixed: seq<int>, excluded: seq<int>)
    requires |fixed| <= CombinationSize
    requires IsSample(part, Pool(fixed, excluded), CombinationSize - |fixed|)
    requires IsValid(Sort(fixed + part), useOddEven, useConsecutive)
    ensures Acceptable(Sort(fixed + part), useOddEven, useConsecutive, fixed, excluded)
    ensures Drawn(Sort(fixed + part), fixed, excluded)
  {
    var nums := Sort(fixed + part);
    assert |nums| == |multiset(nums)| == |fixed + part| == CombinationSize;
    assert multiset(nums) == multiset(fixed) + multiset(part);
    forall x
      ensures x in nums <==> x in fixed || x in part
    {
      CandidateMembers(fixed, part, x);
    }
    if WellFormedFixed(fixed) {
      DistinctConcat(fixed, part);
    }
  }

  /** A draw from the pool holds no fixed number. */
  lemma DrawAvoidsFixed(part: seq<int>, fixed: seq<int>, excluded: seq<int>, k: nat)
    requires IsSample(part, Pool(fixed, excluded), k)
    ensures forall x :: x in part ==> x !in fixed
  {
  }

  /** Sorting keeps exactly the values of the list. */
  lemma SortMembers(s: seq<int>, x: int)
    ensures x in Sort(s) <==> x in s
  {
    assert x in Sort(s) <==> x in multiset(Sort(s));
    assert x in s <==> x in multiset(s);
  }

  /** Two draws that repeat nothing and avoid the fixed numbers, and whose
      candidates hold the same numbers, give the same candidate. */
  lemma SameSetsSameCandidate(fixed: seq<int>, p1: seq<int>, p2: seq<int>)
    requires Distinct(p1) && Distinct(p2)
    requires forall x :: x in p1 ==> x !in fixed
    requires forall x :: x in p2 ==> x !in fixed
    requires forall x :: (x in fixed || x in p1) <==> (x in fixed || x in p2)
    ensures Sort(fixed + p1) == Sort(fixed + p2)
  {
    forall x
      ensures x in Sort(p1) <==> x in Sort(p2)
    {
      SortMembers(p1, x);
      SortMembers(p2, x);
    }
    StrictUnique(Sort(p1), Sort(p2));
    assert multiset(fixed + p1) == multiset(fixed + p2);
    SortedUnique(Sort(fixed + p1), Sort(fixed + p2));
  }

  /** Keeping a new admissible candidate keeps every result admissible and
      no two results equal. */
  lemma KeepCandidate(results: seq<seq<int>>, part: seq<int>, useOddEven: bool, useConsecutive: bool,
                      fixed: seq<int>, excluded: seq<int>)
    requires |fixed| <= CombinationSize
    requires IsSample(part, Pool(fixed, excluded), CombinationSize - |fixed|)
    requires IsValid(Sort(fixed + part), useOddEven, useConsecutive)
    requires Sort(fixed + part) !in results
    requires forall r :: r in results ==> Admissible(r, useOddEven, useConsecutive, fixed, excluded)
    requires forall i, j :: 0 <= i < j < |results| ==> results[i] != results[j]
    ensures forall r :: r in results + [Sort(fixed + part)] ==>
              Admissible(r, useOddEven, useConsecutive, fixed, excluded)
    ensures forall i, j :: 0 <= i < j < |results + [Sort(fixed + part)]| ==>
              (results + [Sort(fixed + part)])[i] != (results + [Sort(fixed + part)])[j]
  {
    CandidateAdmissible(part, useOddEven, useConsecutive, fixed, excluded);
    var longer := results + [Sort(fixed + part)];
    forall i, j | 0 <= i < j < |longer|
      ensures longer[i] != longer[j]
    {
      if j == |results| {
        assert longer[i] == results[i] && results[i] in results;
      }
    }
  }

  /** Two candidates built from draws hold the same numbers only if they are
      the same combination: the draws avoid the fixed numbers and repeat
      nothing, so equal sets mean equal draws up to order. This holds for any
      fixed list, repeats included. */
  lemma SameSetsSameDraw(r1: seq<int>, r2: seq<int>, fixed: seq<int>, excluded: seq<int>)
    requires Drawn(r1, fixed, excluded) && Drawn(r2, fixed, excluded)
    requires Elements(r1) == Elements(r2)
    ensures r1 == r2
  {
    var k: nat := CombinationSize - |fixed|;
    var p1 :| IsSample(p1, Pool(fixed, excluded), k) && r1 == Sort(fixed + p1);
    var p2 :| IsSample(p2, Pool(fixed, excluded), k) && r2 == Sort(fixed + p2);
    DrawAvoidsFixed(p1, fixed, excluded, k);
    DrawAvoidsFixed(p2, fixed, excluded, k);
    forall x
      ensures (x in fixed || x in p1) <==> (x in fixed || x in p2)
    {
      CandidateMembers(fixed, p1, x);
      CandidateMembers(fixed, p2, x);
      assert x in r1 <==> x in Elements(r1);
      assert x in r2 <==> x in Elements(r2);
    }
    SameSetsSameCandidate(fixed, p1, p2);
  }

  /** `generate_lotto_numbers`. Each loop iteration spends one unit of the
      attempt budget, so the loop runs at most `TrialsLimit` times (`trials`
      counts them). The result holds at most `count` combinations, each one
      admissible, no two equal even as multisets or as sets. It is empty when `count` is not positive,
      when more than six numbers are fixed, and when the pool cannot supply
      the missing numbers. Fewer than `count` results means the budget ran
      out or too many numbers were fixed. */
  method Generate(count: int, useOddEven: bool, useConsecutive: bool,
                  fixed: seq<int>, excluded: seq<int>, sample: Sampler)
    returns (results: seq<seq<int>>, ghost trials: nat)
    requires SamplesWithoutReplacement(sample)
    ensures trials <= TrialsLimit
    ensures count <= 0 ==> results == []
    ensures |results| <= count || results == []
    ensures |results| < count ==> trials == TrialsLimit || |fixed| > CombinationSize
    ensures forall r :: r in results ==> Admissible(r, useOddEven, useConsecutive, fixed, excluded)
    ensures forall i, j :: 0 <= i < j < |results| ==> multiset(results[i]) != multiset(results[j])
    ensures forall i, j :: 0 <= i < j < |results| ==> Elements(results[i]) != Elements(results[j])
    ensures |fixed| > CombinationSize ==> results == []
    ensures |Pool(fixed, excluded)| < CombinationSize - |fixed| ==> results == []
  {
    results := [];
    var trialsLimit: nat := TrialsLimit;
    while |results| < count && trialsLimit > 0
      invariant trialsLimit <= TrialsLimit
      invariant |results| <= count || results == []
      invariant |fixed| > CombinationSize ==> results == []
      invariant |Pool(fixed, excluded)| < CombinationSize - |fixed| ==> results == []
      invariant forall r :: r in results ==> Admissible(r, useOddEven, useConsecutive, fixed, excluded)
      invariant forall i, j :: 0 <= i < j < |results| ==> results[i] != results[j]
      decreases trialsLimit
    {
      trialsLimit := trialsLimit - 1;
      var available := Available(excluded);
      if |fixed| > CombinationSize {
        break;
      }
      // `remaining_count < 0` cannot happen past the guard above; the type
      // `nat` records that.
      var remaining: nat := CombinationSize - |fixed|;
      var pool := CandidatesPool(available, fixed);
      if |pool| < remaining {
        continue;
      }
      var part := sample(TrialsLimit - trialsLimit - 1, pool, remaining);
      var nums := Sort(fixed + part);
      if IsValid(nums, useOddEven, useConsecutive) {
        if nums !in results {
          KeepCandidate(results, part, useOddEven, useConsecutive, fixed, excluded);
          results := results + [nums];
        }
      }
    }
    trials := TrialsLimit - trialsLimit;
    DistinctResults(results, useOddEven, useConsecutive, fixed, excluded);
  }

  /** Admissible results that differ as lists differ as multisets and as
      sets too. */
  lemma DistinctResults(results: seq<seq<int>>, useOddEven: bool, useConsecutive: bool,
                        fixed: seq<int>, excluded: seq<int>)
    requires forall r :: r in results ==> Admissible(r, useOddEven, useConsecutive, fixed, excluded)
    requires forall i, j :: 0 <= i < j < |results| ==> results[i] != results[j]
    ensures forall i, j :: 0 <= i < j < |results| ==> multiset(results[i]) != multiset(results[j])
    ensures forall i, j :: 0 <= i < j < |results| ==> Elements(results[i]) != Elements(results[j])
  {
    forall i, j | 0 <= i < j < |results|
      ensures multiset(results[i]) != multiset(results[j])
      ensures Elements(results[i]) != Elements(results[j])
    {
      assert results[i] in results && results[j] in results;
      DifferentSortedDifferentMultisets(results[i], results[j]);
      if Elements(results[i]) == Elements(results[j]) {
        SameSetsSameDraw(results[i], results[j], fixed, excluded);
      }
    }
  }

  /** Under well-formed fixed numbers an admissible combination obeys the
      rules at the level of sets: three odd values when the odd/even rule is
      on, and no `x`, `x + 1`, `x + 2` together when the consecutive rule is
      on. */
  lemma AdmissibleMeaning(r: seq<int>, useOddEven: bool, useConsecutive: bool,
                          fixed: seq<int>, excluded: seq<int>)
    requires WellFormedFixed(fixed)
    requires Acceptable(r, useOddEven, useConsecutive, fixed, excluded)
    ensures useOddEven ==> |OddMembers(r)| == 3
    ensures useConsecutive ==> forall x :: !StartsRun(r, x)
  {
    IsValidOnDistinct(r, useOddEven, useConsecutive);
  }

  /** Without repeats, a sequence has as many values as positions. */
  lemma {:induction false} DistinctCardinality(s: seq<int>)
    requires Distinct(s)
    ensures |Elements(s)| == |s|
    decreases |s|
  {
    if |s| > 0 {
      DistinctCardinality(s[1..]);
      assert s[0] !in s[1..];
      assert Elements(s) == {s[0]} + Elements(s[1..]);
    }
  }

  lemma SubsetOfSameSize(a: set<int>, b: set<int>)
    requires a <= b && |a| == |b|
    ensures a == b
  {
    assert |b - a| == |b| - |a|;
  }

  /** A combination holding six well-formed fixed numbers is their sorted
      list. */
  lemma SixFixedOnlyCandidate(r: seq<int>, fixed: seq<int>)
    requires WellFormedFixed(fixed) && |fixed| == CombinationSize
    requires IsCombination(r) && forall x :: x in fixed ==> x in r
    ensures r == Sort(fixed)
  {
    var target := Sort(fixed);
    assert Elements(fixed) == Elements(r) by {
      DistinctCardinality(fixed);
      DistinctCardinality(r);
      SubsetOfSameSize(Elements(fixed), Elements(r));
    }
    forall x
      ensures x in r <==> x in target
    {
      assert x in r <==> x in Elements(r);
      assert x in fixed <==> x in Elements(fixed);
      assert x in target <==> x in multiset(target);
      assert x in fixed <==> x in multiset(fixed);
    }
    StrictUnique(r, target);
  }

  /** With six well-formed fixed numbers nothing is left to chance: the
      generator returns at most one combination, the sorted fixed list, and
      only if `is_valid` accepts the fixed numbers themselves. */
  lemma SixFixedDetermineResult(results: seq<seq<int>>, useOddEven: bool, useConsecutive: bool,
                                fixed: seq<int>, excluded: seq<int>)
    requires WellFormedFixed(fixed) && |fixed| == CombinationSize
    requires forall r :: r in results ==> Acceptable(r, useOddEven, useConsecutive, fixed, excluded)
    requires forall i, j :: 0 <= i < j < |results| ==> results[i] != results[j]
    ensures forall r :: r in results ==> r == Sort(fixed)
    ensures |results| <= 1
    ensures results != [] ==> IsValid(fixed, useOddEven, useConsecutive)
  {
    assert |results| > 1 ==> results[0] in results && results[1] in results;
    forall r | r in results
      ensures r == Sort(fixed)
    {
      SixFixedOnlyCandidate(r, fixed);
    }
    if results != [] {
      assert results[0] in results;
      SortedUnique(Sort(Sort(fixed)), Sort(fixed));
    }
  }
}
