/** The rule checker `is_valid` (app.py:7-28): an optional odd/even balance
    rule and an optional ban on three consecutive integers, both applied to
    the sorted combination. */
module Rules {
  import opened Seqs
  import opened Lotto

  /** Number of members of `s` that are odd, counted with multiplicity.
      Python's `n % 2 == 1` and Dafny's `n % 2 == 1` agree on every integer,
      negative ones included, because the divisor is positive. */
  function OddCount(s: seq<int>): (odd: nat)
    ensures odd <= |s|
    ensures odd == |s| <==> forall i :: 0 <= i < |s| ==> s[i] % 2 == 1
    ensures odd == 0 <==> forall i :: 0 <= i < |s| ==> s[i] % 2 == 0
  {
    if |s| == 0 then 0
    else
      var rest := OddCount(s[1..]);
      assert forall i :: 1 <= i < |s| ==> s[i] == s[1..][i - 1];
      (if s[0] % 2 == 1 then 1 else 0) + rest
  }

  /** The odd/even rule as written: `even` is derived as six minus `odd`, so
      the second comparison adds nothing and the rule holds exactly when three
      members are odd, whatever the length of `s`. */
  function OddEvenBalanced(s: seq<int>): (balanced: bool)
    ensures balanced <==> OddCount(s) == 3
    ensures balanced ==> |s| >= 3
  {
    var odd := OddCount(s);
    var even := CombinationSize - odd;
    odd == 3 && even == 3
  }

  /** The counter scan of the consecutive rule, resumed at position `i`, with
      `run` the counter the loop carries into that iteration. */
  function RunScan(s: seq<int>, i: nat, run: int): (passes: bool)
    requires 1 <= i <= |s|
    ensures (forall j :: i <= j < |s| ==> s[j] != s[j - 1] + 1) ==> passes
    ensures run <= 1 && |s| - i <= 1 ==> passes
    decreases |s| - i
  {
    if i == |s| then true
    else if s[i] == s[i - 1] + 1 then
      if run + 1 >= 3 then false else RunScan(s, i + 1, run + 1)
    else RunScan(s, i + 1, 1)
  }

  /** The consecutive rule as written: the loop over `range(1, len(s))`,
      which does not run at all for fewer than two members. */
  function PassesRunScan(s: seq<int>): (passes: bool)
    ensures |s| <= 2 ==> passes
    ensures (forall j :: 1 <= j < |s| ==> s[j] != s[j - 1] + 1) ==> passes
  {
    |s| <= 1 || RunScan(s, 1, 1)
  }

  /** `is_valid`: sorts the numbers, then applies each enabled rule; with
      both rules off every input passes. */
  function IsValid(numbers: seq<int>, useOddEven: bool, useConsecutive: bool): (valid: bool)
    ensures !useOddEven && !useConsecutive ==> valid
  {
    var sorted := Sort(numbers);
    (!useOddEven || OddEvenBalanced(sorted)) && (!useConsecutive || PassesRunScan(sorted))
  }

  // ---------------------------------------------------------------------
  // Reference definitions of the two rules, independent of the scan.

  /** Positions `j - 2`, `j - 1` and `j` of `s` hold three consecutive
      integers. */
  predicate RunEndsAt(s: seq<int>, j: int) {
    2 <= j < |s| && s[j - 1] == s[j - 2] + 1 && s[j] == s[j - 1] + 1
  }

  ghost predicate HasAdjacentRun(s: seq<int>) {
    exists j :: RunEndsAt(s, j)
  }

  /** The integers `x`, `x + 1` and `x + 2` all occur in `s`. */
  predicate StartsRun(s: seq<int>, x: int) {
    x in s && x + 1 in s && x + 2 in s
  }

  /** The odd members of `s` as a set. */
  function OddMembers(s: seq<int>): set<int> {
    set x | x in s && x % 2 == 1
  }

  // ---------------------------------------------------------------------
  // The scan agrees with the reference definitions.

  /** From position `i` on, with the counter the loop carries there, the scan
      succeeds exactly when no three adjacent positions ending at or after `i`
      hold consecutive integers. */
  lemma {:induction false} RunScanMeaning(s: seq<int>, i: nat, run: int)
    requires 1 <= i <= |s|
    requires run == if 2 <= i && s[i - 1] == s[i - 2] + 1 then 2 else 1
    ensures RunScan(s, i, run) <==> forall j :: i <= j ==> !RunEndsAt(s, j)
    decreases |s| - i
  {
    if i == |s| {
    } else if s[i] == s[i - 1] + 1 {
      if run + 1 >= 3 {
        assert RunEndsAt(s, i);
      } else {
        RunScanMeaning(s, i + 1, run + 1);
        assert !RunEndsAt(s, i);
      }
    } else {
      RunScanMeaning(s, i + 1, 1);
      assert !RunEndsAt(s, i);
    }
  }

  /** The consecutive rule rejects `s` exactly when three adjacent positions
      of `s` hold consecutive integers; the counter resetting on every other
      step is what makes this hold. */
  lemma PassesRunScanMeaning(s: seq<int>)
    ensures PassesRunScan(s) <==> !HasAdjacentRun(s)
  {
    if |s| > 1 {
      RunScanMeaning(s, 1, 1);
    }
  }

  /** In a strictly increasing integer sequence, values grow at least as
      fast as positions. */
  lemma {:induction false} GapAtLeastDistance(s: seq<int>, i: int, j: int)
    requires StrictlyIncreasing(s)
    requires 0 <= i <= j < |s|
    ensures s[j] - s[i] >= j - i
    decreases j - i
  {
    if i < j {
      GapAtLeastDistance(s, i, j - 1);
    }
  }

  /** For a strictly increasing sequence, holding three consecutive integers
      anywhere is the same as holding them at adjacent positions. */
  lemma AdjacentRunIffRun(s: seq<int>)
    requires StrictlyIncreasing(s)
    ensures HasAdjacentRun(s) <==> exists x :: StartsRun(s, x)
  {
    if HasAdjacentRun(s) {
      var j :| RunEndsAt(s, j);
      assert s[j - 2] in s && s[j - 1] in s && s[j] in s;
      assert StartsRun(s, s[j - 2]);
    }
    if x :| StartsRun(s, x) {
      var a :| 0 <= a < |s| && s[a] == x;
      var b :| 0 <= b < |s| && s[b] == x + 1;
      var c :| 0 <= c < |s| && s[c] == x + 2;
      assert a < b < c;
      GapAtLeastDistance(s, a, c);
      assert b == a + 1 && c == a + 2;
      assert RunEndsAt(s, c);
    }
  }

  lemma {:induction false} OddCountAppend(a: seq<int>, b: seq<int>)
    ensures OddCount(a + b) == OddCount(a) + OddCount(b)
    decreases |a|
  {
    if |a| == 0 {
      assert a + b == b;
    } else {
      OddCountAppend(a[1..], b);
      assert (a + b)[1..] == a[1..] + b;
    }
  }

  /** Taking out position `k` removes one copy of `s[k]`. */
  lemma MultisetRemoveAt(s: seq<int>, k: int)
    requires 0 <= k < |s|
    ensures multiset(s[..k] + s[k + 1..]) == multiset(s) - multiset{s[k]}
  {
    assert s == s[..k] + [s[k]] + s[k + 1..];
  }

  /** Taking out position `k` removes the share of `s[k]` in the odd count. */
  lemma OddCountRemoveAt(s: seq<int>, k: int)
    requires 0 <= k < |s|
    ensures OddCount(s) == OddCount(s[..k] + s[k + 1..]) + (if s[k] % 2 == 1 then 1 else 0)
  {
    assert s == s[..k] + s[k..];
    OddCountAppend(s[..k], s[k..]);
    assert s[k..][1..] == s[k + 1..];
    OddCountAppend(s[..k], s[k + 1..]);
  }

  /** Counting odd members does not depend on their order. */
  lemma {:induction false} OddCountPermutation(a: seq<int>, b: seq<int>)
    requires multiset(a) == multiset(b)
    ensures OddCount(a) == OddCount(b)
    decreases |a|
  {
    if |a| == 0 {
      assert |b| == |multiset(b)| == 0;
    } else {
      var k :| 0 <= k < |b| && b[k] == a[0] by {
        assert a[0] in multiset(b);
      }
      var rest := b[..k] + b[k + 1..];
      assert multiset(a[1..]) == multiset(rest) by {
        MultisetRemoveAt(b, k);
        TailMultiset(a);
      }
      OddCountPermutation(a[1..], rest);
      OddCountRemoveAt(b, k);
      assert OddCount(a) == OddCount(a[1..]) + (if a[0] % 2 == 1 then 1 else 0);
    }
  }

  /** Without repeats, the odd count is the number of odd values. */
  lemma {:induction false} OddCountOfDistinct(s: seq<int>)
    requires Distinct(s)
    ensures OddCount(s) == |OddMembers(s)|
    decreases |s|
  {
    if |s| > 0 {
      OddCountOfDistinct(s[1..]);
      assert s[0] !in s[1..];
      if s[0] % 2 == 1 {
        assert OddMembers(s) == {s[0]} + OddMembers(s[1..]);
      } else {
        assert OddMembers(s) == OddMembers(s[1..]);
      }
    }
  }

  // ---------------------------------------------------------------------
  // What `is_valid` decides.

  /** `is_valid` in terms of its input, not its sorted copy: the odd/even rule
      demands exactly three odd members, and the consecutive rule rejects
      three adjacent consecutive integers in the sorted order. */
  lemma IsValidMeaning(numbers: seq<int>, useOddEven: bool, useConsecutive: bool)
    ensures IsValid(numbers, useOddEven, useConsecutive) <==>
              (!useOddEven || OddCount(numbers) == 3) &&
              (!useConsecutive || !HasAdjacentRun(Sort(numbers)))
  {
    OddCountPermutation(Sort(numbers), numbers);
    PassesRunScanMeaning(Sort(numbers));
  }

  /** For a duplicate-free input, the set-level statement of both rules:
      exactly three odd values when the odd/even rule is on, and no `x` with
      `x`, `x + 1`, `x + 2` all present when the consecutive rule is on. */
  lemma IsValidOnDistinct(numbers: seq<int>, useOddEven: bool, useConsecutive: bool)
    requires Distinct(numbers)
    ensures IsValid(numbers, useOddEven, useConsecutive) <==>
              (!useOddEven || |OddMembers(numbers)| == 3) &&
              (!useConsecutive || !exists x :: StartsRun(numbers, x))
  {
    IsValidMeaning(numbers, useOddEven, useConsecutive);
    OddCountOfDistinct(numbers);
    var sorted := Sort(numbers);
    AdjacentRunIffRun(sorted);
    assert forall x :: x in sorted <==> x in numbers by {
      forall x
        ensures x in sorted <==> x in numbers
      {
        assert x in sorted <==> x in multiset(sorted);
        assert x in numbers <==> x in multiset(numbers);
      }
    }
    assert forall x :: StartsRun(sorted, x) <==> StartsRun(numbers, x);
  }

  /** A repeated value resets the counter: `[1, 2, 2, 3]` passes the
      consecutive rule although 1, 2 and 3 all occur. */
  lemma RepeatHidesRun()
    ensures IsValid([1, 2, 2, 3], false, true)
    ensures StartsRun([1, 2, 2, 3], 1)
  {
    var s := [1, 2, 2, 3];
    assert Sort(s) == s by {
      assert Sorted(s);
      SortedUnique(Sort(s), s);
    }
    assert RunScan(s, 4, 2);
    assert RunScan(s, 3, 1);
    assert RunScan(s, 2, 2);
  }
}
