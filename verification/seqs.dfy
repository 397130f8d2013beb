/** Facts about integer sequences that the lottery code relies on: ordering,
    duplicate-freedom, and the sort that Python's `sorted` performs. */
module Seqs {

  /** Non-decreasing order, the order `sorted` produces. */
  predicate Sorted(s: seq<int>) {
    forall i, j :: 0 <= i < j < |s| ==> s[i] <= s[j]
  }

  /** Ascending order without repeats. */
  predicate StrictlyIncreasing(s: seq<int>) {
    forall i, j :: 0 <= i < j < |s| ==> s[i] < s[j]
  }

  predicate Distinct(s: seq<int>) {
    forall i, j :: 0 <= i < j < |s| ==> s[i] != s[j]
  }

  /** The set of values a sequence holds. */
  function Elements(s: seq<int>): set<int> {
    set x | x in s
  }

  /** Inserts `x` into a sorted sequence, keeping it sorted. */
  function Insert(x: int, s: seq<int>): (r: seq<int>)
    requires Sorted(s)
    ensures Sorted(r)
    ensures multiset(r) == multiset(s) + multiset{x}
    ensures StrictlyIncreasing(s) && x !in s ==> StrictlyIncreasing(r)
  {
    if |s| == 0 then [x]
    else if x <= s[0] then [x] + s
    else
      var rest := Insert(x, s[1..]);
      InsertStep(x, s, rest);
      [s[0]] + rest
  }

  /** The inductive step of `Insert`: `rest` is the insertion of `x` into the
      tail of `s`, and `x` exceeds the head of `s`. */
  lemma InsertStep(x: int, s: seq<int>, rest: seq<int>)
    requires |s| > 0 && Sorted(s) && s[0] < x
    requires Sorted(rest)
    requires multiset(rest) == multiset(s[1..]) + multiset{x}
    requires StrictlyIncreasing(s) && x !in s ==> StrictlyIncreasing(rest)
    ensures Sorted([s[0]] + rest)
    ensures multiset([s[0]] + rest) == multiset(s) + multiset{x}
    ensures StrictlyIncreasing(s) && x !in s ==> StrictlyIncreasing([s[0]] + rest)
  {
    assert s == [s[0]] + s[1..];
    forall k | 0 <= k < |rest|
      ensures s[0] <= rest[k]
      ensures StrictlyIncreasing(s) ==> s[0] < rest[k]
    {
      assert rest[k] in multiset(rest);
      if rest[k] != x {
        assert rest[k] in multiset(s[1..]);
        var i :| 0 <= i < |s[1..]| && s[1..][i] == rest[k];
        assert s[i + 1] == rest[k];
        if StrictlyIncreasing(s) {
          assert s[0] < s[i + 1];
        } else {
          assert s[0] <= s[i + 1];
        }
      }
    }
  }

  /** Python's `sorted` on a list of integers: the same values, in
      non-decreasing order; a duplicate-free input comes out strictly
      increasing. */
  function Sort(s: seq<int>): (r: seq<int>)
    ensures Sorted(r)
    ensures multiset(r) == multiset(s)
    ensures Distinct(s) ==> StrictlyIncreasing(r)
  {
    if |s| == 0 then []
    else
      assert s == [s[0]] + s[1..];
      var rest := Sort(s[1..]);
      assert Distinct(s) ==> s[0] !in multiset(s[1..]);
      Insert(s[0], rest)
  }

  /** Python's `[n for n in s if n not in drop]`: keeps the elements of `s`
      that do not occur in `drop`. */
  function Without(s: seq<int>, drop: seq<int>): (r: seq<int>)
    ensures forall x :: x in r <==> x in s && x !in drop
    ensures Distinct(s) ==> Distinct(r)
    ensures |r| <= |s|
  {
    if |s| == 0 then []
    else if s[0] in drop then Without(s[1..], drop)
    else
      var rest := Without(s[1..], drop);
      assert Distinct(s) ==> s[0] !in s[1..];
      [s[0]] + rest
  }

  /** Keeps the first occurrence of each value: the list form of `set(s)`. */
  function Dedup(s: seq<int>): (r: seq<int>)
    ensures forall x :: x in r <==> x in s
    ensures Distinct(r)
    decreases |s|
  {
    if |s| == 0 then []
    else
      var rest := Dedup(Without(s[1..], [s[0]]));
      assert s[0] !in rest;
      [s[0]] + rest
  }

  lemma DistinctConcat(a: seq<int>, b: seq<int>)
    requires Distinct(a) && Distinct(b)
    requires forall x :: x in a ==> x !in b
    ensures Distinct(a + b)
  {
    forall i, j | 0 <= i < j < |a + b|
      ensures (a + b)[i] != (a + b)[j]
    {
      if i < |a| && |a| <= j {
        assert (a + b)[i] in a;
        assert (a + b)[j] == b[j - |a|];
      }
    }
  }

  /** The head of a sorted sequence is its least value. */
  lemma HeadIsLeast(a: seq<int>, v: int)
    requires Sorted(a) && v in multiset(a)
    ensures |a| > 0 && a[0] <= v
  {
  }

  lemma TailMultiset(a: seq<int>)
    requires |a| > 0
    ensures multiset(a[1..]) == multiset(a) - multiset{a[0]}
  {
    assert a == [a[0]] + a[1..];
  }

  /** A sorted sequence is determined by its multiset: two sorted
      permutations of one another are equal. */
  lemma {:induction false} SortedUnique(a: seq<int>, b: seq<int>)
    requires Sorted(a) && Sorted(b)
    requires multiset(a) == multiset(b)
    ensures a == b
    decreases |a|
  {
    if |a| == 0 {
      assert |b| == |multiset(b)| == 0;
    } else {
      SortedHeadsAgree(a, b);
      SortedUnique(a[1..], b[1..]);
      assert a == [a[0]] + a[1..];
      assert b == [b[0]] + b[1..];
    }
  }

  /** Two non-empty sorted permutations of one another start with the same
      value, and their tails are again sorted permutations of one another. */
  lemma SortedHeadsAgree(a: seq<int>, b: seq<int>)
    requires Sorted(a) && Sorted(b) && |a| > 0
    requires multiset(a) == multiset(b)
    ensures |b| > 0 && a[0] == b[0]
    ensures Sorted(a[1..]) && Sorted(b[1..])
    ensures multiset(a[1..]) == multiset(b[1..])
  {
    assert a[0] in multiset(a);
    HeadIsLeast(b, a[0]);
    assert b[0] in multiset(b);
    HeadIsLeast(a, b[0]);
    TailMultiset(a);
    TailMultiset(b);
  }

  /** A strictly increasing sequence is determined by its set of values. */
  lemma {:induction false} StrictUnique(a: seq<int>, b: seq<int>)
    requires StrictlyIncreasing(a) && StrictlyIncreasing(b)
    requires forall x :: x in a <==> x in b
    ensures a == b
    decreases |a|
  {
    assert |b| > 0 ==> b[0] in b;
    if |a| > 0 {
      assert a[0] in a;
      var k :| 0 <= k < |b| && b[k] == a[0];
      assert b[0] in b;
      var m :| 0 <= m < |a| && a[m] == b[0];
      assert a[0] == b[0];
      forall x
        ensures x in a[1..] <==> x in b[1..]
      {
        if x in a[1..] {
          var i :| 1 <= i < |a| && a[i] == x;
          assert x in b;
        }
        if x in b[1..] {
          var i :| 1 <= i < |b| && b[i] == x;
          assert x in a;
        }
      }
      StrictUnique(a[1..], b[1..]);
    }
  }

  /** Sorted sequences that differ are not permutations of one another. */
  lemma DifferentSortedDifferentMultisets(a: seq<int>, b: seq<int>)
    requires Sorted(a) && Sorted(b) && a != b
    ensures multiset(a) != multiset(b)
  {
    if multiset(a) == multiset(b) {
      SortedUnique(a, b);
    }
  }

  /** Strictly increasing sequences that differ hold different sets. */
  lemma DifferentStrictDifferentSets(a: seq<int>, b: seq<int>)
    requires StrictlyIncreasing(a) && StrictlyIncreasing(b) && a != b
    ensures Elements(a) != Elements(b)
  {
    if Elements(a) == Elements(b) {
      forall x
        ensures x in a <==> x in b
      {
        assert x in a <==> x in Elements(a);
        assert x in b <==> x in Elements(b);
      }
      StrictUnique(a, b);
    }
  }
}
