/** The draw-without-replacement pool shared by the NumberShuffler and HackALot widgets:
    the fixed universe 1..66 they both start from, the list operations one draw performs,
    the ascending copy the NumberShuffler shows, and the invariant that the available and
    the excluded numbers partition the universe. */
module Pool {

  import opened Wrappers

  /** Both widgets use a pool of 66 numbers, whatever their callers pass them. */
  const PoolSize: nat := 66

  /** No number occurs twice. */
  predicate NoDups(s: seq<int>) {
    forall i, j :: 0 <= i < j < |s| ==> s[i] != s[j]
  }

  /** Strictly increasing (and so without duplicates). */
  predicate Increasing(s: seq<int>) {
    forall i, j :: 0 <= i < j < |s| ==> s[i] < s[j]
  }

  /** Non-decreasing: what a numeric ascending sort produces. */
  predicate Ascending(s: seq<int>) {
    forall i, j :: 0 <= i < j < |s| ==> s[i] <= s[j]
  }

  /** The initial pool: the numbers 1 to 66 in increasing order. */
  function InitialNumbers(): (r: seq<int>)
    ensures |r| == PoolSize
    ensures Increasing(r)
    ensures forall i :: 0 <= i < |r| ==> 1 <= r[i] <= PoolSize
  {
    seq(PoolSize, i => i + 1)
  }

  /** Every number from 1 to 66, and no other, is in the initial pool. */
  lemma InitialNumbersSpan()
    ensures forall x :: x in InitialNumbers() <==> 1 <= x <= PoolSize
  {
    var r := InitialNumbers();
    forall x | 1 <= x <= PoolSize ensures x in r {
      assert r[x - 1] == x;
    }
  }

  /** The list with every occurrence of `x` filtered out; the rest keep their order. */
  function Without(s: seq<int>, x: int): (r: seq<int>)
    ensures forall y :: y in r <==> y in s && y != x
    ensures |r| <= |s|
  {
    if s == [] then []
    else if s[0] == x then Without(s[1..], x)
    else [s[0]] + Without(s[1..], x)
  }

  /** Deleting one position keeps a list strictly increasing. */
  lemma DeleteKeepsIncreasing(s: seq<int>, k: int)
    requires Increasing(s) && 0 <= k < |s|
    ensures Increasing(s[..k] + s[k + 1..])
  {
  }

  /** Deleting one position keeps a list free of duplicates. */
  lemma DeleteKeepsNoDups(s: seq<int>, k: int)
    requires NoDups(s) && 0 <= k < |s|
    ensures NoDups(s[..k] + s[k + 1..])
  {
  }

  /** Filtering out a number that is not there changes nothing. */
  lemma {:induction false} WithoutAbsent(s: seq<int>, x: int)
    requires x !in s
    ensures Without(s, x) == s
  {
    if s != [] {
      WithoutAbsent(s[1..], x);
      assert s == [s[0]] + s[1..];
    }
  }

  /** In a list without duplicates, filtering out the element at index `k` removes exactly
      that position: what precedes and what follows it are kept, in order. */
  lemma {:induction false} WithoutAt(s: seq<int>, k: int)
    requires NoDups(s) && 0 <= k < |s|
    ensures Without(s, s[k]) == s[..k] + s[k + 1..]
    ensures |Without(s, s[k])| == |s| - 1
  {
    if k == 0 {
      assert s[0] !in s[1..];
      WithoutAbsent(s[1..], s[0]);
    } else {
      var t := s[1..];
      assert NoDups(t);
      WithoutAt(t, k - 1);
      assert t[k - 1] == s[k];
      assert t[..k - 1] + t[k..] == (s[..k] + s[k + 1..])[1..];
    }
  }

  /** Inserts `x` into a list before the first element not below it. */
  function Insert(x: int, s: seq<int>): (r: seq<int>)
    ensures multiset(r) == multiset(s) + multiset{x}
  {
    if s == [] || x <= s[0] then [x] + s
    else
      assert s == [s[0]] + s[1..];
      [s[0]] + Insert(x, s[1..])
  }

  /** Putting a number no larger than every element in front of an ascending list keeps
      it ascending; strictly so when it is smaller than every element of an increasing list. */
  lemma ConsSorted(h: int, t: seq<int>)
    requires Ascending(t) && forall y :: y in t ==> h <= y
    ensures Ascending([h] + t)
    ensures Increasing(t) && (forall y :: y in t ==> h < y) ==> Increasing([h] + t)
  {
    var r := [h] + t;
    forall j | 0 < j < |r| ensures r[j] == t[j - 1] && r[j] in t {
    }
  }

  /** Every element of an ascending list is at least its head, and above it when the list
      is strictly increasing and the element is not the head. */
  lemma HeadBound(s: seq<int>, y: int)
    requires Ascending(s) && s != [] && y in s
    ensures s[0] <= y
    ensures Increasing(s) && y != s[0] ==> s[0] < y
  {
  }

  /** The elements of `Insert(x, s)` are those of `s` and `x`. */
  lemma InsertMembers(x: int, s: seq<int>, y: int)
    requires y in Insert(x, s)
    ensures y in s || y == x
  {
  }

  /** Inserting into an ascending list keeps it ascending; inserting a new number into a
      strictly increasing list keeps it strictly increasing. */
  lemma {:induction false} InsertSorted(x: int, s: seq<int>)
    requires Ascending(s)
    ensures Ascending(Insert(x, s))
    ensures Increasing(s) && x !in s ==> Increasing(Insert(x, s))
  {
    if s == [] {
    } else if x <= s[0] {
      forall y | y in s ensures x <= y && (Increasing(s) && x !in s ==> x < y) {
        HeadBound(s, y);
      }
      ConsSorted(x, s);
    } else {
      var t := Insert(x, s[1..]);
      InsertSorted(x, s[1..]);
      forall y | y in t ensures s[0] <= y && (Increasing(s) && x !in s ==> s[0] < y) {
        InsertMembers(x, s[1..], y);
        if y != x {
          HeadBound(s, y);
        }
      }
      ConsSorted(s[0], t);
    }
  }

  /** A numeric ascending sort, as an insertion sort: an ascending permutation of its input. */
  function SortAscending(s: seq<int>): (r: seq<int>)
    ensures Ascending(r)
    ensures multiset(r) == multiset(s)
  {
    if s == [] then []
    else
      assert s == [s[0]] + s[1..];
      InsertSorted(s[0], SortAscending(s[1..]));
      Insert(s[0], SortAscending(s[1..]))
  }

  /** Sorting a list without duplicates yields a strictly increasing list. */
  lemma {:induction false} SortDistinct(s: seq<int>)
    requires NoDups(s)
    ensures Increasing(SortAscending(s))
  {
    if s != [] {
      assert s == [s[0]] + s[1..];
      var t := SortAscending(s[1..]);
      assert NoDups(s[1..]);
      SortDistinct(s[1..]);
      assert s[0] !in multiset(s[1..]);
      assert s[0] !in t by {
        assert multiset(t) == multiset(s[1..]);
      }
      InsertSorted(s[0], t);
    }
  }

  /** The number shown when the widget is idle: the last number drawn, if any. */
  function LastDrawn(excluded: seq<int>): (r: Option<int>)
    ensures r == None <==> excluded == []
    ensures r.Some? ==> r.value in excluded
  {
    if excluded == [] then None else Some(excluded[|excluded| - 1])
  }

  /** The invariant of both widgets: the available numbers (increasing, since they start
      as 1..66 and are only ever filtered) and the excluded numbers (no duplicates) are
      disjoint, and together they are exactly the numbers 1..66. */
  ghost predicate PoolInvariant(available: seq<int>, excluded: seq<int>) {
    && Increasing(available)
    && NoDups(excluded)
    && (forall x :: x in available ==> x !in excluded)
    && (forall x :: x in available || x in excluded <==> 1 <= x <= PoolSize)
  }

  /** The pool a widget starts with, and returns to on reset, satisfies the invariant. */
  lemma InitialPoolInvariant()
    ensures PoolInvariant(InitialNumbers(), [])
  {
    InitialNumbersSpan();
  }

  /** One completed draw of the number at index `k`: moving it from the available list to the
      end of the excluded list keeps the invariant, removes exactly that position from the
      available list and shrinks it by one. */
  lemma DrawPreservesPool(available: seq<int>, excluded: seq<int>, k: int)
    requires PoolInvariant(available, excluded)
    requires 0 <= k < |available|
    ensures Without(available, available[k]) == available[..k] + available[k + 1..]
    ensures |Without(available, available[k])| == |available| - 1
    ensures PoolInvariant(Without(available, available[k]), excluded + [available[k]])
  {
    var d := available[k];
    WithoutAt(available, k);
    DeleteKeepsIncreasing(available, k);
    var e := excluded + [d];
    assert d !in excluded;
    forall i, j | 0 <= i < j < |e| ensures e[i] != e[j] {
      if j == |excluded| {
        assert e[i] in excluded;
      }
    }
  }

  /** A list without duplicates whose elements are exactly 1..n has length n. */
  lemma {:induction false} DistinctRangeLength(s: seq<int>, n: nat)
    requires NoDups(s)
    requires forall x :: x in s <==> 1 <= x <= n
    ensures |s| == n
  {
    assert |s| > 0 ==> s[0] in s;
    if n > 0 {
      assert n in s;
      var k :| 0 <= k < |s| && s[k] == n;
      WithoutAt(s, k);
      DeleteKeepsNoDups(s, k);
      DistinctRangeLength(Without(s, n), n - 1);
    }
  }

  /** Under the invariant, the two lists together hold exactly 66 numbers: every completed
      draw moves one number, so the excluded list grows exactly as the pool shrinks. */
  lemma PoolSizes(available: seq<int>, excluded: seq<int>)
    requires PoolInvariant(available, excluded)
    ensures |available| + |excluded| == PoolSize
  {
    var s := available + excluded;
    forall i, j | 0 <= i < j < |s| ensures s[i] != s[j] {
      if j < |available| {
      } else if i >= |available| {
        assert s[i] == excluded[i - |available|] && s[j] == excluded[j - |available|];
      } else {
        assert s[i] in available && s[j] in excluded;
      }
    }
    DistinctRangeLength(s, PoolSize);
  }

  /** Under the invariant, the pool is empty exactly when the excluded list holds 66
      numbers: after 66 completed draws since the last reset nothing is left to draw. */
  lemma ExhaustedIffAllExcluded(available: seq<int>, excluded: seq<int>)
    ensures PoolInvariant(available, excluded) ==> (available == [] <==> |excluded| == PoolSize)
  {
    if PoolInvariant(available, excluded) {
      PoolSizes(available, excluded);
    }
  }

  lemma {:induction false} IncreasingLowerBound(s: seq<int>, i: int)
    requires Increasing(s) && 0 <= i < |s|
    requires forall j :: 0 <= j < |s| ==> 1 <= s[j]
    ensures i + 1 <= s[i]
  {
    if i > 0 {
      IncreasingLowerBound(s, i - 1);
    }
  }

  lemma {:induction false} IncreasingUpperBound(s: seq<int>, i: int)
    requires Increasing(s) && 0 <= i < |s|
    requires forall j :: 0 <= j < |s| ==> s[j] <= |s|
    ensures s[i] <= i + 1
    decreases |s| - i
  {
    if i < |s| - 1 {
      IncreasingUpperBound(s, i + 1);
    }
  }

  /** An increasing list of 66 numbers, each between 1 and 66, is the initial pool. */
  lemma IncreasingSpanIsInitial(s: seq<int>)
    requires Increasing(s) && |s| == PoolSize
    requires forall i :: 0 <= i < |s| ==> 1 <= s[i] <= PoolSize
    ensures s == InitialNumbers()
  {
    var init := InitialNumbers();
    forall i | 0 <= i < |s| ensures s[i] == init[i] {
      IncreasingLowerBound(s, i);
      IncreasingUpperBound(s, i);
    }
  }

  /** With nothing excluded, the available list is exactly the initial pool, in order. */
  lemma NothingDrawnIsInitial(available: seq<int>)
    requires PoolInvariant(available, [])
    ensures available == InitialNumbers()
  {
    PoolSizes(available, []);
    forall i | 0 <= i < |available| ensures 1 <= available[i] <= PoolSize {
      assert available[i] in available;
    }
    IncreasingSpanIsInitial(available);
  }

  /** Once every number is drawn, the ascending copy of the excluded list is 1..66. */
  lemma AllDrawnSortedIsInitial(excluded: seq<int>)
    requires PoolInvariant([], excluded)
    ensures SortAscending(excluded) == InitialNumbers()
  {
    PoolSizes([], excluded);
    SortDistinct(excluded);
    var r := SortAscending(excluded);
    assert |r| == |multiset(r)| == |multiset(excluded)| == |excluded|;
    forall i | 0 <= i < |r| ensures 1 <= r[i] <= PoolSize {
      assert r[i] in multiset(r);
      assert r[i] in excluded;
    }
    IncreasingSpanIsInitial(r);
  }
}
