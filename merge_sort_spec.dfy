/** The value-level meaning of the list's merge sort: which element `merge`
    takes next, where `split` cuts a chain, and what `mergeSort` computes.
    The heap methods in LinkedLists are proved to relink nodes exactly as
    these functions say. */
module MergeSortSpec {
  import opened Ordering

  /** Where `split` cuts a chain of `n >= 2` nodes: the first part keeps
      ceil(n/2) of them. */
  function SplitPoint(n: nat): (h: nat)
    requires n >= 2
    ensures 0 < h < n
    ensures h >= n - h && h - (n - h) <= 1
  {
    (n + 1) / 2
  }

  /** The order in which `merge` consumes its two runs: it takes the front of
      `a` only when that front compares strictly below the front of `b`, and
      otherwise takes the front of `b`. */
  function Merge<T>(cmp: (T, T) -> int, a: seq<T>, b: seq<T>): (r: seq<T>)
    ensures |r| == |a| + |b|
    ensures multiset(r) == multiset(a) + multiset(b)
    decreases |a| + |b|
  {
    if a == [] && b == [] then []
    else if b == [] || (a != [] && cmp(a[0], b[0]) < 0) then
      assert a == [a[0]] + a[1..];
      [a[0]] + Merge(cmp, a[1..], b)
    else
      assert b == [b[0]] + b[1..];
      [b[0]] + Merge(cmp, a, b[1..])
  }

  /** What `mergeSort` computes from a chain's items: a chain of fewer than
      two items is returned as it is; otherwise the chain is split at
      SplitPoint, both halves are sorted and the results are merged. */
  function MergeSort<T>(cmp: (T, T) -> int, s: seq<T>): (r: seq<T>)
    ensures multiset(r) == multiset(s)
    decreases |s|
  {
    if |s| < 2 then s
    else
      var h := SplitPoint(|s|);
      assert s == s[..h] + s[h..];
      Merge(cmp, MergeSort(cmp, s[..h]), MergeSort(cmp, s[h..]))
  }

  /** `x` compares at most equal to every element of `s`. */
  ghost predicate LowerBound<T>(cmp: (T, T) -> int, x: T, s: seq<T>) {
    forall i :: 0 <= i < |s| ==> cmp(x, s[i]) <= 0
  }

  /** A lower bound of a multiset-equal sequence is a lower bound here. */
  lemma LowerBoundPermutation<T>(cmp: (T, T) -> int, x: T, s: seq<T>, t: seq<T>)
    requires multiset(s) == multiset(t)
    requires LowerBound(cmp, x, t)
    ensures LowerBound(cmp, x, s)
  {
    forall i | 0 <= i < |s|
      ensures cmp(x, s[i]) <= 0
    {
      assert s[i] in multiset(s);
      assert s[i] in multiset(t);
      var j :| 0 <= j < |t| && t[j] == s[i];
    }
  }

  /** Merging two non-decreasing runs gives a non-decreasing run. */
  lemma {:induction false} MergeSorted<T(!new)>(cmp: (T, T) -> int, a: seq<T>, b: seq<T>)
    requires TotalPreorder(cmp)
    requires Sorted(cmp, a) && Sorted(cmp, b)
    ensures Sorted(cmp, Merge(cmp, a, b))
    decreases |a| + |b|
  {
    if a == [] && b == [] {
    } else if b == [] || (a != [] && cmp(a[0], b[0]) < 0) {
      var rest := Merge(cmp, a[1..], b);
      MergeSorted(cmp, a[1..], b);
      // a[0] is below every item of a[1..] and, through b[0], of b.
      assert LowerBound(cmp, a[0], a[1..] + b) by {
        forall i | 0 <= i < |a[1..] + b|
          ensures cmp(a[0], (a[1..] + b)[i]) <= 0
        {
          if i >= |a| - 1 {
            var j := i - (|a| - 1);
            assert (a[1..] + b)[i] == b[j];
            if j > 0 {
              assert TransitiveAt(cmp, a[0], b[0], b[j]);
            }
          } else {
            assert (a[1..] + b)[i] == a[i + 1];
          }
        }
      }
      LowerBoundPermutation(cmp, a[0], rest, a[1..] + b);
      SortedCons(cmp, a[0], rest);
    } else {
      var rest := Merge(cmp, a, b[1..]);
      MergeSorted(cmp, a, b[1..]);
      assert LowerBound(cmp, b[0], a + b[1..]) by {
        forall i | 0 <= i < |a + b[1..]|
          ensures cmp(b[0], (a + b[1..])[i]) <= 0
        {
          if i < |a| {
            assert (a + b[1..])[i] == a[i];
            // `merge` took b[0] because a[0] did not compare strictly below it.
            PreorderReflexiveTotal(cmp, a[0], b[0]);
            if i > 0 {
              assert TransitiveAt(cmp, b[0], a[0], a[i]);
            }
          } else {
            assert (a + b[1..])[i] == b[i - |a| + 1];
          }
        }
      }
      LowerBoundPermutation(cmp, b[0], rest, a + b[1..]);
      SortedCons(cmp, b[0], rest);
    }
  }

  /** Putting a lower bound in front of a sorted run keeps it sorted. */
  lemma SortedCons<T>(cmp: (T, T) -> int, x: T, s: seq<T>)
    requires Sorted(cmp, s) && LowerBound(cmp, x, s)
    ensures Sorted(cmp, [x] + s)
  {
    forall i, j | 0 <= i < j < |[x] + s|
      ensures cmp(([x] + s)[i], ([x] + s)[j]) <= 0
    {
      if i > 0 {
        assert ([x] + s)[i] == s[i - 1];
      }
      assert ([x] + s)[j] == s[j - 1];
    }
  }

  /** Merge sort orders its input: the result is non-decreasing under a total
      preorder, and (by MergeSort's own contract) a permutation. */
  lemma {:induction false} MergeSortSorted<T(!new)>(cmp: (T, T) -> int, s: seq<T>)
    requires TotalPreorder(cmp)
    ensures Sorted(cmp, MergeSort(cmp, s))
    ensures multiset(MergeSort(cmp, s)) == multiset(s)
    decreases |s|
  {
    if |s| >= 2 {
      var h := SplitPoint(|s|);
      MergeSortSorted(cmp, s[..h]);
      MergeSortSorted(cmp, s[h..]);
      MergeSorted(cmp, MergeSort(cmp, s[..h]), MergeSort(cmp, s[h..]));
    }
  }

  /** When every item of `a` compares strictly below every item of `b`,
      merging is concatenation. */
  lemma {:induction false} MergeSeparated<T>(cmp: (T, T) -> int, a: seq<T>, b: seq<T>)
    requires forall i, j :: 0 <= i < |a| && 0 <= j < |b| ==> cmp(a[i], b[j]) < 0
    ensures Merge(cmp, a, b) == a + b
    decreases |a|
  {
    if a == [] {
      MergeLeftEmpty(cmp, b);
    } else {
      var rest := a[1..];
      if b != [] {
        assert cmp(a[0], b[0]) < 0;
      }
      assert Merge(cmp, a, b) == [a[0]] + Merge(cmp, rest, b);
      forall i, j | 0 <= i < |rest| && 0 <= j < |b|
        ensures cmp(rest[i], b[j]) < 0
      {
        assert rest[i] == a[i + 1];
      }
      MergeSeparated(cmp, rest, b);
      assert a + b == [a[0]] + (rest + b);
    }
  }

  /** Merging with an empty left run returns the right run. */
  lemma {:induction false} MergeLeftEmpty<T>(cmp: (T, T) -> int, b: seq<T>)
    ensures Merge(cmp, [], b) == b
    decreases |b|
  {
    if b != [] {
      MergeLeftEmpty(cmp, b[1..]);
      assert b == [b[0]] + b[1..];
    }
  }

  /** Sorting a strictly increasing sequence returns it unchanged: the sort
      is idempotent on inputs without ties. */
  lemma {:induction false} MergeSortStrictlyIncreasing<T>(cmp: (T, T) -> int, s: seq<T>)
    requires forall i, j :: 0 <= i < j < |s| ==> cmp(s[i], s[j]) < 0
    ensures MergeSort(cmp, s) == s
    decreases |s|
  {
    if |s| >= 2 {
      var h := SplitPoint(|s|);
      var front, back := s[..h], s[h..];
      assert forall i :: 0 <= i < |front| ==> front[i] == s[i];
      assert forall j :: 0 <= j < |back| ==> back[j] == s[h + j];
      MergeSortStrictlyIncreasing(cmp, front);
      MergeSortStrictlyIncreasing(cmp, back);
      MergeSeparated(cmp, front, back);
      assert front + back == s;
    }
  }

  /** The sort is not stable: two distinct items that compare equal come out
      in the opposite order, although the input was already sorted. */
  lemma MergeSortSwapsTies<T>(cmp: (T, T) -> int, x: T, y: T)
    requires cmp(x, y) == 0 && cmp(y, x) == 0
    ensures Sorted(cmp, [x, y])
    ensures MergeSort(cmp, [x, y]) == [y, x]
  {
    assert [x, y][..1] == [x] && [x, y][1..] == [y];
    assert Merge(cmp, [x], []) == [x];
  }
}
