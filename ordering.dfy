/** The contract the containers require of the caller's `compareData`
    callback, and what "sorted" means under it. */
module Ordering {

  /** The verdict on (a, b) mirrors the verdict on (b, a). */
  predicate Mirrored<T>(cmp: (T, T) -> int, a: T, b: T) {
    cmp(a, b) < 0 <==> cmp(b, a) > 0
  }

  /** "Compares at most equal" carries over from a to c through b. */
  predicate TransitiveAt<T>(cmp: (T, T) -> int, a: T, b: T, c: T) {
    cmp(a, b) <= 0 && cmp(b, c) <= 0 ==> cmp(a, c) <= 0
  }

  /** `cmp` returns a negative, zero or positive verdict like a C comparator.
      It is a total preorder when every verdict is mirrored by the swapped
      call and "compares at most equal" is transitive. Totality of that
      relation follows from the mirroring (PreorderReflexiveTotal). Proofs
      use the two quantifiers only at the instances they name. */
  ghost predicate TotalPreorder<T(!new)>(cmp: (T, T) -> int) {
    && (forall a, b :: Mirrored(cmp, a, b))
    && (forall a, b, c :: TransitiveAt(cmp, a, b, c))
  }

  /** `s` is non-decreasing under `cmp`, read head to tail. */
  predicate Sorted<T>(cmp: (T, T) -> int, s: seq<T>) {
    forall i, j :: 0 <= i < j < |s| ==> cmp(s[i], s[j]) <= 0
  }

  /** Every element of a total preorder compares equal to itself, and two
      elements always compare one way or the other: when `a` does not
      compare strictly below `b`, `b` compares at most equal to `a`. */
  lemma PreorderReflexiveTotal<T(!new)>(cmp: (T, T) -> int, a: T, b: T)
    requires TotalPreorder(cmp)
    ensures cmp(a, a) == 0
    ensures cmp(a, b) >= 0 ==> cmp(b, a) <= 0
    ensures cmp(a, b) <= 0 || cmp(b, a) <= 0
  {
    assert Mirrored(cmp, a, a) && Mirrored(cmp, a, b);
  }

  /** Removing one item keeps a sorted sequence sorted. */
  lemma SortedRemove<T>(cmp: (T, T) -> int, s: seq<T>, k: nat)
    requires k < |s| && Sorted(cmp, s)
    ensures Sorted(cmp, s[..k] + s[k + 1..])
  {
    var t := s[..k] + s[k + 1..];
    forall i, j | 0 <= i < j < |t|
      ensures cmp(t[i], t[j]) <= 0
    {
      var i', j' := if i < k then i else i + 1, if j < k then j else j + 1;
      assert t[i] == s[i'] && t[j] == s[j'];
    }
  }

  /** Placing `d` just before the first item that compares above it (or at
      the end when there is none) keeps a sorted sequence sorted. */
  lemma SortedInsert<T(!new)>(cmp: (T, T) -> int, s: seq<T>, d: T, k: nat)
    requires TotalPreorder(cmp) && Sorted(cmp, s)
    requires k <= |s|
    requires forall i :: 0 <= i < k ==> cmp(s[i], d) <= 0
    requires k < |s| ==> cmp(s[k], d) > 0
    ensures Sorted(cmp, s[..k] + [d] + s[k..])
  {
    var t := s[..k] + [d] + s[k..];
    forall i, j | 0 <= i < j < |t|
      ensures cmp(t[i], t[j]) <= 0
    {
      if j < k {
        assert t[i] == s[i] && t[j] == s[j];
      } else if j == k {
        assert t[i] == s[i] && t[j] == d;
      } else if i == k {
        // d lies below s[k], which lies at or below s[j - 1]
        assert t[i] == d && t[j] == s[j - 1];
        assert Mirrored(cmp, d, s[k]);
        assert TransitiveAt(cmp, d, s[k], s[j - 1]);
      } else if i < k {
        assert t[i] == s[i] && t[j] == s[j - 1];
      } else {
        assert t[i] == s[i - 1] && t[j] == s[j - 1];
      }
    }
  }
}
