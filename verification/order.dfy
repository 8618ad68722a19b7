/**
The comparator contract shared by the three sorts: a caller-supplied strict
"less than" predicate, required to be a strict weak order, and the notions of
sortedness and permutation the sorts promise.
*/
module Order {
  import Slices

  /** Neither element is strictly less than the other. */
  predicate Incomparable<T>(lt: (T, T) -> bool, a: T, b: T) {
    !lt(a, b) && !lt(b, a)
  }

  ghost predicate Asymmetric<T(!new)>(lt: (T, T) -> bool) {
    forall a, b :: lt(a, b) ==> !lt(b, a)
  }

  ghost predicate Transitive<T(!new)>(lt: (T, T) -> bool) {
    forall a, b, c :: lt(a, b) && lt(b, c) ==> lt(a, c)
  }

  ghost predicate IncomparableTransitive<T(!new)>(lt: (T, T) -> bool) {
    forall a, b, c :: Incomparable(lt, a, b) && Incomparable(lt, b, c) ==> Incomparable(lt, a, c)
  }

  /** What every comparator handed to the sorts must be. */
  ghost predicate StrictWeakOrder<T(!new)>(lt: (T, T) -> bool) {
    && Asymmetric(lt)
    && Transitive(lt)
    && IncomparableTransitive(lt)
  }

  /** A strict weak order in which only equal elements are incomparable. */
  ghost predicate StrictTotalOrder<T(!new)>(lt: (T, T) -> bool) {
    && StrictWeakOrder(lt)
    && forall a, b :: a != b ==> lt(a, b) || lt(b, a)
  }

  /** The comparator the tests build with `|a, b| b.lt(a)`. */
  function Reversed<T>(lt: (T, T) -> bool): (rev: (T, T) -> bool) {
    (a, b) => lt(b, a)
  }

  lemma ReversedIsStrictWeakOrder<T(!new)>(lt: (T, T) -> bool)
    requires StrictWeakOrder(lt)
    ensures StrictWeakOrder(Reversed(lt))
  {
    var rev := Reversed(lt);
    forall a, b, c | Incomparable(rev, a, b) && Incomparable(rev, b, c)
      ensures Incomparable(rev, a, c)
    {
      assert Incomparable(lt, a, b) && Incomparable(lt, b, c);
    }
  }

  lemma ReversedIsStrictTotalOrder<T(!new)>(lt: (T, T) -> bool)
    requires StrictTotalOrder(lt)
    ensures StrictTotalOrder(Reversed(lt))
  {
    ReversedIsStrictWeakOrder(lt);
  }

  /** "Not less than" is transitive in a strict weak order: x <= y <= z gives x <= z. */
  lemma NotLessTransitive<T(!new)>(lt: (T, T) -> bool, x: T, y: T, z: T)
    requires StrictWeakOrder(lt)
    requires !lt(y, x) && !lt(z, y)
    ensures !lt(z, x)
  {
    assert Incomparable(lt, x, y) && Incomparable(lt, y, z) ==> Incomparable(lt, x, z);
  }

  /** An element equivalent to `e` is strictly below `y` only when `y` is not equivalent to `e`. */
  lemma LessSeparatesClasses<T(!new)>(lt: (T, T) -> bool, e: T, x: T, y: T)
    requires StrictWeakOrder(lt)
    requires Incomparable(lt, x, e) && lt(x, y)
    ensures !Incomparable(lt, y, e)
  {
    assert Incomparable(lt, x, e) && Incomparable(lt, e, y) ==> Incomparable(lt, x, y);
  }

  /** Every later element is not less than every earlier one, within [lo, hi). */
  ghost predicate SortedBetween<T>(s: seq<T>, lo: int, hi: int, lt: (T, T) -> bool)
    requires 0 <= lo <= hi <= |s|
  {
    forall i, j :: lo <= i < j < hi ==> !lt(s[j], s[i])
  }

  ghost predicate Sorted<T>(s: seq<T>, lt: (T, T) -> bool) {
    SortedBetween(s, 0, |s|, lt)
  }

  /** The form the tests check: no adjacent pair is out of order. */
  ghost predicate AdjacentSorted<T>(s: seq<T>, lt: (T, T) -> bool) {
    forall k :: 0 <= k < |s| - 1 ==> !lt(s[k + 1], s[k])
  }

  /** Under a strict weak order, checking adjacent pairs is the same as checking all pairs. */
  lemma {:induction false} SortedIffAdjacentSorted<T(!new)>(s: seq<T>, lt: (T, T) -> bool)
    requires StrictWeakOrder(lt)
    ensures Sorted(s, lt) <==> AdjacentSorted(s, lt)
  {
    if AdjacentSorted(s, lt) {
      forall i, j | 0 <= i < j < |s| ensures !lt(s[j], s[i]) {
        AdjacentChain(s, i, j, lt);
      }
    }
  }

  lemma {:induction false} AdjacentChain<T(!new)>(s: seq<T>, i: int, j: int, lt: (T, T) -> bool)
    requires StrictWeakOrder(lt) && AdjacentSorted(s, lt)
    requires 0 <= i <= j < |s|
    ensures !lt(s[j], s[i])
    decreases j - i
  {
    if i == j {
      assert Incomparable(lt, s[i], s[i]);
    } else {
      AdjacentChain(s, i + 1, j, lt);
      NotLessTransitive(lt, s[i], s[i + 1], s[j]);
    }
  }

  /** Sorted under the reversed comparator means nonincreasing under the original one. */
  lemma SortedReversedIsNonincreasing<T>(s: seq<T>, lt: (T, T) -> bool)
    requires Sorted(s, Reversed(lt))
    ensures forall i, j :: 0 <= i < j < |s| ==> !lt(s[i], s[j])
  {
    forall i, j | 0 <= i < j < |s| ensures !lt(s[i], s[j]) {
      assert !Reversed(lt)(s[j], s[i]);
    }
  }

  /**
  Under a strict total order a multiset has exactly one sorted arrangement, so any
  two sorts of the same input agree, and sorting a sorted sequence changes nothing.
  */
  lemma {:induction false} SortedPermutationUnique<T(!new)>(a: seq<T>, b: seq<T>, lt: (T, T) -> bool)
    requires StrictTotalOrder(lt)
    requires multiset(a) == multiset(b)
    requires Sorted(a, lt) && Sorted(b, lt)
    ensures a == b
    decreases |a|
  {
    assert |a| == |multiset(a)| == |b|;
    if |a| > 0 {
      assert a[0] in multiset(b) && b[0] in multiset(a);
      var i :| 0 <= i < |b| && b[i] == a[0];
      var j :| 0 <= j < |a| && a[j] == b[0];
      assert !lt(a[0], b[0]) by {
        if i > 0 { assert !lt(b[i], b[0]); }
      }
      assert !lt(b[0], a[0]) by {
        if j > 0 { assert !lt(a[j], a[0]); }
      }
      assert a[0] == b[0];
      Slices.TailPermutation(a, b);
      SortedPermutationUnique(a[1..], b[1..], lt);
    }
  }

}
