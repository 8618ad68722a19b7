/**
Insertion sort (`insertsort_impl`, `insertsort_by`): for each position `i`,
a backward scan with the strict comparator finds the insertion point `j`, and
the block `v[j..=i]` is rotated right by one so that `v[i]` lands at `j`.
The slice is modelled as a value: the method returns the reordered slice.
*/
module Insertion {
  import opened Order

  /** The slice after the block `v[j..=i]` is rotated right by one position. */
  function RotateRight<T>(v: seq<T>, j: int, i: int): (r: seq<T>)
    requires 0 <= j <= i < |v|
    ensures |r| == |v| && multiset(r) == multiset(v)
    ensures r[j] == v[i]
    ensures forall k :: j < k <= i ==> r[k] == v[k - 1]
    ensures forall k :: 0 <= k < |v| && (k < j || i < k) ==> r[k] == v[k]
    ensures j == i ==> r == v
  {
    assert v == v[..j] + v[j..i] + [v[i]] + v[i + 1..];
    v[..j] + [v[i]] + v[j..i] + v[i + 1..]
  }

  /** The elements of `s` equivalent to `e`, in the order they occur in `s`. */
  function ClassOf<T>(s: seq<T>, e: T, lt: (T, T) -> bool): (c: seq<T>)
    decreases |s|
  {
    if |s| == 0 then []
    else (if Incomparable(lt, s[0], e) then [s[0]] else []) + ClassOf(s[1..], e, lt)
  }

  /** Stability: every class of mutually equivalent elements keeps its order. */
  ghost predicate Stable<T(!new)>(s: seq<T>, r: seq<T>, lt: (T, T) -> bool) {
    forall e :: ClassOf(r, e, lt) == ClassOf(s, e, lt)
  }

  lemma {:induction false} ClassOfConcat<T>(a: seq<T>, b: seq<T>, e: T, lt: (T, T) -> bool)
    ensures ClassOf(a + b, e, lt) == ClassOf(a, e, lt) + ClassOf(b, e, lt)
    decreases |a|
  {
    if |a| > 0 {
      assert (a + b)[1..] == a[1..] + b;
      ClassOfConcat(a[1..], b, e, lt);
    } else {
      assert a + b == b;
    }
  }

  lemma {:induction false} ClassOfEmpty<T>(s: seq<T>, e: T, lt: (T, T) -> bool)
    requires forall k :: 0 <= k < |s| ==> !Incomparable(lt, s[k], e)
    ensures ClassOf(s, e, lt) == []
    decreases |s|
  {
    if |s| > 0 {
      ClassOfEmpty(s[1..], e, lt);
    }
  }

  /** Swapping two adjacent blocks keeps a class in order when one block holds none of it. */
  lemma SwapBlocksKeepsClass<T>(a: seq<T>, x: seq<T>, m: seq<T>, c: seq<T>, e: T, lt: (T, T) -> bool)
    requires ClassOf(x, e, lt) == [] || ClassOf(m, e, lt) == []
    ensures ClassOf(a + x + m + c, e, lt) == ClassOf(a + m + x + c, e, lt)
  {
    ClassOfConcat(a + x + m, c, e, lt);
    ClassOfConcat(a + x, m, e, lt);
    ClassOfConcat(a, x, e, lt);
    ClassOfConcat(a + m + x, c, e, lt);
    ClassOfConcat(a + m, x, e, lt);
    ClassOfConcat(a, m, e, lt);
  }

  /** Moving `v[i]` down past elements it is strictly below leaves every class in order. */
  lemma RotatePastGreaterIsStable<T(!new)>(v: seq<T>, j: int, i: int, lt: (T, T) -> bool)
    requires StrictWeakOrder(lt)
    requires 0 <= j <= i < |v|
    requires forall k :: j <= k < i ==> lt(v[i], v[k])
    ensures Stable(v, RotateRight(v, j, i), lt)
  {
    var x, mid := v[i], v[j..i];
    assert v == v[..j] + mid + [x] + v[i + 1..];
    assert RotateRight(v, j, i) == v[..j] + [x] + mid + v[i + 1..];
    forall e ensures ClassOf(RotateRight(v, j, i), e, lt) == ClassOf(v, e, lt) {
      if Incomparable(lt, x, e) {
        forall k | 0 <= k < |mid| ensures !Incomparable(lt, mid[k], e) {
          LessSeparatesClasses(lt, e, x, mid[k]);
        }
        ClassOfEmpty(mid, e, lt);
      } else {
        assert ClassOf([x], e, lt) == [];
      }
      SwapBlocksKeepsClass(v[..j], [x], mid, v[i + 1..], e, lt);
    }
  }

  /** Inserting `v[i]` at the point the backward scan stopped extends the sorted prefix. */
  lemma InsertExtendsSortedPrefix<T(!new)>(v: seq<T>, j: int, i: int, lt: (T, T) -> bool)
    requires StrictWeakOrder(lt)
    requires 0 <= j <= i < |v|
    requires SortedBetween(v, 0, i, lt)
    requires forall k :: j <= k < i ==> lt(v[i], v[k])
    requires j == 0 || !lt(v[i], v[j - 1])
    ensures SortedBetween(RotateRight(v, j, i), 0, i + 1, lt)
  {
    var r := RotateRight(v, j, i);
    forall a, b | 0 <= a < b < i + 1 ensures !lt(r[b], r[a]) {
      if b < j {
      } else if a < j && b == j {
        if a < j - 1 {
          NotLessTransitive(lt, v[a], v[j - 1], v[i]);
        }
      } else if a < j {
        assert r[b] == v[b - 1];
      } else if a == j {
        assert r[b] == v[b - 1];
      } else {
        assert r[a] == v[a - 1] && r[b] == v[b - 1];
      }
    }
  }

  /** One outer iteration of insertion sort keeps the loop invariant, one position further on. */
  lemma InsertStepKeepsInvariant<T(!new)>(s: seq<T>, v: seq<T>, j: int, i: int, lt: (T, T) -> bool)
    requires StrictWeakOrder(lt)
    requires 0 <= j <= i < |v| && |v| == |s|
    requires multiset(v) == multiset(s) && v[i..] == s[i..]
    requires SortedBetween(v, 0, i, lt) && Stable(s, v, lt)
    requires forall k :: j <= k < i ==> lt(v[i], v[k])
    requires j == 0 || !lt(v[i], v[j - 1])
    ensures multiset(RotateRight(v, j, i)) == multiset(s)
    ensures RotateRight(v, j, i)[i + 1..] == s[i + 1..]
    ensures SortedBetween(RotateRight(v, j, i), 0, i + 1, lt)
    ensures Stable(s, RotateRight(v, j, i), lt)
  {
    InsertExtendsSortedPrefix(v, j, i, lt);
    RotatePastGreaterIsStable(v, j, i, lt);
    var rotated := RotateRight(v, j, i);
    assert rotated[i + 1..] == v[i + 1..];
    assert v[i + 1..] == s[i + 1..] by {
      assert v[i + 1..] == v[i..][1..] && s[i + 1..] == s[i..][1..];
    }
  }

  /**
  Sorts `s` under `lt`. The result is sorted, a permutation of `s`, and stable:
  the backward scan stops at the first element not strictly above `s[i]`, so
  equivalent elements never pass one another. Empty, single-element and
  already sorted slices come back unchanged.
  */
  method InsertSortBy<T(!new)>(s: seq<T>, lt: (T, T) -> bool) returns (r: seq<T>)
    requires StrictWeakOrder(lt)
    ensures |r| == |s| && multiset(r) == multiset(s)
    ensures Sorted(r, lt)
    ensures Stable(s, r, lt)
    ensures Sorted(s, lt) ==> r == s
  {
    r := s;
    if |s| == 0 {
      return;
    }
    var i := 1;
    while i < |s|
      invariant 1 <= i <= |s|
      invariant |r| == |s| && multiset(r) == multiset(s)
      invariant r[i..] == s[i..]
      invariant SortedBetween(r, 0, i, lt)
      invariant Stable(s, r, lt)
      invariant Sorted(s, lt) ==> r == s
    {
      var j := i;
      while j > 0 && lt(r[i], r[j - 1])
        invariant 0 <= j <= i
        invariant forall k :: j <= k < i ==> lt(r[i], r[k])
        invariant Sorted(s, lt) ==> j == i
      {
        j := j - 1;
      }
      if i != j {
        InsertStepKeepsInvariant(s, r, j, i, lt);
        r := RotateRight(r, j, i);
      } else {
        InsertExtendsSortedPrefix(r, j, i, lt);
      }
      i := i + 1;
    }
  }
}
