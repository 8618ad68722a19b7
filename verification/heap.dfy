/**
Heap sort (`heapify`, `shift_down`, `heapsort_impl`, `heapsort_by`) over a
0-based binary max-heap: the children of node `r` are `2r+1` and `2r+2`, and
`shift_down`'s `end` is the inclusive index of the last heap element.
*/
module Heap {
  import opened Order
  import Slices

  function Parent(c: nat): (p: nat)
    requires c > 0
  {
    (c - 1) / 2
  }

  /**
  Rust's `x / 2` on signed integers, which rounds toward zero: `(size - 2) / 2`
  is 0, not -1, for a one-element slice.
  */
  function HalfTowardZero(a: int): (q: int)
    ensures a >= 0 ==> 0 <= 2 * q <= a <= 2 * q + 1
    ensures a < 0 ==> 2 * q - 1 <= a <= 2 * q <= 0
  {
    if a >= 0 then a / 2 else -((-a) / 2)
  }

  /** `k` lies in the subtree rooted at `r`. */
  predicate InSubtree(r: nat, k: nat)
    decreases k
  {
    k == r || (k > r && InSubtree(r, Parent(k)))
  }

  lemma {:induction false} SubtreeOfRootIsEverything(k: nat)
    ensures InSubtree(0, k)
    decreases k
  {
    if k > 0 {
      SubtreeOfRootIsEverything(Parent(k));
    }
  }

  /**
  Every parent inside the subtree of `start`, other than `skip`, is not less
  than each of its children up to the inclusive index `end`.
  */
  ghost predicate SubHeapExcept<T>(v: seq<T>, start: nat, end: int, skip: int, lt: (T, T) -> bool)
    requires end < |v|
  {
    forall c: nat :: 0 < c <= end && InSubtree(start, Parent(c)) && Parent(c) != skip ==>
      !lt(v[Parent(c)], v[c])
  }

  /** The subtree of `start`, cut off after index `end`, is a max-heap. */
  ghost predicate SubHeap<T>(v: seq<T>, start: nat, end: int, lt: (T, T) -> bool)
    requires end < |v|
  {
    SubHeapExcept(v, start, end, -1, lt)
  }

  /** `v[0..=end]` is a max-heap. */
  ghost predicate IsHeap<T>(v: seq<T>, end: int, lt: (T, T) -> bool)
    requires end < |v|
  {
    forall c: nat :: 0 < c <= end ==> !lt(v[Parent(c)], v[c])
  }

  lemma HeapIsSubHeapOfRoot<T>(v: seq<T>, end: int, lt: (T, T) -> bool)
    requires end < |v|
    ensures IsHeap(v, end, lt) <==> SubHeap(v, 0, end, lt)
  {
    forall c: nat | 0 < c <= end ensures InSubtree(0, Parent(c)) {
      SubtreeOfRootIsEverything(Parent(c));
    }
  }

  /** The root of a heap is not less than any element of the heap. */
  lemma {:induction false} RootIsMaximum<T(!new)>(v: seq<T>, end: int, k: nat, lt: (T, T) -> bool)
    requires StrictWeakOrder(lt)
    requires end < |v| && k <= end
    requires IsHeap(v, end, lt)
    ensures !lt(v[0], v[k])
    decreases k
  {
    if k == 0 {
      assert Incomparable(lt, v[0], v[0]);
    } else {
      RootIsMaximum(v, end, Parent(k), lt);
      NotLessTransitive(lt, v[k], v[Parent(k)], v[0]);
    }
  }

  /** Positions outside `[0, end]` and outside the subtree of `start` hold their old values. */
  ghost predicate FramedBy<T>(v: seq<T>, r: seq<T>, start: nat, end: int)
    requires |r| == |v|
  {
    forall k: nat :: k < |v| && (end < k || !InSubtree(start, k)) ==> r[k] == v[k]
  }

  /**
  One sift-down step: the root of the subtree swaps with its larger child. The
  heap order is then broken only at that child, and the child's parent is not
  less than the child's own children.
  */
  lemma SiftStep<T(!new)>(v0: seq<T>, v: seq<T>, start: nat, end: int, root: nat, swap: nat, lt: (T, T) -> bool)
    requires StrictWeakOrder(lt)
    requires end < |v| && |v0| == |v| && InSubtree(start, root)
    requires FramedBy(v0, v, start, end)
    requires swap == 2 * root + 1 || swap == 2 * root + 2
    requires swap <= end
    requires !lt(v[swap], v[root])
    requires 2 * root + 1 <= end ==> !lt(v[swap], v[2 * root + 1])
    requires 2 * root + 2 <= end ==> !lt(v[swap], v[2 * root + 2])
    requires SubHeapExcept(v, start, end, root, lt)
    requires root != start ==> forall c: nat :: 0 < c <= end && Parent(c) == root ==> !lt(v[Parent(root)], v[c])
    ensures InSubtree(start, swap)
    ensures FramedBy(v0, Slices.Swap(v, root, swap), start, end)
    ensures SubHeapExcept(Slices.Swap(v, root, swap), start, end, swap, lt)
    ensures forall c: nat :: 0 < c <= end && Parent(c) == swap ==> !lt(Slices.Swap(v, root, swap)[root], Slices.Swap(v, root, swap)[c])
  {
    var w := Slices.Swap(v, root, swap);
    assert Parent(swap) == root;
    forall c: nat | 0 < c <= end && InSubtree(start, Parent(c)) && Parent(c) != swap
      ensures !lt(w[Parent(c)], w[c])
    {
      var p := Parent(c);
      if p == root {
        if c != swap {
          assert w[c] == v[c];
        }
      } else if c == root {
        assert w[p] == v[p];
      } else {
        assert c != swap;
        assert w[p] == v[p] && w[c] == v[c];
      }
    }
    forall c: nat | 0 < c <= end && Parent(c) == swap ensures !lt(w[root], w[c]) {
      assert c != root && c != swap;
      assert InSubtree(start, swap);
    }
  }

  /**
  Sifts `v[start]` down until the subtree rooted at `start` (within `[start, end]`)
  is a max-heap, given that the subtrees below `start` already are. Only positions
  in that subtree change.
  */
  method ShiftDown<T(!new)>(v: seq<T>, start: nat, end: int, lt: (T, T) -> bool) returns (r: seq<T>)
    requires StrictWeakOrder(lt)
    requires end < |v|
    requires SubHeapExcept(v, start, end, start, lt)
    ensures |r| == |v| && multiset(r) == multiset(v)
    ensures SubHeap(r, start, end, lt)
    ensures FramedBy(v, r, start, end)
  {
    r := v;
    var root := start;
    while 2 * root < end
      invariant InSubtree(start, root)
      invariant |r| == |v| && multiset(r) == multiset(v)
      invariant FramedBy(v, r, start, end)
      invariant SubHeapExcept(r, start, end, root, lt)
      invariant root != start ==> root <= end
      invariant root != start ==>
        forall c: nat :: 0 < c <= end && Parent(c) == root ==> !lt(r[Parent(root)], r[c])
      decreases end - root
    {
      var left := 2 * root + 1;
      var swap := root;
      if lt(r[swap], r[left]) {
        swap := left;
      }
      var right := left + 1;
      if right <= end && lt(r[swap], r[right]) {
        swap := right;
      }
      if swap == root {
        assert SubHeap(r, start, end, lt);
        return;
      }
      SiftStep(v, r, start, end, root, swap, lt);
      r := Slices.Swap(r, root, swap);
      root := swap;
    }
  }

  /** Builds a max-heap over the whole slice by sifting down every parent, last first. */
  method Heapify<T(!new)>(v: seq<T>, lt: (T, T) -> bool) returns (r: seq<T>)
    requires StrictWeakOrder(lt)
    ensures |r| == |v| && multiset(r) == multiset(v)
    ensures IsHeap(r, |r| - 1, lt)
  {
    var size := |v|;
    var start := HalfTowardZero(size - 2);
    var end := size - 1;
    r := v;
    while start >= 0
      invariant -1 <= start <= HalfTowardZero(size - 2)
      invariant |r| == |v| && multiset(r) == multiset(v)
      invariant forall c: nat :: 0 < c <= end && Parent(c) > start ==> !lt(r[Parent(c)], r[c])
    {
      var before := r;
      r := ShiftDown(r, start, end, lt);
      forall c: nat | 0 < c <= end && Parent(c) >= start ensures !lt(r[Parent(c)], r[c]) {
        if !InSubtree(start, Parent(c)) {
          assert !InSubtree(start, c);
          assert r[Parent(c)] == before[Parent(c)] && r[c] == before[c];
        }
      }
      start := start - 1;
    }
  }

  /**
  Heap sort proper: build the heap, then repeatedly swap the root to the end of
  the unsorted part and restore the heap on what is left.
  */
  method HeapSortImpl<T(!new)>(v: seq<T>, lt: (T, T) -> bool) returns (r: seq<T>)
    requires StrictWeakOrder(lt)
    ensures |r| == |v| && multiset(r) == multiset(v)
    ensures Sorted(r, lt)
    ensures StrictTotalOrder(lt) && Sorted(v, lt) ==> r == v
  {
    r := Heapify(v, lt);
    var size := |v|;
    var end := size - 1;
    while end > 0
      invariant -1 <= end < size
      invariant |r| == size && multiset(r) == multiset(v)
      invariant IsHeap(r, end, lt)
      invariant SortedBetween(r, end + 1, size, lt)
      invariant forall i, j :: 0 <= i <= end < j < size ==> !lt(r[j], r[i])
    {
      var w := Slices.Swap(r, end, 0);
      var r2 := ShiftDown(w, 0, end - 1, lt);
      PopMaximumKeepsOrder(r, w, r2, end, lt);
      HeapIsSubHeapOfRoot(r2, end - 1, lt);
      r := r2;
      end := end - 1;
    }
    if StrictTotalOrder(lt) && Sorted(v, lt) {
      SortedPermutationUnique(r, v, lt);
    }
  }

  /**
  After the root of the heap `r[0..=end]` is swapped to position `end` and the
  rest of the prefix is rearranged, the sorted suffix has grown by one and is
  still not less than anything before it.
  */
  lemma PopMaximumKeepsOrder<T(!new)>(r: seq<T>, w: seq<T>, r2: seq<T>, end: int, lt: (T, T) -> bool)
    requires StrictWeakOrder(lt)
    requires 0 < end < |r|
    requires IsHeap(r, end, lt)
    requires SortedBetween(r, end + 1, |r|, lt)
    requires forall i, j :: 0 <= i <= end < j < |r| ==> !lt(r[j], r[i])
    requires w == Slices.Swap(r, end, 0)
    requires |r2| == |w| && multiset(r2) == multiset(w)
    requires forall k :: end <= k < |w| ==> r2[k] == w[k]
    ensures SortedBetween(r2, end, |r|, lt)
    ensures forall i, j :: 0 <= i <= end - 1 < j < |r| ==> !lt(r2[j], r2[i])
  {
    forall k: nat | k <= end ensures !lt(r[0], r[k]) {
      RootIsMaximum(r, end, k, lt);
    }
    Slices.PrefixPermutation(w, r2, end);
    Slices.PermutationMembers(w[..end], r2[..end]);
    forall i, j | 0 <= i <= end - 1 < j < |r| ensures !lt(r2[j], r2[i]) {
      assert r2[i] == r2[..end][i];
      var k :| 0 <= k < end && w[..end][k] == r2[..end][i];
      assert w[k] == r[k] || w[k] == r[end];
    }
  }

  /** `heapsort_by`: an empty slice is left alone, anything else is heap-sorted. */
  method HeapSortBy<T(!new)>(v: seq<T>, lt: (T, T) -> bool) returns (r: seq<T>)
    requires StrictWeakOrder(lt)
    ensures |r| == |v| && multiset(r) == multiset(v)
    ensures Sorted(r, lt)
    ensures |v| == 0 ==> r == v
  {
    r := v;
    if |v| > 0 {
      r := HeapSortImpl(v, lt);
    }
  }
}
