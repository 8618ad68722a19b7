/**
The crate's natural-order entry points `insertsort`, `heapsort` and
`introsort`, which sort with the element type's own `<`. Elements are modelled
as mathematical integers, whose `<` is a strict total order. The tests sort
random slices and check the result's windows; the fixed inputs below are
instances of those checks, pinned down to the exact result.
*/
module Sortrs {
  import opened Order
  import Insertion
  import Heap
  import Intro

  function Less(a: int, b: int): (lt: bool) {
    a < b
  }

  lemma LessIsStrictTotalOrder()
    ensures StrictTotalOrder(Less)
  {
  }

  /** `a <= b`: a non-strict comparator that `introsort_by` also accepts. */
  function LessOrEqual(a: int, b: int): (le: bool) {
    a <= b
  }

  /** Seventeen equal elements: a slice just long enough for `introsort_loop` to partition. */
  const EQUAL_SLICE: seq<int> := seq(17, _ => 0)

  /**
  With `|a, b| a <= b` on seventeen equal elements the comparator is no strict
  weak order, no element of `v[1..]` stops `partition`'s left scan, and the
  unguarded scan runs off the end of the slice. The median step leaves this
  slice as it is, so this is the slice `partition` receives.
  */
  lemma NonStrictComparatorOverrunsPartition()
    ensures !StrictWeakOrder(LessOrEqual)
    ensures forall k :: 1 <= k < |EQUAL_SLICE| ==> LessOrEqual(EQUAL_SLICE[k], EQUAL_SLICE[0])
    ensures Intro.LeftScanStop(EQUAL_SLICE, EQUAL_SLICE[0], 1, LessOrEqual) == |EQUAL_SLICE|
  {
    assert LessOrEqual(0, 0);
    Intro.LeftScanStaysInsideIffSentinel(EQUAL_SLICE, EQUAL_SLICE[0], 1, LessOrEqual);
  }

  /** The tests' check on the result: every adjacent window is nondecreasing. */
  ghost predicate Nondecreasing(s: seq<int>) {
    forall k :: 0 <= k < |s| - 1 ==> s[k] <= s[k + 1]
  }

  /** `insertsort`: `insertsort_by` with the natural `<`. */
  method InsertSort(v: seq<int>) returns (r: seq<int>)
    ensures multiset(r) == multiset(v)
    ensures Nondecreasing(r)
    ensures |v| <= 1 ==> r == v
  {
    LessIsStrictTotalOrder();
    r := Insertion.InsertSortBy(v, Less);
  }

  /** `heapsort`: `heapsort_by` with the natural `<`. */
  method HeapSort(v: seq<int>) returns (r: seq<int>)
    ensures multiset(r) == multiset(v)
    ensures Nondecreasing(r)
    ensures |v| <= 1 ==> r == v
  {
    LessIsStrictTotalOrder();
    r := Heap.HeapSortBy(v, Less);
    if |v| == 1 {
      SortedPermutationUnique(r, v, Less);
    }
  }

  /** `introsort`: `introsort_impl` with the natural `<`. */
  method Introsort(v: seq<int>) returns (r: seq<int>)
    ensures multiset(r) == multiset(v)
    ensures Nondecreasing(r)
    ensures |v| <= 1 ==> r == v
  {
    LessIsStrictTotalOrder();
    r := Intro.IntrosortBy(v, Less);
  }

  lemma ExampleMultisets()
    ensures multiset([5, 4, 1, 3, 2]) == multiset([1, 2, 3, 4, 5])
    ensures multiset([5, 4, 1, 3, 2]) == multiset([5, 4, 3, 2, 1])
  {
    InputMultiset();
    AscendingMultiset();
    DescendingMultiset();
  }

  lemma InputMultiset()
    ensures multiset([5, 4, 1, 3, 2]) == multiset{1, 2, 3, 4, 5}
  {
  }

  lemma AscendingMultiset()
    ensures multiset([1, 2, 3, 4, 5]) == multiset{1, 2, 3, 4, 5}
  {
  }

  lemma DescendingMultiset()
    ensures multiset([5, 4, 3, 2, 1]) == multiset{1, 2, 3, 4, 5}
  {
  }

  lemma ExampleAscendingSorted()
    ensures Sorted([1, 2, 3, 4, 5], Less)
  {
  }

  lemma ExampleDescendingSorted()
    ensures Sorted([5, 4, 3, 2, 1], Reversed(Less))
  {
    var s := [5, 4, 3, 2, 1];
    forall i, j | 0 <= i < j < |s| ensures !Reversed(Less)(s[j], s[i]) {
      assert Reversed(Less)(s[j], s[i]) == Less(s[i], s[j]);
    }
  }

  /** `introsort([5,4,1,3,2])` gives `[1,2,3,4,5]`. */
  method IntrosortAscendingExample() returns (r: seq<int>)
    ensures r == [1, 2, 3, 4, 5]
  {
    LessIsStrictTotalOrder();
    r := Intro.IntrosortBy([5, 4, 1, 3, 2], Less);
    ExampleMultisets();
    ExampleAscendingSorted();
    SortedPermutationUnique(r, [1, 2, 3, 4, 5], Less);
  }

  /** `introsort_by([5,4,1,3,2], |a, b| b < a)` gives `[5,4,3,2,1]`. */
  method IntrosortDescendingExample() returns (r: seq<int>)
    ensures r == [5, 4, 3, 2, 1]
  {
    LessIsStrictTotalOrder();
    ReversedIsStrictTotalOrder(Less);
    r := Intro.IntrosortBy([5, 4, 1, 3, 2], Reversed(Less));
    ExampleMultisets();
    ExampleDescendingSorted();
    SortedPermutationUnique(r, [5, 4, 3, 2, 1], Reversed(Less));
  }

  /** Heap-sorting an empty slice leaves it empty. */
  method HeapSortEmptyExample() returns (r: seq<int>)
    ensures r == []
  {
    r := HeapSort([]);
  }

  /** Insertion-sorting `[0xDEADBEEF]` leaves it unchanged. */
  method InsertSortSingleExample() returns (r: seq<int>)
    ensures r == [0xDEADBEEF]
  {
    r := InsertSort([0xDEADBEEF]);
  }

  /**
  Sorting with the reversed comparator leaves the slice nonincreasing under the
  original one: the property the tests check after `introsort_by(v, |a, b| b.lt(a))`.
  */
  method IntrosortByReversedComparator<T(!new)>(v: seq<T>, lt: (T, T) -> bool) returns (r: seq<T>)
    requires StrictWeakOrder(lt)
    ensures multiset(r) == multiset(v)
    ensures forall i, j :: 0 <= i < j < |r| ==> !lt(r[i], r[j])
  {
    ReversedIsStrictWeakOrder(lt);
    r := Intro.IntrosortBy(v, Reversed(lt));
    SortedReversedIsNonincreasing(r, lt);
  }
}
