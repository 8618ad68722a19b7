/**
Introspective sort (`lg`, `median_3`, `partition`, `partition_pivot`,
`introsort_loop`, `introsort_impl`, `introsort_by`): quicksort with a
median-of-three pivot and an unguarded Hoare partition, recursing on the right
part and looping on the left one, falling back to heap sort once the depth
budget `2 * floor(log2 len)` is spent, and finished by one insertion-sort pass
over the whole slice. Pointers into the slice become indices; a sub-slice
`[ptr, last)` becomes a sequence of its own.
*/
module Intro {
  import opened Order
  import Heap
  import Slices
  import Insertion

  /** Ranges of at most this many elements are left for the final insertion sort. */
  const THRESHOLD: nat := 16

  /** Bits in the machine word `lg` works on (`size_of::<uint>() * 8`). */
  const WORD_BITS: nat := 64

  function Pow2(k: nat): (p: nat)
    ensures p >= 1
  {
    if k == 0 then 1 else 2 * Pow2(k - 1)
  }

  lemma {:induction false} Pow2Monotonic(a: nat, b: nat)
    requires a <= b
    ensures Pow2(a) <= Pow2(b)
    decreases b - a
  {
    if a < b {
      Pow2Monotonic(a, b - 1);
    }
  }

  /** `lg(n)`: the floor of the base-2 logarithm of a positive `n`. */
  function Lg(n: nat): (r: nat)
    requires n > 0
    ensures Pow2(r) <= n < Pow2(r + 1)
    decreases n
  {
    if n == 1 then 0 else 1 + Lg(n / 2)
  }

  /** Only one exponent brackets `n` between consecutive powers of two. */
  lemma FloorLog2Unique(n: nat, a: nat, b: nat)
    requires Pow2(a) <= n < Pow2(a + 1)
    requires Pow2(b) <= n < Pow2(b + 1)
    ensures a == b
  {
    if a < b {
      Pow2Monotonic(a + 1, b);
    } else if b < a {
      Pow2Monotonic(b + 1, a);
    }
  }

  /** The number of leading zero bits of `n` written in a `width`-bit word. */
  function LeadingZeros(n: nat, width: nat): (z: nat)
    requires n < Pow2(width)
    ensures z <= width
    ensures n < Pow2(width - z)
    ensures n > 0 ==> z < width && Pow2(width - 1 - z) <= n
    decreases width
  {
    if width == 0 then 0
    else if n >= Pow2(width - 1) then 0
    else 1 + LeadingZeros(n, width - 1)
  }

  /**
  The source computes `lg` as `WORD_BITS - 1 - n.leading_zeros()`; for every
  positive `n` that fits in a word this is the floor of `log2 n`.
  */
  lemma {:induction false} WordLgIsFloorLog2(n: nat, width: nat)
    requires 0 < n < Pow2(width)
    ensures LeadingZeros(n, width) < width
    ensures Lg(n) == width - 1 - LeadingZeros(n, width)
    decreases width
  {
    if n >= Pow2(width - 1) {
      FloorLog2Unique(n, Lg(n), width - 1);
    } else {
      WordLgIsFloorLog2(n, width - 1);
    }
  }

  /** `lg` on the source's word: `WORD_BITS - 1 - leading_zeros(n)` is the floor of `log2 n`. */
  lemma WordLg(n: nat)
    requires 0 < n < Pow2(WORD_BITS)
    ensures Lg(n) == WORD_BITS - 1 - LeadingZeros(n, WORD_BITS)
  {
    WordLgIsFloorLog2(n, WORD_BITS);
  }

  /** `m` is a median of `m`, `x`, `y`: neither strictly below both nor strictly above both. */
  ghost predicate IsMedian<T>(lt: (T, T) -> bool, m: T, x: T, y: T) {
    !(lt(m, x) && lt(m, y)) && !(lt(x, m) && lt(y, m))
  }

  /** `median_3`: the position, among `a`, `b`, `c`, of the median of the three elements. */
  function Median3<T(!new)>(v: seq<T>, a: int, b: int, c: int, lt: (T, T) -> bool): (m: int)
    requires StrictWeakOrder(lt)
    requires 0 <= a < |v| && 0 <= b < |v| && 0 <= c < |v|
    ensures m == a || m == b || m == c
    ensures m == a ==> IsMedian(lt, v[a], v[b], v[c])
    ensures m == b ==> IsMedian(lt, v[b], v[a], v[c])
    ensures m == c ==> IsMedian(lt, v[c], v[a], v[b])
  {
    if lt(v[a], v[b]) then
      if lt(v[b], v[c]) then b
      else if lt(v[a], v[c]) then c
      else a
    else if lt(v[a], v[c]) then a
    else if lt(v[b], v[c]) then c
    else b
  }

  /**
  Where the left scan of `partition` (`while lt(first, pivot) { first += 1 }`),
  started at `first`, stops: the first index at or after `first` whose element
  is not below the pivot. The scan has no bounds check, so a result of `|v|`
  means it found no such element inside the slice and reads past its end.
  */
  function LeftScanStop<T>(v: seq<T>, pivot: T, first: nat, lt: (T, T) -> bool): (k: nat)
    requires first <= |v|
    ensures first <= k <= |v|
    ensures forall m :: first <= m < k ==> lt(v[m], pivot)
    ensures k < |v| ==> !lt(v[k], pivot)
    decreases |v| - first
  {
    if first == |v| || !lt(v[first], pivot) then first
    else LeftScanStop(v, pivot, first + 1, lt)
  }

  /** The left scan stays inside the slice exactly when some element from `first` on is not below the pivot. */
  lemma LeftScanStaysInsideIffSentinel<T>(v: seq<T>, pivot: T, first: nat, lt: (T, T) -> bool)
    requires first <= |v|
    ensures LeftScanStop(v, pivot, first, lt) < |v| <==> exists k :: first <= k < |v| && !lt(v[k], pivot)
  {
    var stop := LeftScanStop(v, pivot, first, lt);
    if stop < |v| {
      assert !lt(v[stop], pivot);
    }
  }

  /**
  `partition(ptr + 1, ptr + len, ptr)`: an unguarded Hoare partition of
  `v[1..]` around the pivot `v[0]`. The left scan has no bounds check; it is
  stopped by an element not below the pivot, which the caller must supply.
  The right scan is stopped at the latest by the pivot itself, and stays
  inside `[1, len)` when some element of `v[1..]` is not above the pivot.
  `lowest` is the lowest index the right scan reaches.
  */
  method Partition<T(!new)>(v: seq<T>, lt: (T, T) -> bool) returns (r: seq<T>, cut: int, ghost lowest: int)
    requires StrictWeakOrder(lt)
    requires exists k :: 1 <= k < |v| && !lt(v[k], v[0])
    ensures |r| == |v| && multiset(r) == multiset(v)
    ensures 1 <= cut < |v|
    ensures r[0] == v[0]
    ensures forall k :: 0 <= k < cut ==> !lt(v[0], r[k])
    ensures forall k :: cut <= k < |r| ==> !lt(r[k], v[0])
    ensures 0 <= lowest < |v|
    ensures (exists k :: 1 <= k < |v| && !lt(v[0], v[k])) ==> 1 <= lowest
  {
    var pivot := v[0];
    assert Incomparable(lt, pivot, pivot);
    r := v;
    var first := 1;
    var last := |v|;
    ghost var sentinel :| 1 <= sentinel < |v| && !lt(v[sentinel], pivot);
    ghost var low := 0;
    if exists k :: 1 <= k < |v| && !lt(pivot, v[k]) {
      low :| 1 <= low < |v| && !lt(pivot, v[low]);
    }
    while true
      invariant 1 <= first <= last <= |v|
      invariant |r| == |v| && multiset(r) == multiset(v) && r[0] == pivot
      invariant forall k :: 1 <= k < first ==> !lt(pivot, r[k])
      invariant forall k :: last <= k < |r| ==> !lt(r[k], pivot)
      invariant first <= sentinel <= last && sentinel < |r| && !lt(r[sentinel], pivot)
      invariant first == 1 ==> r == v && last == |v|
      invariant first == 1 ==> low < last && !lt(pivot, r[low])
      invariant (exists k :: 1 <= k < |v| && !lt(pivot, v[k])) ==> 1 <= low
      decreases last
    {
      while lt(r[first], pivot)
        invariant first <= sentinel
        invariant forall k :: 1 <= k < first ==> !lt(pivot, r[k])
        decreases sentinel - first
      {
        first := first + 1;
      }
      ghost var stop := if first > 1 then first - 1 else low;
      last := last - 1;
      while lt(pivot, r[last])
        invariant 0 <= stop <= last && !lt(pivot, r[stop])
        invariant forall k :: last < k < |r| ==> !lt(r[k], pivot)
        decreases last
      {
        last := last - 1;
      }
      if !(first < last) {
        cut := first;
        lowest := last;
        return;
      }
      r := Slices.Swap(r, first, last);
      sentinel := last;
      first := first + 1;
    }
  }

  /**
  `partition_pivot`: the median of `v[1]`, `v[len/2]` and `v[len-1]` is swapped
  to the front and the rest is partitioned around it. The two other median
  candidates serve as the sentinels that keep both scans inside `[1, len)`.
  */
  method PartitionPivot<T(!new)>(v: seq<T>, lt: (T, T) -> bool) returns (r: seq<T>, cut: int, ghost lowest: int)
    requires StrictWeakOrder(lt)
    requires |v| >= 4
    ensures |r| == |v| && multiset(r) == multiset(v)
    ensures 1 <= cut < |v| && 1 <= lowest
    ensures r[0] == v[Median3(v, 1, |v| / 2, |v| - 1, lt)]
    ensures forall k :: 0 <= k < cut ==> !lt(r[0], r[k])
    ensures forall k :: cut <= k < |r| ==> !lt(r[k], r[0])
  {
    var a, b, c := 1, |v| / 2, |v| - 1;
    var m := Median3(v, a, b, c, lt);
    var w := Slices.Swap(v, 0, m);
    var x, y := if m == a then b else a, if m == c then b else c;
    assert x != y && x != m && y != m;
    assert IsMedian(lt, v[m], v[x], v[y]);
    assert w[x] == v[x] && w[y] == v[y];
    assert !lt(w[x], w[0]) || !lt(w[y], w[0]);
    assert !lt(w[0], w[x]) || !lt(w[0], w[y]);
    r, cut, lowest := Partition(w, lt);
  }

  /** Every element of `v[..m]` is not greater than any element of `v[m..]`. */
  ghost predicate SplitAt<T>(v: seq<T>, m: int, lt: (T, T) -> bool) {
    forall i, j :: 0 <= i < m <= j < |v| ==> !lt(v[j], v[i])
  }

  /** From index `m` on, any two elements at least `THRESHOLD` apart are in order. */
  ghost predicate NearlySortedFrom<T>(v: seq<T>, m: int, lt: (T, T) -> bool) {
    forall i, j :: 0 <= i < j < |v| && m <= i && j - i >= THRESHOLD ==> !lt(v[j], v[i])
  }

  /**
  What `introsort_loop` leaves behind: only elements closer than `THRESHOLD`
  can still be out of order, so the final insertion sort moves each element
  fewer than `THRESHOLD` places.
  */
  ghost predicate NearlySorted<T>(v: seq<T>, lt: (T, T) -> bool) {
    NearlySortedFrom(v, 0, lt)
  }

  /** After a partition step, `v[cut..]` is done: nearly sorted and above everything before it. */
  lemma PartitionStepKeepsOrder<T(!new)>(v: seq<T>, len: int, p: seq<T>, cut: int, right: seq<T>, lt: (T, T) -> bool)
    requires StrictWeakOrder(lt)
    requires 0 < len <= |v|
    requires SplitAt(v, len, lt) && NearlySortedFrom(v, len, lt)
    requires |p| == len && multiset(p) == multiset(v[..len])
    requires 1 <= cut < len
    requires forall k :: 0 <= k < cut ==> !lt(p[0], p[k])
    requires forall k :: cut <= k < len ==> !lt(p[k], p[0])
    requires |right| == len - cut && multiset(right) == multiset(p[cut..])
    requires NearlySorted(right, lt)
    ensures |p[..cut] + right + v[len..]| == |v|
    ensures multiset(p[..cut] + right + v[len..]) == multiset(v)
    ensures SplitAt(p[..cut] + right + v[len..], cut, lt)
    ensures NearlySortedFrom(p[..cut] + right + v[len..], cut, lt)
  {
    var w := p[..cut] + right + v[len..];
    assert p == p[..cut] + p[cut..];
    assert v == v[..len] + v[len..];
    assert multiset(w) == multiset(p[..cut]) + multiset(right) + multiset(v[len..]);
    Slices.PermutationMembers(p[cut..], right);
    Slices.PermutationMembers(v[..len], p);
    forall k | 0 <= k < |right| ensures !lt(right[k], p[0]) {
      var i :| 0 <= i < |p[cut..]| && p[cut..][i] == right[k];
    }
    forall i, j | 0 <= i < cut <= j < |w| ensures !lt(w[j], w[i]) {
      assert w[i] == p[i];
      if j < len {
        assert w[j] == right[j - cut];
        NotLessTransitive(lt, p[i], p[0], right[j - cut]);
      } else {
        assert w[j] == v[j];
        var k :| 0 <= k < len && v[..len][k] == p[i];
      }
    }
    forall i, j | cut <= i < j < |w| && j - i >= THRESHOLD ensures !lt(w[j], w[i]) {
      if j < len {
        assert w[i] == right[i - cut] && w[j] == right[j - cut];
      } else if i < len {
        assert w[i] == right[i - cut] && w[j] == v[j];
        var k :| 0 <= k < |p[cut..]| && p[cut..][k] == right[i - cut];
        var k2 :| 0 <= k2 < len && v[..len][k2] == p[cut + k];
      } else {
        assert w[i] == v[i] && w[j] == v[j];
      }
    }
  }

  /** Heap-sorting the undone front `v[..len]` completes the nearly sorted arrangement. */
  lemma HeapFallbackKeepsOrder<T(!new)>(v: seq<T>, len: int, h: seq<T>, lt: (T, T) -> bool)
    requires 0 <= len <= |v|
    requires SplitAt(v, len, lt) && NearlySortedFrom(v, len, lt)
    requires |h| == len && multiset(h) == multiset(v[..len]) && Sorted(h, lt)
    ensures |h + v[len..]| == |v| && multiset(h + v[len..]) == multiset(v)
    ensures NearlySorted(h + v[len..], lt)
  {
    var w := h + v[len..];
    assert v == v[..len] + v[len..];
    Slices.PermutationMembers(v[..len], h);
    forall i, j | 0 <= i < j < |w| && j - i >= THRESHOLD ensures !lt(w[j], w[i]) {
      if j < len {
        assert w[i] == h[i] && w[j] == h[j];
      } else if i < len {
        assert w[i] == h[i] && w[j] == v[j];
        var k :| 0 <= k < len && v[..len][k] == h[i];
      } else {
        assert w[i] == v[i] && w[j] == v[j];
      }
    }
  }

  /** Once the undone front is at most `THRESHOLD` long, the whole slice is nearly sorted. */
  lemma ShortFrontIsNearlySorted<T>(v: seq<T>, len: int, lt: (T, T) -> bool)
    requires 0 <= len <= THRESHOLD && len <= |v|
    requires SplitAt(v, len, lt) && NearlySortedFrom(v, len, lt)
    ensures NearlySorted(v, lt)
  {
  }

  /**
  `introsort_loop` on the slice `s`: while the front range `[0, len)` is longer
  than `THRESHOLD`, either heap-sort it once the depth budget is spent, or
  partition it, recurse on the right part `[cut, len)` and carry on with the
  left part `[0, cut)`. Short slices are untouched; with no budget a long slice
  is heap-sorted outright.
  */
  method IntrosortLoop<T(!new)>(s: seq<T>, depthLimit: nat, lt: (T, T) -> bool) returns (r: seq<T>)
    requires StrictWeakOrder(lt)
    ensures |r| == |s| && multiset(r) == multiset(s)
    ensures NearlySorted(r, lt)
    ensures |s| <= THRESHOLD ==> r == s
    ensures depthLimit == 0 && |s| > THRESHOLD ==> Sorted(r, lt)
    decreases |s|
  {
    var v := s;
    var len := |s|;
    var depth := depthLimit;
    while len > THRESHOLD
      invariant 0 <= len <= |s|
      invariant |v| == |s| && multiset(v) == multiset(s)
      invariant SplitAt(v, len, lt) && NearlySortedFrom(v, len, lt)
      invariant len == |s| ==> v == s
      invariant len < |s| ==> |s| > THRESHOLD
      invariant depthLimit == 0 ==> len == |s| && depth == 0
      decreases len
    {
      if depth == 0 {
        var h := Heap.HeapSortImpl(v[..len], lt);
        HeapFallbackKeepsOrder(v, len, h, lt);
        r := h + v[len..];
        return;
      }
      depth := depth - 1;
      var p: seq<T>, cut: int;
      ghost var lowest: int;
      p, cut, lowest := PartitionPivot(v[..len], lt);
      var right := IntrosortLoop(p[cut..], depth, lt);
      PartitionStepKeepsOrder(v, len, p, cut, right, lt);
      v := p[..cut] + right + v[len..];
      len := cut;
    }
    ShortFrontIsNearlySorted(v, len, lt);
    r := v;
  }

  /**
  `introsort_impl` / `introsort_by`: sorts `s` under `lt`. Empty slices are not
  touched; otherwise the loop runs with budget `2 * lg(len)` and one insertion
  sort over the whole slice finishes the job.
  */
  method IntrosortBy<T(!new)>(s: seq<T>, lt: (T, T) -> bool) returns (r: seq<T>)
    requires StrictWeakOrder(lt)
    ensures |r| == |s| && multiset(r) == multiset(s)
    ensures Sorted(r, lt)
    ensures |s| <= 1 ==> r == s
    ensures StrictTotalOrder(lt) && Sorted(s, lt) ==> r == s
  {
    r := s;
    if |s| > 0 {
      var v := IntrosortLoop(s, 2 * Lg(|s|), lt);
      r := Insertion.InsertSortBy(v, lt);
      if StrictTotalOrder(lt) && Sorted(s, lt) {
        SortedPermutationUnique(r, s, lt);
      }
    }
  }
}
