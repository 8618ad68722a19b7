/**
Index-level facts about slices modelled as sequences: the element swap that
`ptr::swap` performs, and how rearranging part of a slice keeps it a
permutation.
*/
module Slices {

  /** `ptr::swap` on two positions of the slice. */
  function Swap<T>(v: seq<T>, i: int, j: int): (r: seq<T>)
    requires 0 <= i < |v| && 0 <= j < |v|
    ensures |r| == |v| && multiset(r) == multiset(v)
    ensures r[i] == v[j] && r[j] == v[i]
    ensures forall k :: 0 <= k < |v| && k != i && k != j ==> r[k] == v[k]
  {
    v[i := v[j]][j := v[i]]
  }

  /** Dropping the same first element from two permutations of each other leaves permutations. */
  lemma TailPermutation<T>(a: seq<T>, b: seq<T>)
    requires |a| > 0 && |b| > 0 && a[0] == b[0]
    requires multiset(a) == multiset(b)
    ensures multiset(a[1..]) == multiset(b[1..])
  {
    assert a == [a[0]] + a[1..] && b == [b[0]] + b[1..];
    assert multiset(a[1..]) == multiset(a) - multiset{a[0]};
  }

  /** Every element of `b` occurs in `a` when the two hold the same multiset. */
  lemma PermutationMembers<T>(a: seq<T>, b: seq<T>)
    requires multiset(a) == multiset(b)
    ensures forall k :: 0 <= k < |b| ==> exists i :: 0 <= i < |a| && a[i] == b[k]
  {
    forall k | 0 <= k < |b| ensures exists i :: 0 <= i < |a| && a[i] == b[k] {
      assert b[k] in multiset(b);
      assert b[k] in multiset(a);
      assert b[k] in a;
      var i :| 0 <= i < |a| && a[i] == b[k];
    }
  }

  /** Rearranging only a prefix keeps the prefix a permutation of itself. */
  lemma PrefixPermutation<T>(a: seq<T>, b: seq<T>, n: int)
    requires |a| == |b| && 0 <= n <= |a|
    requires multiset(a) == multiset(b)
    requires forall k :: n <= k < |a| ==> a[k] == b[k]
    ensures multiset(a[..n]) == multiset(b[..n])
  {
    assert a == a[..n] + a[n..] && b == b[..n] + b[n..];
    assert forall i :: 0 <= i < |a| - n ==> a[n..][i] == b[n..][i];
    assert a[n..] == b[n..];
    assert multiset(a) == multiset(a[..n]) + multiset(a[n..]);
    assert multiset(b) == multiset(b[..n]) + multiset(b[n..]);
    assert multiset(a[..n]) == multiset(a) - multiset(a[n..]);
    assert multiset(b[..n]) == multiset(b) - multiset(b[n..]);
  }
}
