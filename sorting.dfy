/**
 * The in-place ascending sort that `sort.Slice` performs with a `less`
 * comparing one integer key. Go's sort is not stable, so the contract only
 * promises a sorted permutation; the order of equal keys is left open.
 */
module Sorting {

  predicate SortedBy<T>(s: seq<T>, key: T -> int) {
    forall p, q :: 0 <= p < q < |s| ==> key(s[p]) <= key(s[q])
  }

  /** Position of a smallest key in `a[lo..]`. */
  method MinIndex<T>(a: array<T>, key: T -> int, lo: nat) returns (m: nat)
    requires lo < a.Length
    ensures lo <= m < a.Length
    ensures forall q :: lo <= q < a.Length ==> key(a[m]) <= key(a[q])
  {
    m := lo;
    var j := lo + 1;
    while j < a.Length
      invariant lo <= m < a.Length && lo < j <= a.Length
      invariant forall q :: lo <= q < j ==> key(a[m]) <= key(a[q])
    {
      if key(a[j]) < key(a[m]) {
        m := j;
      }
      j := j + 1;
    }
  }

  method Swap<T>(a: array<T>, i: nat, j: nat)
    requires i < a.Length && j < a.Length
    modifies a
    ensures a[i] == old(a[j]) && a[j] == old(a[i])
    ensures forall k :: 0 <= k < a.Length && k != i && k != j ==> a[k] == old(a[k])
    ensures multiset(a[..]) == multiset(old(a[..]))
  {
    a[i], a[j] := a[j], a[i];
  }

  method SortByKey<T>(a: array<T>, key: T -> int)
    modifies a
    ensures SortedBy(a[..], key)
    ensures multiset(a[..]) == multiset(old(a[..]))
  {
    var i := 0;
    while i < a.Length
      invariant 0 <= i <= a.Length
      invariant forall p, q :: 0 <= p < q < i ==> key(a[p]) <= key(a[q])
      invariant forall p, q :: 0 <= p < i <= q < a.Length ==> key(a[p]) <= key(a[q])
      invariant multiset(a[..]) == multiset(old(a[..]))
    {
      var m := MinIndex(a, key, i);
      Swap(a, i, m);
      i := i + 1;
    }
  }
}
