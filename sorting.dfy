/**
 * The in-place sort of the filtered releases (query/query.go:112-125).
 * Go's `sort.Slice` algorithm is not modelled; this insertion sort uses the
 * same comparator and is proved to keep what the run relies on.
 */
module Sorting {
  import opened Types
  import opened Versions

  /** Exchanges two neighbouring releases. */
  method Swap(a: array<Release>, i: nat)
    requires i + 1 < a.Length
    modifies a
    ensures a[i] == old(a[i + 1]) && a[i + 1] == old(a[i])
    ensures forall k :: 0 <= k < a.Length && k != i && k != i + 1 ==> a[k] == old(a[k])
    ensures multiset(a[..]) == old(multiset(a[..]))
  {
    a[i], a[i + 1] := a[i + 1], a[i];
  }

  /**
   * Sorts `a` so that greater versions come first. Always a permutation; when
   * the comparator is a strict weak order on the releases in `a` and every tag
   * parses, the result has non-increasing versions. With unparseable tags
   * present the comparator says "not before" in both directions, so no order
   * is promised.
   */
  method SortReleases<V(!new)>(a: array<Release>, order: VersionOrder<V>)
    modifies a
    ensures multiset(a[..]) == old(multiset(a[..]))
    ensures order.LawfulOn(old(a[..])) && order.AllParse(old(a[..])) ==> order.SortedDescending(a[..])
  {
    ghost var s0 := a[..];
    ghost var ordered := order.LawfulOn(s0) && order.AllParse(s0);
    var i := 0;
    while i < a.Length
      invariant 0 <= i <= a.Length
      invariant multiset(a[..]) == old(multiset(a[..]))
      invariant ordered ==> order.AllParse(a[..])
      invariant ordered ==> forall k, l :: 0 <= k < l < i ==> !order.Less(a[l], a[k])
    {
      var j := i;
      while j > 0 && order.Less(a[j], a[j - 1])
        invariant 0 <= j <= i
        invariant multiset(a[..]) == old(multiset(a[..]))
        invariant ordered ==> order.AllParse(a[..])
        invariant ordered ==> forall k, l :: 0 <= k < l <= i && k != j && l != j ==> !order.Less(a[l], a[k])
        invariant ordered ==> forall l :: j < l <= i ==> order.Less(a[j], a[l])
      {
        Swap(a, j - 1);
        j := j - 1;
      }
      if ordered {
        forall k, l | 0 <= k < l <= i ensures !order.Less(a[l], a[k]) {
          assert a[k] in a[..] && a[l] in a[..] && a[j] in a[..];
          InOriginal(s0, a[..], a[j]);
          InOriginal(s0, a[..], a[k]);
          InOriginal(s0, a[..], a[l]);
          if l == j && k < j - 1 {
            assert a[j - 1] in a[..];
            InOriginal(s0, a[..], a[j - 1]);
            LessIsStrictWeakOrder(order, s0, a[j], a[j - 1], a[k]);
          } else if k == j {
            LessIsStrictWeakOrder(order, s0, a[j], a[l], a[l]);
          }
        }
      }
      i := i + 1;
    }
  }

  /** A rearrangement holds only elements of the original. */
  lemma InOriginal<T>(s0: seq<T>, s: seq<T>, x: T)
    requires multiset(s) == multiset(s0)
    requires x in s
    ensures x in s0
  {
    assert x in multiset(s);
  }
}
