/** `PackageList`, the slice of search results that `sort.Sort` rearranges
    in place through its `Len`, `Less` and `Swap` methods. The slice is an
    array here. */
module PackageList {
  import opened Packages
  import Ordering

  /** `PackageList.Len`. */
  function Len(p: array<Package>): (n: nat)
    ensures n == p.Length
  {
    p.Length
  }

  /** `PackageList.Less(i, j)`: the record at `i` sorts before the one at `j`. */
  predicate Less(p: array<Package>, i: int, j: int)
    requires 0 <= i < p.Length && 0 <= j < p.Length
    reads p
  {
    Ordering.Less(p[i], p[j])
  }

  /** `PackageList.Swap(i, j)`: exchanges two records and nothing else. */
  method Swap(p: array<Package>, i: int, j: int)
    requires 0 <= i < p.Length && 0 <= j < p.Length
    modifies p
    ensures p[..] == old(p[..])[i := old(p[j])][j := old(p[i])]
    ensures multiset(p[..]) == old(multiset(p[..]))
  {
    p[i], p[j] := p[j], p[i];
  }

  /** `sort.Sort(PackageList(results))`. The standard library's algorithm is
      not part of this model; this insertion sort uses only `Len`, `Less` and
      `Swap`, as `sort.Sort` does, and promises what `sort.Sort` promises: the
      array ends up ordered by `Less` and holds the same records. Like
      `sort.Sort` it is not claimed to be stable. */
  method Sort(p: array<Package>)
    modifies p
    ensures Ordering.Sorted(p[..])
    ensures multiset(p[..]) == old(multiset(p[..]))
  {
    var n := Len(p);
    for i := 0 to n
      invariant Ordering.AdjacentSorted(p[..i])
      invariant multiset(p[..]) == old(multiset(p[..]))
    {
      Insert(p, i);
    }
    assert p[..] == p[..n];
    Ordering.AdjacentSortedIsSorted(p[..]);
  }

  /** Moves the record at `i` down past every record it is `Less` than,
      extending the ordered prefix by one. */
  method Insert(p: array<Package>, i: int)
    requires 0 <= i < p.Length
    requires Ordering.AdjacentSorted(p[..i])
    modifies p
    ensures Ordering.AdjacentSorted(p[..i + 1])
    ensures multiset(p[..]) == old(multiset(p[..]))
    ensures p[i + 1..] == old(p[i + 1..])
  {
    var j := i;
    while 0 < j && Less(p, j, j - 1)
      invariant 0 <= j <= i
      invariant forall k :: 0 < k <= i && k != j ==> !Ordering.Less(p[k], p[k - 1])
      invariant 0 < j < i ==> !Ordering.Less(p[j + 1], p[j - 1])
      invariant multiset(p[..]) == old(multiset(p[..]))
      invariant p[i + 1..] == old(p[i + 1..])
    {
      Ordering.LessAsymmetric(p[j], p[j - 1]);
      ghost var before := p[..];
      Swap(p, j - 1, j);
      assert p[i + 1..] == before[i + 1..];
      j := j - 1;
    }
  }

  /** Two permutations of each other that agree from `n` on are
      permutations of each other up to `n`: with `Insert`'s contract, the
      ordered prefix it leaves is a rearrangement of the prefix it was
      given. */
  lemma PrefixPermutation(a: seq<Package>, b: seq<Package>, n: nat)
    requires n <= |a| == |b|
    requires multiset(a) == multiset(b) && a[n..] == b[n..]
    ensures multiset(a[..n]) == multiset(b[..n])
  {
    assert a == a[..n] + a[n..];
    assert b == b[..n] + b[n..];
    assert multiset(a) == multiset(a[..n]) + multiset(a[n..]);
    assert multiset(b) == multiset(b[..n]) + multiset(b[n..]);
    assert multiset(a[..n]) == multiset(a) - multiset(a[n..]);
    assert multiset(b[..n]) == multiset(b) - multiset(b[n..]);
  }
}
