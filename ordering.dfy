/** The order in which search results are listed: by category, then by
    name, the same order the AUR web site uses. */
module Ordering {
  import opened GoStrings
  import opened Packages

  /** `PackageList.Less` on the two records it compares: true when `x`
      has the smaller category, or the same category and the smaller name. */
  predicate Less(x: Package, y: Package)
  {
    if x.CategoryID < y.CategoryID then
      true
    else if x.CategoryID == y.CategoryID && LexLess(x.Name, y.Name) then
      true
    else
      false
  }

  /** How `Less` reads in terms of the key: the category decides alone
      when it differs, and only the name decides when it is equal. */
  lemma LessByKey(x: Package, y: Package)
    ensures x.CategoryID < y.CategoryID ==> Less(x, y)
    ensures x.CategoryID > y.CategoryID ==> !Less(x, y)
    ensures x.CategoryID == y.CategoryID ==> (Less(x, y) <==> LexLess(x.Name, y.Name))
  {
  }

  lemma LessIrreflexive(x: Package)
    ensures !Less(x, x)
  {
    LexIrreflexive(x.Name);
  }

  lemma LessAsymmetric(x: Package, y: Package)
    ensures Less(x, y) ==> !Less(y, x)
  {
    LexAsymmetric(x.Name, y.Name);
  }

  lemma LessTransitive(x: Package, y: Package, z: Package)
    ensures Less(x, y) && Less(y, z) ==> Less(x, z)
  {
    LexTransitive(x.Name, y.Name, z.Name);
  }

  /** Two records are incomparable exactly when they share category and
      name, so `Less` is a strict weak order whose ties are equal keys. */
  lemma IncomparableIffSameKey(x: Package, y: Package)
    ensures !Less(x, y) && !Less(y, x) <==> x.CategoryID == y.CategoryID && x.Name == y.Name
  {
    LexTotal(x.Name, y.Name);
    LexIrreflexive(x.Name);
  }

  /** "Not after" is transitive; this is what makes adjacent order imply
      order between any two positions. */
  lemma NotLessTransitive(x: Package, y: Package, z: Package)
    ensures !Less(y, x) && !Less(z, y) ==> !Less(z, x)
  {
    LexTotal(x.Name, y.Name);
    LexTotal(y.Name, z.Name);
    LexTransitive(z.Name, y.Name, x.Name);
    LexTransitive(z.Name, x.Name, y.Name);
    LexTransitive(y.Name, z.Name, x.Name);
  }

  /** Non-decreasing in the key: no record is `Less` than one before it. */
  ghost predicate Sorted(s: seq<Package>) {
    forall i, j :: 0 <= i < j < |s| ==> !Less(s[j], s[i])
  }

  /** Each record is not `Less` than its predecessor. */
  ghost predicate AdjacentSorted(s: seq<Package>) {
    forall k :: 0 < k < |s| ==> !Less(s[k], s[k - 1])
  }

  lemma {:induction false} AdjacentSortedIsSorted(s: seq<Package>)
    requires AdjacentSorted(s)
    ensures Sorted(s)
    decreases |s|
  {
    if |s| > 1 {
      var t := s[..|s| - 1];
      assert AdjacentSorted(t);
      AdjacentSortedIsSorted(t);
      forall i | 0 <= i < |s| - 1
        ensures !Less(s[|s| - 1], s[i])
      {
        if i < |s| - 2 {
          assert !Less(s[|s| - 2], s[i]);
        }
        NotLessTransitive(s[i], s[|s| - 2], s[|s| - 1]);
      }
    }
  }

  /** The first elements of two sorted permutations agree when names are
      unique: each is not after the other, so they share a key, hence a name. */
  lemma SortedPermutationHeads(s: seq<Package>, t: seq<Package>)
    requires Sorted(s) && Sorted(t)
    requires multiset(s) == multiset(t)
    requires UniqueNames(s)
    requires |s| > 0
    ensures |t| > 0 && s[0] == t[0]
  {
    assert s[0] in multiset(t);
    var k :| 0 <= k < |t| && t[k] == s[0];
    assert t[0] in multiset(s);
    var m :| 0 <= m < |s| && s[m] == t[0];
    LessIrreflexive(s[0]);
    LessIrreflexive(t[0]);
    assert !Less(s[m], s[0]);
    assert !Less(t[k], t[0]);
    IncomparableIffSameKey(s[0], t[0]);
  }

  /** With unique names, the sorted arrangement of a collection is unique:
      any two sorted permutations of it are the same sequence. Sorting is
      therefore deterministic on a reply, although `sort.Sort` is not stable,
      and sorting an already sorted reply leaves it as it is. */
  lemma {:induction false} SortedPermutationUnique(s: seq<Package>, t: seq<Package>)
    requires Sorted(s) && Sorted(t)
    requires multiset(s) == multiset(t)
    requires UniqueNames(s)
    ensures s == t
    decreases |s|
  {
    if |s| == 0 {
      assert |t| == |multiset(t)| == 0;
    } else {
      SortedPermutationHeads(s, t);
      assert s == [s[0]] + s[1..] && t == [t[0]] + t[1..];
      assert multiset(s) == multiset{s[0]} + multiset(s[1..]);
      assert multiset(t) == multiset{t[0]} + multiset(t[1..]);
      assert multiset(s[1..]) == multiset(s) - multiset{s[0]};
      assert multiset(t[1..]) == multiset(t) - multiset{t[0]};
      SortedPermutationUnique(s[1..], t[1..]);
    }
  }
}
