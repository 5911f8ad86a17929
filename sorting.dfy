/**
  `sortBy`: the in-place reordering of the current list, by rating from the
  highest down or by title in ascending order.
 */
module Sorting {
  import opened Records
  import opened Text

  /** The two comparators `sortBy` knows. */
  datatype SortKey = ByTitle | ByRating

  /** `x` may stand before `y`: the comparator does not put `y` first. */
  predicate InOrder(key: SortKey, x: Manga, y: Manga)
  {
    match key
    case ByTitle => LexLe(x.title, y.title)
    case ByRating => x.rating >= y.rating
  }

  predicate SortedBy(key: SortKey, s: seq<Manga>)
  {
    forall i, j :: 0 <= i < j < |s| ==> InOrder(key, s[i], s[j])
  }

  /** Both comparators are total: of two items, one may stand first. */
  lemma InOrderTotal(key: SortKey, x: Manga, y: Manga)
    ensures InOrder(key, x, y) || InOrder(key, y, x)
  {
    if key == ByTitle {
      LexLeTotal(x.title, y.title);
    }
  }

  lemma InOrderTransitive(key: SortKey, x: Manga, y: Manga, z: Manga)
    requires InOrder(key, x, y) && InOrder(key, y, z)
    ensures InOrder(key, x, z)
  {
    if key == ByTitle {
      LexLeTransitive(x.title, y.title, z.title);
    }
  }

  /** `a[..n]` is ordered by `key`. */
  ghost predicate PrefixSorted(key: SortKey, a: array<Manga>, n: int)
    reads a
    requires 0 <= n <= a.Length
  {
    forall k, l :: 0 <= k < l < n ==> InOrder(key, a[k], a[l])
  }

  /** Exchanges `a[p - 1]` and `a[p]`, leaving every other element in place. */
  method SwapDown(a: array<Manga>, p: int)
    requires 0 < p < a.Length
    modifies a
    ensures a[p - 1] == old(a[p]) && a[p] == old(a[p - 1])
    ensures forall k :: 0 <= k < a.Length && k != p - 1 && k != p ==> a[k] == old(a[k])
    ensures multiset(a[..]) == old(multiset(a[..]))
  {
    a[p - 1], a[p] := a[p], a[p - 1];
  }

  /**
    One insertion step: moves `a[i]` left past every element it must stand
    before, so that `a[..i + 1]` is ordered.
   */
  method Insert(a: array<Manga>, i: int, key: SortKey)
    requires 0 <= i < a.Length && PrefixSorted(key, a, i)
    modifies a
    ensures PrefixSorted(key, a, i + 1)
    ensures multiset(a[..]) == old(multiset(a[..]))
    ensures forall k :: i < k < a.Length ==> a[k] == old(a[k])
  {
    var j := i;
    while 0 < j && !InOrder(key, a[j - 1], a[j])
      invariant 0 <= j <= i
      invariant forall k, l :: 0 <= k < l <= i && k != j && l != j ==> InOrder(key, a[k], a[l])
      invariant forall l :: j < l <= i ==> InOrder(key, a[j], a[l])
      invariant multiset(a[..]) == old(multiset(a[..]))
      invariant forall k :: i < k < a.Length ==> a[k] == old(a[k])
    {
      InOrderTotal(key, a[j - 1], a[j]);
      SwapDown(a, j);
      j := j - 1;
    }
    forall k | 0 <= k < j ensures InOrder(key, a[k], a[j]) {
      if k < j - 1 {
        InOrderTransitive(key, a[k], a[j - 1], a[j]);
      }
    }
  }

  /**
    Sorts `a` by `key`, in place: the result is ordered and a permutation of
    what was there.
   */
  method Sort(a: array<Manga>, key: SortKey)
    modifies a
    ensures SortedBy(key, a[..])
    ensures multiset(a[..]) == old(multiset(a[..]))
  {
    var i := 0;
    while i < a.Length
      invariant 0 <= i <= a.Length
      invariant PrefixSorted(key, a, i)
      invariant multiset(a[..]) == old(multiset(a[..]))
    {
      Insert(a, i, key);
      i := i + 1;
    }
  }

  /**
    Two items, "Naruto" rated 8.5 and "Bleach" rated 7.0: the only ordering
    of them by rating is Naruto first, and the only ordering by title is
    Bleach first.
   */
  lemma SortExample(naruto: Manga, bleach: Manga, s: seq<Manga>)
    requires naruto == Manga("Naruto", "NRT", Some(["Action"]), 85)
    requires bleach == Manga("Bleach", "BLC", Some(["Action"]), 70)
    requires multiset(s) == multiset([naruto, bleach])
    ensures SortedBy(ByRating, s) ==> s == [naruto, bleach]
    ensures SortedBy(ByTitle, s) ==> s == [bleach, naruto]
  {
    assert |s| == |multiset(s)| == 2;
    assert s[0] in multiset(s) && s[1] in multiset(s);
    assert s[0] == naruto || s[0] == bleach;
    assert s[1] == naruto || s[1] == bleach;
    assert s == [s[0], s[1]];
    assert !LexLe(naruto.title, bleach.title);
  }
}
