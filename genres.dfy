/**
  The genre tags of the catalog: every distinct genre of the collection, in
  the order a JavaScript `Set` keeps them (first insertion first), built by
  `renderGenreTags`.
 */
module Genres {
  import opened Records

  /** The genres an item adds: none when its `genres` is not an array. */
  function TagsOf(m: Manga): seq<string>
  {
    if m.genres.Some? then m.genres.value else []
  }

  /** Every genre of every item, in collection order, repeats included. */
  function AllGenres(data: seq<Manga>): seq<string>
  {
    if data == [] then [] else AllGenres(data[..|data| - 1]) + TagsOf(data[|data| - 1])
  }

  lemma {:induction false} AllGenresMembers(data: seq<Manga>, g: string)
    ensures g in AllGenres(data) <==> exists i :: 0 <= i < |data| && g in TagsOf(data[i])
  {
    if data != [] {
      var init := data[..|data| - 1];
      AllGenresMembers(init, g);
      if i :| 0 <= i < |init| && g in TagsOf(init[i]) {
        assert data[i] == init[i];
      }
      if i :| 0 <= i < |data| && g in TagsOf(data[i]) {
        if i < |init| {
          assert init[i] == data[i];
        }
      }
    }
  }

  predicate NoDuplicates(s: seq<string>)
  {
    forall i, j :: 0 <= i < j < |s| ==> s[i] != s[j]
  }

  /**
    `s` with every repeat dropped, keeping first occurrences: what a `Set`
    holds after `add` is called on each element of `s` in turn.
   */
  function Dedup(s: seq<string>): (r: seq<string>)
    ensures forall x :: x in r <==> x in s
  {
    if s == [] then []
    else
      var d := Dedup(s[..|s| - 1]);
      var x := s[|s| - 1];
      assert s == s[..|s| - 1] + [x];
      if x in d then d else d + [x]
  }

  /** The set holds no repeats. */
  lemma {:induction false} DedupNoDuplicates(s: seq<string>)
    ensures NoDuplicates(Dedup(s))
  {
    if s != [] {
      DedupNoDuplicates(s[..|s| - 1]);
    }
  }

  /** The position where `x` first occurs in `s`. */
  function FirstIndex(s: seq<string>, x: string): (k: nat)
    requires x in s
    ensures k < |s| && s[k] == x && x !in s[..k]
  {
    if s[0] == x then 0
    else
      assert s == [s[0]] + s[1..];
      var k := FirstIndex(s[1..], x);
      assert s[..k + 1] == [s[0]] + s[1..][..k];
      k + 1
  }

  lemma FirstIndexUnique(s: seq<string>, x: string, k: nat)
    requires k < |s| && s[k] == x && x !in s[..k]
    ensures FirstIndex(s, x) == k
  {
  }

  /** Appending does not move the first occurrence of an element already present. */
  lemma FirstIndexAppend(s: seq<string>, t: seq<string>, x: string)
    requires x in s
    ensures FirstIndex(s + t, x) == FirstIndex(s, x)
  {
    var k := FirstIndex(s, x);
    assert (s + t)[..k] == s[..k];
    FirstIndexUnique(s + t, x, k);
  }

  /** The distinct genres are listed in the order they first occur. */
  lemma {:induction false} DedupFirstOccurrenceOrder(s: seq<string>)
    ensures forall i, j :: 0 <= i < j < |Dedup(s)| ==> FirstIndex(s, Dedup(s)[i]) < FirstIndex(s, Dedup(s)[j])
  {
    if s != [] {
      var init := s[..|s| - 1];
      var x := s[|s| - 1];
      var d := Dedup(init);
      assert s == init + [x];
      DedupFirstOccurrenceOrder(init);
      forall y | y in d ensures FirstIndex(s, y) == FirstIndex(init, y) {
        FirstIndexAppend(init, [x], y);
      }
      if x !in d {
        FirstIndexUnique(s, x, |init|);
        assert Dedup(s) == d + [x];
      }
    }
  }

  /** Adding one element to the set: kept out if already present, appended otherwise. */
  lemma DedupSnoc(s: seq<string>, x: string)
    ensures Dedup(s + [x]) == if x in Dedup(s) then Dedup(s) else Dedup(s) + [x]
  {
    assert (s + [x])[..|s|] == s;
  }

  lemma AllGenresSnoc(data: seq<Manga>, i: nat)
    requires i < |data|
    ensures AllGenres(data[..i + 1]) == AllGenres(data[..i]) + TagsOf(data[i])
  {
    assert data[..i + 1][..i] == data[..i];
  }

  /**
    The tag list of `renderGenreTags`: each array-valued `genres` of the
    collection, in order, added to an insertion-ordered set.
   */
  method CollectGenres(mangaData: seq<Manga>) returns (genreSet: seq<string>)
    ensures genreSet == Dedup(AllGenres(mangaData))
  {
    genreSet := [];
    if |mangaData| == 0 {
      // no data: the "no genre" placeholder is shown instead of tags
      return;
    }
    var i := 0;
    while i < |mangaData|
      invariant 0 <= i <= |mangaData|
      invariant genreSet == Dedup(AllGenres(mangaData[..i]))
    {
      var tags := TagsOf(mangaData[i]);
      ghost var before := AllGenres(mangaData[..i]);
      var j := 0;
      assert before + tags[..j] == before;
      while j < |tags|
        invariant 0 <= j <= |tags|
        invariant genreSet == Dedup(before + tags[..j])
      {
        assert before + tags[..j + 1] == (before + tags[..j]) + [tags[j]];
        DedupSnoc(before + tags[..j], tags[j]);
        if tags[j] !in genreSet {
          genreSet := genreSet + [tags[j]];
        }
        j := j + 1;
      }
      assert tags[..j] == tags;
      AllGenresSnoc(mangaData, i);
      i := i + 1;
    }
    assert mangaData[..i] == mangaData;
  }

  /**
    The collected tags have no repeats, hold exactly the genres of the items
    whose `genres` is an array, and list them in order of first occurrence.
   */
  lemma GenreTagsMeaning(mangaData: seq<Manga>)
    ensures var tags := Dedup(AllGenres(mangaData));
      && NoDuplicates(tags)
      && (forall g :: g in tags <==> exists i :: 0 <= i < |mangaData| && g in TagsOf(mangaData[i]))
      && (forall i, j :: 0 <= i < j < |tags| ==>
            FirstIndex(AllGenres(mangaData), tags[i]) < FirstIndex(AllGenres(mangaData), tags[j]))
  {
    forall g ensures g in AllGenres(mangaData) <==> exists i :: 0 <= i < |mangaData| && g in TagsOf(mangaData[i]) {
      AllGenresMembers(mangaData, g);
    }
    DedupNoDuplicates(AllGenres(mangaData));
    DedupFirstOccurrenceOrder(AllGenres(mangaData));
  }
}
