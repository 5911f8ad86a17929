/**
  The page state of the catalog and its event handlers: the loaded
  collection, the list `sortBy` works on, the selected genre and letter, and
  the text of the search box.
 */
module Catalog {
  import opened Records
  import opened Text
  import opened Filters
  import opened Sorting

  /** What the JSON request yields. */
  datatype Payload =
    | RequestFailed   // network error, non-2xx status or unparsable body
    | NotAnArray      // parsed, but not a JSON array
    | Items(items: seq<Manga>)

  /** `[...s]` and `s.filter(..)` build a new array. */
  method NewArray(s: seq<Manga>) returns (a: array<Manga>)
    ensures fresh(a) && a[..] == s
  {
    a := new Manga[|s|](i requires 0 <= i < |s| => s[i]);
  }

  class Catalog {
    /** `mangaData`: the whole collection, as loaded. */
    var mangaData: seq<Manga>
    /** `filteredData`: the list `sortBy` sorts and shows. */
    var filteredData: array<Manga>
    var selectedGenre: Option<string>
    var selectedLetter: Option<char>
    /** The current value of the search box. */
    var searchText: string

    /** The list holds items of the collection, none more often than the collection does. */
    ghost predicate Valid()
      reads this, filteredData
    {
      multiset(filteredData[..]) <= multiset(mangaData)
    }

    /**
      The state once `loadMangaData` has run on a fresh page: the collection
      replaced by the payload (empty on any failure), the list a copy of it,
      no genre, no letter, an empty search box.
     */
    constructor (payload: Payload)
      ensures Valid()
      ensures payload.Items? ==> mangaData == payload.items
      ensures !payload.Items? ==> mangaData == []
      ensures fresh(filteredData) && filteredData[..] == mangaData
      ensures selectedGenre == None && selectedLetter == None && searchText == ""
    {
      // an empty array and a failure both leave the collection empty
      var data := if payload.Items? then payload.items else [];
      var copy := NewArray(data);
      mangaData := data;
      filteredData := copy;
      selectedGenre := None;
      selectedLetter := None;
      searchText := "";
    }

    /**
      `filterByGenre`: selects the genre, replaces the list with the items of
      the WHOLE collection holding it (the selected letter is not applied to
      the list), and shows what `applyFilters` gives for the new state.
     */
    method FilterByGenre(genre: Option<string>) returns (shown: seq<Manga>)
      requires Filterable(mangaData, genre, selectedLetter)
      modifies this
      ensures Valid()
      ensures selectedGenre == genre
      ensures mangaData == old(mangaData) && selectedLetter == old(selectedLetter) && searchText == old(searchText)
      ensures fresh(filteredData)
      ensures GenreActive(genre) ==> filteredData[..] == Select(mangaData, [GenreIs(genre.value)])
      ensures !GenreActive(genre) ==> filteredData[..] == mangaData
      ensures shown == ApplyFilters(mangaData, genre, selectedLetter, searchText)
    {
      selectedGenre := genre;
      var list := mangaData;
      if GenreActive(genre) {
        list := Select(mangaData, [GenreIs(genre.value)]);
        SelectWithin(mangaData, [GenreIs(genre.value)]);
      }
      filteredData := NewArray(list);
      shown := ApplyFilters(mangaData, selectedGenre, selectedLetter, searchText);
    }

    /**
      `filterByLetter`: selects the letter, replaces the list with that
      letter's bucket of the WHOLE collection (the selected genre is not
      applied to the list), and shows what `applyFilters` gives.
     */
    method FilterByLetter(letter: char) returns (shown: seq<Manga>)
      requires Filterable(mangaData, selectedGenre, Some(letter))
      modifies this
      ensures Valid()
      ensures selectedLetter == Some(letter)
      ensures mangaData == old(mangaData) && selectedGenre == old(selectedGenre) && searchText == old(searchText)
      ensures fresh(filteredData) && filteredData[..] == Select(mangaData, [LetterIs(letter)])
      ensures shown == ApplyFilters(mangaData, selectedGenre, Some(letter), searchText)
    {
      selectedLetter := Some(letter);
      var list := Select(mangaData, [LetterIs(letter)]);
      SelectWithin(mangaData, [LetterIs(letter)]);
      filteredData := NewArray(list);
      shown := ApplyFilters(mangaData, selectedGenre, selectedLetter, searchText);
    }

    /**
      Typing in the search box: the box takes the new text and `applyFilters`
      runs; the list `sortBy` uses is left as it was.
     */
    method Search(input: string) returns (shown: seq<Manga>)
      requires Filterable(mangaData, selectedGenre, selectedLetter)
      modifies this`searchText
      ensures Valid() <==> old(Valid())
      ensures searchText == input
      ensures shown == ApplyFilters(mangaData, selectedGenre, selectedLetter, input)
    {
      searchText := input;
      shown := ApplyFilters(mangaData, selectedGenre, selectedLetter, searchText);
    }

    /**
      `sortBy`: `"title"` orders the list by title, `"rating"` by rating from
      the highest down, both in place and as a permutation of the list; any
      other argument leaves it as it is. The list is then shown.
     */
    method SortBy(kind: string) returns (shown: seq<Manga>)
      requires Valid()
      modifies filteredData
      ensures Valid()
      ensures shown == filteredData[..]
      ensures multiset(shown) == old(multiset(filteredData[..]))
      ensures kind == "title" ==> SortedBy(ByTitle, shown)
      ensures kind == "rating" ==> SortedBy(ByRating, shown)
      ensures kind != "title" && kind != "rating" ==> shown == old(filteredData[..])
    {
      if kind == "title" {
        Sort(filteredData, ByTitle);
      } else if kind == "rating" {
        Sort(filteredData, ByRating);
      }
      shown := filteredData[..];
    }

    /**
      `resetFilters`: no genre, no letter, an empty search box, and the list
      a fresh copy of the whole collection, which is shown.
     */
    method ResetFilters() returns (shown: seq<Manga>)
      modifies this
      ensures Valid()
      ensures selectedGenre == None && selectedLetter == None && searchText == ""
      ensures mangaData == old(mangaData)
      ensures fresh(filteredData) && filteredData[..] == mangaData
      ensures shown == mangaData
    {
      selectedGenre := None;
      selectedLetter := None;
      searchText := "";
      filteredData := NewArray(mangaData);
      shown := filteredData[..];
    }
  }

  const Naruto := Manga("Naruto", "NRT", Some(["Action"]), 85)
  const Nana := Manga("Nana", "NAN", Some(["Romance"]), 80)

  lemma ExampleChecks()
    ensures ActiveChecks(Some("Action"), Some('N'), ToLower("")) == [GenreIs("Action"), LetterIs('N')]
  {
    assert ToLower("") == "";
  }

  lemma ExampleVisible()
    ensures Select([Naruto, Nana], [GenreIs("Action"), LetterIs('N')]) == [Naruto]
  {
    var checks := [GenreIs("Action"), LetterIs('N')];
    assert Passes(checks[0], Naruto) && Passes(checks[1], Naruto);
    assert PassesAll(checks, Naruto);
    assert !Passes(checks[0], Nana) && checks[0] in checks;
    assert !PassesAll(checks, Nana);
    assert [Naruto, Nana][1..] == [Nana] && [Nana][1..] == [];
  }

  lemma ExampleBucket()
    ensures Select([Naruto, Nana], [LetterIs('N')]) == [Naruto, Nana]
  {
    PassesAllOne(LetterIs('N'), Naruto);
    PassesAllOne(LetterIs('N'), Nana);
    assert [Naruto, Nana][1..] == [Nana] && [Nana][1..] == [];
  }

  /**
    Two items with the same first letter and different genres. After a genre
    and then a letter are chosen, the page shows only the item of that genre,
    but the list `sortBy` reorders holds the letter's whole bucket.
   */
  lemma StaleListExample()
    ensures ApplyFilters([Naruto, Nana], Some("Action"), Some('N'), "") == [Naruto]
    ensures Select([Naruto, Nana], [LetterIs('N')]) == [Naruto, Nana]
  {
    ExampleChecks();
    ExampleVisible();
    ExampleBucket();
  }

  /**
    The same two items on the page: sorting after both filters brings the
    item of the other genre back on screen.
   */
  method StaleListAfterTwoFilters()
  {
    StaleListExample();
    var catalog := new Catalog(Items([Naruto, Nana]));
    var shown := catalog.FilterByGenre(Some("Action"));
    shown := catalog.FilterByLetter('N');
    assert shown == [Naruto];
    shown := catalog.SortBy("rating");
    assert Nana in multiset(shown);
  }
}
