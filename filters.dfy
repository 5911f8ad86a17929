/**
  The visible list of the catalog: the full collection filtered, in order,
  by the genre check, the first-letter bucket and the search text
  (`applyFilters` and the predicates it shares with `filterByGenre` and
  `filterByLetter`).
 */
module Filters {
  import opened Records
  import opened Text

  /** One `data.filter(..)` test; the search query is already lower-cased. */
  datatype Check = GenreIs(genre: string) | LetterIs(letter: char) | SearchFor(query: string)

  /**
    The first-letter bucket: `'#'` holds titles whose first character is not
    in `[A-Za-z]`, any other letter the titles whose first character equals
    it after lower-casing both.
   */
  predicate InBucket(title: string, letter: char)
  {
    title != [] &&
    if letter == '#' then !IsAsciiLetter(title[0]) else LowerChar(title[0]) == LowerChar(letter)
  }

  /** `manga.title.toLowerCase().includes(q) || manga.code.toLowerCase().includes(q)` */
  predicate MatchesSearch(m: Manga, query: string)
  {
    Includes(ToLower(m.title), query) || Includes(ToLower(m.code), query)
  }

  predicate Passes(c: Check, m: Manga)
  {
    match c
    case GenreIs(g) => m.genres.Some? && g in m.genres.value
    case LetterIs(l) => InBucket(m.title, l)
    case SearchFor(q) => MatchesSearch(m, q)
  }

  predicate PassesAll(cs: seq<Check>, m: Manga)
  {
    forall c :: c in cs ==> Passes(c, m)
  }

  /** `r` is `s` with some elements dropped and the rest kept in order. */
  ghost predicate IsSubsequence(r: seq<Manga>, s: seq<Manga>)
    decreases |s|
  {
    if r == [] then true
    else if s == [] then false
    else (r[0] == s[0] && IsSubsequence(r[1..], s[1..])) || IsSubsequence(r, s[1..])
  }

  /**
    The items of `s` that pass every check in `cs`, in their original order:
    a subsequence of `s` that holds each passing item as often as `s` does
    and no other item.
   */
  function Select(s: seq<Manga>, cs: seq<Check>): (r: seq<Manga>)
    ensures IsSubsequence(r, s)
    ensures forall m :: m in r ==> PassesAll(cs, m)
    ensures forall m :: multiset(r)[m] == if PassesAll(cs, m) then multiset(s)[m] else 0
  {
    if s == [] then []
    else
      assert s == [s[0]] + s[1..];
      var rest := Select(s[1..], cs);
      if PassesAll(cs, s[0]) then
        assert ([s[0]] + rest)[1..] == rest;
        [s[0]] + rest
      else rest
  }

  lemma PassesAllAppend(a: seq<Check>, b: seq<Check>, m: Manga)
    ensures PassesAll(a + b, m) <==> PassesAll(a, m) && PassesAll(b, m)
  {
    assert forall c :: c in a + b <==> c in a || c in b;
  }

  lemma PassesAllOne(c: Check, m: Manga)
    ensures PassesAll([c], m) <==> Passes(c, m)
  {
    assert c in [c];
  }

  /** Membership in the result, in both directions. */
  lemma SelectMembers(s: seq<Manga>, cs: seq<Check>, m: Manga)
    ensures m in Select(s, cs) <==> m in s && PassesAll(cs, m)
  {
    assert m in Select(s, cs) <==> multiset(Select(s, cs))[m] > 0;
  }

  /** The filtered list holds nothing the input does not, and nothing more often. */
  lemma SelectWithin(s: seq<Manga>, cs: seq<Check>)
    ensures multiset(Select(s, cs)) <= multiset(s)
  {
  }

  /** Filtering twice is filtering once by both lists of checks. */
  lemma {:induction false} SelectSelect(s: seq<Manga>, a: seq<Check>, b: seq<Check>)
    ensures Select(Select(s, a), b) == Select(s, a + b)
  {
    if s != [] {
      SelectSelect(s[1..], a, b);
      PassesAllAppend(a, b, s[0]);
    }
  }

  /** Only which checks are present matters, not their order or repetition. */
  lemma {:induction false} SelectSameChecks(s: seq<Manga>, cs: seq<Check>, ds: seq<Check>)
    requires forall c :: c in cs <==> c in ds
    ensures Select(s, cs) == Select(s, ds)
  {
    if s != [] {
      SelectSameChecks(s[1..], cs, ds);
    }
  }

  /** No check, no restriction. */
  lemma {:induction false} SelectNone(s: seq<Manga>)
    ensures Select(s, []) == s
  {
    if s != [] {
      SelectNone(s[1..]);
    }
  }

  /** The checks applied one after another, each a `data = data.filter(..)` step. */
  function Chain(s: seq<Manga>, cs: seq<Check>): seq<Manga>
    decreases |cs|
  {
    if cs == [] then s else Chain(Select(s, [cs[0]]), cs[1..])
  }

  /** A chain of single-check filters keeps exactly what passes all of them. */
  lemma {:induction false} ChainIsConjunction(s: seq<Manga>, cs: seq<Check>)
    ensures Chain(s, cs) == Select(s, cs)
    decreases |cs|
  {
    if cs == [] {
      SelectNone(s);
    } else {
      ChainIsConjunction(Select(s, [cs[0]]), cs[1..]);
      SelectSelect(s, [cs[0]], cs[1..]);
      assert [cs[0]] + cs[1..] == cs;
    }
  }

  /** The order the filters are chained in does not change the result. */
  lemma ChainAnyOrder(s: seq<Manga>, cs: seq<Check>, ds: seq<Check>)
    requires multiset(cs) == multiset(ds)
    ensures Chain(s, cs) == Chain(s, ds)
  {
    ChainIsConjunction(s, cs);
    ChainIsConjunction(s, ds);
    forall c ensures c in cs <==> c in ds {
      assert c in cs <==> c in multiset(cs);
      assert c in ds <==> c in multiset(ds);
    }
    SelectSameChecks(s, cs, ds);
  }

  /** `if (selectedGenre)`: `null` and the empty string select nothing. */
  predicate GenreActive(genre: Option<string>)
  {
    genre.Some? && genre.value != []
  }

  /** The checks `applyFilters` runs, in the order it runs them. */
  function ActiveChecks(genre: Option<string>, letter: Option<char>, query: string): (cs: seq<Check>)
    ensures |cs| <= 3
    ensures forall m :: PassesAll(cs, m) <==>
      && (GenreActive(genre) ==> m.genres.Some? && genre.value in m.genres.value)
      && (letter.Some? ==> InBucket(m.title, letter.value))
      && (query != [] ==> MatchesSearch(m, query))
  {
    var g := if GenreActive(genre) then [GenreIs(genre.value)] else [];
    var l := if letter.Some? then [LetterIs(letter.value)] else [];
    var f := if query != [] then [SearchFor(query)] else [];
    forall m ensures PassesAll(g + l + f, m) <==>
      && (GenreActive(genre) ==> m.genres.Some? && genre.value in m.genres.value)
      && (letter.Some? ==> InBucket(m.title, letter.value))
      && (query != [] ==> MatchesSearch(m, query))
    {
      PassesAllAppend(g + l, f, m);
      PassesAllAppend(g, l, m);
      if GenreActive(genre) { PassesAllOne(GenreIs(genre.value), m); }
      if letter.Some? { PassesAllOne(LetterIs(letter.value), m); }
      if query != [] { PassesAllOne(SearchFor(query), m); }
    }
    g + l + f
  }

  /**
    What `applyFilters` may be called on without a JavaScript error: the
    genre check calls `includes` on every `genres`, the letter check reads
    every `title[0]`.
   */
  predicate Filterable(data: seq<Manga>, genre: Option<string>, letter: Option<char>)
  {
    (GenreActive(genre) ==> Tagged(data)) && (letter.Some? ==> Titled(data))
  }

  /**
    `applyFilters`: start from the whole collection, keep the selected genre,
    then the selected letter bucket, then the lower-cased search text.
   */
  function ApplyFilters(mangaData: seq<Manga>, selectedGenre: Option<string>,
                        selectedLetter: Option<char>, searchInput: string): (data: seq<Manga>)
    requires Filterable(mangaData, selectedGenre, selectedLetter)
    ensures data == Select(mangaData, ActiveChecks(selectedGenre, selectedLetter, ToLower(searchInput)))
  {
    var searchValue := ToLower(searchInput);
    var data := mangaData;
    var data := if GenreActive(selectedGenre) then Select(data, [GenreIs(selectedGenre.value)]) else data;
    var data := if selectedLetter.Some? then Select(data, [LetterIs(selectedLetter.value)]) else data;
    var data := if searchValue != [] then Select(data, [SearchFor(searchValue)]) else data;
    assert data == Chain(mangaData, ActiveChecks(selectedGenre, selectedLetter, searchValue)) by {
      ApplyFiltersIsChain(mangaData, selectedGenre, selectedLetter, searchValue);
    }
    ChainIsConjunction(mangaData, ActiveChecks(selectedGenre, selectedLetter, searchValue));
    data
  }

  /** The three guarded steps are the chain of the active checks. */
  lemma ApplyFiltersIsChain(s: seq<Manga>, genre: Option<string>, letter: Option<char>, q: string)
    ensures Chain(s, ActiveChecks(genre, letter, q)) ==
      var d1 := if GenreActive(genre) then Select(s, [GenreIs(genre.value)]) else s;
      var d2 := if letter.Some? then Select(d1, [LetterIs(letter.value)]) else d1;
      if q != [] then Select(d2, [SearchFor(q)]) else d2
  {
    var g := if GenreActive(genre) then [GenreIs(genre.value)] else [];
    var l := if letter.Some? then [LetterIs(letter.value)] else [];
    var f := if q != [] then [SearchFor(q)] else [];
    assert ActiveChecks(genre, letter, q) == g + l + f;
    ChainAppend(s, g + l, f);
    ChainAppend(s, g, l);
    ChainOne(s, g);
    ChainOne(Chain(s, g), l);
    ChainOne(Chain(Chain(s, g), l), f);
  }

  lemma ChainOne(s: seq<Manga>, cs: seq<Check>)
    requires |cs| <= 1
    ensures Chain(s, cs) == if cs == [] then s else Select(s, cs)
  {
    if cs != [] {
      assert cs == [cs[0]];
    }
  }

  lemma {:induction false} ChainAppend(s: seq<Manga>, a: seq<Check>, b: seq<Check>)
    ensures Chain(s, a + b) == Chain(Chain(s, a), b)
    decreases |a|
  {
    if a == [] {
      assert a + b == b;
    } else {
      assert (a + b)[1..] == a[1..] + b;
      ChainAppend(Select(s, [a[0]]), a[1..], b);
    }
  }

  /** The visible list keeps the collection's order and exactly the items passing every active check. */
  lemma VisibleIsExactFilter(mangaData: seq<Manga>, genre: Option<string>, letter: Option<char>, search: string)
    requires Filterable(mangaData, genre, letter)
    ensures var data := ApplyFilters(mangaData, genre, letter, search);
      && IsSubsequence(data, mangaData)
      && forall m :: m in data <==>
        && m in mangaData
        && (GenreActive(genre) ==> genre.value in m.genres.value)
        && (letter.Some? ==> InBucket(m.title, letter.value))
        && (search != [] ==> MatchesSearch(m, ToLower(search)))
  {
    var data := ApplyFilters(mangaData, genre, letter, search);
    forall m ensures m in data <==>
        && m in mangaData
        && (GenreActive(genre) ==> genre.value in m.genres.value)
        && (letter.Some? ==> InBucket(m.title, letter.value))
        && (search != [] ==> MatchesSearch(m, ToLower(search)))
    {
      SelectMembers(mangaData, ActiveChecks(genre, letter, ToLower(search)), m);
      if m in mangaData && GenreActive(genre) {
        var i :| 0 <= i < |mangaData| && mangaData[i] == m;
      }
    }
  }

  /** With no genre, no letter and an empty search box, everything is shown. */
  lemma InactiveFiltersShowAll(mangaData: seq<Manga>)
    ensures ApplyFilters(mangaData, None, None, "") == mangaData
  {
    SelectNone(mangaData);
  }

  /** The search ignores the case of what was typed. */
  lemma SearchIgnoresCase(mangaData: seq<Manga>, genre: Option<string>, letter: Option<char>, search: string)
    requires Filterable(mangaData, genre, letter)
    ensures ApplyFilters(mangaData, genre, letter, search) == ApplyFilters(mangaData, genre, letter, ToLower(search))
  {
    ToLowerIdempotent(search);
  }

  /** The letter buttons of the alphabetical navigation, in order. */
  const Buttons: seq<char> := "#ABCDEFGHIJKLMNOPQRSTUVWXYZ"

  lemma ButtonsAre()
    ensures |Buttons| == 27 && Buttons[0] == '#'
    ensures forall k :: 1 <= k < 27 ==> Buttons[k] as int == 'A' as int + k - 1
  {
    assert Buttons == ['#'] + seq(26, k requires 0 <= k < 26 => ('A' as int + k) as char);
  }

  lemma ButtonMembers()
    ensures forall l :: l in Buttons <==> l == '#' || IsAsciiUpper(l)
  {
    ButtonsAre();
    forall l | IsAsciiUpper(l) ensures l in Buttons {
      assert Buttons[l as int - 'A' as int + 1] == l;
    }
  }

  /** The button whose bucket holds the titles starting with `c`. */
  function ButtonFor(c: char): (l: char)
    ensures l == '#' || IsAsciiUpper(l)
  {
    if !IsAsciiLetter(c) then '#'
    else if IsAsciiUpper(c) then c
    else (c as int - 32) as char
  }

  lemma BucketButton(title: string, l: char)
    requires title != [] && (l == '#' || IsAsciiUpper(l))
    ensures InBucket(title, l) <==> l == ButtonFor(title[0])
  {
  }

  /** A non-empty title is in the bucket of exactly one button: the one for its first character. */
  lemma ButtonsPartition(title: string)
    requires title != []
    ensures ButtonFor(title[0]) in Buttons
    ensures forall l :: l in Buttons ==> (InBucket(title, l) <==> l == ButtonFor(title[0]))
  {
    ButtonMembers();
    forall l | l in Buttons ensures InBucket(title, l) <==> l == ButtonFor(title[0]) {
      BucketButton(title, l);
    }
  }

  /** How many of `letters` have `title` in their bucket. */
  function BucketsHolding(title: string, letters: seq<char>): nat
  {
    if letters == [] then 0
    else (if InBucket(title, letters[0]) then 1 else 0) + BucketsHolding(title, letters[1..])
  }

  /** The sizes of the lists `filterByLetter` gives for each of `letters`, added up. */
  function BucketTotal(data: seq<Manga>, letters: seq<char>): nat
  {
    if letters == [] then 0
    else |Select(data, [LetterIs(letters[0])])| + BucketTotal(data, letters[1..])
  }

  lemma {:induction false} BucketsHoldingNone(title: string, letters: seq<char>)
    requires forall k :: 0 <= k < |letters| ==> !InBucket(title, letters[k])
    ensures BucketsHolding(title, letters) == 0
  {
    if letters != [] {
      BucketsHoldingNone(title, letters[1..]);
    }
  }

  lemma {:induction false} BucketsHoldingOne(title: string, letters: seq<char>, l: char)
    requires l in letters && InBucket(title, l)
    requires forall k :: 0 <= k < |letters| && InBucket(title, letters[k]) ==> letters[k] == l
    requires forall i, j :: 0 <= i < j < |letters| ==> letters[i] != letters[j]
    ensures BucketsHolding(title, letters) == 1
  {
    if letters[0] == l {
      forall k | 0 <= k < |letters[1..]| ensures !InBucket(title, letters[1..][k]) {
        assert letters[1..][k] == letters[k + 1] != letters[0];
      }
      BucketsHoldingNone(title, letters[1..]);
    } else {
      BucketsHoldingOne(title, letters[1..], l);
    }
  }

  /** Splitting the first item off the collection splits every bucket the same way. */
  lemma {:induction false} BucketTotalCons(data: seq<Manga>, letters: seq<char>)
    requires data != []
    ensures BucketTotal(data, letters) == BucketsHolding(data[0].title, letters) + BucketTotal(data[1..], letters)
  {
    if letters != [] {
      BucketTotalCons(data, letters[1..]);
      PassesAllOne(LetterIs(letters[0]), data[0]);
    }
  }

  /**
    The lists the 27 buttons select, taken together, hold every item of a
    collection with non-empty titles exactly once.
   */
  lemma {:induction false} ButtonsCoverCollection(data: seq<Manga>)
    requires Titled(data)
    ensures BucketTotal(data, Buttons) == |data|
  {
    if data == [] {
      BucketTotalEmpty(Buttons);
    } else {
      BucketTotalCons(data, Buttons);
      ButtonsCoverCollection(data[1..]);
      var title := data[0].title;
      ButtonsPartition(title);
      ButtonsAre();
      BucketsHoldingOne(title, Buttons, ButtonFor(title[0]));
    }
  }

  lemma {:induction false} BucketTotalEmpty(letters: seq<char>)
    ensures BucketTotal([], letters) == 0
  {
    if letters != [] {
      BucketTotalEmpty(letters[1..]);
    }
  }
}
