# Manga bookmark catalog: filter, search and sort state

A Dafny model of the browsing logic of a client-side manga bookmark
catalog. The page loads a collection of manga records, then lets the reader
narrow it by genre, by the first letter of the title and by free-text
search, sort a list by title or by rating, and reset everything. The model
keeps only that logic, lifted out of the page code:

- `Records`: a manga record (`title`, `code`, `genres`, `rating`) and `Option`
  for the page's `null` selections. `genres` is `None` when the JSON value is
  not an array. `rating` is an integer number of tenths.
- `Text`: ASCII lower-casing, the `[A-Za-z]` test, substring search
  (`includes`) and the lexicographic title order, with its lemmas.
- `Filters`: the three filter checks; `Select`, which keeps the items that
  pass a list of checks; `ApplyFilters`, the chain of guarded filters run on
  every state change; and the 27 letter buttons `#A…Z`.
- `Sorting`: an in-place sort of an array of records by title or by
  descending rating. It is proved ordered and a permutation.
- `Genres`: the loop that collects the distinct genres for the genre tags,
  in the insertion order of a JavaScript `Set`.
- `Catalog`: the page state as a class. Its fields are the collection, the
  list `sortBy` works on (`filteredData`, an array), the selected genre and
  letter, and the search box text. Its methods are the event handlers.

The model reproduces these behaviours of the code exactly:

- `filterByGenre` and `filterByLetter` rebuild `filteredData` from the whole
  collection, on their own dimension only.
- `applyFilters` shows its own result but never stores it.
- So `sortBy` sorts and shows whatever `filteredData` holds, which can
  contain items that the other filters hide. `Catalog.StaleListExample`
  proves this on two records.
- `Catalog.StaleListAfterTwoFilters` walks the same case through the class's methods.
- A genre of `null` or `""` is no genre, as in the code's truthiness tests.
- An empty lower-cased search text is no search.

`main.js` has no pagination, page number or address-bar syncing, so none is
modelled. `sortBy` sorts `filteredData`, which may differ from the visible
list.

## Model

| member | source | states |
|---|---|---|
| `Text.LowerChar` | main.js:183-185 | lower-casing never yields an upper-case letter, keeps letters letters and leaves every non-letter unchanged |
| `Text.ToLower` | main.js:189-193 | lower-casing keeps the length and the position of every character, and leaves no upper-case ASCII letter |
| `Text.ToLowerIdempotent` | main.js:173 | lower-casing an already lower-cased search text changes nothing |
| `Text.IncludesIffOccurs` | main.js:191-192 | `includes` holds exactly when the pattern occurs at some position of the text |
| `Text.LexLeTotal` | main.js:202 | of two titles, one may always stand before the other |
| `Text.LexLeTransitive` | main.js:202 | the title order is transitive |
| `Text.LexLeAntisymmetric` | main.js:202 | two titles that may each stand before the other are equal |
| `Filters.Select` | main.js:170-194 | the filtered list is a subsequence of the input, holds only passing items, and holds each passing item exactly as often as the input does |
| `Filters.SelectMembers` | main.js:170-194 | an item is in the filtered list if and only if it is in the input and passes every check |
| `Filters.SelectNone` | main.js:171 | filtering by no check keeps the whole input |
| `Filters.SelectWithin` | main.js:170-194 | the filtered list holds no item more often than the input does |
| `Filters.SelectSelect` | main.js:175-194 | filtering by one list of checks and then by another equals filtering once by both |
| `Filters.SelectSameChecks` | main.js:175-194 | only which checks are applied matters, not their order or repetition |
| `Filters.ChainIsConjunction` | main.js:171-194 | a chain of one-check `filter` steps keeps exactly what passes all of the checks |
| `Filters.ChainAnyOrder` | main.js:175-194 | chaining the same checks in any order gives the same list |
| `Filters.ActiveChecks` | main.js:175-193 | an item passes the active checks if and only if it holds the selected genre (when one is set and non-empty), is in the selected letter's bucket (`InBucket`, lines 179-187) when one is set, and matches the search (`MatchesSearch`, lines 189-193) when it is non-empty |
| `Filters.ApplyFilters` | main.js:170-197 | the visible list equals the collection filtered once by the conjunction of the active checks |
| `Filters.ApplyFiltersIsChain` | main.js:171-194 | the three guarded steps of `applyFilters` are the chain of the active checks in genre, letter, search order |
| `Filters.VisibleIsExactFilter` | main.js:170-194 | the visible list keeps the collection's order and holds an item if and only if it passes every active check |
| `Filters.InactiveFiltersShowAll` | main.js:171-189 | with no genre, no letter and an empty search box the visible list is the whole collection |
| `Filters.SearchIgnoresCase` | main.js:173 | typing the search in upper or lower case gives the same visible list |
| `Filters.ButtonsAre` | main.js:75 | the navigation has 27 buttons, `#` followed by `A` to `Z` |
| `Filters.ButtonMembers` | main.js:75 | a character is a button exactly when it is `#` or an upper-case ASCII letter |
| `Filters.ButtonsPartition` | main.js:151-158 | a non-empty title is in the bucket of exactly one of the 27 buttons: `#` for a first character outside `[A-Za-z]`, otherwise the upper-case form of that character |
| `Filters.ButtonsCoverCollection` | main.js:151-158 | the sizes of the 27 bucket lists add up to the size of a collection whose titles are non-empty |
| `Sorting.InOrderTotal` | main.js:201-205 | both comparators are total |
| `Sorting.InOrderTransitive` | main.js:201-205 | both comparators are transitive |
| `Sorting.Insert` | main.js:200-205 | one insertion step extends the ordered prefix by one element, keeps the same items and leaves every element after it in place |
| `Sorting.Sort` | main.js:200-205 | the array ends ordered by the key and holds the same items as before |
| `Sorting.SortExample` | main.js:202-204 | for "Naruto" (8.5) and "Bleach" (7.0), the only rating order is Naruto first and the only title order is Bleach first |
| `Genres.AllGenresMembers` | main.js:59-63 | a genre is collected if and only if some item with an array of genres holds it |
| `Genres.Dedup` | main.js:49-63 | the set holds exactly the elements it was fed |
| `Genres.DedupNoDuplicates` | main.js:49-63 | the set holds no repeats |
| `Genres.DedupFirstOccurrenceOrder` | main.js:49-63 | the distinct genres appear in the order of their first occurrence |
| `Genres.CollectGenres` | main.js:49-63 | the nested `forEach` loops adding to the `Set` produce the de-duplicated sequence of all genres |
| `Genres.GenreTagsMeaning` | main.js:49-63 | the genre tags have no repeats, hold exactly the genres of items whose `genres` is an array, and follow first occurrence |
| `Catalog.Catalog.constructor` | main.js:2-27 | after loading, the collection is the payload's items, or empty on a failed request or a non-array payload; the list is a fresh copy of the collection, no genre or letter is selected and the search is empty |
| `Catalog.Catalog.FilterByGenre` | main.js:124-140 | sets the genre; rebuilds the list from the whole collection by genre only, or as a copy of it for `null` or `""`; keeps the other selections; shows `applyFilters` of the new state |
| `Catalog.Catalog.FilterByLetter` | main.js:143-162 | sets the letter, rebuilds the list as the letter's bucket of the whole collection, keeps the other selections, and shows `applyFilters` of the new state |
| `Catalog.Catalog.Search` | main.js:165-167 | takes the new search text and shows `applyFilters`, leaving the list untouched |
| `Catalog.Catalog.SortBy` | main.js:200-207 | `"title"` and `"rating"` leave the list an ordered permutation of itself; any other argument leaves it unchanged; the list stays within the collection |
| `Catalog.Catalog.ResetFilters` | main.js:210-227 | clears genre, letter and search, and makes the list a fresh copy of the whole collection, which is shown |
| `Catalog.StaleListExample` | main.js:143-162 | after a genre and then a letter are chosen, the page shows one item while the list `sortBy` will show holds two |

## Left out

- Fetching the JSON (`fetch`, `await`, the HTTP status, parsing) and `console.warn`. These are parameters of the constructor: a `Payload` says whether loading failed, gave a non-array, or gave items.
- Rendering: `renderManga`, the `renderAlphaNav` markup, the `innerHTML` strings of `renderGenreTags`, the "Semua" tag, the empty-data placeholder and `toggleAlpha`. The handlers return the list they would render instead.
- Setting the `active` CSS class, and the ambient `event.target` it relies on.
- `document.readyState`, `DOMContentLoaded` and the registration of the input listener.
- `openManga`, because `window.open` is a browser call.
- Pagination, page numbers and address-bar syncing. The code has none of them.
- Record fields `id`, `status`, `cover`, `synopsis` and `url`. They are display-only.
- Unicode lower-casing. Only `A`–`Z` are lower-cased. In JavaScript some other characters, such as the Kelvin sign, lower-case to ASCII letters.
- Floating-point ratings. A rating is an integer number of tenths, so `NaN` and rounding do not arise.
- JavaScript errors in filtering. An empty title (`title[0]` is undefined) or a `genres` value that is not an array (`includes` is missing) throws inside the `filter` callbacks of `applyFilters`, `filterByGenre` and `filterByLetter`. Here they are preconditions (`Filterable`) of those operations. `Filterable` asks a little more than the code reads: with a letter selected it requires every title of the collection to be non-empty, while `applyFilters` reads `title[0]` only of the items that passed the genre filter.
- JavaScript errors in rendering. `renderManga` reads `manga.genres.slice(0, 2)` for every item it renders, so it throws when a rendered item's `genres` is not an array. The model drops that exception: the handlers below return the list they would render whatever its items hold, and `Genres.CollectGenres` runs on any collection, although after such a throw at load time `renderGenreTags` is never reached.
- Catalog.Catalog.constructor: does not model the throw of `renderManga` at load when an item's `genres` is not an array.
- Catalog.Catalog.FilterByGenre: does not model the throw of `renderManga` when a shown item's `genres` is not an array.
- Catalog.Catalog.FilterByLetter: does not model the throw of `renderManga` when a shown item's `genres` is not an array.
- Catalog.Catalog.Search: does not model the throw of `renderManga` when a shown item's `genres` is not an array.
- Catalog.Catalog.SortBy: does not model the throw of `renderManga` when an item of the list has a `genres` that is not an array.
- Catalog.Catalog.ResetFilters: does not model the throw of `renderManga` when an item of the collection has a `genres` that is not an array.
- A `genres` value that is a string: the model treats it as not an array, although `String.includes` would then match substrings.
- Catalog.Catalog.SortBy: `localeCompare` is modelled as plain lexicographic order by character code.
- Catalog.Catalog.SortBy: it does not state that equal items keep their relative order, although engines since ES2019 sort stably.
- Catalog.Catalog.constructor: the search box is taken to be empty when the page loads.
- Catalog.Catalog.constructor: loading is taken to finish before any handler runs. In the code the letter buttons and the search listener are live while `loadMangaData` awaits `fetch`, so a letter chosen or text typed during the fetch stays selected after loading, which resets only `mangaData` and `filteredData` and shows the whole collection; the next `applyFilters` then applies that letter and text. The model reaches the same state only by handler calls after construction, for example `FilterByLetter` followed by `FilterByGenre(None)`.
