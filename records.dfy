/**
  The records the catalog works on: one manga bookmark as loaded from the
  JSON collection, and the optional values the page state uses for
  "no selection".
 */
module Records {

  /** `null` in the page state (no genre, no letter selected). */
  datatype Option<+T> = None | Some(value: T)

  /**
    One catalog entry. Only the fields that filtering, searching and sorting
    look at are kept; `cover`, `status`, `synopsis` and `url` are display
    fields. `genres` is `None` when the JSON value is not an array.
    `rating` is the decimal rating scaled to an integer (tenths).
   */
  datatype Manga = Manga(title: string, code: string, genres: Option<seq<string>>, rating: int)

  /** Every title has a first character, so `title[0]` is defined. */
  predicate Titled(data: seq<Manga>)
  {
    forall i :: 0 <= i < |data| ==> data[i].title != []
  }

  /** Every `genres` value is an array, so `genres.includes(..)` is defined. */
  predicate Tagged(data: seq<Manga>)
  {
    forall i :: 0 <= i < |data| ==> data[i].genres.Some?
  }
}
