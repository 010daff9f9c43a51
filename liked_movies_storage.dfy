/**
 * The persistence adapter of src/modules/shared/utils/likedMoviesStorage.ts:
 * one fixed key of the browser's local storage holds the liked list as text.
 *
 * The text is not modelled as JSON. A stored value is abstracted to what
 * loading tells apart: the empty string, text that does not parse, text that
 * parses to something other than an array, and the text of an array.
 */
module LikedMoviesStorage {
  import opened Wrappers
  import opened Movies

  /** The single, versioned key the adapter reads and writes. */
  const Key: string := "likedMovies:v1"

  /** The text held under a key, as far as loading distinguishes it. */
  datatype Stored = EmptyText | Unparsable | NonArray | ArrayOf(items: seq<Movie>)

  /** `JSON.stringify(items)`: the text of an array holding `items`, in order. */
  function Encode(items: seq<Movie>): Stored {
    ArrayOf(items)
  }

  /**
   * What loading yields for the result of `getItem` (None: the key is absent).
   * Absent, empty, unparsable and non-array text all give the empty list;
   * a parsed array is returned as it is.
   */
  function Decode(raw: Option<Stored>): (r: seq<Movie>)
    ensures raw.Some? && raw.value.ArrayOf? ==> r == raw.value.items
    ensures r != [] ==> raw == Some(ArrayOf(r))
  {
    match raw
    case None => []
    case Some(EmptyText) => []
    case Some(Unparsable) => []
    case Some(NonArray) => []
    case Some(ArrayOf(items)) => items
  }

  /** What `loadLikedMovies` returns when local storage holds `entries`. */
  function Load(entries: map<string, Stored>): seq<Movie> {
    Decode(if Key in entries then Some(entries[Key]) else None)
  }

  /** Saving then loading gives back the same list, in the same order, whatever else the storage holds. */
  lemma SaveThenLoad(entries: map<string, Stored>, items: seq<Movie>)
    ensures Load(entries[Key := Encode(items)]) == items
  {
  }

  /** The browser's local storage: a string-keyed map whose writes may throw. */
  class LocalStorage {
    var entries: map<string, Stored>
    /** False when `setItem` throws (quota exceeded, storage disabled). */
    var writable: bool
    /**
     * Every call of `saveLikedMovies` so far, oldest first: the list it was
     * asked to store and whether the write failed and went to `console.error`.
     */
    ghost var saves: seq<(seq<Movie>, bool)>

    constructor (entries: map<string, Stored>, writable: bool)
      ensures this.entries == entries && this.writable == writable && saves == []
    {
      this.entries := entries;
      this.writable := writable;
      saves := [];
    }
  }

  /** `loadLikedMovies`: never fails; every kind of missing or bad data reads as the empty list. */
  method LoadLikedMovies(storage: LocalStorage) returns (items: seq<Movie>)
    ensures items == Load(storage.entries)
    ensures Key !in storage.entries ==> items == []
    ensures Key in storage.entries && !storage.entries[Key].ArrayOf? ==> items == []
    ensures Key in storage.entries && storage.entries[Key].ArrayOf? ==> items == storage.entries[Key].items
  {
    if Key !in storage.entries {
      return [];
    }
    match storage.entries[Key]
    case EmptyText =>
      items := [];
    case Unparsable =>
      // JSON.parse throws; the catch returns the empty list
      items := [];
    case NonArray =>
      items := [];
    case ArrayOf(parsed) =>
      items := parsed;
  }

  /**
   * `saveLikedMovies`: overwrites the one key with the encoding of `items`
   * (an empty array for a null list). A write that throws is caught and
   * logged; `failed` says whether that happened, and then nothing changes.
   */
  method SaveLikedMovies(storage: LocalStorage, items: Option<seq<Movie>>) returns (failed: bool)
    modifies storage`entries, storage`saves
    ensures failed == !storage.writable
    ensures storage.saves == old(storage.saves) + [(items.GetOr([]), failed)]
    ensures storage.writable ==> storage.entries == old(storage.entries)[Key := Encode(items.GetOr([]))]
    ensures !storage.writable ==> storage.entries == old(storage.entries)
  {
    if storage.writable {
      storage.entries := storage.entries[Key := Encode(items.GetOr([]))];
      failed := false;
    } else {
      // the exception goes to console.error and is not raised
      failed := true;
    }
    storage.saves := storage.saves + [(items.GetOr([]), failed)];
  }
}
