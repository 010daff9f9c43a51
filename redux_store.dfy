/**
 * The store of src/modules/core/reduxStore.ts, reduced to the liked-movies
 * slice: its state is seeded from local storage when the `movies` reducer
 * module is initialised, and a subscriber saves the liked list after every
 * dispatch.
 */
module ReduxStore {
  import opened Wrappers
  import opened Movies
  import opened LikedMoviesStorage

  /** The subscriber's selector `state.movies?.likedMovies ?? []`: the liked list, or the empty list when it is absent. */
  function Persisted(likedMovies: Option<seq<Movie>>): (r: seq<Movie>)
    ensures likedMovies.None? ==> r == []
    ensures likedMovies.Some? ==> r == likedMovies.value
  {
    likedMovies.GetOr([])
  }

  class Store {
    /** `state.movies.likedMovies`. */
    var liked: seq<Movie>
    /** The local storage the subscriber writes to. */
    const storage: LocalStorage

    /** The persisted slot reads back as the in-memory liked list. */
    ghost predicate Mirrors()
      reads this, storage
    {
      Load(storage.entries) == liked
    }

    /** Creates the store: the initial liked list is whatever loading yields; nothing is saved. */
    constructor (storage: LocalStorage)
      ensures this.storage == storage
      ensures liked == Load(storage.entries)
      ensures storage.saves == old(storage.saves)
      ensures Mirrors()
    {
      var initial := LoadLikedMovies(storage);
      this.storage := storage;
      liked := initial;
    }

    /**
     * Applies the reducer, then runs the saving subscriber once, whether or
     * not the liked list changed. With writable storage the slot then mirrors
     * the new list; otherwise the slot is left as it was.
     */
    method Dispatch(action: Action)
      modifies this`liked, storage`entries, storage`saves
      ensures liked == Reduce(old(liked), action)
      ensures storage.saves == old(storage.saves) + [(liked, !storage.writable)]
      ensures storage.writable ==> storage.entries == old(storage.entries)[Key := Encode(liked)]
      ensures storage.writable ==> Mirrors()
      ensures !storage.writable ==> storage.entries == old(storage.entries)
      ensures Unique(old(liked)) ==> Unique(liked)
    {
      liked := Reduce(liked, action);
      // the subscriber reads the new state through getState
      var current := LikedMovies();
      var _ := SaveLikedMovies(storage, Some(Persisted(Some(current))));
      SaveThenLoad(old(storage.entries), liked);
      if Unique(old(liked)) {
        UniquePreserved(old(liked), action);
      }
    }

    /** `store.getState().movies.likedMovies`. */
    method LikedMovies() returns (r: seq<Movie>)
      ensures r == liked
    {
      r := liked;
    }
  }

  /** The reducer's results along the start-up scenario. */
  lemma ScenarioSteps(tt1: Movie, tt2: Movie)
    requires tt1.imdbID != tt2.imdbID
    ensures Reduce([], Like(tt1)) == [tt1]
    ensures Reduce([tt1], Like(tt1)) == [tt1]
    ensures Reduce([tt1], Like(tt2)) == [tt1, tt2]
    ensures Reduce([tt1, tt2], Unlike(tt1)) == [tt2]
  {
    assert [tt1][0].imdbID == tt1.imdbID;
    assert !HasId([tt1], tt2.imdbID);
    assert [tt1, tt2][1..] == [tt2];
    assert [tt2][1..] == [];
  }

  /** One dispatch of the scenario, on writable storage: the list becomes `after`, which the slot mirrors. */
  method ScenarioDispatch(store: Store, action: Action, after: seq<Movie>)
    requires store.storage.writable && Reduce(store.liked, action) == after
    modifies store`liked, store.storage`entries, store.storage`saves
    ensures store.liked == after && store.Mirrors()
    ensures store.storage.writable && |store.storage.saves| == |old(store.storage.saves)| + 1
  {
    store.Dispatch(action);
  }

  /**
   * The start-up scenario: empty storage, a like, the same like again, a
   * second like, an unlike; the slot mirrors the list after each dispatch.
   */
  method EmptyStorageScenario() {
    var storage := new LocalStorage(map[], true);
    var store := new Store(storage);
    var tt1, tt2 := Movie("tt1", map[]), Movie("tt2", map[]);
    ScenarioSteps(tt1, tt2);
    assert store.liked == [];
    ScenarioDispatch(store, Like(tt1), [tt1]);
    ScenarioDispatch(store, Like(tt1), [tt1]);
    ScenarioDispatch(store, Like(tt2), [tt1, tt2]);
    ScenarioDispatch(store, Unlike(tt1), [tt2]);
    assert store.liked == [tt2] && store.Mirrors();
    assert |storage.saves| == 4;
  }
}
