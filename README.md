# Liked movies: reducer, persistence and like button

A model of the liked-movies subsystem of a browser movie-search application.
The user marks movies as liked from a grid of thumbnails. The liked list lives
in a Redux store, is changed only by a reducer, and is mirrored to one key of
the browser's local storage after every dispatch.

Modules, one per source file:

- `Movies` (`movies.dfy`), for `src/modules/movies/store/reducers/movies.ts`.
  The `movies` reducer is a pure function over the liked list. It behaves as an
  insertion-ordered set keyed by `imdbID`. The module also proves idempotence,
  stable removal, like/unlike cancellation and uniqueness preservation.
- `LikedMoviesStorage` (`liked_movies_storage.dfy`), for
  `src/modules/shared/utils/likedMoviesStorage.ts`. Local storage is a class
  holding a string-keyed map and a flag saying whether writes throw. Loading
  falls back to the empty list. Saving overwrites the key `likedMovies:v1` and
  swallows failures.
- `ReduxStore` (`redux_store.dfy`), for `src/modules/core/reduxStore.ts`. The
  store is a class. Its constructor seeds the liked list from storage and saves
  nothing. `Dispatch` runs the reducer and then the saving subscriber, exactly
  once per call.
- `MovieThumb` (`movie_thumb.dfy`), for
  `src/modules/movies/components/MovieThumb/MovieThumb.tsx`. Only the like
  button is modelled: a flag set once from the `likedByUser` prop, and a click
  handler that calls `unlike` or `like` and then flips the flag.
- `Wrappers` (`wrappers.dfy`): the `Option` type, used for JavaScript's
  null/undefined.

A movie is `Movie(imdbID, rest)`. Only `imdbID` is inspected; the other fields
are an opaque map that is carried along unchanged.

Two facts about the code shape the model:

- Uniqueness is not checked on the list loaded at start-up (`movies.ts:9-11`).
  So it is proved to be preserved by every action (`UniquePreserved`,
  `UniqueAlongRun`, `Store.Dispatch`), not to hold always.
- Loading happens when the reducer module builds `initialState`, before the
  store exists. The model's constructor loads the list itself and saves nothing;
  in the source the load runs earlier, when `initialState` is built.

## Model

| member | source | states |
|---|---|---|
| `Movies.ContainsId` | src/modules/movies/store/reducers/movies.ts:19 | The `some` scan is true exactly when some element carries the identifier. Home's `isLikedByUser` membership test (Home.tsx:55-59) is the same test. |
| `Movies.WithoutId` | src/modules/movies/store/reducers/movies.ts:29 | The `filter` result is no longer than its input. An element is in the result exactly when it was in the input and carries a different identifier. |
| `Movies.Reduce` | src/modules/movies/store/reducers/movies.ts:13-34 | Like of a present identifier returns the list unchanged, keeping the stored copy rather than the payload. Like of an absent identifier keeps every earlier element in place and appends the payload. After Unlike no element carries the identifier, and every other element survives. Any other action type returns the state unchanged. |
| `Movies.LikeIdempotent` | src/modules/movies/store/reducers/movies.ts:18-23 | Liking the same movie twice gives the same list as liking it once. |
| `Movies.WithoutIdConcat` | src/modules/movies/store/reducers/movies.ts:29 | Removing an identifier from a concatenation is the concatenation of the two removals. |
| `Movies.UnlikeAbsentIsNoop` | src/modules/movies/store/reducers/movies.ts:26-30 | Unliking a movie whose identifier is not in the list returns the list unchanged. |
| `Movies.LikeThenUnlikeRestores` | src/modules/movies/store/reducers/movies.ts:18-30 | Starting from a list without the movie's identifier, like then unlike returns the original list. |
| `Movies.UnlikeIsStableFilter` | src/modules/movies/store/reducers/movies.ts:26-30 | Unlike is a stable filter. It yields increasing positions in the old list whose elements are exactly the result, in order. These are all the positions whose element does not carry the identifier, and only those. |
| `Movies.UniquePreserved` | src/modules/movies/store/reducers/movies.ts:18-30 | If no two elements share an identifier before any action, none do after it. |
| `Movies.UniqueAlongRun` | src/modules/movies/store/reducers/movies.ts:13-34 | From a duplicate-free list, every sequence of actions reaches a duplicate-free list. |
| `Movies.CountAfterAction` | src/modules/movies/store/reducers/movies.ts:18-30 | On a duplicate-free list, after a like the identifier occurs exactly once. After an unlike it occurs zero times. |
| `LikedMoviesStorage.Decode` | src/modules/shared/utils/likedMoviesStorage.ts:4-12 | A stored array is returned as it is. The result is non-empty only when the key holds that array. So a missing key, empty text, unparsable text and non-array text all give `[]`. |
| `LikedMoviesStorage.SaveThenLoad` | src/modules/shared/utils/likedMoviesStorage.ts:3-21 | Loading after saving `items` gives `items` back, in order, whatever else the storage holds. This relies on the encoding round-tripping exactly, which is assumed (see Left out). |
| `LikedMoviesStorage.LoadLikedMovies` | src/modules/shared/utils/likedMoviesStorage.ts:3-13 | Loading never fails. A missing key or any non-array value gives `[]`, and a stored array is returned as it is. |
| `LikedMoviesStorage.SaveLikedMovies` | src/modules/shared/utils/likedMoviesStorage.ts:15-21 | With writable storage, only the `likedMovies:v1` entry changes, and it becomes the encoding of the list, or of `[]` for a null list. A failing write is reported through `failed` and changes no entry. Every call appends the list and its failure flag to the storage's save log. |
| `ReduxStore.Persisted` | src/modules/core/reduxStore.ts:13 | The subscriber saves the liked list, or `[]` when the list is absent. |
| `ReduxStore.Store.constructor` | src/modules/movies/store/reducers/movies.ts:9-11 | The initial liked list is what loading yields. The store starts out mirroring storage, and no save has happened. |
| `ReduxStore.Store.Dispatch` | src/modules/core/reduxStore.ts:11-14 | The new list is the reducer's result. The storage's save log grows by exactly one entry, even when the list did not change. That entry holds the new list and whether the write failed (and went to `console.error`). With writable storage the slot then mirrors the list; otherwise it is left alone. Uniqueness is preserved. |
| `ReduxStore.Store.LikedMovies` | src/modules/core/reduxStore.ts:12 | `getState` returns the current liked list. |
| `MovieThumb.AttemptsAt` | src/modules/movies/components/MovieThumb/MovieThumb.tsx:28-36 | The k-th click of a run reaches for `unlike` exactly when the flag is set at that point. The flag is then the starting flag, flipped k times. |
| `MovieThumb.AttemptsAlternate` | src/modules/movies/components/MovieThumb/MovieThumb.tsx:28-36 | Successive clicks reach for strictly alternating callbacks. A run starts with `unlike` exactly when the flag started set. |
| `MovieThumb.Made` | src/modules/movies/components/MovieThumb/MovieThumb.tsx:29-33 | An absent callback is never called. With both callbacks given, every attempted call is made, in order. |
| `MovieThumb.MadeOneCallback` | src/modules/movies/components/MovieThumb/MovieThumb.tsx:29-33 | With only `like` given, the calls made are exactly the attempted `like` calls, as many as there were. With only `unlike` given, they are the attempted `unlike` calls. With neither, no call is made. |
| `MovieThumb.Thumb.constructor` | src/modules/movies/components/MovieThumb/MovieThumb.tsx:25 | The flag starts equal to the `likedByUser` prop, and no call has been made. |
| `MovieThumb.Thumb.Click` | src/modules/movies/components/MovieThumb/MovieThumb.tsx:28-36 | While the flag is set, a click calls `unlike` if given and never `like`. Otherwise it calls `like` if given and never `unlike`. The flag flips either way, so two clicks restore it. The calls made stay those of the alternating run. |
| `MovieThumb.ThumbInSync` | src/modules/movies/pages/Home.tsx:114-119 | Take a thumbnail created in step with the liked list, with both callbacks given. Dispatching its calls so far, as like/unlike of its own `movie`, leaves that movie liked exactly when the button's flag is set. |
| `MovieThumb.ClicksKeepFlagInSync` | src/modules/movies/pages/Home.tsx:114-119 | Take a thumbnail whose flag starts equal to the movie's membership in the liked list, with both callbacks bound to dispatch like/unlike of its movie. After any number of clicks, the movie is liked exactly when the flag is set. |

## Left out

- JSON. `JSON.stringify` and `JSON.parse` are abstracted to the `Stored` values `EmptyText`, `Unparsable`, `NonArray` and `ArrayOf(items)`. Loading does not check the elements of a parsed array; the model types them as movies. The model assumes that parsing the text `JSON.stringify` wrote gives back the same list. That holds for records whose fields are all strings, which is why `rest` is a `map<string, string>`. `SaveThenLoad` therefore proves two things: save and load use the same key, and an encoded list is never read back as empty, unparsable or non-array text. It does not prove the JSON round trip itself.
- `getItem` throwing (for example, storage disabled). The source's catch then returns `[]`, the same as for unparsable text. Only failing writes are modelled.
- The text written to `console.error` on a failed save. The model records only that the failure happened, in the failure flag of the save log.
- Redux internals: `createStore`, the devtools enhancer, `combineReducers`, unsubscribing, and every other state slice. The store keeps only `state.movies.likedMovies`. The `movies` slice is always present in it, so the `?? []` fallback of the subscriber is stated by `Persisted` but never taken by `Dispatch`.
- Object identity. The default branch returns the very same state object; in the model states are values.
- The action creators and the action-type constants. Their module is not part of this model, so actions are the datatype `Like | Unlike | Other`.
- React re-rendering. The thumb's flag is set once from the prop and is not resynchronised later. Rendering, styling, routing, translation, the search page's network calls and the detail page are all outside the model.
