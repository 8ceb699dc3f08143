# Pocket watchlist: local library storage, modelled in Dafny

This project models the local persistence layer of a small movie-watchlist
app. Two independent stores are covered.

- **The combined library** (`src/storage/library.ts`, key `movie-library:v1`)
  holds a `LibraryState`: a `watchlist` of `MovieItem` and a `watched` list of
  `WatchedItem`, both newest first. `addToWatchlist`, `removeFromWatchlist`,
  `markWatched` and `unwatch` each read the whole state, transform it with
  `filter`/`some`/`find`, conditionally write it back and return it.
  `migrateIfNeeded` imports the legacy single-list record (key `watchlist:v1`)
  whenever both lists are empty. It is a no-op once either list has an entry;
  while the legacy list is stored but empty, each run writes the empty
  library again.
- **The standalone watchlist** (`src/storage/watchlist.ts`, key
  `movie-watchlist:v1`) is one list of `WatchlistMovie` with an idempotent
  add-at-front that stamps `addedAt` and a filter-remove. Migration reads a
  different key, so it never sees this list.

Layout:

- `wrappers.dfy`: `Option` and `Result`.
- `keyed.dfy` (module `Keyed`): the source's `some`, `find` and `filter` by
  `imdbID`, defined once for any record type. `Unique` says no id occurs twice.
- `storage.dfy` (module `Storage`): a key's blob as a decoded value (`Absent`,
  `Stored(v)`, `Undecodable`), the decode rule both files share, and
  `Step<S>`. A `Step` is the value an operation returns plus whether it
  writes that value back.
- `movies.dfy` (module `Movies`): `MovieItem`, the catalog record.
- `library.dfy` (module `Library`): the library's data model and its
  invariant `Valid`. Ids are unique in each list, and no id is in both.
  It also holds one pure step function per exported operation, and the
  lemmas about them.
- `library_store.dfy` (module `LibraryStore`): class `Store`. Its fields are
  the library blob, the legacy blob and a ghost write counter. Each method
  follows the source statement by statement and is proved equal to its step
  function. Each mutating method keeps `Consistent()` (a stored library is
  `Valid`); `MigrateIfNeeded` does so when the legacy ids are unique.
- `watchlist.dfy` (module `Watchlist`): the standalone list, with its step
  functions, lemmas and class `WatchlistStore`.

Decoding follows the code. `read()` and `getWatchlist()` have no `catch`
(src/storage/library.ts:27-29, src/storage/watchlist.ts:15). An undecodable
blob therefore makes every operation fail with `Err(DecodeFailed)` and write
nothing. Only migration swallows a decode failure, and only for the legacy
blob (src/storage/library.ts:65-66). The model keeps the source's field names,
lower-cased where Dafny style asks for it.

## Model

| member | source | states |
|---|---|---|
| Keyed.Find | src/storage/library.ts:115 | `find` by id returns an element exactly when one has that id, and the element it returns is in the list and has that id |
| Keyed.FindFirst | src/storage/library.ts:115 | `find` returns the first element carrying the id |
| Keyed.FindUnique | src/storage/library.ts:115 | in a list with unique ids, `find` returns the one element carrying the id |
| Keyed.Without | src/storage/library.ts:78 | the filter keeps exactly the elements whose id differs, so afterwards the id is absent and every other id is as before; it never grows the list, and without the id the list is unchanged |
| Keyed.WithoutAppend | src/storage/library.ts:90 | the filter distributes over concatenation, so kept elements keep their relative order |
| Keyed.WithoutUnique | src/storage/library.ts:99 | the filter preserves uniqueness of ids |
| Keyed.WithoutUniqueAt | src/storage/library.ts:116 | in a list with unique ids, filtering the id of element i removes exactly element i |
| Keyed.PrependUnique | src/storage/library.ts:80-81 | prepending an element whose id is not in the list (the `some` guard) preserves uniqueness |
| Library.AddToWatchlistStep | src/storage/library.ts:74-86 | afterwards the id is on the watchlist; watched is the old list filtered by the id, so its other entries keep their order; it writes iff the id was not on the watchlist, and then the movie is in front of the old watchlist; otherwise the watchlist is unchanged |
| Library.RemoveFromWatchlistStep | src/storage/library.ts:88-93 | always writes; watched is untouched; the watchlist is the old one filtered by the id, so the other entries keep their order; the id leaves and every other id stays; an absent id leaves the state unchanged |
| Library.MarkWatchedStep | src/storage/library.ts:95-111 | afterwards the watchlist is the old list filtered by the id, so its other entries keep their order, and the id is in watched; it writes iff the id was not watched, and then `{...movie, watchedAt: now, userRating}` is in front of the old watched list; otherwise watched is unchanged |
| Library.UnwatchStep | src/storage/library.ts:113-126 | always writes; watched is the old list filtered by the id, so its other entries keep their order; a found entry ends up on the watchlist, in front as the bare movie of the first matching entry when the id was not already there; an id not in watched leaves the state unchanged |
| Library.MigrateStep | src/storage/library.ts:40-68 | with a non-empty list, or with the legacy key absent or undecodable, it returns the current state and does not write; otherwise it writes a state with watched empty and the watchlist the legacy list mapped to bare movies, of the same length and order |
| Library.AddToWatchlistValid | src/storage/library.ts:74-86 | `addToWatchlist` preserves the invariants, and when it does not write, the state it returns is the stored state |
| Library.RemoveFromWatchlistValid | src/storage/library.ts:88-93 | `removeFromWatchlist` preserves the invariants |
| Library.MarkWatchedValid | src/storage/library.ts:95-111 | `markWatched` preserves the invariants, and when it does not write, the state it returns is the stored state |
| Library.UnwatchValid | src/storage/library.ts:113-126 | `unwatch` preserves the invariants |
| Library.MigrateValid | src/storage/library.ts:53-61 | migration of a legacy list with unique ids yields a library satisfying the invariants |
| Library.AddToWatchlistIdempotent | src/storage/library.ts:75-85 | a second identical `addToWatchlist`, reading what the first left in the store, writes nothing and returns the state the first call returned |
| Library.MarkWatchedIdempotent | src/storage/library.ts:101-108 | a second `markWatched` of the same movie, at any time and with any rating, writes nothing, and the entry keeps the first call's `watchedAt` and `userRating` |
| Library.UnwatchRestores | src/storage/library.ts:113-126 | in a valid library, unwatching the entry at position i puts its bare movie in front of the watchlist and removes exactly that entry from watched |
| Library.MarkWatchedThenAdd | src/storage/library.ts:74-111 | in a valid library, `markWatched(m)` then `addToWatchlist(m)` on what the first call left in the store writes; afterwards m is only on the watchlist, in front, and every other entry is in its old place |
| Library.MigrateIdempotent | src/storage/library.ts:40-68 | running migration twice yields the state of running it once; the second run writes exactly when the library was empty and the stored legacy list is empty |
| Library.RunValid | src/storage/library.ts:74-126 | after any sequence of the four mutations from a valid state, each reading what the previous one stored, no id is in both lists and none occurs twice in one list |
| LibraryStore.Store.constructor | src/storage/library.ts:20-23 | a store with the given library blob and legacy blob, and no writes yet |
| LibraryStore.Store.Write | src/storage/library.ts:32-34 | `write(state)` replaces the library blob by the state and counts one write |
| LibraryStore.Store.GetLibrary | src/storage/library.ts:70-72 | returns the stored library, empty for an absent key, and fails on an undecodable blob; it changes nothing |
| LibraryStore.Store.MigrateIfNeeded | src/storage/library.ts:40-68 | fails with no write on an undecodable library blob; otherwise returns `MigrateStep`'s state and writes exactly when it does; a consistent store stays consistent when the legacy ids are unique |
| LibraryStore.Store.AddToWatchlist | src/storage/library.ts:74-86 | fails with no write on an undecodable blob; otherwise returns `AddToWatchlistStep`'s state and writes it exactly when that step writes; keeps the store consistent |
| LibraryStore.Store.RemoveFromWatchlist | src/storage/library.ts:88-93 | fails with no write on an undecodable blob; otherwise returns and always writes `RemoveFromWatchlistStep`'s state; keeps the store consistent |
| LibraryStore.Store.MarkWatched | src/storage/library.ts:95-111 | fails with no write on an undecodable blob; otherwise returns `MarkWatchedStep`'s state and writes it exactly when that step writes; keeps the store consistent |
| LibraryStore.Store.Unwatch | src/storage/library.ts:113-126 | fails with no write on an undecodable blob; otherwise returns and always writes `UnwatchStep`'s state; keeps the store consistent |
| Watchlist.AddMovieStep | src/storage/watchlist.ts:22-36 | writes iff the id is new; a known id leaves the list unchanged; a new one is prepended as `{...movie, addedAt: now}` ahead of the unchanged old list; afterwards the ids are the old ids plus this one |
| Watchlist.RemoveMovieStep | src/storage/watchlist.ts:38-44 | always writes; the list is the old one filtered by the id, so the other entries keep their order; the id leaves and every other id stays; an absent id leaves the list unchanged |
| Watchlist.AddMovieKeepsUnique | src/storage/watchlist.ts:27-33 | adding preserves uniqueness of ids |
| Watchlist.RemoveMovieKeepsUnique | src/storage/watchlist.ts:40 | removing preserves uniqueness of ids |
| Watchlist.AddMovieIdempotent | src/storage/watchlist.ts:27 | adding the same id again, at any time, writes nothing and keeps the first `addedAt` |
| Watchlist.AddThenRemove | src/storage/watchlist.ts:22-44 | adding a new id and then removing it gives back the original list |
| Watchlist.WatchlistStore.constructor | src/storage/watchlist.ts:11 | a store with the given list blob and no writes yet |
| Watchlist.WatchlistStore.GetWatchlist | src/storage/watchlist.ts:13-16 | returns `[]` for an absent key and the stored list otherwise; fails on an undecodable blob |
| Watchlist.WatchlistStore.SaveWatchlist | src/storage/watchlist.ts:18-20 | replaces the blob by the list and counts one write |
| Watchlist.WatchlistStore.AddMovieToWatchlist | src/storage/watchlist.ts:22-36 | fails with no write on an undecodable blob; otherwise returns `AddMovieStep`'s list and writes it exactly when the id was new; keeps ids unique |
| Watchlist.WatchlistStore.RemoveMovieFromWatchlist | src/storage/watchlist.ts:38-44 | fails with no write on an undecodable blob; otherwise returns and always writes `RemoveMovieStep`'s list; keeps ids unique |

## Left out

- JSON text: the stores hold decoded values, not strings. `JSON.stringify`/`JSON.parse` and a string round trip are not modelled. Any blob that does not decode to the expected shape is one `Undecodable` value.
- Library blobs that parse but have the wrong shape, such as `null` or an object missing a list: the model treats them as undecodable, so every operation fails on them and writes nothing. In the source, `getLibrary` returns such a value as it is, and the other operations throw only if they touch the missing field. Cases the model does not capture:
  - `removeFromWatchlist` on `{"watchlist":[]}` never reads `watched` and writes (src/storage/library.ts:89-91).
  - `unwatch` of an absent id on `{"watched":[]}` never reads `watchlist` and writes (src/storage/library.ts:119, 124).
  - `migrateIfNeeded` on `{"watchlist":[x]}` returns at src/storage/library.ts:42-43 without touching `watched`.
- Legacy blobs that parse but hold records of the wrong shape, such as `[1]` or `[{"imdbID":"tt1"}]`: the source's destructuring does not throw, so it migrates and writes records with undefined fields (src/storage/library.ts:54-63). The model treats such a blob as undecodable, so migration is a no-op for it.
- Migration does not remove duplicate legacy ids. A legacy list with a repeated id yields a library with that id twice on the watchlist; `Library.MigrateValid` therefore assumes unique legacy ids.
- A rejected `AsyncStorage.setItem` is not modelled; writes always succeed. In `migrateIfNeeded` the `catch` would also swallow a failed write.
- Asynchrony and the read-modify-write race between overlapping calls are not modelled. Each operation is one sequential, atomic method.
- `Date.now()` becomes a `now: int` parameter; there is no clock.
- `userRating` (a JavaScript number) is `Option<int>`, so a fractional rating cannot be represented. The code enforces no 1–10 bound, and neither does the model.
- Spread copies any extra runtime fields of the argument object into storage. The model's records carry only the declared fields.
- The app's screens use `watchlist.ts` for the watchlist tab and the detail screen, and `library.ts` for the watched tab. Mutual exclusion between the two lists as the user sees them is therefore not enforced across the two stores. The model keeps the stores independent, as the code does.
- src/api/omdb.ts (the catalog HTTP client), app.config.ts and the UI screens are not part of this model.
