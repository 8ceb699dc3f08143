/**
 * The read-modify-write operations of src/storage/library.ts over a store
 * holding the library key and the legacy key. Each method reads the whole
 * state, transforms it, writes it back when the source does, and returns it;
 * its contract ties the result and the new store to the matching pure step
 * of module Library.
 */
module LibraryStore {
  import opened Wrappers
  import opened Keyed
  import opened Storage
  import opened Movies
  import opened Library

  class Store {
    /** The blob under `movie-library:v1`. */
    var lib: Blob<LibraryState>
    /** The blob under the legacy key `watchlist:v1`: read by migration, never written. */
    var legacy: Blob<seq<LegacyItem>>
    /** How many times the library key has been written. */
    ghost var writes: nat

    constructor (lib: Blob<LibraryState>, legacy: Blob<seq<LegacyItem>>)
      ensures this.lib == lib && this.legacy == legacy && writes == 0
    {
      this.lib := lib;
      this.legacy := legacy;
      writes := 0;
    }

    /** `read()`: the decoded library, empty when the key is absent; a decode failure is not caught. */
    function Read(): Result<LibraryState, StoreError>
      reads this
    {
      Load(lib, Empty)
    }

    /** Whatever is stored under the library key satisfies the library's invariants. */
    ghost predicate Consistent()
      reads this
    {
      lib.Stored? ==> Valid(lib.value)
    }

    /** The store after an operation that read `lib0` when `writes0` writes had been made and performed `step`. */
    ghost predicate Committed(lib0: Blob<LibraryState>, writes0: nat, step: Step<LibraryState>)
      reads this
    {
      if step.persist then lib == Stored(step.state) && writes == writes0 + 1
      else lib == lib0 && writes == writes0
    }

    /** `write(state)` */
    method Write(state: LibraryState)
      modifies this`lib, this`writes
      ensures lib == Stored(state) && writes == old(writes) + 1
    {
      lib := Stored(state);
      writes := writes + 1;
    }

    /** `getLibrary()` */
    method GetLibrary() returns (r: Result<LibraryState, StoreError>)
      ensures r.Err? <==> lib.Undecodable?
      ensures lib.Absent? ==> r == Ok(Empty)
      ensures lib.Stored? ==> r == Ok(lib.value)
    {
      r := Read();
    }

    /** `migrateIfNeeded()` */
    method MigrateIfNeeded() returns (r: Result<LibraryState, StoreError>)
      modifies this`lib, this`writes
      ensures old(Read()).Err? ==> r == old(Read()) && lib == old(lib) && writes == old(writes)
      ensures old(Read()).Ok? ==>
                var step := MigrateStep(old(Read()).value, legacy);
                r == Ok(step.state) && Committed(old(lib), old(writes), step)
      ensures old(Consistent()) && (legacy.Stored? ==> Unique(legacy.value, LegacyId)) ==> Consistent()
    {
      var read := Read();
      if read.Err? {
        return Err(read.error);
      }
      var current := read.value;
      if |current.watchlist| > 0 || |current.watched| > 0 {
        return Ok(current);
      }
      match legacy {
        case Absent =>
          return Ok(current);
        case Undecodable =>
          // the decode failure is caught and the unmigrated state returned
          return Ok(current);
        case Stored(oldList) =>
          var migrated := LibraryState(seq(|oldList|, i requires 0 <= i < |oldList| => FromLegacy(oldList[i])), []);
          if old(Consistent()) && Unique(oldList, LegacyId) {
            MigrateValid(current, oldList);
          }
          Write(migrated);
          return Ok(migrated);
      }
    }

    /** `addToWatchlist(movie)` */
    method AddToWatchlist(movie: MovieItem) returns (r: Result<LibraryState, StoreError>)
      modifies this`lib, this`writes
      ensures old(Read()).Err? ==> r == old(Read()) && lib == old(lib) && writes == old(writes)
      ensures old(Read()).Ok? ==>
                var step := AddToWatchlistStep(old(Read()).value, movie);
                r == Ok(step.state) && Committed(old(lib), old(writes), step)
      ensures old(Consistent()) ==> Consistent()
    {
      var read := Read();
      if read.Err? {
        return Err(read.error);
      }
      var state := read.value;
      if old(Consistent()) {
        AddToWatchlistValid(state, movie);
      }
      state := state.(watched := Without(state.watched, WatchedId, movie.imdbID));
      if !Has(state.watchlist, MovieId, movie.imdbID) {
        state := state.(watchlist := [movie] + state.watchlist);
        Write(state);
      }
      return Ok(state);
    }

    /** `removeFromWatchlist(imdbID)` */
    method RemoveFromWatchlist(imdbID: string) returns (r: Result<LibraryState, StoreError>)
      modifies this`lib, this`writes
      ensures old(Read()).Err? ==> r == old(Read()) && lib == old(lib) && writes == old(writes)
      ensures old(Read()).Ok? ==>
                var step := RemoveFromWatchlistStep(old(Read()).value, imdbID);
                r == Ok(step.state) && Committed(old(lib), old(writes), step)
      ensures old(Consistent()) ==> Consistent()
    {
      var read := Read();
      if read.Err? {
        return Err(read.error);
      }
      var state := read.value;
      if old(Consistent()) {
        RemoveFromWatchlistValid(state, imdbID);
      }
      state := state.(watchlist := Without(state.watchlist, MovieId, imdbID));
      Write(state);
      return Ok(state);
    }

    /** `markWatched(movie, userRating)`, with `now` standing for `Date.now()` */
    method MarkWatched(movie: MovieItem, userRating: Option<int>, now: int) returns (r: Result<LibraryState, StoreError>)
      modifies this`lib, this`writes
      ensures old(Read()).Err? ==> r == old(Read()) && lib == old(lib) && writes == old(writes)
      ensures old(Read()).Ok? ==>
                var step := MarkWatchedStep(old(Read()).value, movie, userRating, now);
                r == Ok(step.state) && Committed(old(lib), old(writes), step)
      ensures old(Consistent()) ==> Consistent()
    {
      var read := Read();
      if read.Err? {
        return Err(read.error);
      }
      var state := read.value;
      if old(Consistent()) {
        MarkWatchedValid(state, movie, userRating, now);
      }
      state := state.(watchlist := Without(state.watchlist, MovieId, movie.imdbID));
      if !Has(state.watched, WatchedId, movie.imdbID) {
        state := state.(watched := [Stamp(movie, now, userRating)] + state.watched);
        Write(state);
      }
      return Ok(state);
    }

    /** `unwatch(imdbID)` */
    method Unwatch(imdbID: string) returns (r: Result<LibraryState, StoreError>)
      modifies this`lib, this`writes
      ensures old(Read()).Err? ==> r == old(Read()) && lib == old(lib) && writes == old(writes)
      ensures old(Read()).Ok? ==>
                var step := UnwatchStep(old(Read()).value, imdbID);
                r == Ok(step.state) && Committed(old(lib), old(writes), step)
      ensures old(Consistent()) ==> Consistent()
    {
      var read := Read();
      if read.Err? {
        return Err(read.error);
      }
      var state := read.value;
      if old(Consistent()) {
        UnwatchValid(state, imdbID);
      }
      var found := Find(state.watched, WatchedId, imdbID);
      state := state.(watched := Without(state.watched, WatchedId, imdbID));
      if found.Some? && !Has(state.watchlist, MovieId, imdbID) {
        var entry := found.value;
        state := state.(watchlist := [MovieItem(imdbID, entry.title, entry.year, entry.poster)] + state.watchlist);
      }
      Write(state);
      return Ok(state);
    }
  }
}
