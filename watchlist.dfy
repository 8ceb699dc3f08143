/**
 * The standalone single-list store of src/storage/watchlist.ts, kept under
 * its own key `movie-watchlist:v1`. It is independent of the combined
 * library: migration reads a different key and never sees this list.
 */
module Watchlist {
  import opened Wrappers
  import opened Keyed
  import opened Storage
  import opened Movies

  /** A saved movie: the catalog record plus when it was added. */
  datatype WatchlistMovie = WatchlistMovie(imdbID: string, title: string, year: string, poster: string, addedAt: int)

  function SavedId(m: WatchlistMovie): string { m.imdbID }

  /** `{ ...movie, addedAt }` */
  function Added(movie: MovieItem, addedAt: int): WatchlistMovie {
    WatchlistMovie(movie.imdbID, movie.title, movie.year, movie.poster, addedAt)
  }

  /** `addMovieToWatchlist(movie)` at time `now`: a known id leaves the list alone; a new one goes in front, stamped. */
  function AddMovieStep(current: seq<WatchlistMovie>, movie: MovieItem, now: int): (r: Step<seq<WatchlistMovie>>)
    ensures r.persist <==> !Has(current, SavedId, movie.imdbID)
    ensures !r.persist ==> r.state == current
    ensures r.persist ==> |r.state| == |current| + 1 && r.state[0] == Added(movie, now) && r.state[1..] == current
    ensures forall id :: Has(r.state, SavedId, id) <==> Has(current, SavedId, id) || id == movie.imdbID
  {
    if Has(current, SavedId, movie.imdbID) then Step(current, false)
    else
      HasCons([Added(movie, now)] + current, SavedId);
      Step([Added(movie, now)] + current, true)
  }

  /** `removeMovieFromWatchlist(imdbID)`: filter out the id; always written back. */
  function RemoveMovieStep(current: seq<WatchlistMovie>, imdbID: string): (r: Step<seq<WatchlistMovie>>)
    ensures r.persist
    ensures r.state == Without(current, SavedId, imdbID)
    ensures forall id :: Has(r.state, SavedId, id) <==> Has(current, SavedId, id) && id != imdbID
    ensures !Has(current, SavedId, imdbID) ==> r.state == current
  {
    Step(Without(current, SavedId, imdbID), true)
  }

  /** Adding keeps ids unique. */
  lemma AddMovieKeepsUnique(current: seq<WatchlistMovie>, movie: MovieItem, now: int)
    requires Unique(current, SavedId)
    ensures Unique(AddMovieStep(current, movie, now).state, SavedId)
  {
    if !Has(current, SavedId, movie.imdbID) {
      PrependUnique(Added(movie, now), current, SavedId);
    }
  }

  /** Removing keeps ids unique. */
  lemma RemoveMovieKeepsUnique(current: seq<WatchlistMovie>, imdbID: string)
    requires Unique(current, SavedId)
    ensures Unique(RemoveMovieStep(current, imdbID).state, SavedId)
  {
    WithoutUnique(current, SavedId, imdbID);
  }

  /** Adding the same id again, at any later time, writes nothing and keeps the first stamp. */
  lemma AddMovieIdempotent(current: seq<WatchlistMovie>, movie: MovieItem, now1: int, now2: int)
    ensures var once := AddMovieStep(current, movie, now1).state;
            AddMovieStep(once, movie, now2) == Step(once, false)
  {
  }

  /** Adding a new id and then removing it gives back the original list. */
  lemma AddThenRemove(current: seq<WatchlistMovie>, movie: MovieItem, now: int)
    requires !Has(current, SavedId, movie.imdbID)
    ensures RemoveMovieStep(AddMovieStep(current, movie, now).state, movie.imdbID).state == current
  {
  }

  class WatchlistStore {
    /** The blob under `movie-watchlist:v1`. */
    var list: Blob<seq<WatchlistMovie>>
    /** How many times the key has been written. */
    ghost var writes: nat

    constructor (list: Blob<seq<WatchlistMovie>>)
      ensures this.list == list && writes == 0
    {
      this.list := list;
      writes := 0;
    }

    /** The stored list has no duplicate ids. */
    ghost predicate Consistent()
      reads this
    {
      list.Stored? ==> Unique(list.value, SavedId)
    }

    /** `getWatchlist()`: the decoded list, empty when the key is absent; a decode failure is not caught. */
    method GetWatchlist() returns (r: Result<seq<WatchlistMovie>, StoreError>)
      ensures r.Err? <==> list.Undecodable?
      ensures list.Absent? ==> r == Ok([])
      ensures list.Stored? ==> r == Ok(list.value)
    {
      r := Load(list, []);
    }

    /** `saveWatchlist(updated)` */
    method SaveWatchlist(updated: seq<WatchlistMovie>)
      modifies this
      ensures list == Stored(updated) && writes == old(writes) + 1
    {
      list := Stored(updated);
      writes := writes + 1;
    }

    /** `addMovieToWatchlist(movie)`, with `now` standing for `Date.now()` */
    method AddMovieToWatchlist(movie: MovieItem, now: int) returns (r: Result<seq<WatchlistMovie>, StoreError>)
      modifies this
      ensures old(list).Undecodable? ==> r.Err? && list == old(list) && writes == old(writes)
      ensures !old(list).Undecodable? ==>
                var step := AddMovieStep(Load(old(list), []).value, movie, now);
                r == Ok(step.state) &&
                (if step.persist then list == Stored(step.state) && writes == old(writes) + 1
                 else list == old(list) && writes == old(writes))
      ensures old(Consistent()) ==> Consistent()
    {
      var current := GetWatchlist();
      if current.Err? {
        return Err(current.error);
      }
      if Has(current.value, SavedId, movie.imdbID) {
        return current;
      }
      var updated := [Added(movie, now)] + current.value;
      if old(Consistent()) {
        AddMovieKeepsUnique(current.value, movie, now);
      }
      SaveWatchlist(updated);
      return Ok(updated);
    }

    /** `removeMovieFromWatchlist(imdbID)` */
    method RemoveMovieFromWatchlist(imdbID: string) returns (r: Result<seq<WatchlistMovie>, StoreError>)
      modifies this
      ensures old(list).Undecodable? ==> r.Err? && list == old(list) && writes == old(writes)
      ensures !old(list).Undecodable? ==>
                var step := RemoveMovieStep(Load(old(list), []).value, imdbID);
                r == Ok(step.state) && list == Stored(step.state) && writes == old(writes) + 1
      ensures old(Consistent()) ==> Consistent()
    {
      var current := GetWatchlist();
      if current.Err? {
        return Err(current.error);
      }
      var updated := Without(current.value, SavedId, imdbID);
      if old(Consistent()) {
        RemoveMovieKeepsUnique(current.value, imdbID);
      }
      SaveWatchlist(updated);
      return Ok(updated);
    }
  }
}
