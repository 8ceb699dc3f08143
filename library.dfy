/**
 * The combined library of src/storage/library.ts: a watchlist and a watched
 * list, both newest first, and the pure transformation each exported
 * operation applies to the state it reads.
 */
module Library {
  import opened Wrappers
  import opened Keyed
  import opened Storage
  import opened Movies

  /** A watched movie: the catalog record plus when it was marked watched and an optional rating. */
  datatype WatchedItem = WatchedItem(imdbID: string, title: string, year: string, poster: string,
                                     watchedAt: int, userRating: Option<int>)

  datatype LibraryState = LibraryState(watchlist: seq<MovieItem>, watched: seq<WatchedItem>)

  /** A record of the legacy single-list format, with its optional `addedAt` stamp. */
  datatype LegacyItem = LegacyItem(imdbID: string, title: string, year: string, poster: string,
                                   addedAt: Option<int>)

  /** What `read()` yields when the library key is absent. */
  const Empty := LibraryState([], [])

  function WatchedId(w: WatchedItem): string { w.imdbID }

  function LegacyId(l: LegacyItem): string { l.imdbID }

  /** `{ ...movie, watchedAt, userRating }` */
  function Stamp(movie: MovieItem, watchedAt: int, userRating: Option<int>): WatchedItem {
    WatchedItem(movie.imdbID, movie.title, movie.year, movie.poster, watchedAt, userRating)
  }

  /** `{ imdbID, Title, Year, Poster }` taken from a watched entry. */
  function Unstamp(w: WatchedItem): MovieItem {
    MovieItem(w.imdbID, w.title, w.year, w.poster)
  }

  /** `{ imdbID, Title, Year, Poster }` taken from a legacy record, dropping `addedAt`. */
  function FromLegacy(l: LegacyItem): MovieItem {
    MovieItem(l.imdbID, l.title, l.year, l.poster)
  }

  /** No movie is both on the watchlist and watched. */
  predicate Disjoint(watchlist: seq<MovieItem>, watched: seq<WatchedItem>) {
    forall i :: 0 <= i < |watchlist| ==> !Has(watched, WatchedId, watchlist[i].imdbID)
  }

  /** The library's invariants: ids unique within each list and no id in both. */
  predicate Valid(s: LibraryState) {
    Unique(s.watchlist, MovieId) && Unique(s.watched, WatchedId) && Disjoint(s.watchlist, s.watched)
  }

  /** `addToWatchlist(movie)`: drop it from watched; put it in front of the watchlist unless already there. */
  function AddToWatchlistStep(s: LibraryState, movie: MovieItem): (r: Step<LibraryState>)
    ensures Has(r.state.watchlist, MovieId, movie.imdbID)
    ensures !Has(r.state.watched, WatchedId, movie.imdbID)
    ensures r.persist <==> !Has(s.watchlist, MovieId, movie.imdbID)
    ensures r.persist ==> r.state.watchlist == [movie] + s.watchlist
    ensures !r.persist ==> r.state.watchlist == s.watchlist
    ensures r.state.watched == Without(s.watched, WatchedId, movie.imdbID)
    ensures forall id :: Has(r.state.watched, WatchedId, id) <==> Has(s.watched, WatchedId, id) && id != movie.imdbID
  {
    var watched := Without(s.watched, WatchedId, movie.imdbID);
    if Has(s.watchlist, MovieId, movie.imdbID) then
      Step(LibraryState(s.watchlist, watched), false)
    else
      HasCons([movie] + s.watchlist, MovieId);
      Step(LibraryState([movie] + s.watchlist, watched), true)
  }

  /** `removeFromWatchlist(id)`: filter the watchlist; always written back. */
  function RemoveFromWatchlistStep(s: LibraryState, id: string): (r: Step<LibraryState>)
    ensures r.persist
    ensures r.state.watched == s.watched
    ensures r.state.watchlist == Without(s.watchlist, MovieId, id)
    ensures !Has(r.state.watchlist, MovieId, id)
    ensures forall other :: Has(r.state.watchlist, MovieId, other) <==> Has(s.watchlist, MovieId, other) && other != id
    ensures !Has(s.watchlist, MovieId, id) ==> r.state == s
  {
    Step(LibraryState(Without(s.watchlist, MovieId, id), s.watched), true)
  }

  /** `markWatched(movie, userRating)` at time `now`: drop it from the watchlist; stamp it in front of watched unless already watched. */
  function MarkWatchedStep(s: LibraryState, movie: MovieItem, userRating: Option<int>, now: int): (r: Step<LibraryState>)
    ensures !Has(r.state.watchlist, MovieId, movie.imdbID)
    ensures Has(r.state.watched, WatchedId, movie.imdbID)
    ensures r.persist <==> !Has(s.watched, WatchedId, movie.imdbID)
    ensures r.persist ==> r.state.watched == [Stamp(movie, now, userRating)] + s.watched
    ensures !r.persist ==> r.state.watched == s.watched
    ensures r.state.watchlist == Without(s.watchlist, MovieId, movie.imdbID)
    ensures forall id :: Has(r.state.watchlist, MovieId, id) <==> Has(s.watchlist, MovieId, id) && id != movie.imdbID
  {
    var watchlist := Without(s.watchlist, MovieId, movie.imdbID);
    if Has(s.watched, WatchedId, movie.imdbID) then
      Step(LibraryState(watchlist, s.watched), false)
    else
      HasCons([Stamp(movie, now, userRating)] + s.watched, WatchedId);
      Step(LibraryState(watchlist, [Stamp(movie, now, userRating)] + s.watched), true)
  }

  /**
   * `unwatch(id)`: drop it from watched; if a watched entry was found and the
   * id is not on the watchlist, put the bare movie in front of the watchlist.
   * Always written back.
   */
  function UnwatchStep(s: LibraryState, id: string): (r: Step<LibraryState>)
    ensures r.persist
    ensures r.state.watched == Without(s.watched, WatchedId, id)
    ensures !Has(r.state.watched, WatchedId, id)
    ensures forall other :: Has(r.state.watched, WatchedId, other) <==> Has(s.watched, WatchedId, other) && other != id
    ensures Has(s.watched, WatchedId, id) ==> Has(r.state.watchlist, MovieId, id)
    ensures !Has(s.watched, WatchedId, id) ==> r.state == s
    ensures Has(s.watchlist, MovieId, id) ==> r.state.watchlist == s.watchlist
    ensures Has(s.watched, WatchedId, id) && !Has(s.watchlist, MovieId, id) ==>
              r.state.watchlist == [Unstamp(Find(s.watched, WatchedId, id).value)] + s.watchlist
  {
    var found := Find(s.watched, WatchedId, id);
    var watched := Without(s.watched, WatchedId, id);
    if found.Some? && !Has(s.watchlist, MovieId, id) then
      var w := found.value;
      var movie := MovieItem(id, w.title, w.year, w.poster);
      HasCons([movie] + s.watchlist, MovieId);
      Step(LibraryState([movie] + s.watchlist, watched), true)
    else
      Step(LibraryState(s.watchlist, watched), true)
  }

  /**
   * `migrateIfNeeded()` given the current state and the legacy key's blob:
   * only when both lists are empty and the legacy blob decodes does it
   * replace the state with the legacy list, mapped to bare movies.
   */
  function MigrateStep(current: LibraryState, legacy: Blob<seq<LegacyItem>>): (r: Step<LibraryState>)
    ensures (|current.watchlist| > 0 || |current.watched| > 0) ==> r == Step(current, false)
    ensures !legacy.Stored? ==> r == Step(current, false)
    ensures r.persist <==> current == Empty && legacy.Stored?
    ensures r.persist ==> r.state.watched == [] && |r.state.watchlist| == |legacy.value|
    ensures r.persist ==> forall i :: 0 <= i < |legacy.value| ==>
              r.state.watchlist[i] == MovieItem(legacy.value[i].imdbID, legacy.value[i].title,
                                                legacy.value[i].year, legacy.value[i].poster)
  {
    if |current.watchlist| > 0 || |current.watched| > 0 then Step(current, false)
    else match legacy
      case Absent => Step(current, false)
      case Undecodable => Step(current, false)
      case Stored(items) => Step(LibraryState(seq(|items|, i requires 0 <= i < |items| => FromLegacy(items[i])), []), true)
  }

  // ---------------------------------------------------------------------------
  // Invariants preserved by every mutation

  lemma AddToWatchlistValid(s: LibraryState, movie: MovieItem)
    requires Valid(s)
    ensures Valid(AddToWatchlistStep(s, movie).state)
    ensures !AddToWatchlistStep(s, movie).persist ==> AddToWatchlistStep(s, movie).state == s
  {
    var r := AddToWatchlistStep(s, movie);
    WithoutUnique(s.watched, WatchedId, movie.imdbID);
    if r.persist {
      PrependUnique(movie, s.watchlist, MovieId);
    }
  }

  lemma RemoveFromWatchlistValid(s: LibraryState, id: string)
    requires Valid(s)
    ensures Valid(RemoveFromWatchlistStep(s, id).state)
  {
    WithoutUnique(s.watchlist, MovieId, id);
    var r := RemoveFromWatchlistStep(s, id).state;
    forall i | 0 <= i < |r.watchlist| ensures !Has(r.watched, WatchedId, r.watchlist[i].imdbID) {
      var j :| 0 <= j < |s.watchlist| && s.watchlist[j] == r.watchlist[i];
    }
  }

  lemma MarkWatchedValid(s: LibraryState, movie: MovieItem, userRating: Option<int>, now: int)
    requires Valid(s)
    ensures Valid(MarkWatchedStep(s, movie, userRating, now).state)
    ensures !MarkWatchedStep(s, movie, userRating, now).persist ==> MarkWatchedStep(s, movie, userRating, now).state == s
  {
    var r := MarkWatchedStep(s, movie, userRating, now);
    WithoutUnique(s.watchlist, MovieId, movie.imdbID);
    if r.persist {
      PrependUnique(Stamp(movie, now, userRating), s.watched, WatchedId);
    } else {
      assert !Has(s.watchlist, MovieId, movie.imdbID);
    }
    forall i | 0 <= i < |r.state.watchlist| ensures !Has(r.state.watched, WatchedId, r.state.watchlist[i].imdbID) {
      var j :| 0 <= j < |s.watchlist| && s.watchlist[j] == r.state.watchlist[i];
    }
  }

  lemma UnwatchValid(s: LibraryState, id: string)
    requires Valid(s)
    ensures Valid(UnwatchStep(s, id).state)
  {
    var r := UnwatchStep(s, id).state;
    WithoutUnique(s.watched, WatchedId, id);
    if Has(s.watched, WatchedId, id) && !Has(s.watchlist, MovieId, id) {
      PrependUnique(r.watchlist[0], s.watchlist, MovieId);
      assert r.watchlist == [r.watchlist[0]] + s.watchlist;
    }
    forall i | 0 <= i < |r.watchlist| ensures !Has(r.watched, WatchedId, r.watchlist[i].imdbID) {
      if r.watchlist[i].imdbID != id {
        if r.watchlist != s.watchlist {
          assert r.watchlist == [r.watchlist[0]] + s.watchlist;
          assert i > 0 && r.watchlist[i] == s.watchlist[i - 1];
        }
      }
    }
  }

  /** Migration yields a valid library when the legacy list has no duplicate ids. */
  lemma MigrateValid(current: LibraryState, items: seq<LegacyItem>)
    requires Valid(current) && Unique(items, LegacyId)
    ensures Valid(MigrateStep(current, Stored(items)).state)
  {
  }

  // ---------------------------------------------------------------------------
  // Idempotence and interplay of operations

  /** What the store holds after a step performed on the stored state `s`: the new state if it was written, else `s`. */
  function StoreAfter(s: LibraryState, step: Step<LibraryState>): LibraryState {
    if step.persist then step.state else s
  }

  /**
   * A second identical `addToWatchlist`, reading what the first left in the
   * store, writes nothing and returns the state the first call returned.
   */
  lemma AddToWatchlistIdempotent(s: LibraryState, movie: MovieItem)
    ensures var first := AddToWatchlistStep(s, movie);
            AddToWatchlistStep(StoreAfter(s, first), movie) == Step(first.state, false)
  {
  }

  /**
   * A second `markWatched` for the same movie, at any time and with any
   * rating, writes nothing and keeps the entry the first call stamped.
   */
  lemma MarkWatchedIdempotent(s: LibraryState, movie: MovieItem, rating1: Option<int>, now1: int,
                              rating2: Option<int>, now2: int)
    requires !Has(s.watched, WatchedId, movie.imdbID)
    ensures var once := MarkWatchedStep(s, movie, rating1, now1).state;
            MarkWatchedStep(once, movie, rating2, now2) == Step(once, false) &&
            Find(once.watched, WatchedId, movie.imdbID) == Some(Stamp(movie, now1, rating1))
  {
  }

  /** `unwatch` of a watched movie in a valid library moves exactly that entry's movie to the front of the watchlist. */
  lemma UnwatchRestores(s: LibraryState, i: nat)
    requires Valid(s) && i < |s.watched|
    ensures var r := UnwatchStep(s, s.watched[i].imdbID).state;
            r.watchlist == [Unstamp(s.watched[i])] + s.watchlist &&
            r.watched == s.watched[..i] + s.watched[i + 1..]
  {
    var id := s.watched[i].imdbID;
    FindUnique(s.watched, WatchedId, i);
    WithoutUniqueAt(s.watched, WatchedId, i);
    assert !Has(s.watchlist, MovieId, id);
  }

  /**
   * In a valid library, `markWatched(m)` followed by `addToWatchlist(m)`,
   * which reads what the first call left in the store, writes and leaves `m`
   * only on the watchlist, at its front, with every other entry where it was.
   */
  lemma MarkWatchedThenAdd(s: LibraryState, movie: MovieItem, userRating: Option<int>, now: int)
    requires Valid(s)
    ensures var r := AddToWatchlistStep(StoreAfter(s, MarkWatchedStep(s, movie, userRating, now)), movie);
            r.persist &&
            r.state.watchlist == [movie] + Without(s.watchlist, MovieId, movie.imdbID) &&
            r.state.watched == Without(s.watched, WatchedId, movie.imdbID)
  {
  }

  /**
   * Running migration twice yields the state of running it once; the second
   * run writes again only when it found an empty library and the legacy list
   * is stored but empty.
   */
  lemma MigrateIdempotent(current: LibraryState, legacy: Blob<seq<LegacyItem>>)
    ensures var once := MigrateStep(current, legacy).state;
            MigrateStep(once, legacy).state == once &&
            (MigrateStep(once, legacy).persist <==> current == Empty && legacy == Stored([]))
  {
  }

  // ---------------------------------------------------------------------------
  // Any sequence of mutations

  /** The four mutating operations, with the timestamp `markWatched` reads from the clock. */
  datatype Op =
    | AddToWatchlist(movie: MovieItem)
    | RemoveFromWatchlist(id: string)
    | MarkWatched(movie: MovieItem, userRating: Option<int>, now: int)
    | Unwatch(id: string)

  function Apply(s: LibraryState, op: Op): Step<LibraryState> {
    match op
    case AddToWatchlist(m) => AddToWatchlistStep(s, m)
    case RemoveFromWatchlist(id) => RemoveFromWatchlistStep(s, id)
    case MarkWatched(m, rating, now) => MarkWatchedStep(s, m, rating, now)
    case Unwatch(id) => UnwatchStep(s, id)
  }

  /**
   * The stored state after performing `ops` in order; each operation reads
   * the store afresh, so it sees what the previous one wrote, not what it
   * returned.
   */
  function Run(s: LibraryState, ops: seq<Op>): LibraryState
    decreases |ops|
  {
    if ops == [] then s else Run(StoreAfter(s, Apply(s, ops[0])), ops[1..])
  }

  /** No sequence of mutations ever puts an id in both lists, or twice in one list. */
  lemma {:induction false} RunValid(s: LibraryState, ops: seq<Op>)
    requires Valid(s)
    ensures Valid(Run(s, ops))
    decreases |ops|
  {
    if ops != [] {
      match ops[0] {
        case AddToWatchlist(m) => AddToWatchlistValid(s, m);
        case RemoveFromWatchlist(id) => RemoveFromWatchlistValid(s, id);
        case MarkWatched(m, rating, now) => MarkWatchedValid(s, m, rating, now);
        case Unwatch(id) => UnwatchValid(s, id);
      }
      RunValid(StoreAfter(s, Apply(s, ops[0])), ops[1..]);
    }
  }
}
