/** The catalog record both stores keep: identity plus display data. */
module Movies {
  /** `MovieItem` in library.ts; `Omit<WatchlistMovie, 'addedAt'>` in watchlist.ts has the same shape. */
  datatype MovieItem = MovieItem(imdbID: string, title: string, year: string, poster: string)

  function MovieId(m: MovieItem): string { m.imdbID }
}
