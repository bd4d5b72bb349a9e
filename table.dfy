/** The table the analysis works on: one row per track, as the CSV loader yields it. */
module Table {

  datatype Option<T> = None | Some(value: T)

  /** A parsed date-time, as `pd.to_datetime` produces it; only `year` is ever read. */
  datatype Timestamp = Timestamp(year: int, month: int, day: int, nanosOfDay: int)

  /**
   * A `Release Date` cell. Pandas columns are dynamically typed: the loaded column holds
   * text or NaN, and after conversion it holds timestamps or NaT (both NaN and NaT are
   * `Missing` here).
   */
  datatype DateCell = Missing | Text(text: string) | Stamp(at: Timestamp)

  /** The audio-feature columns; the core carries them along without reading them. */
  datatype Audio = Audio(danceability: real, energy: real, valence: real, tempo: real)

  /**
   * One row. `G` is the type of the `Genres` column at the current step: optional text
   * as loaded, a list of pieces after the split, one tag after the explode.
   */
  datatype Track<G> = Track(
    artist: string,
    name: string,
    popularity: int,
    releaseDate: DateCell,
    year: Option<int>,
    genres: G,
    audio: Audio)

  /** The row `t` with its `Genres` cell replaced by `g` (possibly of another type). */
  function WithGenres<G, H>(t: Track<G>, g: H): (r: Track<H>)
    ensures r.genres == g && SameButGenres(t, r)
  {
    Track(t.artist, t.name, t.popularity, t.releaseDate, t.year, g, t.audio)
  }

  /** `a` and `b` agree on every column except `Genres`. */
  predicate SameButGenres<G, H>(a: Track<G>, b: Track<H>) {
    a.artist == b.artist && a.name == b.name && a.popularity == b.popularity
    && a.releaseDate == b.releaseDate && a.year == b.year && a.audio == b.audio
  }

  /** `xs` is `ys` with some elements left out and the rest kept in order. */
  predicate Subsequence<T(==)>(xs: seq<T>, ys: seq<T>)
    decreases |ys|
  {
    if xs == [] then true
    else if ys == [] then false
    else (xs[0] == ys[0] && Subsequence(xs[1..], ys[1..])) || Subsequence(xs, ys[1..])
  }

  function Min(a: int, b: int): int { if a <= b then a else b }
}
