/**
 * The analysis script itself (main.py): the table is prepared in two steps and then the
 * chart inputs are computed from it.
 */
module Script {
  import opened Table
  import opened Text
  import opened Ranking
  import opened Derive
  import opened Genres
  import opened Groups
  import opened Slices

  /** How many artists and genres the two rankings keep (main.py:31, 104). */
  const TopCount: nat := 10
  /** The size of the top and bottom slices (main.py:46, 59). */
  const SliceSize: nat := 50

  /** main.py:28, what is grouped: each row's popularity, under its artist. */
  function ArtistEntries(data: seq<Track<string>>): (es: seq<Entry>)
    ensures |es| == |data| && forall k :: 0 <= k < |data| ==> es[k] == Entry(data[k].artist, data[k].popularity)
  {
    seq(|data|, k requires 0 <= k < |data| => Entry(data[k].artist, data[k].popularity))
  }

  /** main.py:102, what is grouped: each row's popularity, under its genre tag. */
  function GenreEntries(data: seq<Track<string>>): (es: seq<Entry>)
    ensures |es| == |data| && forall k :: 0 <= k < |data| ==> es[k] == Entry(data[k].genres, data[k].popularity)
  {
    seq(|data|, k requires 0 <= k < |data| => Entry(data[k].genres, data[k].popularity))
  }

  /** An artist has a group exactly when some row names it. */
  lemma ArtistGroups(data: seq<Track<string>>, a: string)
    ensures Count(ArtistEntries(data), a) > 0 <==> exists k :: 0 <= k < |data| && data[k].artist == a
  {
    var es := ArtistEntries(data);
    CountOccurs(es, a);
    if exists e :: e in es && e.key == a {
      var e :| e in es && e.key == a;
      var k :| 0 <= k < |es| && es[k] == e;
      assert data[k].artist == a;
    }
    if exists k :: 0 <= k < |data| && data[k].artist == a {
      var k :| 0 <= k < |data| && data[k].artist == a;
      assert es[k] in es;
    }
  }

  /** A genre tag has a group exactly when some row carries it. */
  lemma GenreGroups(data: seq<Track<string>>, g: string)
    ensures Count(GenreEntries(data), g) > 0 <==> exists k :: 0 <= k < |data| && data[k].genres == g
  {
    var es := GenreEntries(data);
    CountOccurs(es, g);
    if exists e :: e in es && e.key == g {
      var e :| e in es && e.key == g;
      var k :| 0 <= k < |es| && es[k] == e;
      assert data[k].genres == g;
    }
    if exists k :: 0 <= k < |data| && data[k].genres == g {
      var k :| 0 <= k < |data| && data[k].genres == g;
      assert es[k] in es;
    }
  }

  /**
   * main.py:27-33, the artists with the highest mean popularity: at most ten, distinct,
   * by non-increasing mean, each with its true mean; fewer than ten only when every artist
   * is in; and no artist left out has a mean above any artist kept. The order among equal
   * means is not promised.
   */
  function ArtistPopularity(data: seq<Track<string>>): (r: seq<Group>)
    ensures |r| <= TopCount
    ensures |r| < TopCount ==> forall a :: Count(ArtistEntries(data), a) > 0 ==> a in Keys(r)
    ensures forall i, j :: 0 <= i < j < |r| ==> r[i].key != r[j].key && r[i].mean >= r[j].mean
    ensures forall g :: g in r ==>
              Count(ArtistEntries(data), g.key) > 0 && g.mean == Mean(ArtistEntries(data), g.key)
    ensures forall g, a :: g in r && Count(ArtistEntries(data), a) > 0 && a !in Keys(r) ==>
              Mean(ArtistEntries(data), a) <= g.mean
  {
    var r := TopGroups(ArtistEntries(data), TopCount);
    LexStrictOrder();
    r
  }

  /**
   * main.py:101-106, the index of the ten genres with the highest mean popularity: at most
   * ten distinct tags of the table, fewer only when every tag is in, and a tag left out
   * has a lower mean than every tag kept, or the same mean and a later place in sorted
   * order (`nlargest` keeps the first of equal values, and the groups come sorted by tag).
   */
  function TopGenres(data: seq<Track<string>>): (ks: seq<string>)
    ensures |ks| <= TopCount
    ensures |ks| < TopCount ==> forall g :: Count(GenreEntries(data), g) > 0 ==> g in ks
    ensures forall i, j :: 0 <= i < j < |ks| ==> ks[i] != ks[j]
    ensures forall g :: g in ks ==> Count(GenreEntries(data), g) > 0
    ensures forall g, h :: g in ks && Count(GenreEntries(data), h) > 0 && h !in ks ==>
              Mean(GenreEntries(data), h) < Mean(GenreEntries(data), g)
              || (Mean(GenreEntries(data), h) == Mean(GenreEntries(data), g) && LexLess(g, h))
  {
    var es := GenreEntries(data);
    var r := TopGroups(es, TopCount);
    TopGenresFacts(es, r);
    Keys(r)
  }

  /** What `TopGroups` promises, restated for the keys alone. */
  lemma TopGenresFacts(es: seq<Entry>, r: seq<Group>)
    requires r == TopGroups(es, TopCount)
    ensures forall i, j :: 0 <= i < j < |r| ==> r[i].key != r[j].key
    ensures forall g :: g in Keys(r) ==> Count(es, g) > 0
    ensures forall g, h :: g in Keys(r) && Count(es, h) > 0 && h !in Keys(r) ==>
              Mean(es, h) < Mean(es, g) || (Mean(es, h) == Mean(es, g) && LexLess(g, h))
  {
    var ks := Keys(r);
    forall i, j | 0 <= i < j < |r| ensures r[i].key != r[j].key {
      assert r[i] in r && r[j] in r;
      LexIrreflexive(r[i].key);
    }
    forall g | g in ks ensures Count(es, g) > 0 {
      var j :| 0 <= j < |ks| && ks[j] == g;
      assert r[j] in r;
    }
    forall g, h | g in ks && Count(es, h) > 0 && h !in ks
      ensures Mean(es, h) < Mean(es, g) || (Mean(es, h) == Mean(es, g) && LexLess(g, h))
    {
      var j :| 0 <= j < |ks| && ks[j] == g;
      assert r[j] in r;
    }
  }

  /**
   * main.py:107, `filtered_data`: the rows of the table whose tag is one of the top
   * genres, in table order, each as often as in the table.
   */
  function FilteredData(data: seq<Track<string>>): (r: seq<Track<string>>)
    ensures Subsequence(r, data)
    ensures forall t :: multiset(r)[t] == if t.genres in TopGenres(data) then multiset(data)[t] else 0
  {
    IsIn(data, TopGenres(data))
  }

  /** The `Genres` column of a slice. */
  function GenreColumn(data: seq<Track<string>>): (xs: seq<string>)
    ensures |xs| == |data| && forall k :: 0 <= k < |data| ==> xs[k] == data[k].genres
  {
    seq(|data|, k requires 0 <= k < |data| => data[k].genres)
  }

  /** What the charts are drawn from. */
  datatype Report = Report(
    data: seq<Track<string>>,
    artistPopularity: seq<Group>,
    top50: seq<Track<string>>,
    genreDistributionTop: seq<Tally>,
    bottom50: seq<Track<string>>,
    genreDistributionBottom: seq<Tally>,
    topGenres: seq<string>,
    filteredData: seq<Track<string>>)

  /**
   * The whole pipeline on the loaded table: the prepared table has one row per genre piece
   * of the loaded rows; each slice has min(50, that many) rows; each genre distribution
   * counts every row of its slice once; at most ten artists and ten genres are kept; the
   * filtered table is a subsequence of the prepared one.
   */
  function Analyse(parse: string -> Option<Timestamp>, loaded: seq<Track<Option<string>>>): (r: Report)
    ensures |r.data| == TotalPieces(loaded) >= |loaded|
    ensures |r.top50| == Min(SliceSize, |r.data|) && |r.bottom50| == Min(SliceSize, |r.data|)
    ensures TotalCount(r.genreDistributionTop) == |r.top50|
    ensures TotalCount(r.genreDistributionBottom) == |r.bottom50|
    ensures |r.artistPopularity| <= TopCount && |r.topGenres| <= TopCount
    ensures Subsequence(r.filteredData, r.data)
  {
    // main.py:16-17
    var dated := DeriveYears(parse, loaded);
    // main.py:21-23
    var data := ExpandGenres(dated);
    ExpandLength(dated);
    assert TotalPieces(dated) == TotalPieces(loaded) by { DerivePieces(parse, loaded); }
    var top50 := Largest(data, SliceSize);
    var bottom50 := Smallest(data, SliceSize);
    ValueCountsTotal(GenreColumn(top50));
    ValueCountsTotal(GenreColumn(bottom50));
    Report(
      data,
      ArtistPopularity(data),
      top50,
      ValueCounts(GenreColumn(top50)),
      bottom50,
      ValueCounts(GenreColumn(bottom50)),
      TopGenres(data),
      FilteredData(data))
  }

  /** Deriving the year leaves the genre pieces as they were. */
  lemma {:induction false} DerivePieces(parse: string -> Option<Timestamp>, loaded: seq<Track<Option<string>>>)
    ensures TotalPieces(DeriveYears(parse, loaded)) == TotalPieces(loaded)
  {
    if loaded != [] {
      var rest := loaded[1..];
      DerivePieces(parse, rest);
      assert [loaded[0]] + rest == loaded;
      DeriveYearsAppend(parse, [loaded[0]], rest);
      var d := DeriveYears(parse, loaded);
      assert d[1..] == DeriveYears(parse, rest);
      assert d[0].genres == loaded[0].genres;
    }
  }
}
