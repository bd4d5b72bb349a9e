/**
 * Step 2 of the script (main.py:21-23): the `Genres` text of each row is split on commas,
 * the row is repeated once per piece (`explode`), and each piece is trimmed and
 * lower-cased, so that one tag stands in each row.
 */
module Genres {
  import opened Table
  import opened Text

  /** What `str.split(',')` yields: a list with at least one piece. */
  type Pieces = ps: seq<string> | |ps| >= 1 witness [[]]

  /** main.py:21, filling a missing `Genres` cell with the empty text. */
  function FillEmpty(g: Option<string>): (s: string)
    ensures s == [] <==> g == None || g == Some([])
    ensures g.Some? ==> s == g.value
  {
    match g
    case None => ""
    case Some(s) => s
  }

  /** The pieces of one loaded `Genres` cell. */
  function PiecesOf(g: Option<string>): (ps: Pieces) {
    Split(FillEmpty(g), ',')
  }

  /** main.py:21 for one row. */
  function SplitRow(t: Track<Option<string>>): Track<Pieces> {
    WithGenres<Option<string>, Pieces>(t, PiecesOf(t.genres))
  }

  /** main.py:21: each row's genre text, missing counted as empty, becomes its list of comma-separated pieces. */
  function SplitGenres(data: seq<Track<Option<string>>>): (r: seq<Track<Pieces>>)
    ensures |r| == |data|
    ensures forall k :: 0 <= k < |data| ==> SameButGenres(data[k], r[k])
  {
    seq(|data|, k requires 0 <= k < |data| => SplitRow(data[k]))
  }

  /**
   * Each row's pieces hold no comma and join back to its genre text (missing text counting
   * as `""`); by `SplitJoin` these two facts pin the pieces down.
   */
  lemma SplitGenresPieces(data: seq<Track<Option<string>>>)
    ensures forall k :: 0 <= k < |data| ==>
              Join(SplitGenres(data)[k].genres, ',') == FillEmpty(data[k].genres)
    ensures forall k, j :: 0 <= k < |data| && 0 <= j < |SplitGenres(data)[k].genres| ==>
              ',' !in SplitGenres(data)[k].genres[j]
  {
    forall k | 0 <= k < |data| ensures Join(SplitGenres(data)[k].genres, ',') == FillEmpty(data[k].genres) {
      JoinSplit(FillEmpty(data[k].genres), ',');
    }
  }

  /** One row of `explode`: a copy of `t` per piece, in the order of the pieces. */
  function ExplodeRow(t: Track<Pieces>): (r: seq<Track<string>>)
    ensures |r| == |t.genres|
    ensures forall j :: 0 <= j < |r| ==> SameButGenres(t, r[j]) && r[j].genres == t.genres[j]
  {
    seq(|t.genres|, j requires 0 <= j < |t.genres| => WithGenres(t, t.genres[j]))
  }

  /** main.py:22: every row is repeated once per piece of its list, the copies in piece order. */
  function Explode(data: seq<Track<Pieces>>): (r: seq<Track<string>>)
    ensures |r| >= |data|
  {
    if data == [] then [] else ExplodeRow(data[0]) + Explode(data[1..])
  }

  /**
   * main.py:23 on one tag: stripped, then lower-cased. The result is no longer than the
   * tag, has no whitespace at either end, and holds no upper-case letter.
   */
  function Normalise(tag: string): (r: string)
    ensures |r| <= |tag|
    ensures r == [] || (!IsSpace(r[0]) && !IsSpace(r[|r| - 1]))
    ensures forall k :: 0 <= k < |r| ==> !IsUpper(r[k])
  {
    var u := Strip(tag);
    LowerKeeps(u);
    Lower(u)
  }

  /** main.py:23: every tag loses its surrounding whitespace and is lower-cased. */
  function NormaliseGenres(data: seq<Track<string>>): (r: seq<Track<string>>)
    ensures |r| == |data|
    ensures forall k :: 0 <= k < |data| ==>
              SameButGenres(data[k], r[k]) && r[k].genres == Normalise(data[k].genres)
  {
    seq(|data|, k requires 0 <= k < |data| => NormaliseRow(data[k]))
  }

  /** main.py:23 for one row. */
  function NormaliseRow(t: Track<string>): Track<string> {
    WithGenres(t, Normalise(t.genres))
  }

  /** main.py:21-23: the table with one normalised genre tag per row, never shorter. */
  function ExpandGenres(data: seq<Track<Option<string>>>): (r: seq<Track<string>>)
    ensures |r| >= |data|
  {
    NormaliseGenres(Explode(SplitGenres(data)))
  }

  // ---------------------------------------------------------------------
  // Properties of the expansion
  // ---------------------------------------------------------------------

  /** How many rows one loaded row becomes: one more than the commas in its genre text. */
  function PieceCount(t: Track<Option<string>>): nat {
    multiset(FillEmpty(t.genres))[','] + 1
  }

  function TotalPieces(data: seq<Track<Option<string>>>): nat {
    if data == [] then 0 else PieceCount(data[0]) + TotalPieces(data[1..])
  }

  lemma {:induction false} ExplodeAppend(a: seq<Track<Pieces>>, b: seq<Track<Pieces>>)
    ensures Explode(a + b) == Explode(a) + Explode(b)
  {
    if a == [] {
      assert a + b == b;
    } else {
      var c := a + b;
      assert c[0] == a[0] && c[1..] == a[1..] + b;
      calc {
        Explode(c);
        ExplodeRow(a[0]) + Explode(a[1..] + b);
        { ExplodeAppend(a[1..], b); }
        ExplodeRow(a[0]) + (Explode(a[1..]) + Explode(b));
        (ExplodeRow(a[0]) + Explode(a[1..])) + Explode(b);
      }
    }
  }

  lemma SplitGenresAppend(a: seq<Track<Option<string>>>, b: seq<Track<Option<string>>>)
    ensures SplitGenres(a + b) == SplitGenres(a) + SplitGenres(b)
  {
    var whole, left, right := SplitGenres(a + b), SplitGenres(a), SplitGenres(b);
    forall k | 0 <= k < |a + b| ensures whole[k] == (left + right)[k] {
      if k < |a| { assert (a + b)[k] == a[k]; } else { assert (a + b)[k] == b[k - |a|]; }
    }
  }

  lemma NormaliseGenresAppend(a: seq<Track<string>>, b: seq<Track<string>>)
    ensures NormaliseGenres(a + b) == NormaliseGenres(a) + NormaliseGenres(b)
  {
    var whole, left, right := NormaliseGenres(a + b), NormaliseGenres(a), NormaliseGenres(b);
    forall k | 0 <= k < |a + b| ensures whole[k] == (left + right)[k] {
      assert whole[k] == NormaliseRow((a + b)[k]);
      if k < |a| {
        assert (a + b)[k] == a[k] && (left + right)[k] == left[k] == NormaliseRow(a[k]);
      } else {
        assert (a + b)[k] == b[k - |a|] && (left + right)[k] == right[k - |a|] == NormaliseRow(b[k - |a|]);
      }
    }
  }

  /**
   * The expansion works row by row: the rows that come from an earlier part of the table
   * all precede those from a later part.
   */
  lemma ExpandAppend(a: seq<Track<Option<string>>>, b: seq<Track<Option<string>>>)
    ensures ExpandGenres(a + b) == ExpandGenres(a) + ExpandGenres(b)
  {
    SplitGenresAppend(a, b);
    ExplodeAppend(SplitGenres(a), SplitGenres(b));
    NormaliseGenresAppend(Explode(SplitGenres(a)), Explode(SplitGenres(b)));
  }

  /**
   * One loaded row becomes one row per comma-separated piece of its genre text (at least
   * one), carrying that piece trimmed and lower-cased and every other column unchanged.
   */
  lemma ExpandRow(t: Track<Option<string>>)
    ensures |ExpandGenres([t])| == PieceCount(t) == |Split(FillEmpty(t.genres), ',')|
    ensures forall j :: 0 <= j < PieceCount(t) ==>
              ExpandGenres([t])[j] == WithGenres(t, Normalise(Split(FillEmpty(t.genres), ',')[j]))
  {
    SplitCount(FillEmpty(t.genres), ',');
    var split := SplitGenres([t]);
    assert Explode(split) == ExplodeRow(split[0]) + Explode([]);
    assert split[0].genres == PiecesOf(t.genres);
  }

  /** A row with a missing or empty genre text stays as exactly one row, tagged `""`. */
  lemma ExpandEmpty(t: Track<Option<string>>)
    requires t.genres == None || t.genres == Some("")
    ensures ExpandGenres([t]) == [WithGenres(t, "")]
  {
    ExpandRow(t);
    assert Split("", ',') == [[]];
    assert Normalise("") == "";
  }

  /** The expanded table has one row per piece, so it is never shorter than the input. */
  lemma {:induction false} ExpandLength(data: seq<Track<Option<string>>>)
    ensures |ExpandGenres(data)| == TotalPieces(data) >= |data|
  {
    if data != [] {
      ExpandLength(data[1..]);
      ExpandRow(data[0]);
      assert data == [data[0]] + data[1..];
      ExpandAppend([data[0]], data[1..]);
    }
  }

  /** Stripping and lower-casing again changes nothing, so equal tags group together. */
  lemma NormaliseIdempotent(s: string)
    ensures Normalise(Normalise(s)) == Normalise(s)
  {
    var u := Strip(s);
    var l := Lower(u);
    LowerKeeps(u);
    LowerIdempotent(u);
    assert l == [] || (!IsSpace(l[0]) && !IsSpace(l[|l| - 1]));
    StripUnchanged(l);
  }

  /** Normalising a tag brings in no comma. */
  lemma NormaliseNoComma(s: string)
    requires ',' !in s
    ensures ',' !in Normalise(s)
  {
    LowerKeeps(Strip(s));
  }

  /** Every tag of the expanded table is normalised and holds no comma. */
  lemma ExpandedTags(data: seq<Track<Option<string>>>)
    ensures forall t :: t in ExpandGenres(data) ==> Normalise(t.genres) == t.genres && ',' !in t.genres
  {
    var split := SplitGenres(data);
    var exploded := Explode(split);
    SplitGenresPieces(data);
    ExplodedPieces(split);
    forall t | t in ExpandGenres(data) ensures Normalise(t.genres) == t.genres && ',' !in t.genres {
      var k :| 0 <= k < |exploded| && ExpandGenres(data)[k] == t;
      NormaliseIdempotent(exploded[k].genres);
      NormaliseNoComma(exploded[k].genres);
    }
  }

  /** Each exploded row is a row of the split carrying one of that row's pieces. */
  lemma {:induction false} ExplodedFrom(split: seq<Track<Pieces>>)
    ensures forall t :: t in Explode(split) ==>
              exists k, j :: 0 <= k < |split| && 0 <= j < |split[k].genres| && t == WithGenres(split[k], split[k].genres[j])
  {
    if split != [] {
      var rest := split[1..];
      ExplodedFrom(rest);
      forall t | t in Explode(split)
        ensures exists k, j :: 0 <= k < |split| && 0 <= j < |split[k].genres| && t == WithGenres(split[k], split[k].genres[j])
      {
        if t in ExplodeRow(split[0]) {
          var j :| 0 <= j < |split[0].genres| && ExplodeRow(split[0])[j] == t;
          assert t == WithGenres(split[0], split[0].genres[j]);
        } else {
          assert t in Explode(rest);
          var k, j :| 0 <= k < |rest| && 0 <= j < |rest[k].genres| && t == WithGenres(rest[k], rest[k].genres[j]);
          assert rest[k] == split[k + 1];
        }
      }
    }
  }

  /** When the pieces of the split hold no comma, no exploded tag does. */
  lemma ExplodedPieces(split: seq<Track<Pieces>>)
    requires forall k :: 0 <= k < |split| ==> forall j :: 0 <= j < |split[k].genres| ==> ',' !in split[k].genres[j]
    ensures forall t :: t in Explode(split) ==> ',' !in t.genres
  {
    ExplodedFrom(split);
  }

  /**
   * A two-row table whose genre texts are `"Pop, Rock"` and `""` expands to three rows
   * tagged `"pop"`, `"rock"` and `""`, each keeping its source row's other columns.
   */
  lemma ExpandExample(a: Track<Option<string>>, b: Track<Option<string>>)
    requires a.genres == Some("Pop, Rock") && b.genres == Some("")
    ensures ExpandGenres([a, b]) == [WithGenres(a, "pop"), WithGenres(a, "rock"), WithGenres(b, "")]
  {
    ExampleFirstRow(a);
    ExpandEmpty(b);
    ExpandTwoRows(a, b);
    var x, y, z := WithGenres(a, "pop"), WithGenres(a, "rock"), WithGenres(b, "");
    assert [x, y] + [z] == [x, y, z];
  }

  lemma ExpandTwoRows(a: Track<Option<string>>, b: Track<Option<string>>)
    ensures ExpandGenres([a, b]) == ExpandGenres([a]) + ExpandGenres([b])
  {
    assert [a, b] == [a] + [b];
    ExpandAppend([a], [b]);
  }

  lemma ExampleFirstRow(a: Track<Option<string>>)
    requires a.genres == Some("Pop, Rock")
    ensures ExpandGenres([a]) == [WithGenres(a, "pop"), WithGenres(a, "rock")]
  {
    assert "Pop, Rock" == "Pop" + [','] + " Rock";
    ExpandTwoPieces(a, "Pop", " Rock");
    ExpandExampleTags();
  }

  /** A genre text with one comma gives two rows, one per side of the comma. */
  lemma ExpandTwoPieces(t: Track<Option<string>>, p: string, q: string)
    requires t.genres == Some(p + [','] + q) && ',' !in p && ',' !in q
    ensures ExpandGenres([t]) == [WithGenres(t, Normalise(p)), WithGenres(t, Normalise(q))]
  {
    var e := ExpandGenres([t]);
    assert Join([p, q], ',') == p + [','] + q;
    SplitJoin([p, q], ',');
    ExpandRow(t);
    assert |e| == 2;
    assert e[0] == WithGenres(t, Normalise(p));
    assert e[1] == WithGenres(t, Normalise(q));
  }

  lemma ExpandExampleTags()
    ensures Normalise("Pop") == "pop" && Normalise(" Rock") == "rock"
  {
    ExampleStripPop();
    ExampleStripRock();
    ExampleLower();
    assert Normalise("Pop") == Lower(Strip("Pop")) == Lower("Pop") == "pop";
    assert Normalise(" Rock") == Lower(Strip(" Rock")) == Lower("Rock") == "rock";
  }

  lemma ExampleStripPop()
    ensures Strip("Pop") == "Pop"
  {
    StripUnchanged("Pop");
  }

  lemma ExampleStripRock()
    ensures Strip(" Rock") == "Rock"
  {
    assert " Rock" == [' '] + "Rock";
    StripLeadingSpace(' ', "Rock");
  }

  lemma ExampleLower()
    ensures Lower("Pop") == "pop" && Lower("Rock") == "rock"
  {
    var p, r := Lower("Pop"), Lower("Rock");
    assert p[0] == LowerChar('P') == 'p';
    assert p[1] == 'o' && p[2] == 'p';
    assert r[0] == LowerChar('R') == 'r';
    assert r[1] == 'o' && r[2] == 'c' && r[3] == 'k';
  }
}
