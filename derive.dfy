/**
 * Step 1 of the script (main.py:16-17): the `Release Date` column is converted to
 * datetimes with `errors='coerce'`, and a `year` column is set from it.
 */
module Derive {
  import opened Table

  /**
   * The coercing conversion of main.py:16, applied to one cell. `parse` stands for pandas'
   * date recognition with the format it infers for the whole column (from its first
   * non-missing value), so text in another format is rejected too. Text that `parse`
   * rejects becomes NaT instead of raising, a missing cell stays missing, and a cell that
   * already holds a timestamp keeps it.
   */
  function ToDatetime(parse: string -> Option<Timestamp>, c: DateCell): (r: DateCell)
    ensures !r.Text?
  {
    match c
    case Missing => Missing
    case Text(s) => (match parse(s) case Some(t) => Stamp(t) case None => Missing)
    case Stamp(_) => c
  }

  /** `.dt.year` on one cell: the year of a timestamp, missing for NaT. */
  function YearOf(c: DateCell): (y: Option<int>)
    ensures y.Some? <==> c.Stamp?
    ensures c.Stamp? ==> y.value == c.at.year
  {
    if c.Stamp? then Some(c.at.year) else None
  }

  /** Both assignments of main.py:16-17, for one row. */
  function DeriveRow<G>(parse: string -> Option<Timestamp>, t: Track<G>): Track<G> {
    var d := ToDatetime(parse, t.releaseDate);
    t.(releaseDate := d, year := YearOf(d))
  }

  /**
   * main.py:16-17 on the whole table: one row out per row in, in the same order; only the
   * `Release Date` and `year` columns change; the year is that of the timestamp the cell
   * holds or parses to, and a cell that is missing or fails to parse gives NaT and no year.
   */
  function DeriveYears<G>(parse: string -> Option<Timestamp>, data: seq<Track<G>>): (r: seq<Track<G>>)
    ensures |r| == |data|
    ensures forall k :: 0 <= k < |data| ==>
              r[k] == data[k].(releaseDate := r[k].releaseDate, year := r[k].year)
    ensures forall k :: 0 <= k < |data| ==>
              match data[k].releaseDate
              case Missing => r[k].releaseDate == Missing && r[k].year == None
              case Stamp(t) => r[k].releaseDate == Stamp(t) && r[k].year == Some(t.year)
              case Text(s) =>
                if parse(s).Some?
                then r[k].releaseDate == Stamp(parse(s).value) && r[k].year == Some(parse(s).value.year)
                else r[k].releaseDate == Missing && r[k].year == None
  {
    seq(|data|, k requires 0 <= k < |data| => DeriveRow(parse, data[k]))
  }

  /** Deriving the year again from an already converted table changes nothing. */
  lemma DeriveYearsIdempotent<G>(parse: string -> Option<Timestamp>, data: seq<Track<G>>)
    ensures DeriveYears(parse, DeriveYears(parse, data)) == DeriveYears(parse, data)
  {
    var once := DeriveYears(parse, data);
    var twice := DeriveYears(parse, once);
    forall k | 0 <= k < |data| ensures twice[k] == once[k] {
      assert !once[k].releaseDate.Text?;
    }
  }

  /** Deriving works row by row, so it distributes over concatenation of tables. */
  lemma DeriveYearsAppend<G>(parse: string -> Option<Timestamp>, a: seq<Track<G>>, b: seq<Track<G>>)
    ensures DeriveYears(parse, a + b) == DeriveYears(parse, a) + DeriveYears(parse, b)
  {
    var whole, left, right := DeriveYears(parse, a + b), DeriveYears(parse, a), DeriveYears(parse, b);
    forall k | 0 <= k < |a + b| ensures whole[k] == (left + right)[k] {
      if k < |a| {
        assert (a + b)[k] == a[k];
      } else {
        assert (a + b)[k] == b[k - |a|];
      }
    }
  }
}
