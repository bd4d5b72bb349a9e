# Spotify track analysis: the table pipeline

`main.py` loads a CSV of Spotify tracks and draws charts. Everything the charts show comes
from a short pandas pipeline, and this project models that pipeline and proves what each
step promises:

1. **Year derivation** (main.py:16-17). `Release Date` is converted with
   `pd.to_datetime(..., errors='coerce')` and `year` is set from it. Text that does not
   parse becomes NaT and gives no year.
2. **Genre expansion** (main.py:21-23). `Genres` is filled with `""` where missing and
   split on `,`. Each row is repeated once per piece (`explode`), and each piece is
   stripped and lower-cased.
3. **Artist popularity** (main.py:27-33). Mean `Popularity` per artist, sorted
   descending, first ten.
4. **Top and bottom 50** (main.py:46, 59). `nlargest` / `nsmallest` over `Popularity`, and
   `value_counts` of the genre tags of each slice (main.py:47, 60).
5. **Top genres and the filter** (main.py:101-107). The ten genres with the largest mean
   popularity, and the rows whose tag is one of them.

Modules, in dependency order:

- `Table`: the row datatype `Track<G>`. `G` is the type of the `Genres` column at each step:
  optional text as loaded, a list of pieces after the split, one tag after the explode.
- `Text`: Python's `str.split(sep)`, `str.strip()`, `str.lower()` and `<` on `str`.
- `Ranking`: the top-n selection that `nlargest` performs with `keep='first'`, equal values
  kept in position order.
  `nsmallest` is the same selection on negated scores.
- `Derive`: step 1.
- `Genres`: step 2.
- `Groups`: `groupby(...).mean()` and its top n.
- `Slices`: `nlargest`/`nsmallest` on rows, `value_counts`, and the `isin` filter.
- `Script`: the script's own steps, and `Analyse`, the whole pipeline.

The script reassigns columns of `data` and rebinds `data` itself. Each reassignment is
modelled as a function from the old table to the new one, and the rebinding as function
composition in `Script.Analyse`. The aggregations are loop-free expression chains, and
they are functions too.

`pandas.to_datetime`'s date recognition is the parameter `parse`. Means are exact `real`
quotients of the integer sums and counts.

## Model

| member | source | states |
|---|---|---|
| Derive.ToDatetime | main.py:16 | Conversion with `errors='coerce'` never leaves text in the cell: it becomes a timestamp or NaT. |
| Derive.YearOf | main.py:17 | `.dt.year` gives a year exactly when the cell holds a timestamp, and then it is that timestamp's year; NaT gives none. |
| Derive.DeriveYears | main.py:16-17 | One row out per row in, in order. Only `Release Date` and `year` change. The year is that of the parsed or stored timestamp. A missing or unparsable date gives NaT and no year, never an error. |
| Derive.DeriveYearsIdempotent | main.py:16-17 | Converting an already converted table changes nothing. |
| Derive.DeriveYearsAppend | main.py:16-17 | The derivation works row by row: it distributes over concatenation of tables. |
| Text.Split | main.py:21 | `str.split(',')` gives at least one piece, and no piece contains the separator. |
| Text.SplitCount | main.py:21 | There is exactly one more piece than there are separators in the text. |
| Text.JoinSplit | main.py:21 | Joining the pieces with the separator gives back the original text. |
| Text.SplitNone | main.py:21 | Text without the separator splits into itself alone. |
| Text.SplitJoin | main.py:21 | Splitting a join of separator-free pieces gives back exactly those pieces. |
| Text.IsSpace | main.py:23 | The whitespace that `str.strip()` removes: it includes space, tab, newline and carriage return, and it never includes the comma or an upper-case letter. |
| Text.Strip | main.py:23 | `str.strip()` returns a slice of the text with only whitespace before and after it, and the slice neither starts nor ends with whitespace. |
| Text.StripUnchanged | main.py:23 | Stripping leaves a text unchanged if and only if it is empty or neither starts nor ends with whitespace. |
| Text.StripLeadingSpace | main.py:23 | One whitespace character before text with no whitespace at its ends is removed, and nothing else is. |
| Text.LowerChar | main.py:23 | An upper-case letter maps to its lower-case letter, 32 code points on; every other character is unchanged; no result is upper case. |
| Text.Lower | main.py:23 | `str.lower()` keeps the length and lower-cases character by character. |
| Text.LowerIdempotent | main.py:23 | Lower-casing leaves no upper-case letter, and lower-casing again changes nothing. |
| Text.LowerKeeps | main.py:23 | Lower-casing keeps whitespace at the same positions, and it adds or removes no comma. |
| Text.LexLess | main.py:28 | The order on `str` that `groupby` sorts its keys by (also main.py:102): no key sorts before itself. That it is a strict total order is Text.LexStrictOrder. |
| Text.LexIrreflexive | main.py:28 | No key sorts before itself in the ordering that `groupby` sorts its keys by. |
| Text.LexTransitive | main.py:28 | The key ordering is transitive. |
| Text.LexTotal | main.py:28 | Of two different keys, one sorts before the other. |
| Text.LexStrictOrder | main.py:28 | The key ordering is a strict total order. |
| Genres.SplitGenres | main.py:21 | Splitting keeps one row per row, with every other column unchanged. |
| Genres.FillEmpty | main.py:21 | `fillna('')`: the filled text is empty exactly when the cell is missing or empty, and otherwise it is the cell's text. |
| Genres.SplitGenresPieces | main.py:21 | Each row's pieces contain no comma, and joined with commas they give the genre text back, missing text counting as `""`. |
| Genres.ExplodeRow | main.py:22 | `explode` makes one copy of a row per piece, in the order of the pieces, each carrying its piece and the row's other columns. |
| Genres.Explode | main.py:22 | The exploded table is never shorter than the split one. |
| Genres.ExplodeAppend | main.py:22 | The rows from an earlier part of the table precede those from a later part. |
| Genres.Normalise | main.py:23 | `strip()` then `lower()` on one tag: the result is no longer than the tag, has no whitespace at either end, and holds no upper-case letter. |
| Genres.NormaliseGenres | main.py:23 | One row per row; each tag is replaced by its stripped, lower-cased form; every other column is unchanged. |
| Genres.SplitGenresAppend | main.py:21 | Splitting distributes over concatenation of tables. |
| Genres.NormaliseGenresAppend | main.py:23 | Normalising distributes over concatenation of tables. |
| Genres.ExpandGenres | main.py:21-23 | The whole expansion gives at least as many rows as it is given. Its exact length, row contents and order are Genres.ExpandLength, Genres.ExpandRow and Genres.ExpandAppend. |
| Genres.ExpandAppend | main.py:21-23 | The whole expansion distributes over concatenation, so the rows from input row i all precede those from row i+1. |
| Genres.ExpandRow | main.py:21-23 | One loaded row gives k rows, k being the number of comma-separated pieces of its genre text (one more than its commas). Row j carries piece j stripped and lower-cased, and every other column of the source row. |
| Genres.ExpandEmpty | main.py:21-23 | A row whose genre is missing or empty gives exactly one row, tagged `""`. |
| Genres.ExpandLength | main.py:21-22 | The expanded table has as many rows as the loaded rows have pieces, so it is never shorter than the loaded table. |
| Genres.NormaliseIdempotent | main.py:23 | Stripping and lower-casing a normalised tag changes nothing. |
| Genres.NormaliseNoComma | main.py:23 | Normalising a comma-free piece brings in no comma. |
| Genres.ExpandedTags | main.py:21-23 | Every tag of the expanded table is already normalised and contains no comma. |
| Genres.ExplodedFrom | main.py:22 | Every exploded row is a row of the split carrying one of that row's pieces, with that row's other columns. |
| Genres.ExplodedPieces | main.py:22 | When the pieces of the split hold no comma, no exploded tag does. |
| Genres.ExpandTwoPieces | main.py:21-23 | A genre text with one comma gives two rows: the normalised text before the comma, then the normalised text after it. |
| Genres.ExpandExampleTags | main.py:23 | `"Pop"` normalises to `"pop"` and `" Rock"` to `"rock"`. |
| Genres.ExpandExample | main.py:21-23 | A table of two rows with genre texts `"Pop, Rock"` and `""` expands to exactly three rows, tagged `"pop"`, `"rock"` and `""`, each with its source row's other columns. |
| Ranking.Insert | main.py:46 | Inserting a position into a rank order keeps it a rank order, and adds exactly that position. |
| Ranking.RankPrefix | main.py:46 | The first n positions are listed in rank order, each exactly once. |
| Ranking.Top | main.py:46 | `nlargest(n)` with `keep='first'` keeps min(n, \|s\|) positions in rank order. Every position kept ranks ahead of every position left out: a larger value, or an equal value at an earlier position. |
| Ranking.TopAll | main.py:46 | When n reaches the number of values, every position is kept. |
| Ranking.TopMembership | main.py:46 | A position is kept exactly when fewer than n positions rank ahead of it. |
| Ranking.Negated | main.py:59 | Every score negated, position by position. |
| Ranking.AboveAndBelow | main.py:59 | With distinct values, the positions above a position and those below it make up all the others. |
| Ranking.TopBottomDisjoint | main.py:59 | With distinct values and n at most half their number, the n largest and the n smallest share no position. |
| Groups.CountOccurs | main.py:28 | A key has a non-empty group exactly when some entry carries it. |
| Groups.Mean | main.py:29 | The mean of a group (also main.py:103), exactly: times the group's count, it is the group's sum. |
| Groups.SumWithin | main.py:29 | When every value of a group lies between `lo` and `hi`, its sum lies between `lo` and `hi` times its count. |
| Groups.MeanWithin | main.py:29 | When every value of a group lies between `lo` and `hi`, so does its mean (also main.py:103). |
| Groups.Totals | main.py:28-29 | One pass gives every key that occurs, and only those, its exact sum and count. |
| Groups.InsertKey | main.py:28 | Adding a key to the ascending key list keeps it strictly ascending and adds exactly that key. |
| Groups.SortedKeys | main.py:28 | The group keys come strictly ascending, and they are exactly the keys that occur. |
| Groups.GroupMeans | main.py:28-29 | `groupby(...).mean()` gives one group per key that occurs, keys ascending, each with the exact mean of its values. |
| Groups.TopGroups | main.py:101-104 | `nlargest(n)` on the grouped means: at most n groups, and fewer only when every key is in. They come by decreasing mean, equal means in key order, each with its key's true mean. A key left out has a smaller mean than every group kept, or the same mean and a later key. |
| Slices.MorePopularAhead | main.py:46 | The row order of `nlargest` (more popular, or as popular and earlier) is exactly the rank order on the popularity column. |
| Slices.LessPopularAhead | main.py:59 | The row order of `nsmallest` (less popular, or as popular and earlier) is exactly the rank order on the negated popularity column, so ranking the negated column ranks by the smallest popularity. |
| Slices.LargestAt | main.py:46 | `nlargest(50, 'Popularity')` keeps min(50, \|data\|) distinct row positions, by decreasing popularity with ties in row order. Every row kept has popularity at least that of every row left out, and at equal popularity it comes earlier. |
| Slices.SmallestAt | main.py:59 | `nsmallest(50, 'Popularity')` is the same selection with every comparison turned round, ties still going to the earlier row. |
| Slices.Largest | main.py:46 | `top_50` has min(50, \|data\|) rows, all rows of `data`, by non-increasing popularity. |
| Slices.Smallest | main.py:59 | `bottom_50` has min(50, \|data\|) rows, all rows of `data`, by non-decreasing popularity. |
| Slices.LargestSmallestDisjoint | main.py:59 | With distinct popularities and at least 100 rows, `top_50` and `bottom_50` take different rows. |
| Slices.LargestSmallestTied | main.py:59 | When every popularity is equal, `nlargest` keeps the first n rows in row order, and `nsmallest` keeps the same. |
| Slices.FirstOccurrences | main.py:47 | The distinct values of a column, each once, and no others. |
| Slices.ValueCounts | main.py:47 | `value_counts()` (also main.py:60): one entry per distinct tag of the slice, and no other. Each count is the tag's number of occurrences, and it is positive. Counts are non-increasing. |
| Slices.ValueCountsTotal | main.py:47 | The counts of `value_counts()` add up to the number of rows of the slice (also main.py:60). |
| Slices.IsIn | main.py:107 | Selecting the rows whose tag is in `keep` gives an order-preserving subsequence of `data`. It holds each row whose tag is in `keep` as often as `data` does, and no other row. |
| Script.ArtistEntries | main.py:28 | Grouping by artist pairs each row's popularity with its artist, row for row. |
| Script.ArtistGroups | main.py:28 | An artist has a group exactly when some row names it. |
| Script.GenreEntries | main.py:102 | Grouping by genre pairs each row's popularity with its tag, row for row. |
| Script.GenreGroups | main.py:102 | A genre has a group exactly when some row carries its tag. |
| Script.ArtistPopularity | main.py:27-33 | At most ten artists, with distinct keys, by non-increasing mean, each with its true mean. There are fewer than ten only when every artist is in, and no artist left out has a mean above any artist kept. |
| Script.TopGenres | main.py:101-106 | At most ten distinct tags of the table, fewer only when every tag is in. A tag left out has a lower mean than every tag kept, or the same mean and a later place in sorted order. |
| Script.FilteredData | main.py:107 | `filtered_data` is an order-preserving subsequence of the table. It holds exactly the rows whose tag is among the top genres, each as often as in the table. |
| Script.GenreColumn | main.py:47 | The `Genres` column of a slice, row for row. |
| Script.DerivePieces | main.py:16-21 | Deriving the year leaves every row's genre pieces as they were. |
| Script.Analyse | main.py:16-107 | The whole pipeline. The prepared table has one row per genre piece of the loaded rows, so it is at least as long. Each slice has min(50, \|data\|) rows. Each genre distribution counts every row of its slice once. At most ten artists and ten genres are kept. The filtered table is a subsequence of the prepared one. |

## Left out

- CSV loading (main.py:7), console output (main.py:10-12 and the progress messages), and
  every plotting, `savefig` and `show` call: these are I/O and rendering.
- The danceability means (main.py:72-75), the valence/energy scatter (main.py:89-90) and
  the tempo violin plot (main.py:110) only feed charts with float audio features. The
  columns are carried along in `Audio` and never read.
- The date-format recognition inside `pd.to_datetime` is a foreign library call. It is
  the total parameter `parse: string -> Option<Timestamp>`. The parameter stands for
  parsing with the one format pandas infers for the whole column from its first
  non-missing value, so a cell in another format comes out NaT. The model does not say
  how that format is inferred.
- `.dt.year` yields a float column with NaN. The model gives `Option<int>`.
- Floating point: means are exact rationals (`real`), so two means that round to the same
  float can still be told apart here.
- NaN keys and values. `groupby` drops rows whose artist is NaN, and a NaN popularity
  is skipped by `mean` and ranked last by `nlargest`. The model's artist is always text and
  its popularity always an integer, so these cases do not arise. The model also cannot
  reach the error pandas raises when `Popularity` is read as text. Then `mean`
  (main.py:29, 103) and `nlargest`/`nsmallest` (main.py:46, 59) raise a TypeError.
- `explode`'s rule that an empty list becomes one NaN row never applies. After
  `str.split` every cell holds at least one piece, and the `Pieces` type records this.
- `.reset_index()` (main.py:32) and `.index` (main.py:105) only change the container. The
  model keeps `Group(key, mean)` pairs and their keys.
- Text.Lower, Text.LowerChar: lower-case only ASCII `A`-`Z` and Latin-1 `À`-`Þ` (except `×`). Python's
  `str.lower()` also maps the rest of Unicode, including one-to-many mappings such as `İ`.
- Script.ArtistPopularity: states no order among equal means. `sort_values` at
  main.py:30 promises none. The model ranks equal means by key, because the grouped means
  come in key order.
- Slices.ValueCounts: states no order among equal counts, because pandas promises none.
  The model breaks such ties by first occurrence in the slice.
- Slices.Largest, Slices.Smallest: state that every row comes from `data`. That the
  rows come from distinct positions is stated on Slices.LargestAt and Slices.SmallestAt.
- Ranking.Top, Groups.TopGroups, Slices.LargestAt, Slices.SmallestAt,
  Slices.LargestSmallestTied: the order they give to equal values (earlier position, or
  earlier key, first) is what pandas gives when n is smaller than the number of values.
  When n is at least that number, `nlargest` and `nsmallest` sort the whole column with
  an unstable sort instead, and promise no order among equal values. The set of values
  kept is the same in both cases, and so is the order among unequal values. In the
  script this concerns main.py:46 and 59 when the table has at most 50 rows, and
  main.py:104 when there are at most ten genres. At main.py:104 only the set matters,
  because `.index` and `isin` use only which genres are kept.
