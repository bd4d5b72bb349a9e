/**
 * The row selections and counts of the expanded table: `nlargest` / `nsmallest` on the
 * `Popularity` column, `value_counts` of the `Genres` column of a slice, and the `isin`
 * filter on `Genres`.
 */
module Slices {
  import opened Table
  import opened Ranking

  // ---------------------------------------------------------------------
  // DataFrame.nlargest(n, 'Popularity') and DataFrame.nsmallest(n, 'Popularity')
  // ---------------------------------------------------------------------

  /** The `Popularity` column as scores. */
  function Popularities<G>(data: seq<Track<G>>): (s: seq<real>)
    ensures |s| == |data| && forall k :: 0 <= k < |data| ==> s[k] == data[k].popularity as real
  {
    seq(|data|, k requires 0 <= k < |data| => data[k].popularity as real)
  }

  /** The rows at positions `idx`, in that order. */
  function Rows<G>(data: seq<Track<G>>, idx: seq<int>): (r: seq<Track<G>>)
    requires forall j :: 0 <= j < |idx| ==> 0 <= idx[j] < |data|
    ensures |r| == |idx| && forall j :: 0 <= j < |idx| ==> r[j] == data[idx[j]]
  {
    seq(|idx|, j requires 0 <= j < |idx| => data[idx[j]])
  }

  /** Row `i` comes before row `j` in `nlargest`: more popular, or as popular and earlier. */
  predicate MorePopular<G>(data: seq<Track<G>>, i: int, j: int)
    requires 0 <= i < |data| && 0 <= j < |data|
  {
    data[i].popularity > data[j].popularity || (data[i].popularity == data[j].popularity && i < j)
  }

  /** Row `i` comes before row `j` in `nsmallest`: less popular, or as popular and earlier. */
  predicate LessPopular<G>(data: seq<Track<G>>, i: int, j: int)
    requires 0 <= i < |data| && 0 <= j < |data|
  {
    data[i].popularity < data[j].popularity || (data[i].popularity == data[j].popularity && i < j)
  }

  lemma MorePopularAhead<G>(data: seq<Track<G>>)
    ensures forall i, j :: 0 <= i < |data| && 0 <= j < |data| ==>
              (MorePopular(data, i, j) <==> Ahead(Popularities(data), i, j))
  {
  }

  lemma LessPopularAhead<G>(data: seq<Track<G>>)
    ensures forall i, j :: 0 <= i < |data| && 0 <= j < |data| ==>
              (LessPopular(data, i, j) <==> Ahead(Negated(Popularities(data)), i, j))
  {
  }

  /**
   * The positions `nlargest(n, 'Popularity')` keeps (with its default `keep='first'`):
   * min(n, |data|) distinct positions, by decreasing popularity with equal popularity in
   * row order, and every position kept beats every position left out, a tie going to the
   * earlier row.
   */
  function LargestAt<G>(data: seq<Track<G>>, n: nat): (r: seq<int>)
    ensures |r| == Min(n, |data|)
    ensures forall j :: 0 <= j < |r| ==> 0 <= r[j] < |data|
    ensures forall a, b :: 0 <= a < b < |r| ==> r[a] != r[b] && MorePopular(data, r[a], r[b])
    ensures forall i, j :: 0 <= i < |data| && 0 <= j < |data| && i in r && j !in r ==>
              MorePopular(data, i, j)
  {
    var s := Popularities(data);
    var r := Top(s, n);
    RankOrderedDistinct(s, r);
    MorePopularAhead(data);
    r
  }

  /**
   * The positions `nsmallest(n, 'Popularity')` keeps: the same selection with every
   * comparison turned round, a tie still going to the earlier row.
   */
  function SmallestAt<G>(data: seq<Track<G>>, n: nat): (r: seq<int>)
    ensures |r| == Min(n, |data|)
    ensures forall j :: 0 <= j < |r| ==> 0 <= r[j] < |data|
    ensures forall a, b :: 0 <= a < b < |r| ==> r[a] != r[b] && LessPopular(data, r[a], r[b])
    ensures forall i, j :: 0 <= i < |data| && 0 <= j < |data| && i in r && j !in r ==>
              LessPopular(data, i, j)
  {
    var s := Negated(Popularities(data));
    var r := Top(s, n);
    RankOrderedDistinct(s, r);
    LessPopularAhead(data);
    r
  }

  /**
   * `data.nlargest(n, 'Popularity')`: min(n, |data|) rows, all of them rows of `data`, by
   * non-increasing popularity.
   */
  function Largest<G>(data: seq<Track<G>>, n: nat): (r: seq<Track<G>>)
    ensures |r| == Min(n, |data|)
    ensures forall j :: 0 <= j < |r| ==> r[j] in data
    ensures forall a, b :: 0 <= a < b < |r| ==> r[a].popularity >= r[b].popularity
  {
    Rows(data, LargestAt(data, n))
  }

  /**
   * `data.nsmallest(n, 'Popularity')`: min(n, |data|) rows, all of them rows of `data`, by
   * non-decreasing popularity.
   */
  function Smallest<G>(data: seq<Track<G>>, n: nat): (r: seq<Track<G>>)
    ensures |r| == Min(n, |data|)
    ensures forall j :: 0 <= j < |r| ==> r[j] in data
    ensures forall a, b :: 0 <= a < b < |r| ==> r[a].popularity <= r[b].popularity
  {
    Rows(data, SmallestAt(data, n))
  }

  /**
   * With popularities all different and n at most half the rows, the n rows kept by
   * `nlargest` and the n kept by `nsmallest` are different rows.
   */
  lemma LargestSmallestDisjoint<G>(data: seq<Track<G>>, n: nat)
    requires forall a, b :: 0 <= a < b < |data| ==> data[a].popularity != data[b].popularity
    requires 2 * n <= |data|
    ensures forall i :: i in LargestAt(data, n) ==> i !in SmallestAt(data, n)
  {
    var s := Popularities(data);
    assert forall a, b :: 0 <= a < b < |s| ==> s[a] != s[b];
    TopBottomDisjoint(s, n);
  }

  /**
   * With ties the two selections can share rows: when all popularities are equal, both
   * keep the first n rows, in row order.
   */
  lemma LargestSmallestTied<G>(data: seq<Track<G>>, n: nat)
    requires forall a, b :: 0 <= a < b < |data| ==> data[a].popularity == data[b].popularity
    ensures forall j :: 0 <= j < |LargestAt(data, n)| ==> LargestAt(data, n)[j] == j
    ensures LargestAt(data, n) == SmallestAt(data, n)
  {
    TiedLargest(data, n);
    TiedSmallest(data, n);
  }

  lemma TiedLargest<G>(data: seq<Track<G>>, n: nat)
    requires forall a, b :: 0 <= a < b < |data| ==> data[a].popularity == data[b].popularity
    ensures forall j :: 0 <= j < |LargestAt(data, n)| ==> LargestAt(data, n)[j] == j
  {
    var r := LargestAt(data, n);
    assert forall i, k :: 0 <= i < k < |data| ==> data[i].popularity == data[k].popularity;
    assert forall a, b :: 0 <= a < b < |r| ==> r[a] < r[b];
    assert forall i, k :: 0 <= i < |data| && 0 <= k < |data| && i in r && k !in r ==> i < k by {
      forall i, k | 0 <= i < |data| && 0 <= k < |data| && i in r && k !in r ensures i < k {
        assert data[i].popularity == data[k].popularity by { SamePopularity(data, i, k); }
      }
    }
    forall j | 0 <= j < |r| ensures r[j] == j {
      FirstPositions(|data|, r, j);
    }
  }

  lemma TiedSmallest<G>(data: seq<Track<G>>, n: nat)
    requires forall a, b :: 0 <= a < b < |data| ==> data[a].popularity == data[b].popularity
    ensures forall j :: 0 <= j < |SmallestAt(data, n)| ==> SmallestAt(data, n)[j] == j
  {
    var r := SmallestAt(data, n);
    assert forall a, b :: 0 <= a < b < |r| ==> r[a] < r[b];
    assert forall i, k :: 0 <= i < |data| && 0 <= k < |data| && i in r && k !in r ==> i < k by {
      forall i, k | 0 <= i < |data| && 0 <= k < |data| && i in r && k !in r ensures i < k {
        assert data[i].popularity == data[k].popularity by { SamePopularity(data, i, k); }
      }
    }
    forall j | 0 <= j < |r| ensures r[j] == j {
      FirstPositions(|data|, r, j);
    }
  }

  lemma SamePopularity<G>(data: seq<Track<G>>, i: int, k: int)
    requires forall a, b :: 0 <= a < b < |data| ==> data[a].popularity == data[b].popularity
    requires 0 <= i < |data| && 0 <= k < |data|
    ensures data[i].popularity == data[k].popularity
  {
    if k < i {
      assert data[k].popularity == data[i].popularity;
    }
  }

  /**
   * Increasing positions below `len` that keep every position before one they keep are
   * the first positions, in order.
   */
  lemma {:induction false} FirstPositions(len: nat, r: seq<int>, j: int)
    requires forall k :: 0 <= k < |r| ==> 0 <= r[k] < len
    requires forall a, b :: 0 <= a < b < |r| ==> r[a] < r[b]
    requires forall i, k :: 0 <= i < len && 0 <= k < len && i in r && k !in r ==> i < k
    requires 0 <= j < |r|
    ensures r[j] == j
    decreases j
  {
    forall k | 0 <= k < j ensures r[k] == k {
      FirstPositions(len, r, k);
    }
    Increasing(r, j);
    // no other index holds position j; so if r[j] were past j, position j would be left
    // out while the later position r[j] is kept
    assert forall a :: 0 <= a < |r| && a != j ==> r[a] != j;
    assert r[j] in r && j < len;
    assert r[j] < j || j in r;
  }

  /** Increasing naturals below a bound start no lower than their position. */
  lemma {:induction false} Increasing(r: seq<int>, j: int)
    requires forall k :: 0 <= k < |r| ==> 0 <= r[k]
    requires forall a, b :: 0 <= a < b < |r| ==> r[a] < r[b]
    requires 0 <= j < |r|
    ensures r[j] >= j
  {
    if j > 0 {
      Increasing(r, j - 1);
    }
  }

  // ---------------------------------------------------------------------
  // Series.value_counts()
  // ---------------------------------------------------------------------

  /** One entry of `value_counts()`: a genre tag and how many rows carry it. */
  datatype Tally = Tally(tag: string, count: nat)

  /** The distinct values of `xs`, in order of first occurrence. */
  function FirstOccurrences(xs: seq<string>): (ks: seq<string>)
    ensures forall a, b :: 0 <= a < b < |ks| ==> ks[a] != ks[b]
    ensures forall v :: v in ks <==> v in xs
  {
    if xs == [] then []
    else
      var ks := FirstOccurrences(xs[..|xs| - 1]);
      assert xs == xs[..|xs| - 1] + [xs[|xs| - 1]];
      if xs[|xs| - 1] in ks then ks else ks + [xs[|xs| - 1]]
  }

  function Tags(ts: seq<Tally>): (r: seq<string>)
    ensures |r| == |ts| && forall j :: 0 <= j < |ts| ==> r[j] == ts[j].tag
  {
    seq(|ts|, j requires 0 <= j < |ts| => ts[j].tag)
  }

  /** The number of occurrences of each of `ks` in `xs`, as scores. */
  function Occurrences(xs: seq<string>, ks: seq<string>): (s: seq<real>)
    ensures |s| == |ks| && forall i :: 0 <= i < |ks| ==> s[i] == multiset(xs)[ks[i]] as real
  {
    seq(|ks|, i requires 0 <= i < |ks| => multiset(xs)[ks[i]] as real)
  }

  /**
   * `Series.value_counts()` on the tags `xs`: one entry per distinct tag, each with the
   * number of times it occurs, by non-increasing count.
   */
  function ValueCounts(xs: seq<string>): (r: seq<Tally>)
    ensures forall j :: 0 <= j < |r| ==> r[j].count == multiset(xs)[r[j].tag] && r[j].count > 0
    ensures forall v :: v in Tags(r) <==> v in xs
    ensures forall a, b :: 0 <= a < b < |r| ==> r[a].tag != r[b].tag && r[a].count >= r[b].count
  {
    var ks := FirstOccurrences(xs);
    var s := Occurrences(xs, ks);
    var order := Top(s, |ks|);
    var r := seq(|order|, j requires 0 <= j < |order| => Tally(ks[order[j]], multiset(xs)[ks[order[j]]]));
    ValueCountsFacts(xs, ks, s, order, r);
    r
  }

  lemma ValueCountsFacts(xs: seq<string>, ks: seq<string>, s: seq<real>, order: seq<int>, r: seq<Tally>)
    requires ks == FirstOccurrences(xs) && s == Occurrences(xs, ks) && order == Top(s, |ks|)
    requires |r| == |order|
    requires forall j :: 0 <= j < |order| ==> r[j] == Tally(ks[order[j]], multiset(xs)[ks[order[j]]])
    ensures forall j :: 0 <= j < |r| ==> r[j].count == multiset(xs)[r[j].tag] && r[j].count > 0
    ensures forall v :: v in Tags(r) <==> v in xs
    ensures forall a, b :: 0 <= a < b < |r| ==> r[a].tag != r[b].tag && r[a].count >= r[b].count
  {
    forall j | 0 <= j < |r| ensures r[j].count > 0 {
      assert ks[order[j]] in xs;
    }
    forall v | v in xs ensures v in Tags(r) {
      ValueCountsCovers(xs, ks, s, order, r, v);
    }
    ValueCountsOrdered(xs, ks, s, order, r);
  }

  /** Every tag of the slice has its entry. */
  lemma ValueCountsCovers(xs: seq<string>, ks: seq<string>, s: seq<real>, order: seq<int>, r: seq<Tally>, v: string)
    requires ks == FirstOccurrences(xs) && s == Occurrences(xs, ks) && order == Top(s, |ks|)
    requires |r| == |order|
    requires forall j :: 0 <= j < |order| ==> r[j] == Tally(ks[order[j]], multiset(xs)[ks[order[j]]])
    requires v in xs
    ensures v in Tags(r)
  {
    var q :| 0 <= q < |ks| && ks[q] == v;
    TopAll(s, |ks|);
    assert q in order;
    var j :| 0 <= j < |order| && order[j] == q;
    assert Tags(r)[j] == v;
  }

  /** The entries come by non-increasing count, each tag once. */
  lemma ValueCountsOrdered(xs: seq<string>, ks: seq<string>, s: seq<real>, order: seq<int>, r: seq<Tally>)
    requires ks == FirstOccurrences(xs) && s == Occurrences(xs, ks) && order == Top(s, |ks|)
    requires |r| == |order|
    requires forall j :: 0 <= j < |order| ==> r[j] == Tally(ks[order[j]], multiset(xs)[ks[order[j]]])
    ensures forall a, b :: 0 <= a < b < |r| ==> r[a].tag != r[b].tag && r[a].count >= r[b].count
  {
    RankOrderedDistinct(s, order);
    forall a, b | 0 <= a < b < |r| ensures r[a].tag != r[b].tag && r[a].count >= r[b].count {
      assert Ahead(s, order[a], order[b]);
    }
  }

  /** The sum of the counts of a `value_counts()` result. */
  function TotalCount(ts: seq<Tally>): nat {
    if ts == [] then 0 else TotalCount(ts[..|ts| - 1]) + ts[|ts| - 1].count
  }

  /** The tags of `ts`, as a set. */
  function TagSet(ts: seq<Tally>): (keys: set<string>)
    ensures forall v :: v in keys <==> exists j :: 0 <= j < |ts| && ts[j].tag == v
  {
    if ts == [] then {}
    else
      var init := TagSet(ts[..|ts| - 1]);
      assert forall j :: 0 <= j < |ts| - 1 ==> ts[..|ts| - 1][j] == ts[j];
      init + {ts[|ts| - 1].tag}
  }

  /** The number of elements of `xs` that lie in `keys`. */
  function CountIn(xs: seq<string>, keys: set<string>): nat {
    if xs == [] then 0 else CountIn(xs[..|xs| - 1], keys) + (if xs[|xs| - 1] in keys then 1 else 0)
  }

  lemma {:induction false} CountInAdd(xs: seq<string>, keys: set<string>, k: string)
    requires k !in keys
    ensures CountIn(xs, keys + {k}) == CountIn(xs, keys) + multiset(xs)[k]
  {
    if xs != [] {
      CountInAdd(xs[..|xs| - 1], keys, k);
      assert xs == xs[..|xs| - 1] + [xs[|xs| - 1]];
    }
  }

  lemma {:induction false} CountInAll(xs: seq<string>, keys: set<string>)
    requires forall v :: v in xs ==> v in keys
    ensures CountIn(xs, keys) == |xs|
  {
    if xs != [] {
      assert xs == xs[..|xs| - 1] + [xs[|xs| - 1]];
      CountInAll(xs[..|xs| - 1], keys);
    }
  }

  /** Counts of distinct tags add up to the number of elements of `xs` they cover. */
  lemma {:induction false} TotalCovered(xs: seq<string>, ts: seq<Tally>)
    requires forall j :: 0 <= j < |ts| ==> ts[j].count == multiset(xs)[ts[j].tag]
    requires forall a, b :: 0 <= a < b < |ts| ==> ts[a].tag != ts[b].tag
    ensures TotalCount(ts) == CountIn(xs, TagSet(ts))
  {
    if ts == [] {
      CountInNone(xs);
    } else {
      var init := ts[..|ts| - 1];
      TotalCovered(xs, init);
      assert ts[|ts| - 1].tag !in TagSet(init);
      CountInAdd(xs, TagSet(init), ts[|ts| - 1].tag);
    }
  }

  lemma {:induction false} CountInNone(xs: seq<string>)
    ensures CountIn(xs, {}) == 0
  {
    if xs != [] {
      CountInNone(xs[..|xs| - 1]);
    }
  }

  /** The counts of `value_counts()` add up to the number of values counted. */
  lemma ValueCountsTotal(xs: seq<string>)
    ensures TotalCount(ValueCounts(xs)) == |xs|
  {
    var r := ValueCounts(xs);
    TotalCovered(xs, r);
    forall v | v in xs ensures v in TagSet(r) {
      assert v in Tags(r);
      var j :| 0 <= j < |r| && Tags(r)[j] == v;
    }
    CountInAll(xs, TagSet(r));
  }

  // ---------------------------------------------------------------------
  // Selecting the rows whose tag is in a given list
  // ---------------------------------------------------------------------

  /**
   * main.py:107, the mask selection by `isin`: the rows whose tag is one of `keep`, in
   * their original order, each as often as in `data`.
   */
  function IsIn(data: seq<Track<string>>, keep: seq<string>): (r: seq<Track<string>>)
    ensures Subsequence(r, data)
    ensures forall t :: multiset(r)[t] == if t.genres in keep then multiset(data)[t] else 0
  {
    if data == [] then []
    else
      var rest := IsIn(data[1..], keep);
      assert data == [data[0]] + data[1..];
      if data[0].genres in keep then
        assert ([data[0]] + rest)[1..] == rest;
        [data[0]] + rest
      else
        SubsequenceDrop(rest, data);
        rest
  }

  lemma SubsequenceDrop<T>(xs: seq<T>, ys: seq<T>)
    requires ys != [] && Subsequence(xs, ys[1..])
    ensures Subsequence(xs, ys)
  {
  }
}
