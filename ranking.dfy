/**
 * Selection of the best-scored positions of a column. This is what pandas' `nlargest(n)`
 * does with its default `keep='first'`: the n largest values, largest first, and among
 * equal values the earlier position first. When n covers the whole column, pandas sorts
 * it unstably instead, and the order among equal values given here is then one possible
 * order of several. `nsmallest` is the same selection on
 * the negated column. The model also uses it wherever the source sorts a column in
 * descending order (see `Groups` and `Slices`).
 */
module Ranking {
  import opened Table

  /** Position `i` ranks ahead of position `j`: a larger score, or the same score earlier. */
  predicate Ahead(s: seq<real>, i: int, j: int)
    requires 0 <= i < |s| && 0 <= j < |s|
  {
    s[i] > s[j] || (s[i] == s[j] && i < j)
  }

  predicate InRange(s: seq<real>, xs: seq<int>) {
    forall k :: 0 <= k < |xs| ==> 0 <= xs[k] < |s|
  }

  /** `xs` lists positions of `s`, each ranking ahead of every one listed after it. */
  predicate RankOrdered(s: seq<real>, xs: seq<int>) {
    InRange(s, xs) && forall a, b :: 0 <= a < b < |xs| ==> Ahead(s, xs[a], xs[b])
  }

  /** A rank order lists no position twice. */
  lemma RankOrderedDistinct(s: seq<real>, xs: seq<int>)
    requires RankOrdered(s, xs)
    ensures forall a, b :: 0 <= a < b < |xs| ==> xs[a] != xs[b]
  {
  }

  /** The first member of a rank order ranks ahead of a position that it does not follow. */
  lemma AheadOfAll(s: seq<real>, x: int, i: int, rest: seq<int>, r: seq<int>)
    requires RankOrdered(s, [x] + rest) && 0 <= x < |s|
    requires 0 <= i < |s| && i != x && !Ahead(s, i, x)
    requires multiset(r) == multiset(rest) + multiset{i}
    ensures InRange(s, r)
    ensures forall b :: 0 <= b < |r| ==> Ahead(s, x, r[b])
  {
    forall b | 0 <= b < |r| ensures 0 <= r[b] < |s| {
      assert r[b] in multiset(r);
      if r[b] != i {
        assert r[b] in multiset(rest);
        var c :| 0 <= c < |rest| && rest[c] == r[b];
        assert ([x] + rest)[c + 1] == r[b];
      }
    }
    forall b | 0 <= b < |r| ensures Ahead(s, x, r[b]) {
      assert r[b] in multiset(r);
      if r[b] != i {
        assert r[b] in multiset(rest);
        var c :| 0 <= c < |rest| && rest[c] == r[b];
        assert ([x] + rest)[0] == x && ([x] + rest)[c + 1] == r[b];
        assert Ahead(s, ([x] + rest)[0], ([x] + rest)[c + 1]);
      }
    }
  }

  /** Inserts position `i` into the rank order `xs`. */
  function Insert(s: seq<real>, i: int, xs: seq<int>): (r: seq<int>)
    requires 0 <= i < |s| && i !in xs && RankOrdered(s, xs)
    ensures RankOrdered(s, r)
    ensures multiset(r) == multiset(xs) + multiset{i}
  {
    if xs == [] || Ahead(s, i, xs[0]) then [i] + xs
    else
      var r := Insert(s, i, xs[1..]);
      assert [xs[0]] + xs[1..] == xs;
      AheadOfAll(s, xs[0], i, xs[1..], r);
      [xs[0]] + r
  }

  /** `r` holds what `xs` holds and, once more, `i`. */
  lemma AddedMember(xs: seq<int>, r: seq<int>, i: int)
    requires multiset(r) == multiset(xs) + multiset{i}
    ensures |r| == |xs| + 1
    ensures forall j :: j in r <==> j in xs || j == i
  {
    assert |r| == |multiset(r)|;
    forall j ensures j in r <==> j in xs || j == i {
      assert j in r <==> j in multiset(r);
      assert j in xs <==> j in multiset(xs);
    }
  }

  /** The positions `0 .. n-1` of `s` in rank order (an insertion sort). */
  function RankPrefix(s: seq<real>, n: nat): (r: seq<int>)
    requires n <= |s|
    ensures |r| == n && RankOrdered(s, r)
    ensures forall i :: i in r <==> 0 <= i < n
  {
    if n == 0 then []
    else
      var xs := RankPrefix(s, n - 1);
      assert n - 1 !in xs;
      var r := Insert(s, n - 1, xs);
      AddedMember(xs, r, n - 1);
      r
  }

  /**
   * `nlargest(n)` on a column of scores, as positions: at most n of them, largest score
   * first, and every chosen position ranks ahead of every position left out, so that a
   * tie at the cut goes to the earlier position.
   */
  function Top(s: seq<real>, n: nat): (r: seq<int>)
    ensures |r| == Min(n, |s|)
    ensures RankOrdered(s, r)
    ensures forall i, j :: 0 <= i < |s| && 0 <= j < |s| && i in r && j !in r ==> Ahead(s, i, j)
  {
    var all := RankPrefix(s, |s|);
    var m := Min(n, |s|);
    var r := all[..m];
    assert forall i, j :: 0 <= i < |s| && 0 <= j < |s| && i in r && j !in r ==> Ahead(s, i, j) by {
      forall i, j | 0 <= i < |s| && 0 <= j < |s| && i in r && j !in r ensures Ahead(s, i, j) {
        var a :| 0 <= a < m && r[a] == i;
        assert j in all;
        var b :| 0 <= b < |s| && all[b] == j;
        assert all[a] == i;
      }
    }
    r
  }

  /** With n at least the length, `Top` keeps every position. */
  lemma TopAll(s: seq<real>, n: nat)
    requires |s| <= n
    ensures forall i :: 0 <= i < |s| ==> i in Top(s, n)
  {
    var all := RankPrefix(s, |s|);
    assert Top(s, n) == all[..|s|] == all;
  }

  // ---------------------------------------------------------------------
  // Rank as a count, and the top and bottom selections
  // ---------------------------------------------------------------------

  ghost function Elems(xs: seq<int>): set<int> {
    set x | x in xs
  }

  /** The positions `0 .. n-1`. */
  ghost function Range(n: nat): (r: set<int>)
    ensures |r| == n
    ensures forall j :: j in r <==> 0 <= j < n
  {
    if n == 0 then {} else Range(n - 1) + {n - 1}
  }

  lemma {:induction false} ElemsOfDistinct(xs: seq<int>)
    requires forall a, b :: 0 <= a < b < |xs| ==> xs[a] != xs[b]
    ensures |Elems(xs)| == |xs|
  {
    if xs != [] {
      var ys := xs[..|xs| - 1];
      ElemsOfDistinct(ys);
      assert Elems(xs) == Elems(ys) + {xs[|xs| - 1]};
      assert xs[|xs| - 1] !in Elems(ys);
    }
  }

  /** The positions that rank ahead of position `i`. */
  ghost function AheadOf(s: seq<real>, i: int): set<int>
    requires 0 <= i < |s|
  {
    set j | 0 <= j < |s| && Ahead(s, j, i)
  }

  /** A position is among the top n exactly when fewer than n positions rank ahead of it. */
  lemma TopMembership(s: seq<real>, n: nat, i: int)
    requires 0 <= i < |s|
    ensures i in Top(s, n) <==> |AheadOf(s, i)| < n
  {
    var all := RankPrefix(s, |s|);
    assert i in all;
    var p :| 0 <= p < |s| && all[p] == i;
    var before := all[..p];
    assert Elems(before) == AheadOf(s, i) by {
      forall j | j in AheadOf(s, i) ensures j in Elems(before) {
        assert j in all;
        var q :| 0 <= q < |s| && all[q] == j;
        assert q < p;
        assert before[q] == j;
      }
    }
    RankOrderedDistinct(s, all);
    ElemsOfDistinct(before);
    var m := Min(n, |s|);
    assert Top(s, n) == all[..m];
    if p < m {
      assert all[..m][p] == i;
    }
  }

  /** The column with every score negated: ranking it is ranking by smallest score. */
  function Negated(s: seq<real>): (r: seq<real>)
    ensures |r| == |s| && forall k :: 0 <= k < |s| ==> r[k] == -s[k]
  {
    seq(|s|, k requires 0 <= k < |s| => -s[k])
  }

  /** With distinct scores, every other position ranks above or below `i`, never both. */
  lemma AboveAndBelow(s: seq<real>, i: int)
    requires forall a, b :: 0 <= a < b < |s| ==> s[a] != s[b]
    requires 0 <= i < |s|
    ensures |AheadOf(s, i)| + |AheadOf(Negated(s), i)| + 1 == |s|
  {
    AboveOrBelow(s, i);
    PartitionCard(AheadOf(s, i), AheadOf(Negated(s), i), i, |s|);
  }

  /** With distinct scores, each position other than `i` ranks exactly one way against it. */
  lemma AboveOrBelow(s: seq<real>, i: int)
    requires forall a, b :: 0 <= a < b < |s| ==> s[a] != s[b]
    requires 0 <= i < |s|
    ensures forall j :: j in AheadOf(s, i) ==> 0 <= j < |s| && j !in AheadOf(Negated(s), i) && j != i
    ensures forall j :: j in AheadOf(Negated(s), i) ==> 0 <= j < |s| && j != i
    ensures forall j :: 0 <= j < |s| && j != i ==> j in AheadOf(s, i) || j in AheadOf(Negated(s), i)
  {
    forall j | 0 <= j < |s| && j != i ensures j in AheadOf(s, i) || j in AheadOf(Negated(s), i) {
      if j < i { assert s[j] != s[i]; } else { assert s[i] != s[j]; }
    }
  }

  /** Two disjoint sets that with `i` make up the positions `0 .. n-1` have n - 1 members together. */
  lemma PartitionCard(a: set<int>, b: set<int>, i: int, n: nat)
    requires 0 <= i < n
    requires forall j :: j in a ==> 0 <= j < n && j !in b && j != i
    requires forall j :: j in b ==> 0 <= j < n && j != i
    requires forall j :: 0 <= j < n && j != i ==> j in a || j in b
    ensures |a| + |b| + 1 == n
  {
    var all := a + b + {i};
    forall j | j in Range(n) ensures j in all {
      assert j == i || j in a || j in b;
    }
    assert all == Range(n);
    assert a !! b;
  }

  /**
   * When the scores are distinct and n is at most half their number, the n largest and the
   * n smallest share no position.
   */
  lemma TopBottomDisjoint(s: seq<real>, n: nat)
    requires forall a, b :: 0 <= a < b < |s| ==> s[a] != s[b]
    requires 2 * n <= |s|
    ensures forall i :: i in Top(s, n) ==> i !in Top(Negated(s), n)
  {
    forall i | i in Top(s, n) ensures i !in Top(Negated(s), n) {
      TopMembership(s, n, i);
      TopMembership(Negated(s), n, i);
      AboveAndBelow(s, i);
    }
  }
}
