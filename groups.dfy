/**
 * Grouped means and their top n: `groupby(key)['Popularity'].mean()` gives one mean per
 * distinct key, with the keys in ascending order (pandas sorts group keys by default), and
 * the groups are then ranked by mean, largest first.
 */
module Groups {
  import opened Table
  import opened Text
  import opened Ranking

  /** One value of the grouped column, with the key of the group it falls in. */
  datatype Entry = Entry(key: string, value: int)

  /** One entry of a grouped-mean Series: the key and the mean of its group. */
  datatype Group = Group(key: string, mean: real)

  // ---------------------------------------------------------------------
  // Reference definitions
  // ---------------------------------------------------------------------

  /** The number of entries with key `k`. */
  function Count(es: seq<Entry>, k: string): nat {
    if es == [] then 0
    else Count(es[..|es| - 1], k) + (if es[|es| - 1].key == k then 1 else 0)
  }

  /** The sum of the values with key `k`. */
  function Sum(es: seq<Entry>, k: string): int {
    if es == [] then 0
    else Sum(es[..|es| - 1], k) + (if es[|es| - 1].key == k then es[|es| - 1].value else 0)
  }

  /** The arithmetic mean of the values with key `k`, exactly: times the count, it is the sum. */
  function Mean(es: seq<Entry>, k: string): (m: real)
    requires Count(es, k) > 0
    ensures m * Count(es, k) as real == Sum(es, k) as real
  {
    Sum(es, k) as real / Count(es, k) as real
  }

  /** The values of a group lie between `lo` and `hi`, so its mean does too. */
  lemma MeanWithin(es: seq<Entry>, k: string, lo: int, hi: int)
    requires Count(es, k) > 0
    requires forall e :: e in es && e.key == k ==> lo <= e.value <= hi
    ensures lo as real <= Mean(es, k) <= hi as real
  {
    SumWithin(es, k, lo, hi);
    var c, m := Count(es, k) as real, Mean(es, k);
    assert lo as real * c <= m * c;
    assert m * c <= hi as real * c;
  }

  lemma MulSucc(x: int, c: int)
    ensures x * (c + 1) == x * c + x
  {
  }

  /** The sum of a group lies between `lo` and `hi` times its count. */
  lemma {:induction false} SumWithin(es: seq<Entry>, k: string, lo: int, hi: int)
    requires forall e :: e in es && e.key == k ==> lo <= e.value <= hi
    ensures lo * Count(es, k) <= Sum(es, k) <= hi * Count(es, k)
  {
    if es != [] {
      var init, e := es[..|es| - 1], es[|es| - 1];
      assert forall x :: x in init ==> x in es;
      SumWithin(init, k, lo, hi);
      var c, s := Count(init, k), Sum(init, k);
      assert lo * c <= s <= hi * c;
      if e.key == k {
        assert e in es && lo <= e.value <= hi;
        assert Count(es, k) == c + 1 && Sum(es, k) == s + e.value;
        MulSucc(lo, c);
        MulSucc(hi, c);
      } else {
        assert Count(es, k) == c && Sum(es, k) == s;
      }
    }
  }

  /** A key occurs in some entry exactly when its group is not empty. */
  lemma {:induction false} CountOccurs(es: seq<Entry>, k: string)
    ensures Count(es, k) > 0 <==> exists e :: e in es && e.key == k
  {
    if es != [] {
      var init := es[..|es| - 1];
      CountOccurs(init, k);
      assert es == init + [es[|es| - 1]];
      if Count(init, k) > 0 {
        var e :| e in init && e.key == k;
        assert e in es;
      }
      if e :| e in es && e.key == k {
        if e != es[|es| - 1] {
          assert e in init;
        }
      }
    }
  }

  // ---------------------------------------------------------------------
  // groupby(...).mean()
  // ---------------------------------------------------------------------

  /** A group's running total while the entries are aggregated. */
  datatype Total = Total(sum: int, count: nat)

  /** The per-key sums and counts, accumulated in one pass over the entries. */
  function Totals(es: seq<Entry>): (m: map<string, Total>)
    ensures forall k :: k in m <==> Count(es, k) > 0
    ensures forall k :: k in m ==> m[k] == Total(Sum(es, k), Count(es, k))
    ensures forall k :: k !in m ==> Sum(es, k) == 0
  {
    if es == [] then map[]
    else
      var m := Totals(es[..|es| - 1]);
      var e := es[|es| - 1];
      var t := if e.key in m then m[e.key] else Total(0, 0);
      m[e.key := Total(t.sum + e.value, t.count + 1)]
  }

  predicate StrictlySorted(ks: seq<string>) {
    forall a, b :: 0 <= a < b < |ks| ==> LexLess(ks[a], ks[b])
  }

  /** Inserts `k` into the ascending key list `ks`, unless it is there already. */
  function InsertKey(k: string, ks: seq<string>): (r: seq<string>)
    requires StrictlySorted(ks)
    ensures StrictlySorted(r)
    ensures forall x :: x in r <==> x == k || x in ks
  {
    if ks == [] then [k]
    else if k == ks[0] then ks
    else if LexLess(k, ks[0]) then
      LexStrictOrder();
      [k] + ks
    else
      var rest := InsertKey(k, ks[1..]);
      LexStrictOrder();
      assert forall x :: x in rest ==> LexLess(ks[0], x);
      [ks[0]] + rest
  }

  /** The distinct keys of the entries, ascending. */
  function SortedKeys(es: seq<Entry>): (ks: seq<string>)
    ensures StrictlySorted(ks)
    ensures forall k :: k in ks <==> Count(es, k) > 0
  {
    if es == [] then [] else InsertKey(es[|es| - 1].key, SortedKeys(es[..|es| - 1]))
  }

  function Keys(gs: seq<Group>): (ks: seq<string>)
    ensures |ks| == |gs| && forall i :: 0 <= i < |gs| ==> ks[i] == gs[i].key
  {
    seq(|gs|, i requires 0 <= i < |gs| => gs[i].key)
  }

  function Means(gs: seq<Group>): (ms: seq<real>)
    ensures |ms| == |gs| && forall i :: 0 <= i < |gs| ==> ms[i] == gs[i].mean
  {
    seq(|gs|, i requires 0 <= i < |gs| => gs[i].mean)
  }

  /**
   * `groupby(key)[value].mean()`: one group per distinct key, keys ascending, and each
   * group's mean is the mean of the values with that key.
   */
  function GroupMeans(es: seq<Entry>): (gs: seq<Group>)
    ensures StrictlySorted(Keys(gs))
    ensures forall k :: k in Keys(gs) <==> Count(es, k) > 0
    ensures forall i :: 0 <= i < |gs| ==> Count(es, gs[i].key) > 0 && gs[i].mean == Mean(es, gs[i].key)
  {
    var totals := Totals(es);
    var keys := SortedKeys(es);
    var gs := seq(|keys|, i requires 0 <= i < |keys| =>
                var t := totals[keys[i]];
                Group(keys[i], t.sum as real / t.count as real));
    assert Keys(gs) == keys;
    gs
  }

  // ---------------------------------------------------------------------
  // The groups with the largest means
  // ---------------------------------------------------------------------

  /** `r` lists groups by decreasing mean, equal means in ascending key order. */
  predicate ByMeanThenKey(r: seq<Group>) {
    forall a, b :: 0 <= a < b < |r| ==>
      r[a].mean > r[b].mean || (r[a].mean == r[b].mean && LexLess(r[a].key, r[b].key))
  }

  /**
   * `nlargest(n)` on the grouped means: at most n groups, and fewer only when every key is
   * in; by decreasing mean with equal means in key order; each with its key's true mean;
   * and a key left out has a smaller mean than every group kept, or the same mean and a
   * later key.
   */
  function TopGroups(es: seq<Entry>, n: nat): (r: seq<Group>)
    ensures |r| <= n
    ensures |r| < n ==> forall k :: Count(es, k) > 0 ==> k in Keys(r)
    ensures ByMeanThenKey(r)
    ensures forall g :: g in r ==> Count(es, g.key) > 0 && g.mean == Mean(es, g.key)
    ensures forall g, k :: g in r && Count(es, k) > 0 && k !in Keys(r) ==>
              Mean(es, k) < g.mean || (Mean(es, k) == g.mean && LexLess(g.key, k))
  {
    var gs := GroupMeans(es);
    var idx := Top(Means(gs), n);
    var r := seq(|idx|, j requires 0 <= j < |idx| => gs[idx[j]]);
    TopGroupsFacts(es, n, gs, idx, r);
    r
  }

  lemma TopGroupsFacts(es: seq<Entry>, n: nat, gs: seq<Group>, idx: seq<int>, r: seq<Group>)
    requires gs == GroupMeans(es) && idx == Top(Means(gs), n)
    requires |r| == |idx| && forall j :: 0 <= j < |idx| ==> r[j] == gs[idx[j]]
    ensures |r| <= n
    ensures |r| < n ==> forall k :: Count(es, k) > 0 ==> k in Keys(r)
    ensures ByMeanThenKey(r)
    ensures forall g :: g in r ==> Count(es, g.key) > 0 && g.mean == Mean(es, g.key)
    ensures forall g, k :: g in r && Count(es, k) > 0 && k !in Keys(r) ==>
              Mean(es, k) < g.mean || (Mean(es, k) == g.mean && LexLess(g.key, k))
  {
    TopGroupsOrdered(gs, idx, r, n);
    if |r| < n {
      forall k | Count(es, k) > 0 ensures k in Keys(r) {
        TopGroupsKept(es, n, gs, idx, r, k);
      }
    }
    forall g, k | g in r && Count(es, k) > 0 && k !in Keys(r)
      ensures Mean(es, k) < g.mean || (Mean(es, k) == g.mean && LexLess(g.key, k))
    {
      TopGroupsCut(es, n, gs, idx, r, g, k);
    }
  }

  /** Picking groups in rank order of their means, from a key-sorted list, orders them by mean, then key. */
  lemma TopGroupsOrdered(gs: seq<Group>, idx: seq<int>, r: seq<Group>, n: nat)
    requires StrictlySorted(Keys(gs)) && idx == Top(Means(gs), n)
    requires |r| == |idx| && forall j :: 0 <= j < |idx| ==> r[j] == gs[idx[j]]
    ensures ByMeanThenKey(r)
  {
    var ms, ks := Means(gs), Keys(gs);
    forall a, b | 0 <= a < b < |r|
      ensures r[a].mean > r[b].mean || (r[a].mean == r[b].mean && LexLess(r[a].key, r[b].key))
    {
      assert Ahead(ms, idx[a], idx[b]);
      if ms[idx[a]] == ms[idx[b]] {
        assert LexLess(ks[idx[a]], ks[idx[b]]);
      }
    }
  }

  /** When fewer than n groups come out, every key is among them. */
  lemma TopGroupsKept(es: seq<Entry>, n: nat, gs: seq<Group>, idx: seq<int>, r: seq<Group>, k: string)
    requires gs == GroupMeans(es) && idx == Top(Means(gs), n)
    requires |r| == |idx| && forall j :: 0 <= j < |idx| ==> r[j] == gs[idx[j]]
    requires |r| < n && Count(es, k) > 0
    ensures k in Keys(r)
  {
    var ms, ks := Means(gs), Keys(gs);
    assert k in ks;
    var q :| 0 <= q < |ks| && ks[q] == k;
    TopAll(ms, n);
    assert q in idx;
    var j :| 0 <= j < |idx| && idx[j] == q;
    assert Keys(r)[j] == k;
  }

  /** A key left out ranks behind every group kept. */
  lemma TopGroupsCut(es: seq<Entry>, n: nat, gs: seq<Group>, idx: seq<int>, r: seq<Group>, g: Group, k: string)
    requires gs == GroupMeans(es) && idx == Top(Means(gs), n)
    requires |r| == |idx| && forall j :: 0 <= j < |idx| ==> r[j] == gs[idx[j]]
    requires g in r && Count(es, k) > 0 && k !in Keys(r)
    ensures Mean(es, k) < g.mean || (Mean(es, k) == g.mean && LexLess(g.key, k))
  {
    var ms, ks := Means(gs), Keys(gs);
    var j :| 0 <= j < |r| && r[j] == g;
    assert k in ks;
    var q :| 0 <= q < |ks| && ks[q] == k;
    LeftOutPosition(gs, idx, r, q);
    assert Ahead(ms, idx[j], q);
    if idx[j] < q {
      assert LexLess(ks[idx[j]], ks[q]);
    }
  }

  /** The position of a key that no picked group carries is not among the picked positions. */
  lemma LeftOutPosition(gs: seq<Group>, idx: seq<int>, r: seq<Group>, q: int)
    requires |r| == |idx| && forall j :: 0 <= j < |idx| ==> 0 <= idx[j] < |gs| && r[j] == gs[idx[j]]
    requires 0 <= q < |gs| && gs[q].key !in Keys(r)
    ensures q !in idx
  {
    forall j | 0 <= j < |idx| ensures idx[j] != q {
      assert Keys(r)[j] == gs[idx[j]].key;
    }
  }
}
