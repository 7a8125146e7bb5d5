/**
 * The summary tables drawn from the aggregate table (src/transform_metrics.py): total sales per
 * month, the twenty products with the largest total sales, total sales per ATC code largest
 * first, and the mean monthly sales per calendar month number.
 */
module Reports {
  import opened Wrappers
  import opened Ordering
  import opened Dates
  import opened Grouping
  import opened Sorting
  import opened Aggregator

  /** How many products the top-products table shows. */
  const TopCount: nat := 20

  /** `agg_df.groupby(column)["total_sales"]`: each aggregate row's sales under one key column. */
  function Pairs<K>(agg: seq<AggRow>, key: AggRow -> K): seq<(K, real)> {
    seq(|agg|, i requires 0 <= i < |agg| => (key(agg[i]), agg[i].totalSales))
  }

  /** The total sales of the aggregate rows whose key column holds `k`, summed directly. */
  function SalesWhere<K(==)>(agg: seq<AggRow>, key: AggRow -> K, k: K): real {
    if |agg| == 0 then 0.0
    else
      var last := agg[|agg| - 1];
      SalesWhere(agg[..|agg| - 1], key, k) + (if key(last) == k then last.totalSales else 0.0)
  }

  /** The number of aggregate rows whose key column holds `k`. */
  function CountWhere<K(==)>(agg: seq<AggRow>, key: AggRow -> K, k: K): nat {
    if |agg| == 0 then 0
    else CountWhere(agg[..|agg| - 1], key, k) + (if key(agg[|agg| - 1]) == k then 1 else 0)
  }

  function MonthOf(a: AggRow): Date { a.key.month }
  function ProductNameOf(a: AggRow): string { a.key.productName }
  function AtcCodeOf(a: AggRow): string { a.key.atcCode }

  /** The `month_num` column added to the aggregate table: the calendar month of `month`. */
  function MonthNumOf(a: AggRow): int { a.key.month.month }

  /** Monthly Total Sales: `groupby("month")["total_sales"].sum()`. */
  function MonthlyTotals(agg: seq<AggRow>): seq<(Date, real)> {
    GroupSums(Pairs(agg, MonthOf), DateLess)
  }

  /** Total sales per product name, names ascending. */
  function ProductTotals(agg: seq<AggRow>): seq<(string, real)> {
    GroupSums(Pairs(agg, ProductNameOf), StrLess)
  }

  /** Top 20 Products by Sales: the product totals, `nlargest(20)`. */
  function TopProducts(agg: seq<AggRow>): seq<(string, real)> {
    NLargest(ProductTotals(agg), TopCount)
  }

  /** Sales by ATC Category: `groupby("atc_code")["total_sales"].sum().sort_values(ascending=False)`. */
  function AtcTotals(agg: seq<AggRow>): seq<(string, real)> {
    SortDesc(GroupSums(Pairs(agg, AtcCodeOf), StrLess))
  }

  /** Seasonality: `groupby("month_num")["total_sales"].mean()`; every group is non-empty. */
  function Seasonality(agg: seq<AggRow>): seq<(int, real)> {
    var gs := GroupBy(Pairs(agg, MonthNumOf), IntLess);
    seq(|gs|, i requires 0 <= i < |gs| => (gs[i].0, Mean(gs[i].1).GetOr(0.0)))
  }

  // ---------------------------------------------------------------------------------------
  // The pairs a summary table groups.

  lemma {:induction false} SelectPairs<K>(agg: seq<AggRow>, key: AggRow -> K, k: K)
    ensures SumReal(Select(Pairs(agg, key), k)) == SalesWhere(agg, key, k)
    ensures |Select(Pairs(agg, key), k)| == CountWhere(agg, key, k)
  {
    if |agg| > 0 {
      var init := agg[..|agg| - 1];
      var last := agg[|agg| - 1];
      SelectPairs(init, key, k);
      var ps := Pairs(agg, key);
      assert ps[..|ps| - 1] == Pairs(init, key);
      var tail := if key(last) == k then [last.totalSales] else [];
      SumRealAppend(Select(Pairs(init, key), k), tail);
      if key(last) == k {
        assert SumReal(tail) == last.totalSales;
      }
    }
  }

  lemma PairsKeys<K>(agg: seq<AggRow>, key: AggRow -> K)
    ensures forall k :: k in Keys(Pairs(agg, key)) <==> exists i :: 0 <= i < |agg| && key(agg[i]) == k
  {
    var ps := Pairs(agg, key);
    forall k | (exists i :: 0 <= i < |agg| && key(agg[i]) == k) ensures k in Keys(ps) {
      var i :| 0 <= i < |agg| && key(agg[i]) == k;
      assert ps[i].0 == k;
    }
  }

  /** Summing the total sales of the aggregate rows under any key column. */
  lemma GroupSumsOfPairs<K(!new)>(agg: seq<AggRow>, key: AggRow -> K, less: (K, K) -> bool)
    requires StrictTotalOrder(less)
    ensures var g := GroupSums(Pairs(agg, key), less);
      && Ascending(g, less)
      && (forall k :: k in Keys(g) <==> exists i :: 0 <= i < |agg| && key(agg[i]) == k)
      && (forall i :: 0 <= i < |g| ==> g[i].1 == SalesWhere(agg, key, g[i].0))
      && SumReal(Values(g)) == SumReal(MapSeq(agg, TotalSalesOf))
  {
    var ps := Pairs(agg, key);
    var g := GroupSums(ps, less);
    GroupSumsCorrect(ps, less);
    PairsKeys(agg, key);
    forall i | 0 <= i < |g| ensures g[i].1 == SalesWhere(agg, key, g[i].0) {
      SelectPairs(agg, key, g[i].0);
    }
    GroupSumsTotal(ps, less);
    assert Values(ps) == MapSeq(agg, TotalSalesOf);
  }

  // ---------------------------------------------------------------------------------------
  // The four tables.

  /**
   * One entry per month of the aggregate table, months ascending, each the sum of the total
   * sales of the aggregate rows of that month; together they add up to all the sales.
   */
  lemma MonthlyTotalsCorrect(agg: seq<AggRow>)
    ensures var m := MonthlyTotals(agg);
      && (forall i, j :: 0 <= i < j < |m| ==> DateLess(m[i].0, m[j].0))
      && (forall d :: d in Keys(m) <==> exists i :: 0 <= i < |agg| && agg[i].key.month == d)
      && (forall i :: 0 <= i < |m| ==> m[i].1 == SalesWhere(agg, MonthOf, m[i].0))
      && SumReal(Values(m)) == SumReal(MapSeq(agg, TotalSalesOf))
  {
    DateLessOrder();
    GroupSumsOfPairs(agg, MonthOf, DateLess);
  }

  /** Product totals: names ascending and distinct, each the total sales of that product name. */
  lemma ProductTotalsCorrect(agg: seq<AggRow>)
    ensures var p := ProductTotals(agg);
      && (forall i, j :: 0 <= i < j < |p| ==> StrLess(p[i].0, p[j].0))
      && (forall n :: n in Keys(p) <==> exists i :: 0 <= i < |agg| && agg[i].key.productName == n)
      && (forall i :: 0 <= i < |p| ==> p[i].1 == SalesWhere(agg, ProductNameOf, p[i].0))
  {
    StrLessOrder();
    GroupSumsOfPairs(agg, ProductNameOf, StrLess);
  }

  /**
   * The top-products table: at most twenty entries (fewer only when there are fewer products),
   * total sales never increasing, each entry a product with its total, and no product left out
   * selling more than a product shown.
   */
  lemma TopProductsCorrect(agg: seq<AggRow>)
    ensures var p := ProductTotals(agg);
      var top := TopProducts(agg);
      && |top| == Min(TopCount, |p|) && |top| <= 20
      && NonIncreasing(top)
      && multiset(top) <= multiset(p)
      && (forall e :: e in top ==> e.1 == SalesWhere(agg, ProductNameOf, e.0))
      && (forall e :: e in multiset(p) - multiset(top) ==>
            forall i :: 0 <= i < |top| ==> e.1 <= top[i].1)
  {
    var p := ProductTotals(agg);
    var top := TopProducts(agg);
    NLargestCorrect(p, TopCount);
    ProductTotalsCorrect(agg);
    forall e | e in top ensures e.1 == SalesWhere(agg, ProductNameOf, e.0) {
      assert e in multiset(top);
      assert e in multiset(p);
      var i :| 0 <= i < |p| && p[i] == e;
    }
  }

  /** Rearranging a keyed sequence keeps its set of keys. */
  lemma KeysOfPermutation<K, W>(a: seq<(K, W)>, b: seq<(K, W)>)
    requires multiset(a) == multiset(b)
    ensures Keys(a) == Keys(b)
  {
    forall k | k in Keys(a) ensures k in Keys(b) {
      var i :| 0 <= i < |a| && a[i].0 == k;
      assert a[i] in multiset(b);
      var j :| 0 <= j < |b| && b[j] == a[i];
    }
    forall k | k in Keys(b) ensures k in Keys(a) {
      var j :| 0 <= j < |b| && b[j].0 == k;
      assert b[j] in multiset(a);
      var i :| 0 <= i < |a| && a[i] == b[j];
    }
  }

  /**
   * The ATC table: exactly the ATC totals, each code of the aggregate table with its total sales,
   * rearranged so that total sales never increase.
   */
  lemma AtcTotalsCorrect(agg: seq<AggRow>)
    ensures var g := GroupSums(Pairs(agg, AtcCodeOf), StrLess);
      var a := AtcTotals(agg);
      && multiset(a) == multiset(g)
      && NonIncreasing(a)
      && (forall c :: c in Keys(a) <==> exists i :: 0 <= i < |agg| && agg[i].key.atcCode == c)
      && (forall e :: e in a ==> e.1 == SalesWhere(agg, AtcCodeOf, e.0))
  {
    StrLessOrder();
    GroupSumsOfPairs(agg, AtcCodeOf, StrLess);
    var g := GroupSums(Pairs(agg, AtcCodeOf), StrLess);
    var a := AtcTotals(agg);
    KeysOfPermutation(a, g);
    forall e | e in a ensures e.1 == SalesWhere(agg, AtcCodeOf, e.0) {
      assert e in multiset(g);
      var i :| 0 <= i < |g| && g[i] == e;
    }
  }

  /** The groups of the seasonality table: month numbers ascending, each group its rows' sales. */
  lemma SeasonalityGroups(agg: seq<AggRow>)
    ensures var s := Seasonality(agg);
      && (forall i, j :: 0 <= i < j < |s| ==> s[i].0 < s[j].0)
      && (forall n :: n in Keys(s) <==> exists i :: 0 <= i < |agg| && agg[i].key.month.month == n)
  {
    IntLessOrder();
    var ps := Pairs(agg, MonthNumOf);
    GroupByCorrect(ps, IntLess);
    PairsKeys(agg, MonthNumOf);
    var gs := GroupBy(ps, IntLess);
    var s := Seasonality(agg);
    assert Keys(s) == Keys(gs) by {
      forall n | n in Keys(s) ensures n in Keys(gs) {
        var i :| 0 <= i < |s| && s[i].0 == n;
        assert gs[i].0 == n;
      }
      forall n | n in Keys(gs) ensures n in Keys(s) {
        var i :| 0 <= i < |gs| && gs[i].0 == n;
        assert s[i].0 == n;
      }
    }
  }

  /**
   * Seasonality: one entry per month number of the aggregate table, ascending, each the mean of
   * the total sales of the aggregate rows with that month number; for valid dates the month
   * numbers run from 1 to 12.
   */
  lemma SeasonalityCorrect(agg: seq<AggRow>)
    ensures var s := Seasonality(agg);
      && (forall i, j :: 0 <= i < j < |s| ==> s[i].0 < s[j].0)
      && (forall n :: n in Keys(s) <==> exists i :: 0 <= i < |agg| && agg[i].key.month.month == n)
      && (forall i :: 0 <= i < |s| ==>
            CountWhere(agg, MonthNumOf, s[i].0) > 0
            && s[i].1 == SalesWhere(agg, MonthNumOf, s[i].0) / (CountWhere(agg, MonthNumOf, s[i].0) as real))
      && ((forall i :: 0 <= i < |agg| ==> ValidDate(agg[i].key.month)) ==>
            forall i :: 0 <= i < |s| ==> 1 <= s[i].0 <= 12)
  {
    SeasonalityGroups(agg);
    IntLessOrder();
    var ps := Pairs(agg, MonthNumOf);
    GroupByCorrect(ps, IntLess);
    var gs := GroupBy(ps, IntLess);
    var s := Seasonality(agg);
    forall i | 0 <= i < |s|
      ensures CountWhere(agg, MonthNumOf, s[i].0) > 0
      ensures s[i].1 == SalesWhere(agg, MonthNumOf, s[i].0) / (CountWhere(agg, MonthNumOf, s[i].0) as real)
    {
      assert gs[i].0 in Keys(gs);
      SelectPresent(ps, gs[i].0);
      SelectPairs(agg, MonthNumOf, gs[i].0);
    }
    if forall i :: 0 <= i < |agg| ==> ValidDate(agg[i].key.month) {
      forall i | 0 <= i < |s| ensures 1 <= s[i].0 <= 12 {
        assert s[i].0 in Keys(s);
      }
    }
  }

  /** The seasonality value of a month number lies between the least and greatest sales of its rows. */
  lemma SeasonalityBetween(agg: seq<AggRow>, lo: real, hi: real)
    requires forall i :: 0 <= i < |agg| ==> lo <= agg[i].totalSales <= hi
    ensures forall i :: 0 <= i < |Seasonality(agg)| ==> lo <= Seasonality(agg)[i].1 <= hi
  {
    IntLessOrder();
    var ps := Pairs(agg, MonthNumOf);
    var gs := GroupBy(ps, IntLess);
    GroupByCorrect(ps, IntLess);
    forall i | 0 <= i < |gs| ensures lo <= Mean(gs[i].1).GetOr(0.0) <= hi {
      var vs := gs[i].1;
      assert gs[i].0 in Keys(gs);
      SelectPresent(ps, gs[i].0);
      SelectMembers(ps, gs[i].0);
      forall j | 0 <= j < |vs| ensures lo <= vs[j] <= hi {
        assert vs[j] in vs;
        var m :| 0 <= m < |ps| && ps[m] == (gs[i].0, vs[j]);
      }
      MeanBetween(vs, lo, hi);
    }
  }
}
