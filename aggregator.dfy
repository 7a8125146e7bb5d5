/**
 * The aggregation stage (src/transform_metrics.py): every cleaned row is assigned the first day
 * of its month, and the rows are grouped by (month, product id, product name, ATC code, region)
 * into one aggregate row per distinct key, holding the group's total units, total sales, mean
 * unit price and number of promotion days.
 */
module Aggregator {
  import opened Wrappers
  import opened Ordering
  import opened Dates
  import opened Records
  import opened Grouping

  /** The five grouping columns of one row, the date already truncated to its month. */
  datatype Key = Key(month: Date, productId: string, productName: string, atcCode: string, region: string)

  /** One row of the aggregate table. */
  datatype AggRow = AggRow(key: Key, totalUnits: int, totalSales: real, avgUnitPrice: Option<real>, promoDays: int)

  /** The columns the group-by reads the key from (`month` is derived from `date`). */
  const GroupColumns: set<Column> := {DateCol, ProductIdCol, ProductNameCol, AtcCodeCol, RegionCol}

  /** The columns the named aggregations read. */
  const AggregatedColumns: set<Column> := {UnitsSoldCol, SalesValueCol, UnitPriceCol, PromotionFlagCol}

  /** The order `groupby` sorts its keys in: the key tuples compared field by field. */
  predicate KeyLess(a: Key, b: Key) {
    || DateLess(a.month, b.month)
    || (a.month == b.month && StrLess(a.productId, b.productId))
    || (a.month == b.month && a.productId == b.productId && StrLess(a.productName, b.productName))
    || (a.month == b.month && a.productId == b.productId && a.productName == b.productName
        && StrLess(a.atcCode, b.atcCode))
    || (a.month == b.month && a.productId == b.productId && a.productName == b.productName
        && a.atcCode == b.atcCode && StrLess(a.region, b.region))
  }

  lemma KeyLessIrreflexive(a: Key)
    ensures !KeyLess(a, a)
  {
    DateLessOrder();
    StrLessIrreflexive(a.productId);
    StrLessIrreflexive(a.productName);
    StrLessIrreflexive(a.atcCode);
    StrLessIrreflexive(a.region);
  }

  lemma KeyLessTransitive(a: Key, b: Key, c: Key)
    requires KeyLess(a, b) && KeyLess(b, c)
    ensures KeyLess(a, c)
  {
    DateLessOrder();
    StrLessOrder();
  }

  lemma KeyLessConnected(a: Key, b: Key)
    requires a != b
    ensures KeyLess(a, b) || KeyLess(b, a)
  {
    DateLessOrder();
    StrLessOrder();
  }

  lemma KeyLessOrder()
    ensures StrictTotalOrder(KeyLess)
  {
    forall a { KeyLessIrreflexive(a); }
    forall a, b, c | KeyLess(a, b) && KeyLess(b, c) ensures KeyLess(a, c) {
      KeyLessTransitive(a, b, c);
    }
    forall a, b | a != b ensures KeyLess(a, b) || KeyLess(b, a) {
      KeyLessConnected(a, b);
    }
  }

  /**
   * The key of a row, or nothing when a key cell is null: `groupby` (with its default
   * `dropna=True`) leaves such rows out.
   */
  function KeyOf(r: Record): (k: Option<Key>)
    ensures k.Some? <==>
      r.date.Some? && r.productId.Some? && r.productName.Some? && r.atcCode.Some? && r.region.Some?
    ensures k.Some? ==> SameMonth(k.value.month, r.date.value) && k.value.month.day == 1
    ensures k.Some? ==> KeyCellsOf(r, k.value)
  {
    if r.date.Some? && r.productId.Some? && r.productName.Some? && r.atcCode.Some? && r.region.Some?
    then Some(Key(MonthStart(r.date.value), r.productId.value, r.productName.value,
                  r.atcCode.value, r.region.value))
    else None
  }

  /** A row's cells are those of key `k`: its month is `k`'s, its four key texts are `k`'s. */
  predicate KeyCellsOf(r: Record, k: Key) {
    && r.date.Some? && MonthStart(r.date.value) == k.month
    && r.productId == Some(k.productId) && r.productName == Some(k.productName)
    && r.atcCode == Some(k.atcCode) && r.region == Some(k.region)
  }

  /**
   * The grouping rule: two rows with a key fall into the same group exactly when they are in the
   * same calendar month and agree on product id, product name, ATC code and region.
   */
  lemma SameGroup(a: Record, b: Record)
    requires KeyOf(a).Some? && KeyOf(b).Some?
    ensures KeyOf(a) == KeyOf(b) <==>
      && SameMonth(a.date.value, b.date.value)
      && a.productId == b.productId && a.productName == b.productName
      && a.atcCode == b.atcCode && a.region == b.region
  {
    MonthStartSameMonth(a.date.value, b.date.value);
  }

  /** The rows that have a key, paired with it, in input order. */
  function Keyed(rows: seq<Record>): (ps: seq<(Key, Record)>)
    ensures forall i :: 0 <= i < |ps| ==> KeyOf(ps[i].1) == Some(ps[i].0)
  {
    if |rows| == 0 then []
    else
      var last := rows[|rows| - 1];
      Keyed(rows[..|rows| - 1]) + (if KeyOf(last).Some? then [(KeyOf(last).value, last)] else [])
  }

  /** The rows the group-by takes into account. */
  function KeyedRows(rows: seq<Record>): seq<Record> {
    Values(Keyed(rows))
  }

  /** The rows of one group, selected straight from the input: those whose key is `k`. */
  function RowsWithKey(rows: seq<Record>, k: Key): seq<Record> {
    if |rows| == 0 then []
    else
      var last := rows[|rows| - 1];
      RowsWithKey(rows[..|rows| - 1], k) + (if KeyOf(last) == Some(k) then [last] else [])
  }

  /** Every row of a group holds the group's key in its own cells. */
  lemma {:induction false} RowsWithKeyCells(rows: seq<Record>, k: Key)
    ensures forall r :: r in RowsWithKey(rows, k) ==> KeyCellsOf(r, k)
  {
    if |rows| > 0 {
      RowsWithKeyCells(rows[..|rows| - 1], k);
    }
  }

  /** The distinct keys of the input rows. */
  function KeySet(rows: seq<Record>): set<Key> {
    set i | 0 <= i < |rows| && KeyOf(rows[i]).Some? :: KeyOf(rows[i]).value
  }

  /** A cell's contribution to a `sum`: nulls are skipped. */
  function UnitsOf(r: Record): int { r.unitsSold.GetOr(0) }
  function SalesOf(r: Record): real { r.salesValue.GetOr(0.0) }
  function PromoOf(r: Record): int { r.promotionFlag.GetOr(0) }

  function SumInts(xs: seq<int>): int {
    if |xs| == 0 then 0 else xs[0] + SumInts(xs[1..])
  }

  /** The non-null unit prices of some rows, in order: what `mean` averages. */
  function Prices(rs: seq<Record>): (ps: seq<real>)
    ensures |ps| <= |rs|
    ensures forall x :: x in ps <==> exists r :: r in rs && r.unitPrice == Some(x)
  {
    if |rs| == 0 then []
    else
      var last := rs[|rs| - 1];
      assert rs == rs[..|rs| - 1] + [last];
      Prices(rs[..|rs| - 1]) + (if last.unitPrice.Some? then [last.unitPrice.value] else [])
  }

  /** The named aggregations of one group. */
  function Summarise(k: Key, rs: seq<Record>): AggRow {
    AggRow(k, SumInts(MapSeq(rs, UnitsOf)), SumReal(MapSeq(rs, SalesOf)), Mean(Prices(rs)),
           SumInts(MapSeq(rs, PromoOf)))
  }

  function Groups(rows: seq<Record>): seq<(Key, seq<Record>)> {
    GroupBy(Keyed(rows), KeyLess)
  }

  /** `groupby(group_cols).agg(...).reset_index()` on rows known to have every column. */
  function AggregateRows(rows: seq<Record>): seq<AggRow> {
    var gs := Groups(rows);
    seq(|gs|, i requires 0 <= i < |gs| => Summarise(gs[i].0, gs[i].1))
  }

  /** The aggregation of a table; a grouping or aggregated column it lacks is a `KeyError`. */
  function Aggregate(t: Table): Result<seq<AggRow>, Error> {
    var needed := GroupColumns + AggregatedColumns;
    if !(needed <= t.columns) then Failure(MissingColumns(needed - t.columns))
    else Success(AggregateRows(t.rows))
  }

  // ---------------------------------------------------------------------------------------
  // The aggregate table: its error case, its keys, its groups.

  lemma AggregateFailure(t: Table)
    ensures Aggregate(t).Failure? <==> !(GroupColumns + AggregatedColumns <= t.columns)
    ensures Aggregate(t).Failure? ==>
              Aggregate(t).error.missing == (GroupColumns + AggregatedColumns) - t.columns
              && Aggregate(t).error.missing != {}
    ensures Aggregate(t).Success? ==> Aggregate(t).value == AggregateRows(t.rows)
  {
    var needed := GroupColumns + AggregatedColumns;
    if !(needed <= t.columns) {
      var c :| c in needed && c !in t.columns;
      assert c in Aggregate(t).error.missing;
    }
  }

  lemma {:induction false} KeyedKeys(rows: seq<Record>)
    ensures Keys(Keyed(rows)) == KeySet(rows)
  {
    if |rows| > 0 {
      var init := rows[..|rows| - 1];
      var last := rows[|rows| - 1];
      KeyedKeys(init);
      var ps := Keyed(rows);
      if KeyOf(last).Some? {
        KeysSnoc(ps);
        assert ps[..|ps| - 1] == Keyed(init);
      } else {
        assert ps == Keyed(init);
      }
      forall k | k in KeySet(rows) ensures k in KeySet(init) + (if KeyOf(last).Some? then {KeyOf(last).value} else {}) {
        var i :| 0 <= i < |rows| && KeyOf(rows[i]).Some? && KeyOf(rows[i]).value == k;
        if i < |rows| - 1 {
          assert rows[i] == init[i];
        }
      }
      forall k | k in KeySet(init) ensures k in KeySet(rows) {
        var i :| 0 <= i < |init| && KeyOf(init[i]).Some? && KeyOf(init[i]).value == k;
        assert rows[i] == init[i];
      }
      if KeyOf(last).Some? {
        assert KeyOf(rows[|rows| - 1]).value in KeySet(rows);
      }
    }
  }

  /** A group selected from the keyed pairs is the group selected from the rows. */
  lemma {:induction false} SelectKeyed(rows: seq<Record>, k: Key)
    ensures Select(Keyed(rows), k) == RowsWithKey(rows, k)
  {
    if |rows| > 0 {
      var init := rows[..|rows| - 1];
      var last := rows[|rows| - 1];
      SelectKeyed(init, k);
      var ps := Keyed(rows);
      if KeyOf(last).Some? {
        assert ps[..|ps| - 1] == Keyed(init);
      } else {
        assert ps == Keyed(init);
      }
    }
  }

  /**
   * One aggregate row per distinct key of the input, keys strictly ascending (so pairwise
   * distinct), each row the aggregation of exactly the input rows with its key, none empty.
   */
  lemma AggregateRowsCorrect(rows: seq<Record>)
    ensures var out := AggregateRows(rows);
      && (forall i, j :: 0 <= i < j < |out| ==> KeyLess(out[i].key, out[j].key))
      && (forall k :: k in KeySet(rows) <==> exists i :: 0 <= i < |out| && out[i].key == k)
      && (forall i :: 0 <= i < |out| ==>
            |RowsWithKey(rows, out[i].key)| > 0
            && out[i] == Summarise(out[i].key, RowsWithKey(rows, out[i].key))
            && forall r :: r in RowsWithKey(rows, out[i].key) ==> KeyCellsOf(r, out[i].key))
  {
    KeyLessOrder();
    var ps := Keyed(rows);
    GroupByCorrect(ps, KeyLess);
    KeyedKeys(rows);
    var gs := Groups(rows);
    var out := AggregateRows(rows);
    forall i | 0 <= i < |out|
      ensures |RowsWithKey(rows, out[i].key)| > 0
      ensures out[i] == Summarise(out[i].key, RowsWithKey(rows, out[i].key))
      ensures forall r :: r in RowsWithKey(rows, out[i].key) ==> KeyCellsOf(r, out[i].key)
    {
      RowsWithKeyCells(rows, out[i].key);
      assert gs[i].0 in Keys(gs);
      SelectKeyed(rows, gs[i].0);
      SelectPresent(ps, gs[i].0);
    }
    forall k | k in KeySet(rows) ensures exists i :: 0 <= i < |out| && out[i].key == k {
      assert k in Keys(gs);
      var i :| 0 <= i < |gs| && gs[i].0 == k;
      assert out[i].key == k;
    }
    forall k | (exists i :: 0 <= i < |out| && out[i].key == k) ensures k in KeySet(rows) {
      var i :| 0 <= i < |out| && out[i].key == k;
      assert gs[i].0 in Keys(gs);
    }
  }

  /** No input, no groups. */
  lemma AggregateEmpty()
    ensures AggregateRows([]) == []
  {
    assert Groups([]) == [];
  }

  // ---------------------------------------------------------------------------------------
  // One group's aggregations.

  /** `mean` is absent exactly when no row of the group has a price, and lies within the prices. */
  lemma SummariseMean(k: Key, rs: seq<Record>, lo: real, hi: real)
    requires forall r :: r in rs && r.unitPrice.Some? ==> lo <= r.unitPrice.value <= hi
    ensures Summarise(k, rs).avgUnitPrice.None? <==> forall r :: r in rs ==> r.unitPrice.None?
    ensures Summarise(k, rs).avgUnitPrice.Some? ==> lo <= Summarise(k, rs).avgUnitPrice.value <= hi
  {
    var ps := Prices(rs);
    if |ps| > 0 {
      assert ps[0] in ps;
      forall i | 0 <= i < |ps| ensures lo <= ps[i] <= hi {
        assert ps[i] in ps;
      }
      MeanBetween(ps, lo, hi);
    }
  }

  lemma {:induction false} PricesAllPresent(rs: seq<Record>)
    requires forall r :: r in rs ==> r.unitPrice.Some?
    ensures Prices(rs) == MapSeq(rs, PriceOf)
  {
    if |rs| > 0 {
      var init := rs[..|rs| - 1];
      assert forall r :: r in init ==> r in rs;
      PricesAllPresent(init);
      assert MapSeq(rs, PriceOf) == MapSeq(init, PriceOf) + [PriceOf(rs[|rs| - 1])];
    }
  }

  function PriceOf(r: Record): real { r.unitPrice.GetOr(0.0) }

  /** The number of rows with a price: the count `mean` divides by. */
  function PricedCount(rs: seq<Record>): nat {
    if |rs| == 0 then 0
    else PricedCount(rs[..|rs| - 1]) + (if rs[|rs| - 1].unitPrice.Some? then 1 else 0)
  }

  /** The non-null prices are as many as the priced rows, and sum to the prices with nulls as 0. */
  lemma {:induction false} PricesSumCount(rs: seq<Record>)
    ensures |Prices(rs)| == PricedCount(rs)
    ensures SumReal(Prices(rs)) == SumReal(MapSeq(rs, PriceOf))
  {
    if |rs| > 0 {
      var init := rs[..|rs| - 1];
      var last := rs[|rs| - 1];
      PricesSumCount(init);
      var tail := if last.unitPrice.Some? then [last.unitPrice.value] else [];
      SumRealAppend(Prices(init), tail);
      assert MapSeq(rs, PriceOf) == MapSeq(init, PriceOf) + [PriceOf(last)];
      SumRealAppend(MapSeq(init, PriceOf), [PriceOf(last)]);
      assert SumReal([PriceOf(last)]) == PriceOf(last);
      if last.unitPrice.Some? {
        assert SumReal(tail) == last.unitPrice.value;
      }
    }
  }

  /**
   * The mean price of any group, nulls included: nothing when no row has a price, and otherwise
   * the sum of the prices over the number of priced rows, null prices skipped.
   */
  lemma SummariseMeanValue(k: Key, rs: seq<Record>)
    ensures Summarise(k, rs).avgUnitPrice ==
      if PricedCount(rs) == 0 then None
      else Some(SumReal(MapSeq(rs, PriceOf)) / (PricedCount(rs) as real))
  {
    PricesSumCount(rs);
  }

  /**
   * When every row of a non-empty group has a price (as every cleaned row does), the mean price is
   * the sum of the prices over the number of rows.
   */
  lemma SummarisePricedMean(k: Key, rs: seq<Record>)
    requires |rs| > 0 && forall r :: r in rs ==> r.unitPrice.Some?
    ensures Summarise(k, rs).avgUnitPrice == Some(SumReal(MapSeq(rs, PriceOf)) / (|rs| as real))
  {
    PricesAllPresent(rs);
  }

  /** A one-row group is that row's figures. */
  lemma SummariseSingle(k: Key, r: Record)
    ensures Summarise(k, [r]) == AggRow(k, UnitsOf(r), SalesOf(r), r.unitPrice, PromoOf(r))
  {
    assert MapSeq([r], UnitsOf) == [UnitsOf(r)];
    assert MapSeq([r], SalesOf) == [SalesOf(r)];
    assert MapSeq([r], PromoOf) == [PromoOf(r)];
    SumIntsSingle(UnitsOf(r));
    SumIntsSingle(PromoOf(r));
    assert SumReal([SalesOf(r)]) == SalesOf(r);
    assert Prices([r]) == (if r.unitPrice.Some? then [r.unitPrice.value] else []);
    if r.unitPrice.Some? {
      MeanSingle(r.unitPrice.value);
      assert Mean(Prices([r])) == r.unitPrice;
    }
  }

  lemma SumIntsSingle(x: int)
    ensures SumInts([x]) == x
  {
    assert [x][1..] == [];
  }

  lemma {:induction false} SumIntsPositive(xs: seq<int>)
    requires |xs| > 0 && forall i :: 0 <= i < |xs| ==> xs[i] > 0
    ensures SumInts(xs) >= |xs|
  {
    if |xs| > 1 {
      SumIntsPositive(xs[1..]);
    }
  }

  /** A non-empty group of rows that all sold units has sold at least one unit per row. */
  lemma SummarisePositiveUnits(k: Key, rs: seq<Record>)
    requires |rs| > 0 && forall r :: r in rs ==> r.unitsSold.Some? && r.unitsSold.value > 0
    ensures Summarise(k, rs).totalUnits >= |rs|
  {
    var us := MapSeq(rs, UnitsOf);
    forall i | 0 <= i < |us| ensures us[i] > 0 {
      assert rs[i] in rs;
    }
    SumIntsPositive(us);
  }

  // ---------------------------------------------------------------------------------------
  // Conservation: the group totals add up to the totals over the rows grouped.

  lemma {:induction false} SumIntsAsReal(xs: seq<int>)
    ensures SumInts(xs) as real == SumReal(MapSeq(xs, IntToReal))
  {
    if |xs| > 0 {
      SumIntsAsReal(xs[1..]);
      assert MapSeq(xs, IntToReal)[1..] == MapSeq(xs[1..], IntToReal);
    }
  }

  function IntToReal(n: int): real { n as real }
  function UnitsReal(r: Record): real { UnitsOf(r) as real }
  function PromoReal(r: Record): real { PromoOf(r) as real }
  function TotalUnitsOf(a: AggRow): int { a.totalUnits }
  function TotalSalesOf(a: AggRow): real { a.totalSales }
  function PromoDaysOf(a: AggRow): int { a.promoDays }

  function TotalUnitsReal(a: AggRow): real { a.totalUnits as real }
  function PromoDaysReal(a: AggRow): real { a.promoDays as real }

  /** A real-valued per-group sum `g` of a per-row figure `f` over all the groups adds up to `f` over the rows. */
  lemma Conserved(rows: seq<Record>, f: Record -> real, g: AggRow -> real)
    requires forall i :: 0 <= i < |Groups(rows)| ==>
               g(AggregateRows(rows)[i]) == SumReal(MapSeq(Groups(rows)[i].1, f))
    ensures SumReal(MapSeq(AggregateRows(rows), g)) == SumReal(MapSeq(KeyedRows(rows), f))
  {
    var ps := Keyed(rows);
    var gs := Groups(rows);
    GroupByMapValues(ps, f, KeyLess);
    GroupSumsTotal(MapValues(ps, f), KeyLess);
    var sums := GroupSums(MapValues(ps, f), KeyLess);
    assert sums == SumEach(MapGroups(gs, f));
    assert MapSeq(AggregateRows(rows), g) == Values(sums);
    assert Values(MapValues(ps, f)) == MapSeq(KeyedRows(rows), f);
  }

  lemma MapSeqComposeReal(xs: seq<Record>, f: Record -> int, h: Record -> real)
    requires forall r :: h(r) == f(r) as real
    ensures MapSeq(MapSeq(xs, f), IntToReal) == MapSeq(xs, h)
  {
    var m := MapSeq(xs, f);
    assert forall i :: 0 <= i < |xs| ==> MapSeq(m, IntToReal)[i] == IntToReal(m[i]) == h(xs[i]);
  }

  /**
   * Conservation: over all the aggregate rows, total units, total sales and promotion days add
   * up to the units sold, the sales value and the promotion flags of all the rows grouped.
   */
  lemma AggregateConservation(rows: seq<Record>)
    ensures SumInts(MapSeq(AggregateRows(rows), TotalUnitsOf)) == SumInts(MapSeq(KeyedRows(rows), UnitsOf))
    ensures SumReal(MapSeq(AggregateRows(rows), TotalSalesOf)) == SumReal(MapSeq(KeyedRows(rows), SalesOf))
    ensures SumInts(MapSeq(AggregateRows(rows), PromoDaysOf)) == SumInts(MapSeq(KeyedRows(rows), PromoOf))
  {
    var out := AggregateRows(rows);
    var gs := Groups(rows);
    Conserved(rows, SalesOf, TotalSalesOf);
    forall i | 0 <= i < |gs|
      ensures TotalUnitsReal(out[i]) == SumReal(MapSeq(gs[i].1, UnitsReal))
      ensures PromoDaysReal(out[i]) == SumReal(MapSeq(gs[i].1, PromoReal))
    {
      SumIntsAsReal(MapSeq(gs[i].1, UnitsOf));
      MapSeqComposeReal(gs[i].1, UnitsOf, UnitsReal);
      SumIntsAsReal(MapSeq(gs[i].1, PromoOf));
      MapSeqComposeReal(gs[i].1, PromoOf, PromoReal);
    }
    Conserved(rows, UnitsReal, TotalUnitsReal);
    Conserved(rows, PromoReal, PromoDaysReal);
    SumIntsAsReal(MapSeq(out, TotalUnitsOf));
    MapSeqComposeReal2(out, TotalUnitsOf, TotalUnitsReal);
    SumIntsAsReal(MapSeq(KeyedRows(rows), UnitsOf));
    MapSeqComposeReal(KeyedRows(rows), UnitsOf, UnitsReal);
    SumIntsAsReal(MapSeq(out, PromoDaysOf));
    MapSeqComposeReal2(out, PromoDaysOf, PromoDaysReal);
    SumIntsAsReal(MapSeq(KeyedRows(rows), PromoOf));
    MapSeqComposeReal(KeyedRows(rows), PromoOf, PromoReal);
  }

  lemma MapSeqComposeReal2(xs: seq<AggRow>, f: AggRow -> int, h: AggRow -> real)
    requires forall a :: h(a) == f(a) as real
    ensures MapSeq(MapSeq(xs, f), IntToReal) == MapSeq(xs, h)
  {
    var m := MapSeq(xs, f);
    assert forall i :: 0 <= i < |xs| ==> MapSeq(m, IntToReal)[i] == IntToReal(m[i]) == h(xs[i]);
  }

  // ---------------------------------------------------------------------------------------
  // Two rows of one group.

  /**
   * Two rows of one month and of the same product, category and region (units 10 and 20, prices
   * 5.0 and 7.0, sales 50.0 and 140.0, promotion flags 1 and 0) aggregate to one row with 30 units,
   * sales 190.0, mean price 6.0 and one promotion day.
   */
  lemma SummariseTwoRows(k: Key, r1: Record, r2: Record)
    requires r1.unitsSold == Some(10) && r1.unitPrice == Some(5.0) && r1.salesValue == Some(50.0)
    requires r1.promotionFlag == Some(1)
    requires r2.unitsSold == Some(20) && r2.unitPrice == Some(7.0) && r2.salesValue == Some(140.0)
    requires r2.promotionFlag == Some(0)
    ensures Summarise(k, [r1, r2]) == AggRow(k, 30, 190.0, Some(6.0), 1)
  {
    var rs := [r1, r2];
    assert rs[..1] == [r1] && [r1][..0] == [];
    assert UnitsOf(r1) == 10 && UnitsOf(r2) == 20;
    assert MapSeq(rs, UnitsOf) == [10, 20];
    assert SalesOf(r1) == 50.0 && SalesOf(r2) == 140.0;
    assert MapSeq(rs, SalesOf) == [50.0, 140.0];
    assert PromoOf(r1) == 1 && PromoOf(r2) == 0;
    assert MapSeq(rs, PromoOf) == [1, 0];
    assert Prices(rs) == [5.0, 7.0];
    assert [10, 20][1..] == [20] && [1, 0][1..] == [0];
    assert SumInts([10, 20]) == 30 && SumInts([1, 0]) == 1;
    assert [50.0, 140.0][1..] == [140.0] && [5.0, 7.0][1..] == [7.0];
    assert SumReal([50.0, 140.0]) == 190.0;
    assert SumReal([5.0, 7.0]) == 12.0;
  }
}
