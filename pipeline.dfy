/**
 * The two stages run one after the other, when the cleaned table is handed to the aggregator
 * directly (without the CSV file the two scripts exchange).
 */
module Pipeline {
  import opened Wrappers
  import opened Records
  import opened Grouping
  import opened Cleaner
  import opened Aggregator

  /** All ten columns of the raw extract. */
  const AllColumns: set<Column> :=
    {DateCol, ProductIdCol, ProductNameCol, AtcCodeCol, RegionCol, RetailerIdCol,
     UnitsSoldCol, UnitPriceCol, SalesValueCol, PromotionFlagCol}

  /** Cleaning then aggregating; the first error met is the result. */
  function CleanAndAggregate(t: Table): Result<seq<AggRow>, Error> {
    match Clean(t)
    case Failure(e) => Failure(e)
    case Success(u) => Aggregate(u)
  }

  /** A clean row of a full-schema table has a key: every text field is filled in. */
  lemma CleanRowHasKey(r: Record)
    requires IsClean(r, AllColumns)
    ensures KeyOf(r).Some?
  {
    assert IsText(ProductNameCol) && IsText(AtcCodeCol);
    assert TextField(r, ProductNameCol).Some? && TextField(r, AtcCodeCol).Some?;
  }

  /** When every row has a key, the group-by takes all of them. */
  lemma {:induction false} KeyedAll(rows: seq<Record>)
    requires forall r :: r in rows ==> KeyOf(r).Some?
    ensures KeyedRows(rows) == rows
  {
    if |rows| > 0 {
      var init := rows[..|rows| - 1];
      assert forall r :: r in init ==> r in rows;
      KeyedAll(init);
      assert rows[|rows| - 1] in rows;
      assert Values(Keyed(rows)) == Values(Keyed(init)) + [rows[|rows| - 1]];
    }
  }

  /**
   * With the full schema, when the cleaned table is handed to the aggregator directly, no row
   * the cleaner keeps is lost by the group-by: the aggregate totals add up to the units, sales
   * and promotion days of every cleaned row.
   */
  lemma PipelineConservation(t: Table)
    requires t.columns == AllColumns
    ensures Clean(t).Success? && CleanAndAggregate(t).Success?
    ensures var rows := Clean(t).value.rows;
      var out := CleanAndAggregate(t).value;
      && SumInts(MapSeq(out, TotalUnitsOf)) == SumInts(MapSeq(rows, UnitsOf))
      && SumReal(MapSeq(out, TotalSalesOf)) == SumReal(MapSeq(rows, SalesOf))
      && SumInts(MapSeq(out, PromoDaysOf)) == SumInts(MapSeq(rows, PromoOf))
  {
    CleanRows(t);
    CleanOutputIsClean(t);
    var rows := Clean(t).value.rows;
    forall r | r in rows ensures KeyOf(r).Some? {
      CleanRowHasKey(r);
    }
    KeyedAll(rows);
    AggregateConservation(rows);
  }

  /**
   * Every aggregate row of cleaned data sold at least one unit per source row, has non-negative
   * sales and a mean price: the price sum over the row count, itself non-negative.
   */
  lemma PipelineRowsInRange(t: Table)
    requires CriticalColumns <= t.columns && GroupColumns + AggregatedColumns <= t.columns
    ensures CleanAndAggregate(t).Success?
    ensures var rows := Clean(t).value.rows;
      var out := CleanAndAggregate(t).value;
      forall i :: 0 <= i < |out| ==>
        var rs := RowsWithKey(rows, out[i].key);
        && out[i].totalUnits >= |rs| > 0
        && out[i].totalSales >= 0.0
        && out[i].avgUnitPrice == Some(SumReal(MapSeq(rs, PriceOf)) / (|rs| as real))
        && out[i].avgUnitPrice.value >= 0.0
  {
    CleanRows(t);
    CleanOutputIsClean(t);
    var rows := Clean(t).value.rows;
    var out := AggregateRows(rows);
    AggregateRowsCorrect(rows);
    forall i | 0 <= i < |out|
      ensures var rs := RowsWithKey(rows, out[i].key);
        && out[i].totalUnits >= |rs| > 0
        && out[i].totalSales >= 0.0
        && out[i].avgUnitPrice == Some(SumReal(MapSeq(rs, PriceOf)) / (|rs| as real))
        && out[i].avgUnitPrice.value >= 0.0
    {
      var k := out[i].key;
      var rs := RowsWithKey(rows, k);
      RowsWithKeyMembers(rows, k);
      SummarisePositiveUnits(k, rs);
      SummarisePricedMean(k, rs);
      NonNegativeSales(rs);
      var ps := Prices(rs);
      assert ps[0] in ps;
      SummariseMean(k, rs, 0.0, MaxPrice(rs));
    }
  }

  /** A group holds only rows of the table it was selected from. */
  lemma {:induction false} RowsWithKeyMembers(rows: seq<Record>, k: Key)
    ensures forall r :: r in RowsWithKey(rows, k) ==> r in rows
  {
    if |rows| > 0 {
      var init := rows[..|rows| - 1];
      RowsWithKeyMembers(init, k);
      assert forall r :: r in init ==> r in rows;
    }
  }

  /** The largest price of some rows (0 when there is none). */
  function MaxPrice(rs: seq<Record>): (m: real)
    ensures forall r :: r in rs && r.unitPrice.Some? ==> r.unitPrice.value <= m
  {
    if |rs| == 0 then 0.0
    else
      var m := MaxPrice(rs[1..]);
      assert forall r :: r in rs ==> r == rs[0] || r in rs[1..];
      var p := rs[0].unitPrice.GetOr(0.0);
      if p > m then p else m
  }

  /** Sales of non-negative values sum to a non-negative total. */
  lemma {:induction false} NonNegativeSales(rs: seq<Record>)
    requires forall r :: r in rs ==> SalesOf(r) >= 0.0
    ensures SumReal(MapSeq(rs, SalesOf)) >= 0.0
  {
    if |rs| > 0 {
      assert forall r :: r in rs[1..] ==> r in rs;
      NonNegativeSales(rs[1..]);
      assert MapSeq(rs, SalesOf)[1..] == MapSeq(rs[1..], SalesOf);
      assert rs[0] in rs;
    }
  }

  /**
   * A raw extract without an ATC code column is cleaned (the strip loop skips the column) but
   * cannot be aggregated.
   */
  lemma MissingAtcColumn(t: Table)
    requires CriticalColumns <= t.columns && AtcCodeCol !in t.columns
    ensures Clean(t).Success? && Clean(t).value.columns == t.columns
    ensures CleanAndAggregate(t) == Failure(MissingColumns((GroupColumns + AggregatedColumns) - t.columns))
    ensures AtcCodeCol in CleanAndAggregate(t).error.missing
  {
    CleanRows(t);
  }
}
