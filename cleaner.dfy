/**
 * The cleaning stage (src/ingest_clean.py): drop rows missing a critical field, keep rows
 * whose numbers are in range, then strip whitespace from the text columns the table has.
 */
module Cleaner {
  import opened Wrappers
  import opened Text
  import opened Records

  /** The columns a row must have a value in to be kept. */
  const CriticalColumns: set<Column> :=
    {DateCol, ProductIdCol, RegionCol, RetailerIdCol, UnitsSoldCol, UnitPriceCol, SalesValueCol}

  /** What `astype(str)` makes of a null cell. */
  const NullText: string := "nan"

  predicate HasCritical(r: Record) {
    && r.date.Some? && r.productId.Some? && r.region.Some? && r.retailerId.Some?
    && r.unitsSold.Some? && r.unitPrice.Some? && r.salesValue.Some?
  }

  /** The row test and the schema test name the same seven columns. */
  lemma HasCriticalColumns(r: Record)
    ensures HasCritical(r) <==> forall c :: c in CriticalColumns ==> HasCell(r, c)
  {
    assert DateCol in CriticalColumns && ProductIdCol in CriticalColumns && RegionCol in CriticalColumns;
    assert RetailerIdCol in CriticalColumns && UnitsSoldCol in CriticalColumns;
    assert UnitPriceCol in CriticalColumns && SalesValueCol in CriticalColumns;
  }

  /** The range test; a comparison with a null is false, as in pandas. */
  predicate InRange(r: Record) {
    && r.unitsSold.Some? && r.unitsSold.value > 0
    && r.unitPrice.Some? && r.unitPrice.value >= 0.0
    && r.salesValue.Some? && r.salesValue.value >= 0.0
  }

  predicate Survives(r: Record) {
    HasCritical(r) && InRange(r)
  }

  /** `dropna(subset=critical_cols)`: the rows with every critical field present, in order. */
  function DropMissing(rows: seq<Record>): (kept: seq<Record>)
    ensures forall r :: r in kept <==> r in rows && HasCritical(r)
  {
    if |rows| == 0 then []
    else
      var last := rows[|rows| - 1];
      assert rows == rows[..|rows| - 1] + [last];
      DropMissing(rows[..|rows| - 1]) + (if HasCritical(last) then [last] else [])
  }

  /** The boolean-mask selection: the rows passing the range test, in order. */
  function FilterRange(rows: seq<Record>): (kept: seq<Record>)
    ensures forall r :: r in kept <==> r in rows && InRange(r)
  {
    if |rows| == 0 then []
    else
      var last := rows[|rows| - 1];
      assert rows == rows[..|rows| - 1] + [last];
      FilterRange(rows[..|rows| - 1]) + (if InRange(last) then [last] else [])
  }

  /** Positions of the surviving rows, ascending. */
  function KeptIndices(rows: seq<Record>): seq<nat> {
    if |rows| == 0 then []
    else KeptIndices(rows[..|rows| - 1]) + (if Survives(rows[|rows| - 1]) then [|rows| - 1] else [])
  }

  lemma DropMissingSnoc(rows: seq<Record>, r: Record)
    ensures DropMissing(rows + [r]) == DropMissing(rows) + (if HasCritical(r) then [r] else [])
  {
    assert (rows + [r])[..|rows|] == rows;
  }

  lemma FilterRangeSnoc(rows: seq<Record>, r: Record)
    ensures FilterRange(rows + [r]) == FilterRange(rows) + (if InRange(r) then [r] else [])
  {
    assert (rows + [r])[..|rows|] == rows;
  }

  /** The two filters applied to one more row keep it exactly when it survives. */
  lemma CleanFiltersSnoc(rows: seq<Record>, r: Record)
    ensures FilterRange(DropMissing(rows + [r]))
         == FilterRange(DropMissing(rows)) + (if Survives(r) then [r] else [])
  {
    DropMissingSnoc(rows, r);
    if HasCritical(r) {
      FilterRangeSnoc(DropMissing(rows), r);
    } else {
      assert DropMissing(rows + [r]) == DropMissing(rows);
    }
  }

  /** `KeptIndices` ascend and hold exactly the positions of the surviving rows. */
  lemma {:induction false} KeptIndicesExact(rows: seq<Record>)
    ensures forall k :: 0 <= k < |KeptIndices(rows)| ==> KeptIndices(rows)[k] < |rows|
    ensures forall k, l :: 0 <= k < l < |KeptIndices(rows)| ==> KeptIndices(rows)[k] < KeptIndices(rows)[l]
    ensures forall i :: 0 <= i < |rows| ==> (i in KeptIndices(rows) <==> Survives(rows[i]))
  {
    if |rows| > 0 {
      var init := rows[..|rows| - 1];
      KeptIndicesExact(init);
      var idx := KeptIndices(rows);
      var idx0 := KeptIndices(init);
      assert idx == idx0 + (if Survives(rows[|rows| - 1]) then [|rows| - 1] else []);
      forall i | 0 <= i < |init| ensures i in idx <==> Survives(rows[i]) {
        assert rows[i] == init[i];
        assert i in idx0 <==> i in idx;
      }
    }
  }

  /**
   * The two filters together keep exactly the surviving rows, in their original order:
   * the output is the input picked at `KeptIndices`.
   */
  lemma {:induction false} FilterSurvivors(rows: seq<Record>)
    ensures |FilterRange(DropMissing(rows))| == |KeptIndices(rows)|
    ensures forall k :: 0 <= k < |KeptIndices(rows)| ==>
              KeptIndices(rows)[k] < |rows| && FilterRange(DropMissing(rows))[k] == rows[KeptIndices(rows)[k]]
  {
    KeptIndicesExact(rows);
    if |rows| > 0 {
      var init := rows[..|rows| - 1];
      var last := rows[|rows| - 1];
      assert rows == init + [last];
      FilterSurvivors(init);
      KeptIndicesExact(init);
      CleanFiltersSnoc(init, last);
      var out := FilterRange(DropMissing(rows));
      var out0 := FilterRange(DropMissing(init));
      var idx := KeptIndices(rows);
      var idx0 := KeptIndices(init);
      assert out == out0 + (if Survives(last) then [last] else []);
      assert idx == idx0 + (if Survives(last) then [|rows| - 1] else []);
      forall k | 0 <= k < |idx| ensures out[k] == rows[idx[k]] {
        if k < |idx0| {
          assert out[k] == out0[k];
          assert rows[idx0[k]] == init[idx0[k]];
        }
      }
    }
  }

  /** `astype(str)` on a text cell. */
  function AsText(v: Option<string>): string {
    match v
    case Some(s) => s
    case None => NullText
  }

  /** One text cell after the normalisation step: stripped if its column exists, else untouched. */
  function NormaliseField(v: Option<string>, present: bool): Option<string> {
    if present then Some(Strip(AsText(v))) else v
  }

  function NormaliseRecord(r: Record, columns: set<Column>): Record {
    Record(
      r.date,
      NormaliseField(r.productId, ProductIdCol in columns),
      NormaliseField(r.productName, ProductNameCol in columns),
      NormaliseField(r.atcCode, AtcCodeCol in columns),
      NormaliseField(r.region, RegionCol in columns),
      NormaliseField(r.retailerId, RetailerIdCol in columns),
      r.unitsSold, r.unitPrice, r.salesValue, r.promotionFlag)
  }

  /** The table after the text-normalisation loop: same columns, every row normalised. */
  function Normalised(t: Table): Table {
    Table(t.columns, seq(|t.rows|, i requires 0 <= i < |t.rows| => NormaliseRecord(t.rows[i], t.columns)))
  }

  /**
   * Normalisation rewrites exactly the text columns the schema has, to their stripped string
   * form (a null becomes "nan", stripped); a text column the schema lacks and the five other
   * columns are left as they were.
   */
  lemma NormaliseRecordFields(r: Record, columns: set<Column>)
    ensures forall c :: IsText(c) && c in columns ==>
              TextField(NormaliseRecord(r, columns), c) == Some(Strip(AsText(TextField(r, c))))
    ensures forall c :: IsText(c) && c !in columns ==>
              TextField(NormaliseRecord(r, columns), c) == TextField(r, c)
    ensures NonText(NormaliseRecord(r, columns)) == NonText(r)
  {
    var n := NormaliseRecord(r, columns);
    forall c | IsText(c) ensures TextField(n, c) == NormaliseField(TextField(r, c), c in columns) {
      match c
      case ProductIdCol =>
      case ProductNameCol =>
      case AtcCodeCol =>
      case RegionCol =>
      case RetailerIdCol =>
    }
  }

  /** Normalising twice is normalising once. */
  lemma NormaliseIdempotent(r: Record, columns: set<Column>)
    ensures NormaliseRecord(NormaliseRecord(r, columns), columns) == NormaliseRecord(r, columns)
  {
    StripIdempotent(AsText(r.productId));
    StripIdempotent(AsText(r.productName));
    StripIdempotent(AsText(r.atcCode));
    StripIdempotent(AsText(r.region));
    StripIdempotent(AsText(r.retailerId));
  }

  /** `now` is `orig` with the first `n` text columns of the loop normalised. */
  ghost predicate PartlyNormalised(now: Record, orig: Record, columns: set<Column>, n: nat) {
    && NonText(now) == NonText(orig)
    && forall c :: IsText(c) ==>
         TextField(now, c)
           == if TextPosition(c) < n then NormaliseField(TextField(orig, c), c in columns)
              else TextField(orig, c)
  }

  /** One pass of the loop body on one row: column `c` replaced by its stripped text form. */
  function StripColumn(r: Record, c: Column): Record
    requires IsText(c)
  {
    WithTextField(r, c, Some(Strip(AsText(TextField(r, c)))))
  }

  /** The loop body for column number `n` takes a row normalised up to `n` one column further. */
  lemma PartlyNormalisedStep(now: Record, orig: Record, columns: set<Column>, n: nat, c: Column)
    requires IsText(c) && TextPosition(c) == n
    requires PartlyNormalised(now, orig, columns, n)
    ensures PartlyNormalised(if c in columns then StripColumn(now, c) else now, orig, columns, n + 1)
  {
    var next := if c in columns then StripColumn(now, c) else now;
    forall d | IsText(d)
      ensures TextField(next, d)
                == if TextPosition(d) < n + 1 then NormaliseField(TextField(orig, d), d in columns)
                   else TextField(orig, d)
    {
      if d == c {
      } else {
        assert TextPosition(d) != n by {
          TextPositionInjective(c, d);
        }
      }
    }
  }

  /** Normalised in all five columns is normalised. */
  lemma PartlyNormalisedDone(now: Record, orig: Record, columns: set<Column>)
    requires PartlyNormalised(now, orig, columns, |TextColumns|)
    ensures now == NormaliseRecord(orig, columns)
  {
    NormaliseRecordFields(orig, columns);
    forall c | IsText(c) ensures TextField(now, c) == TextField(NormaliseRecord(orig, columns), c) {
      assert TextPosition(c) < |TextColumns|;
    }
    RecordExtensionality(now, NormaliseRecord(orig, columns));
  }

  /** The column-by-column loop `for col in [...]: if col in df.columns: df[col] = ...strip()`. */
  method NormaliseText(t: Table) returns (u: Table)
    ensures u == Normalised(t)
  {
    var rows := t.rows;
    for i := 0 to |TextColumns|
      invariant |rows| == |t.rows|
      invariant forall j :: 0 <= j < |rows| ==> PartlyNormalised(rows[j], t.rows[j], t.columns, i)
    {
      var c := TextColumns[i];
      assert IsText(c) && TextPosition(c) == i;
      var before := rows;
      if c in t.columns {
        rows := seq(|rows|, j requires 0 <= j < |rows| => StripColumn(rows[j], c));
      }
      forall j | 0 <= j < |rows| ensures PartlyNormalised(rows[j], t.rows[j], t.columns, i + 1) {
        PartlyNormalisedStep(before[j], t.rows[j], t.columns, i, c);
      }
    }
    forall j | 0 <= j < |rows| ensures rows[j] == NormaliseRecord(t.rows[j], t.columns) {
      PartlyNormalisedDone(rows[j], t.rows[j], t.columns);
    }
    u := Table(t.columns, rows);
  }

  /** The whole cleaning stage on a table; a missing critical column is pandas' `KeyError`. */
  function Clean(t: Table): Result<Table, Error> {
    if !(CriticalColumns <= t.columns) then Failure(MissingColumns(CriticalColumns - t.columns))
    else Success(Normalised(Table(t.columns, FilterRange(DropMissing(t.rows)))))
  }

  /** The body of `main` between reading and writing the CSV, step by step. */
  method CleanTable(t: Table) returns (res: Result<Table, Error>)
    ensures res == Clean(t)
  {
    if !(CriticalColumns <= t.columns) {
      return Failure(MissingColumns(CriticalColumns - t.columns));
    }
    var df := Table(t.columns, DropMissing(t.rows));
    df := Table(df.columns, FilterRange(df.rows));
    var u := NormaliseText(df);
    return Success(u);
  }

  /** Cleaning fails exactly when the table lacks a critical column, and names every one it lacks. */
  lemma CleanFailure(t: Table)
    ensures Clean(t).Failure? <==> !(CriticalColumns <= t.columns)
    ensures Clean(t).Failure? ==>
              Clean(t).error.missing == CriticalColumns - t.columns && Clean(t).error.missing != {}
  {
    if !(CriticalColumns <= t.columns) {
      var c :| c in CriticalColumns && c !in t.columns;
      assert c in Clean(t).error.missing;
    }
  }

  /**
   * The cleaned table, row for row: it keeps the schema, and its k-th row is the k-th
   * surviving input row, normalised.
   */
  lemma CleanRows(t: Table)
    requires CriticalColumns <= t.columns
    ensures Clean(t).Success? && Clean(t).value.columns == t.columns
    ensures |Clean(t).value.rows| == |KeptIndices(t.rows)|
    ensures forall k :: 0 <= k < |KeptIndices(t.rows)| ==>
              KeptIndices(t.rows)[k] < |t.rows| &&
              Clean(t).value.rows[k] == NormaliseRecord(t.rows[KeptIndices(t.rows)[k]], t.columns)
  {
    FilterSurvivors(t.rows);
  }

  /** Cleaning fills in no cell of a column the schema lacks. */
  lemma CleanWellFormed(t: Table)
    requires WellFormed(t)
    ensures Clean(t).Success? ==> WellFormed(Clean(t).value)
  {
    if CriticalColumns <= t.columns {
      CleanRows(t);
      var u := Clean(t).value;
      var ks := KeptIndices(t.rows);
      forall r, c | r in u.rows && c !in u.columns ensures !HasCell(r, c) {
        var k :| 0 <= k < |u.rows| && u.rows[k] == r;
        var orig := t.rows[ks[k]];
        assert orig in t.rows;
        NormaliseRecordFields(orig, t.columns);
        HasCellAgree(r, orig, c);
      }
    }
  }

  /** A cleaned row: critical fields present, numbers in range, every present text column stripped. */
  ghost predicate IsClean(r: Record, columns: set<Column>) {
    && HasCritical(r) && InRange(r)
    && forall c :: IsText(c) && c in columns ==> TextField(r, c).Some? && IsStripped(TextField(r, c).value)
  }

  lemma NormaliseSurvivor(r: Record, columns: set<Column>)
    requires Survives(r)
    ensures IsClean(NormaliseRecord(r, columns), columns)
  {
    NormaliseRecordFields(r, columns);
    forall c | IsText(c) && c in columns
      ensures IsStripped(TextField(NormaliseRecord(r, columns), c).value)
    {
      StripShape(AsText(TextField(r, c)));
    }
  }

  /** Every row of a cleaned table is clean. */
  lemma CleanOutputIsClean(t: Table)
    requires CriticalColumns <= t.columns
    ensures forall r :: r in Clean(t).value.rows ==> IsClean(r, t.columns)
  {
    CleanRows(t);
    KeptIndicesExact(t.rows);
    var u := Clean(t).value;
    forall r | r in u.rows ensures IsClean(r, t.columns) {
      var k :| 0 <= k < |u.rows| && u.rows[k] == r;
      var i := KeptIndices(t.rows)[k];
      assert i in KeptIndices(t.rows);
      NormaliseSurvivor(t.rows[i], t.columns);
    }
  }

  lemma CleanEmpty(t: Table)
    requires CriticalColumns <= t.columns && t.rows == []
    ensures Clean(t) == Success(Table(t.columns, []))
  {
    assert Normalised(Table(t.columns, [])).rows == [];
  }

  /** Whether a row survives does not depend on its product name, ATC code or promotion flag. */
  lemma SurvivalIgnoresOptionalFields(r: Record, name: Option<string>, atc: Option<string>, promo: Option<int>)
    ensures Survives(r.(productName := name, atcCode := atc, promotionFlag := promo)) == Survives(r)
  {
  }

  /** Every surviving row is in the cleaned table, normalised. */
  lemma SurvivorKept(t: Table, i: nat)
    requires CriticalColumns <= t.columns && i < |t.rows| && Survives(t.rows[i])
    ensures exists k :: 0 <= k < |Clean(t).value.rows| && Clean(t).value.rows[k] == NormaliseRecord(t.rows[i], t.columns)
  {
    CleanRows(t);
    KeptIndicesExact(t.rows);
    var k :| 0 <= k < |KeptIndices(t.rows)| && KeptIndices(t.rows)[k] == i;
  }

  /** A null product name or ATC code in an existing column becomes the text "nan". */
  lemma NullTextBecomesNan(r: Record, columns: set<Column>)
    ensures r.productName.None? && ProductNameCol in columns ==>
              NormaliseRecord(r, columns).productName == Some(NullText)
    ensures r.atcCode.None? && AtcCodeCol in columns ==>
              NormaliseRecord(r, columns).atcCode == Some(NullText)
  {
    StripFixedPoint(NullText);
  }

  lemma {:induction false} FiltersKeepSurvivors(rows: seq<Record>)
    requires forall r :: r in rows ==> Survives(r)
    ensures FilterRange(DropMissing(rows)) == rows
  {
    if |rows| > 0 {
      var init := rows[..|rows| - 1];
      assert rows == init + [rows[|rows| - 1]];
      FiltersKeepSurvivors(init);
      CleanFiltersSnoc(init, rows[|rows| - 1]);
    }
  }

  lemma NormalisedFixed(u: Table)
    requires forall k :: 0 <= k < |u.rows| ==> NormaliseRecord(u.rows[k], u.columns) == u.rows[k]
    ensures Normalised(u) == u
  {
    assert Normalised(u).rows == u.rows;
  }

  /** Cleaning a cleaned table changes nothing. */
  lemma CleanIdempotent(t: Table)
    requires CriticalColumns <= t.columns
    ensures Clean(Clean(t).value) == Clean(t)
  {
    var u := Clean(t).value;
    CleanRows(t);
    CleanOutputIsClean(t);
    FiltersKeepSurvivors(u.rows);
    forall k | 0 <= k < |u.rows| ensures NormaliseRecord(u.rows[k], u.columns) == u.rows[k] {
      NormaliseIdempotent(t.rows[KeptIndices(t.rows)[k]], t.columns);
    }
    NormalisedFixed(u);
    assert Clean(u) == Success(Normalised(Table(u.columns, u.rows)));
  }

  /**
   * A two-row extract: a row with every critical cell present and in range whose
   * product id carries stray whitespace, and a row rejected by the null or range rules. Only the
   * first row survives, with its id stripped and nothing else changed.
   */
  lemma CleanTwoRows(r1: Record, r2: Record)
    requires Survives(r1) && !Survives(r2)
    requires IsStripped(r1.region.value) && IsStripped(r1.retailerId.value)
    ensures Clean(Table(CriticalColumns, [r1, r2]))
         == Success(Table(CriticalColumns, [r1.(productId := Some(Strip(r1.productId.value)))]))
  {
    CleanOneSurvivor(r1, r2);
    NormaliseCriticalOnly(r1);
  }

  /** Of two rows under the critical schema, only the surviving one comes out, normalised. */
  lemma CleanOneSurvivor(r1: Record, r2: Record)
    requires Survives(r1) && !Survives(r2)
    ensures Clean(Table(CriticalColumns, [r1, r2]))
         == Success(Table(CriticalColumns, [NormaliseRecord(r1, CriticalColumns)]))
  {
    CleanFiltersSnoc([], r1);
    assert [] + [r1] == [r1] && [r1] + [r2] == [r1, r2];
    assert FilterRange(DropMissing([r1])) == [r1];
    CleanFiltersSnoc([r1], r2);
    assert FilterRange(DropMissing([r1, r2])) == [r1];
    NormalisedSingleton(CriticalColumns, r1);
  }

  lemma NormalisedSingleton(columns: set<Column>, r: Record)
    ensures Normalised(Table(columns, [r])) == Table(columns, [NormaliseRecord(r, columns)])
  {
  }

  /** Under the critical schema only the three critical text columns are rewritten. */
  lemma NormaliseCriticalOnly(r: Record)
    requires r.region.Some? && r.retailerId.Some? && r.productId.Some?
    requires IsStripped(r.region.value) && IsStripped(r.retailerId.value)
    ensures NormaliseRecord(r, CriticalColumns) == r.(productId := Some(Strip(r.productId.value)))
  {
    NormaliseSkipsOptionalText(r);
    StripFixedPoint(r.region.value);
    StripFixedPoint(r.retailerId.value);
  }

  /** The critical schema has no product name or ATC code column, so those are left alone. */
  lemma NormaliseSkipsOptionalText(r: Record)
    ensures NormaliseRecord(r, CriticalColumns).productName == r.productName
    ensures NormaliseRecord(r, CriticalColumns).atcCode == r.atcCode
  {
    assert ProductNameCol !in CriticalColumns && AtcCodeCol !in CriticalColumns;
  }

  /** A trailing blank is cut from an id. */
  lemma StripTrailingBlank()
    ensures Strip("A ") == "A"
  {
    assert TrimEnd("A ") == "A" by { assert "A "[..1] == "A"; }
  }
}
