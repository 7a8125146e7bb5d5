/** The sales table shared by both stages: one record per row, one optional value per column. */
module Records {
  import opened Wrappers
  import opened Dates

  /** The columns of the raw, the cleaned and the aggregator's input table. */
  datatype Column =
    | DateCol | ProductIdCol | ProductNameCol | AtcCodeCol | RegionCol | RetailerIdCol
    | UnitsSoldCol | UnitPriceCol | SalesValueCol | PromotionFlagCol

  /** One sales row; `None` is a null cell (NaN / NaT). Money amounts are exact reals. */
  datatype Record = Record(
    date: Option<Date>,
    productId: Option<string>,
    productName: Option<string>,
    atcCode: Option<string>,
    region: Option<string>,
    retailerId: Option<string>,
    unitsSold: Option<int>,
    unitPrice: Option<real>,
    salesValue: Option<real>,
    promotionFlag: Option<int>)

  /**
   * A table: which columns its schema has, and its rows in order. A data frame has no cell in a
   * column it lacks; `WellFormed` states that, and the cleaner keeps it.
   */
  datatype Table = Table(columns: set<Column>, rows: seq<Record>)

  /** Whether a record holds a non-null value in column `c`. */
  predicate HasCell(r: Record, c: Column) {
    match c
    case DateCol => r.date.Some?
    case ProductIdCol => r.productId.Some?
    case ProductNameCol => r.productName.Some?
    case AtcCodeCol => r.atcCode.Some?
    case RegionCol => r.region.Some?
    case RetailerIdCol => r.retailerId.Some?
    case UnitsSoldCol => r.unitsSold.Some?
    case UnitPriceCol => r.unitPrice.Some?
    case SalesValueCol => r.salesValue.Some?
    case PromotionFlagCol => r.promotionFlag.Some?
  }

  /** Every row is null in every column the schema lacks. */
  ghost predicate WellFormed(t: Table) {
    forall r, c :: r in t.rows && c !in t.columns ==> !HasCell(r, c)
  }

  /** Selecting a column the table does not have (pandas raises `KeyError`). */
  datatype Error = MissingColumns(missing: set<Column>)

  /** The five text columns, in the order the cleaner normalises them. */
  const TextColumns: seq<Column> := [ProductIdCol, ProductNameCol, AtcCodeCol, RegionCol, RetailerIdCol]

  predicate IsText(c: Column) {
    c.ProductIdCol? || c.ProductNameCol? || c.AtcCodeCol? || c.RegionCol? || c.RetailerIdCol?
  }

  /** Where a text column comes in `TextColumns`. */
  function TextPosition(c: Column): (k: nat)
    requires IsText(c)
    ensures k < |TextColumns| && TextColumns[k] == c
  {
    match c
    case ProductIdCol => 0
    case ProductNameCol => 1
    case AtcCodeCol => 2
    case RegionCol => 3
    case RetailerIdCol => 4
  }

  function TextField(r: Record, c: Column): Option<string>
    requires IsText(c)
  {
    match c
    case ProductIdCol => r.productId
    case ProductNameCol => r.productName
    case AtcCodeCol => r.atcCode
    case RegionCol => r.region
    case RetailerIdCol => r.retailerId
  }

  /** Distinct text columns have distinct positions in the loop. */
  lemma TextPositionInjective(c: Column, d: Column)
    requires IsText(c) && IsText(d) && c != d
    ensures TextPosition(c) != TextPosition(d)
  {
  }

  function WithTextField(r: Record, c: Column, v: Option<string>): (r': Record)
    requires IsText(c)
    ensures TextField(r', c) == v
    ensures forall d :: IsText(d) && d != c ==> TextField(r', d) == TextField(r, d)
    ensures NonText(r') == NonText(r)
  {
    match c
    case ProductIdCol => r.(productId := v)
    case ProductNameCol => r.(productName := v)
    case AtcCodeCol => r.(atcCode := v)
    case RegionCol => r.(region := v)
    case RetailerIdCol => r.(retailerId := v)
  }

  /** The five columns that are not text: date, units, price, sales and promotion flag. */
  function NonText(r: Record): (Option<Date>, Option<int>, Option<real>, Option<real>, Option<int>) {
    (r.date, r.unitsSold, r.unitPrice, r.salesValue, r.promotionFlag)
  }

  /** Records agreeing on a text column, and on the other five columns, agree on which cells are filled. */
  lemma HasCellAgree(a: Record, b: Record, c: Column)
    requires IsText(c) ==> TextField(a, c) == TextField(b, c)
    requires NonText(a) == NonText(b)
    ensures HasCell(a, c) == HasCell(b, c)
  {
  }

  /** Records agreeing on every text column and on the other five columns are equal. */
  lemma RecordExtensionality(a: Record, b: Record)
    requires forall c :: IsText(c) ==> TextField(a, c) == TextField(b, c)
    requires NonText(a) == NonText(b)
    ensures a == b
  {
    assert TextField(a, ProductIdCol) == TextField(b, ProductIdCol);
    assert TextField(a, ProductNameCol) == TextField(b, ProductNameCol);
    assert TextField(a, AtcCodeCol) == TextField(b, AtcCodeCol);
    assert TextField(a, RegionCol) == TextField(b, RegionCol);
    assert TextField(a, RetailerIdCol) == TextField(b, RetailerIdCol);
  }
}
