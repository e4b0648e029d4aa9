/** `IntermediateBaseProduct::parse_item_data`: the rows of `item.data` read by fixed column. */
module ItemData {
  import opened Wrappers
  import opened Externals
  import opened Errors
  import opened Seqs
  import opened Price
  import opened Upc
  import opened Product
  import opened Rows

  const SKU_COL: nat := 0
  const DESC_COL: nat := 1
  const LIST_COL: nat := 6
  const COST_COL: nat := 8
  const GROUP_COL: nat := 18
  const ALT_SKU_COL_1: nat := 40
  const ALT_SKU_COL_2: nat := 41
  const ALT_SKU_COL_3: nat := 42
  const UPCS_COL: nat := 43
  const WEIGHT_COL: nat := 45

  /** "Cannot parse a price for list in row {i}" and the same for cost. */
  function PriceMsg(field: string, i: nat): string {
    "Cannot parse a price for " + field + " in row " + NatToString(i)
  }

  /** `price_from_str(s).or(Err(Custom(..)))` */
  function ParsePrice(p: Parsers, s: string, field: string, i: nat): (r: Result<Decimal, AbcParseError>)
    ensures r.Ok? <==> PriceFromStr(p, s).Some?
    ensures r.Ok? ==> PriceFromStr(p, s) == Some(r.value)
    ensures r.Err? ==> r.error == Custom(PriceMsg(field, i))
  {
    match PriceFromStr(p, s)
    case Some(d) => Ok(d)
    case None => Err(Custom(PriceMsg(field, i)))
  }

  /** The group column; an empty or absent column is no group. */
  function GroupColumn(row: Row): (r: Option<string>)
    ensures r.None? <==> |row| <= GROUP_COL || row[GROUP_COL] == ""
    ensures r.Some? ==> r.value == row[GROUP_COL]
  {
    match Get(row, GROUP_COL)
    case Some(g) => if g == "" then None else Some(g)
    case None => None
  }

  /** The closure given to `filter_map` over the three alternate-sku columns. */
  function NonEmptyColumn(o: Option<string>): Option<string> {
    match o
    case Some(s) => if s == "" then None else Some(s)
    case None => None
  }

  function AltSkuColumns(row: Row): (r: seq<string>)
    ensures |r| <= 3
    ensures forall k :: 0 <= k < |r| ==> r[k] != ""
  {
    var cols := [Get(row, ALT_SKU_COL_1), Get(row, ALT_SKU_COL_2), Get(row, ALT_SKU_COL_3)];
    NonEmptyColumnsKept(cols);
    FilterMap(NonEmptyColumn, cols)
  }

  lemma {:induction false} NonEmptyColumnsKept(cols: seq<Option<string>>)
    ensures forall k :: 0 <= k < |FilterMap(NonEmptyColumn, cols)| ==> FilterMap(NonEmptyColumn, cols)[k] != ""
  {
    if cols != [] {
      NonEmptyColumnsKept(cols[1..]);
    }
  }

  /** One row, `i` being its 1-based number. Columns are checked in the order sku, desc, upcs,
      list, cost, weight; an unparsable price is a hard error, an unparsable weight is no weight. */
  function ParseBaseRow(p: Parsers, row: Row, i: nat): (r: Result<IntermediateBase, AbcParseError>)
    ensures r.Ok? ==> |row| > WEIGHT_COL && r.value.sku == row[SKU_COL] && r.value.desc == row[DESC_COL]
    ensures r.Err? ==> r.error.MissingField? || r.error.Custom?
  {
    var sku :- Field(row, SKU_COL, "sku", i);
    var desc :- Field(row, DESC_COL, "desc", i);
    var upcStr :- Field(row, UPCS_COL, "upcs", i);
    var upcs := ParseUpcs(p, upcStr);
    // Column 43 is present by now, so columns 6 and 8 are too and their error cases cannot arise.
    match Field(row, LIST_COL, "list", i)
    case Err(e) => Err(e)
    case Ok(listStr) =>
      var list :- ParsePrice(p, listStr, "list", i);
      match Field(row, COST_COL, "cost", i)
      case Err(e) => Err(e)
      case Ok(costStr) =>
        var cost :- ParsePrice(p, costStr, "cost", i);
        var weightStr :- Field(row, WEIGHT_COL, "weight", i);
        var weight := p.parseF64(weightStr);
        var group := GroupColumn(row);
        var altSkus := AltSkuColumns(row);
        Ok(IntermediateBase(sku, desc, upcs, list, cost, group, weight, altSkus))
  }

  function BaseRowParser(p: Parsers): (Row, nat) -> Result<IntermediateBase, AbcParseError> {
    (row: Row, i: nat) => ParseBaseRow(p, row, i)
  }

  function BaseKey(b: IntermediateBase): string {
    b.sku
  }

  /** What `parse_item_data` returns for a file with these rows. */
  function ParseItemRows(p: Parsers, rows: seq<Row>): Result<map<string, IntermediateBase>, AbcParseError> {
    KeyedRows(BaseRowParser(p), BaseKey, rows)
  }

  /** `parse_item_data`, over the already-read rows of the file. */
  method ParseItemData(p: Parsers, rows: seq<Row>) returns (r: Result<map<string, IntermediateBase>, AbcParseError>)
    ensures r == ParseItemRows(p, rows)
  {
    var i: nat := 0;
    var products: map<string, IntermediateBase> := map[];
    while i < |rows|
      invariant i <= |rows|
      invariant ParseItemRows(p, rows[..i]) == Ok(products)
    {
      var row := rows[i];
      KeyedRowsStep(BaseRowParser(p), BaseKey, rows, i, products);
      i := i + 1;
      var parsed := ParseBaseRow(p, row, i);
      assert BaseRowParser(p)(row, i) == parsed;
      if parsed.Err? {
        KeyedRowsPrefixError(BaseRowParser(p), BaseKey, rows, i);
        return Err(parsed.error);
      }
      assert BaseKey(parsed.value) == parsed.value.sku;
      products := products[parsed.value.sku := parsed.value];
    }
    assert rows[..i] == rows;
    return Ok(products);
  }

  /** Which rows fail, and with what: the missing column is named with the row's number, and a
      bad price is a `Custom` error. Since column 43 is checked before columns 6 and 8, a row
      never fails for a missing list or cost column. */
  lemma BaseRowErrors(p: Parsers, row: Row, i: nat)
    ensures ParseBaseRow(p, row, i).Err? <==>
      |row| <= WEIGHT_COL || PriceFromStr(p, row[LIST_COL]).None? || PriceFromStr(p, row[COST_COL]).None?
    ensures ParseBaseRow(p, row, i).Err? ==>
              ParseBaseRow(p, row, i).error ==
                if |row| <= SKU_COL then MissingField("sku", i)
                else if |row| <= DESC_COL then MissingField("desc", i)
                else if |row| <= UPCS_COL then MissingField("upcs", i)
                else if PriceFromStr(p, row[LIST_COL]).None? then Custom(PriceMsg("list", i))
                else if PriceFromStr(p, row[COST_COL]).None? then Custom(PriceMsg("cost", i))
                else MissingField("weight", i)
  {
  }

  /** What a parsed row holds. On success the row has all 46 columns, so the group is absent
      only when its column is empty, and the alternate skus are the non-empty ones among
      columns 40 to 42, in column order. */
  lemma BaseRowFields(p: Parsers, row: Row, i: nat)
    requires ParseBaseRow(p, row, i).Ok?
    ensures |row| > WEIGHT_COL
    ensures var b := ParseBaseRow(p, row, i).value;
      && b.sku == row[SKU_COL] && b.desc == row[DESC_COL]
      && b.upcs == ParseUpcs(p, row[UPCS_COL])
      && PriceFromStr(p, row[LIST_COL]) == Some(b.list)
      && PriceFromStr(p, row[COST_COL]) == Some(b.cost)
      && b.weight == p.parseF64(row[WEIGHT_COL])
      && (b.group.None? <==> row[GROUP_COL] == "")
      && (b.group.Some? ==> b.group.value == row[GROUP_COL])
      && b.altSkus == Filter(IsNonEmpty, row[ALT_SKU_COL_1..ALT_SKU_COL_3 + 1])
  {
    var cols := row[ALT_SKU_COL_1..ALT_SKU_COL_3 + 1];
    assert cols == [row[40], row[41], row[42]];
    PresentAltSkus(row[40], row[41], row[42]);
  }

  predicate IsNonEmpty(s: string) {
    s != ""
  }

  /** With all three columns present, filter_map over the options is filtering the strings. */
  lemma PresentAltSkus(a: string, b: string, c: string)
    ensures FilterMap(NonEmptyColumn, [Some(a), Some(b), Some(c)]) == Filter(IsNonEmpty, [a, b, c])
  {
    var opts := [Some(a), Some(b), Some(c)];
    assert opts[1..] == [Some(b), Some(c)];
    assert opts[1..][1..] == [Some(c)];
    assert opts[1..][1..][1..] == [];
    var strs := [a, b, c];
    assert strs[1..] == [b, c];
    assert strs[1..][1..] == [c];
    assert strs[1..][1..][1..] == [];
    assert FilterMap(NonEmptyColumn, opts[1..][1..]) == Filter(IsNonEmpty, strs[1..][1..]);
    assert FilterMap(NonEmptyColumn, opts[1..]) == Filter(IsNonEmpty, strs[1..]);
  }

  lemma BaseRowSku(p: Parsers, row: Row, i: nat)
    requires ParseBaseRow(p, row, i).Ok?
    ensures Get(row, SKU_COL) == Some(ParseBaseRow(p, row, i).value.sku)
  {
  }

  /** Rows are numbered from 1: the file's error is its first failing row's, with that row's
      1-based number. */
  lemma ItemDataFirstError(p: Parsers, rows: seq<Row>, j: nat)
    requires j < |rows|
    requires forall j' :: 0 <= j' < j ==> ParseBaseRow(p, rows[j'], j' + 1).Ok?
    requires ParseBaseRow(p, rows[j], j + 1).Err?
    ensures ParseItemRows(p, rows) == Err(ParseBaseRow(p, rows[j], j + 1).error)
  {
    forall j' | 0 <= j' < j ensures BaseRowParser(p)(rows[j'], j' + 1).Ok? {
      assert ParseBaseRow(p, rows[j'], j' + 1).Ok?;
    }
    KeyedRowsFirstError(BaseRowParser(p), BaseKey, rows, j);
  }

  /** The file yields a map exactly when each row parses. */
  lemma ItemDataSucceeds(p: Parsers, rows: seq<Row>)
    ensures ParseItemRows(p, rows).Ok? <==> forall j :: 0 <= j < |rows| ==> ParseBaseRow(p, rows[j], j + 1).Ok?
  {
    KeyedRowsSucceeds(BaseRowParser(p), BaseKey, rows);
  }

  /** The base extractor keys its records by column 0. */
  lemma BaseKeyFromColumn(p: Parsers)
    ensures KeyFromColumn(BaseRowParser(p), BaseKey, SKU_COL)
  {
    forall row: Row, i: nat | BaseRowParser(p)(row, i).Ok?
      ensures Get(row, SKU_COL) == Some(BaseKey(BaseRowParser(p)(row, i).value))
    {
      assert BaseRowParser(p)(row, i) == ParseBaseRow(p, row, i);
      BaseRowSku(p, row, i);
    }
  }

  /** Every key of the map is the sku held under it, and the keys are exactly the sku
      columns of the file. */
  lemma ItemDataKeys(p: Parsers, rows: seq<Row>, k: string)
    requires ParseItemRows(p, rows).Ok?
    ensures k in ParseItemRows(p, rows).value ==> ParseItemRows(p, rows).value[k].sku == k
    ensures k in ParseItemRows(p, rows).value <==> exists j :: 0 <= j < |rows| && Get(rows[j], SKU_COL) == Some(k)
  {
    BaseKeyFromColumn(p);
    KeyedRowsColumnKeys(BaseRowParser(p), BaseKey, SKU_COL, rows, k);
  }

  /** Every record of the map is stored under its own sku. */
  lemma ItemDataKeyed(p: Parsers, rows: seq<Row>)
    requires ParseItemRows(p, rows).Ok?
    ensures forall k :: k in ParseItemRows(p, rows).value ==> ParseItemRows(p, rows).value[k].sku == k
  {
    KeyedRowsKeyed(BaseRowParser(p), BaseKey, rows);
  }

  /** A later row with the same sku overwrites an earlier one. */
  lemma ItemDataLastRowWins(p: Parsers, rows: seq<Row>, j: nat)
    requires ParseItemRows(p, rows).Ok?
    requires j < |rows|
    requires forall j' :: j < j' < |rows| ==> Get(rows[j'], SKU_COL) != Get(rows[j], SKU_COL)
    ensures Get(rows[j], SKU_COL).Some?
    ensures var m := ParseItemRows(p, rows).value;
      rows[j][SKU_COL] in m && ParseBaseRow(p, rows[j], j + 1) == Ok(m[rows[j][SKU_COL]])
  {
    BaseKeyFromColumn(p);
    KeyedRowsColumnLastWins(BaseRowParser(p), BaseKey, SKU_COL, rows, j);
    assert BaseRowParser(p)(rows[j], j + 1) == ParseBaseRow(p, rows[j], j + 1);
  }

  /** The extractor's errors are all row errors: never `MisMatchedSkus`. */
  lemma ItemDataNeverMismatch(p: Parsers, rows: seq<Row>)
    ensures ParseItemRows(p, rows) != Err(MisMatchedSkus)
  {
    if ParseItemRows(p, rows).Err? {
      KeyedRowsErrorOfRow(BaseRowParser(p), BaseKey, rows);
      var j :| 0 <= j < |rows| && BaseRowParser(p)(rows[j], j + 1) == Err(ParseItemRows(p, rows).error);
      BaseRowErrors(p, rows[j], j + 1);
    }
  }
}
