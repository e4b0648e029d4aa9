/** `IntermediatePostedProduct::parse_item_posted_data`: the rows of `item_posted.data`. */
module ItemPostedData {
  import opened Wrappers
  import opened Externals
  import opened Errors
  import opened Product
  import opened Rows

  const SKU_COL: nat := 0
  const LAST_SOLD_COL: nat := 1
  const STOCK_COL: nat := 19

  /** "Cannot parse f64 from stock_str in row {i} of posted items" */
  function StockMsg(i: nat): string {
    "Cannot parse f64 from stock_str in row " + NatToString(i) + " of posted items"
  }

  /** `stock_str.parse().or(Err(Custom(..)))` */
  function ParseStock(p: Parsers, s: string, i: nat): (r: Result<F64, AbcParseError>)
    ensures r.Ok? <==> p.parseF64(s).Some?
    ensures r.Ok? ==> p.parseF64(s) == Some(r.value)
    ensures r.Err? ==> r.error == Custom(StockMsg(i))
  {
    match p.parseF64(s)
    case Some(f) => Ok(f)
    case None => Err(Custom(StockMsg(i)))
  }

  /** One row, `i` being its 1-based number. Columns are checked in the order sku, stock,
      last_sold; an unparsable stock is a hard error, an unparsable date is no date. */
  function ParsePostedRow(p: Parsers, row: Row, i: nat): (r: Result<IntermediatePosted, AbcParseError>)
    ensures r.Ok? ==> |row| > STOCK_COL && r.value.sku == row[SKU_COL]
    ensures r.Err? ==> r.error.MissingField? || r.error.Custom?
  {
    var sku :- Field(row, SKU_COL, "sku", i);
    var stockStr :- Field(row, STOCK_COL, "stock", i);
    var stock :- ParseStock(p, stockStr, i);
    // Column 19 is present by now, so this column is too and the error case cannot arise.
    match Field(row, LAST_SOLD_COL, "last_sold", i)
    case Err(e) => Err(e)
    case Ok(lastSoldStr) =>
      var lastSold := p.parseYmdDate(lastSoldStr);
      Ok(IntermediatePosted(sku, stock, lastSold))
  }

  function PostedRowParser(p: Parsers): (Row, nat) -> Result<IntermediatePosted, AbcParseError> {
    (row: Row, i: nat) => ParsePostedRow(p, row, i)
  }

  function PostedKey(q: IntermediatePosted): string {
    q.sku
  }

  /** What `parse_item_posted_data` returns for a file with these rows. */
  function ParsePostedRows(p: Parsers, rows: seq<Row>): Result<map<string, IntermediatePosted>, AbcParseError> {
    KeyedRows(PostedRowParser(p), PostedKey, rows)
  }

  /** `parse_item_posted_data`, over the already-read rows of the file. */
  method ParseItemPostedData(p: Parsers, rows: seq<Row>) returns (r: Result<map<string, IntermediatePosted>, AbcParseError>)
    ensures r == ParsePostedRows(p, rows)
  {
    var products: map<string, IntermediatePosted> := map[];
    var i: nat := 0;
    while i < |rows|
      invariant i <= |rows|
      invariant ParsePostedRows(p, rows[..i]) == Ok(products)
    {
      var row := rows[i];
      KeyedRowsStep(PostedRowParser(p), PostedKey, rows, i, products);
      i := i + 1;
      var parsed := ParsePostedRow(p, row, i);
      assert PostedRowParser(p)(row, i) == parsed;
      if parsed.Err? {
        KeyedRowsPrefixError(PostedRowParser(p), PostedKey, rows, i);
        return Err(parsed.error);
      }
      assert PostedKey(parsed.value) == parsed.value.sku;
      products := products[parsed.value.sku := parsed.value];
    }
    assert rows[..i] == rows;
    return Ok(products);
  }

  /** Which rows fail, and with what. Since column 19 is checked before column 1, a row never
      fails for a missing last_sold column. */
  lemma PostedRowErrors(p: Parsers, row: Row, i: nat)
    ensures ParsePostedRow(p, row, i).Err? <==> |row| <= STOCK_COL || p.parseF64(row[STOCK_COL]).None?
    ensures ParsePostedRow(p, row, i).Err? ==>
              ParsePostedRow(p, row, i).error ==
                if |row| <= SKU_COL then MissingField("sku", i)
                else if |row| <= STOCK_COL then MissingField("stock", i)
                else Custom(StockMsg(i))
  {
  }

  /** What a parsed row holds: the sku, the parsed stock and, when it parses, the date. */
  lemma PostedRowFields(p: Parsers, row: Row, i: nat)
    requires ParsePostedRow(p, row, i).Ok?
    ensures |row| > STOCK_COL
    ensures var q := ParsePostedRow(p, row, i).value;
      && q.sku == row[SKU_COL]
      && p.parseF64(row[STOCK_COL]) == Some(q.stock)
      && q.lastSold == p.parseYmdDate(row[LAST_SOLD_COL])
  {
  }

  lemma PostedRowSku(p: Parsers, row: Row, i: nat)
    requires ParsePostedRow(p, row, i).Ok?
    ensures Get(row, SKU_COL) == Some(ParsePostedRow(p, row, i).value.sku)
  {
  }

  /** Rows are numbered from 1: the file's error is its first failing row's, with that row's
      1-based number. */
  lemma PostedDataFirstError(p: Parsers, rows: seq<Row>, j: nat)
    requires j < |rows|
    requires forall j' :: 0 <= j' < j ==> ParsePostedRow(p, rows[j'], j' + 1).Ok?
    requires ParsePostedRow(p, rows[j], j + 1).Err?
    ensures ParsePostedRows(p, rows) == Err(ParsePostedRow(p, rows[j], j + 1).error)
  {
    forall j' | 0 <= j' < j ensures PostedRowParser(p)(rows[j'], j' + 1).Ok? {
      assert ParsePostedRow(p, rows[j'], j' + 1).Ok?;
    }
    KeyedRowsFirstError(PostedRowParser(p), PostedKey, rows, j);
  }

  /** The file yields a map exactly when each row parses. */
  lemma PostedDataSucceeds(p: Parsers, rows: seq<Row>)
    ensures ParsePostedRows(p, rows).Ok? <==> forall j :: 0 <= j < |rows| ==> ParsePostedRow(p, rows[j], j + 1).Ok?
  {
    KeyedRowsSucceeds(PostedRowParser(p), PostedKey, rows);
  }

  /** The posted extractor keys its records by column 0. */
  lemma PostedKeyFromColumn(p: Parsers)
    ensures KeyFromColumn(PostedRowParser(p), PostedKey, SKU_COL)
  {
    forall row: Row, i: nat | PostedRowParser(p)(row, i).Ok?
      ensures Get(row, SKU_COL) == Some(PostedKey(PostedRowParser(p)(row, i).value))
    {
      assert PostedRowParser(p)(row, i) == ParsePostedRow(p, row, i);
      PostedRowSku(p, row, i);
    }
  }

  /** Every key of the map is the sku held under it, and the keys are exactly the sku
      columns of the file. */
  lemma PostedDataKeys(p: Parsers, rows: seq<Row>, k: string)
    requires ParsePostedRows(p, rows).Ok?
    ensures k in ParsePostedRows(p, rows).value ==> ParsePostedRows(p, rows).value[k].sku == k
    ensures k in ParsePostedRows(p, rows).value <==> exists j :: 0 <= j < |rows| && Get(rows[j], SKU_COL) == Some(k)
  {
    PostedKeyFromColumn(p);
    KeyedRowsColumnKeys(PostedRowParser(p), PostedKey, SKU_COL, rows, k);
  }

  /** Every record of the map is stored under its own sku. */
  lemma PostedDataKeyed(p: Parsers, rows: seq<Row>)
    requires ParsePostedRows(p, rows).Ok?
    ensures forall k :: k in ParsePostedRows(p, rows).value ==> ParsePostedRows(p, rows).value[k].sku == k
  {
    KeyedRowsKeyed(PostedRowParser(p), PostedKey, rows);
  }

  /** A later row with the same sku overwrites an earlier one. */
  lemma PostedDataLastRowWins(p: Parsers, rows: seq<Row>, j: nat)
    requires ParsePostedRows(p, rows).Ok?
    requires j < |rows|
    requires forall j' :: j < j' < |rows| ==> Get(rows[j'], SKU_COL) != Get(rows[j], SKU_COL)
    ensures Get(rows[j], SKU_COL).Some?
    ensures var m := ParsePostedRows(p, rows).value;
      rows[j][SKU_COL] in m && ParsePostedRow(p, rows[j], j + 1) == Ok(m[rows[j][SKU_COL]])
  {
    PostedKeyFromColumn(p);
    KeyedRowsColumnLastWins(PostedRowParser(p), PostedKey, SKU_COL, rows, j);
    assert PostedRowParser(p)(rows[j], j + 1) == ParsePostedRow(p, rows[j], j + 1);
  }

  /** The extractor's errors are all row errors: never `MisMatchedSkus`. */
  lemma PostedDataNeverMismatch(p: Parsers, rows: seq<Row>)
    ensures ParsePostedRows(p, rows) != Err(MisMatchedSkus)
  {
    if ParsePostedRows(p, rows).Err? {
      KeyedRowsErrorOfRow(PostedRowParser(p), PostedKey, rows);
      var j :| 0 <= j < |rows| && PostedRowParser(p)(rows[j], j + 1) == Err(ParsePostedRows(p, rows).error);
      PostedRowErrors(p, rows[j], j + 1);
    }
  }
}
