/** The row model shared by both extractors: a row is the already-read list of its tab-separated
    fields, and a file becomes a map keyed by sku, read row by row with a 1-based counter. */
module Rows {
  import opened Wrappers
  import opened Errors

  type Row = seq<string>

  /** `row.get(col)` */
  function Get(row: Row, col: nat): (r: Option<string>)
    ensures r.Some? <==> col < |row|
    ensures r.Some? ==> r.value == row[col]
  {
    if col < |row| then Some(row[col]) else None
  }

  /** `row.get(col).ok_or(AbcParseError::MissingField(name, i))` */
  function Field(row: Row, col: nat, name: string, i: nat): (r: Result<string, AbcParseError>)
    ensures r.Ok? <==> col < |row|
    ensures r.Ok? ==> r.value == row[col]
    ensures r.Err? ==> r.error == MissingField(name, i)
  {
    if col < |row| then Ok(row[col]) else Err(MissingField(name, i))
  }

  /** The meaning of either extractor's loop: rows are parsed in order, row `j` (0-based) with
      counter `j + 1`; the first failing row ends the file with its error; otherwise each parsed
      record is inserted under its key, a later row overwriting an earlier one. */
  function KeyedRows<V>(parse: (Row, nat) -> Result<V, AbcParseError>, key: V -> string, rows: seq<Row>)
    : (r: Result<map<string, V>, AbcParseError>)
    ensures r.Ok? ==> |r.value| <= |rows|
    decreases |rows|
  {
    if rows == [] then
      Ok(map[])
    else
      var products :- KeyedRows(parse, key, rows[..|rows| - 1]);
      var v :- parse(rows[|rows| - 1], |rows|);
      assert |products.Keys + {key(v)}| <= |products.Keys| + 1;
      Ok(products[key(v) := v])
  }

  /** Every key of the map is the key of the record stored under it, and there are at most
      as many entries as rows. */
  lemma {:induction false} KeyedRowsKeyed<V>(parse: (Row, nat) -> Result<V, AbcParseError>, key: V -> string, rows: seq<Row>)
    requires KeyedRows(parse, key, rows).Ok?
    ensures var m := KeyedRows(parse, key, rows).value;
      (forall k :: k in m ==> key(m[k]) == k) && |m| <= |rows|
    decreases |rows|
  {
    if rows != [] {
      var prefix := rows[..|rows| - 1];
      KeyedRowsKeyed(parse, key, prefix);
      var products := KeyedRows(parse, key, prefix).value;
      var v := parse(rows[|rows| - 1], |rows|).value;
      assert |products.Keys + {key(v)}| <= |products.Keys| + 1;
    }
  }

  /** One more row: what the loop does with the map after its `i`-th row. */
  lemma KeyedRowsStep<V>(parse: (Row, nat) -> Result<V, AbcParseError>, key: V -> string, rows: seq<Row>, i: nat, products: map<string, V>)
    requires i < |rows|
    requires KeyedRows(parse, key, rows[..i]) == Ok(products)
    ensures KeyedRows(parse, key, rows[..i + 1]) ==
      match parse(rows[i], i + 1)
      case Err(e) => Err(e)
      case Ok(v) => Ok(products[key(v) := v])
  {
    assert rows[..i + 1][..i] == rows[..i];
    assert rows[..i + 1][i] == rows[i];
  }

  /** An error in the first `i` rows is the error of the whole file: later rows are never read. */
  lemma {:induction false} KeyedRowsPrefixError<V>(parse: (Row, nat) -> Result<V, AbcParseError>, key: V -> string, rows: seq<Row>, i: nat)
    requires i <= |rows|
    requires KeyedRows(parse, key, rows[..i]).Err?
    ensures KeyedRows(parse, key, rows) == KeyedRows(parse, key, rows[..i])
    decreases |rows| - i
  {
    if i < |rows| {
      var longer := rows[..i + 1];
      assert longer[..i] == rows[..i];
      assert KeyedRows(parse, key, longer) == KeyedRows(parse, key, rows[..i]);
      KeyedRowsPrefixError(parse, key, rows, i + 1);
    } else {
      assert rows[..i] == rows;
    }
  }

  /** A file yields a map exactly when every one of its rows parses. */
  lemma {:induction false} KeyedRowsSucceeds<V>(parse: (Row, nat) -> Result<V, AbcParseError>, key: V -> string, rows: seq<Row>)
    ensures KeyedRows(parse, key, rows).Ok? <==> forall j :: 0 <= j < |rows| ==> parse(rows[j], j + 1).Ok?
    decreases |rows|
  {
    if rows != [] {
      var n := |rows|;
      var prefix := rows[..n - 1];
      KeyedRowsSucceeds(parse, key, prefix);
      assert forall j :: 0 <= j < n - 1 ==> prefix[j] == rows[j];
      if KeyedRows(parse, key, prefix).Err? {
        var j :| 0 <= j < n - 1 && !parse(prefix[j], j + 1).Ok?;
        assert !parse(rows[j], j + 1).Ok?;
      }
    }
  }

  /** The error of a file is that of its first failing row, reported with that row's 1-based
      number as the counter. */
  lemma {:induction false} KeyedRowsFirstError<V>(parse: (Row, nat) -> Result<V, AbcParseError>, key: V -> string, rows: seq<Row>, j: nat)
    requires j < |rows|
    requires forall j' :: 0 <= j' < j ==> parse(rows[j'], j' + 1).Ok?
    requires parse(rows[j], j + 1).Err?
    ensures KeyedRows(parse, key, rows) == Err(parse(rows[j], j + 1).error)
    decreases |rows|
  {
    var n := |rows|;
    var prefix := rows[..n - 1];
    assert forall j' :: 0 <= j' < n - 1 ==> prefix[j'] == rows[j'];
    if j < n - 1 {
      KeyedRowsFirstError(parse, key, prefix, j);
    } else {
      KeyedRowsSucceeds(parse, key, prefix);
    }
  }

  /** Every error of a file is the error of one of its rows. */
  lemma {:induction false} KeyedRowsErrorOfRow<V>(parse: (Row, nat) -> Result<V, AbcParseError>, key: V -> string, rows: seq<Row>)
    requires KeyedRows(parse, key, rows).Err?
    ensures exists j :: 0 <= j < |rows| && parse(rows[j], j + 1) == Err(KeyedRows(parse, key, rows).error)
    decreases |rows|
  {
    var n := |rows|;
    var prefix := rows[..n - 1];
    if KeyedRows(parse, key, prefix).Err? {
      KeyedRowsErrorOfRow(parse, key, prefix);
      var j :| 0 <= j < |prefix| && parse(prefix[j], j + 1) == Err(KeyedRows(parse, key, prefix).error);
      assert prefix[j] == rows[j];
    } else {
      assert parse(rows[n - 1], n) == Err(KeyedRows(parse, key, rows).error);
    }
  }

  /** The keys of the map are exactly the keys of the parsed rows. */
  lemma {:induction false} KeyedRowsKeys<V>(parse: (Row, nat) -> Result<V, AbcParseError>, key: V -> string, rows: seq<Row>, k: string)
    requires KeyedRows(parse, key, rows).Ok?
    ensures k in KeyedRows(parse, key, rows).value <==>
      exists j :: 0 <= j < |rows| && parse(rows[j], j + 1).Ok? && key(parse(rows[j], j + 1).value) == k
    decreases |rows|
  {
    if rows != [] {
      var n := |rows|;
      var prefix := rows[..n - 1];
      KeyedRowsKeys(parse, key, prefix, k);
      assert forall j :: 0 <= j < n - 1 ==> prefix[j] == rows[j];
      var m := KeyedRows(parse, key, rows).value;
      if k in m && k != key(parse(rows[n - 1], n).value) {
        var j :| 0 <= j < |prefix| && parse(prefix[j], j + 1).Ok? && key(parse(prefix[j], j + 1).value) == k;
        assert parse(rows[j], j + 1) == parse(prefix[j], j + 1);
      }
    }
  }

  /** Last row wins: the record stored under a key is the one parsed from the last row with
      that key. */
  lemma {:induction false} KeyedRowsLastWins<V>(parse: (Row, nat) -> Result<V, AbcParseError>, key: V -> string, rows: seq<Row>, j: nat)
    requires KeyedRows(parse, key, rows).Ok?
    requires j < |rows|
    requires parse(rows[j], j + 1).Ok?
    requires forall j' :: j < j' < |rows| && parse(rows[j'], j' + 1).Ok? ==>
      key(parse(rows[j'], j' + 1).value) != key(parse(rows[j], j + 1).value)
    ensures var m := KeyedRows(parse, key, rows).value; var v := parse(rows[j], j + 1).value;
      key(v) in m && m[key(v)] == v
    decreases |rows|
  {
    var n := |rows|;
    var prefix := rows[..n - 1];
    if j < n - 1 {
      assert forall j' :: 0 <= j' < n - 1 ==> prefix[j'] == rows[j'];
      KeyedRowsLastWins(parse, key, prefix, j);
    }
  }

  /** Each parsed record's key is the value of a fixed column of its row. */
  ghost predicate KeyFromColumn<V>(parse: (Row, nat) -> Result<V, AbcParseError>, key: V -> string, col: nat) {
    forall row: Row, i: nat :: parse(row, i).Ok? ==> Get(row, col) == Some(key(parse(row, i).value))
  }

  /** With keys read from a column, the keys of the map are exactly that column's values, and
      each is the key of the record under it. */
  lemma KeyedRowsColumnKeys<V>(parse: (Row, nat) -> Result<V, AbcParseError>, key: V -> string, col: nat, rows: seq<Row>, k: string)
    requires KeyFromColumn(parse, key, col)
    requires KeyedRows(parse, key, rows).Ok?
    ensures k in KeyedRows(parse, key, rows).value ==> key(KeyedRows(parse, key, rows).value[k]) == k
    ensures k in KeyedRows(parse, key, rows).value <==> exists j :: 0 <= j < |rows| && Get(rows[j], col) == Some(k)
  {
    KeyedRowsKeyed(parse, key, rows);
    KeyedRowsKeys(parse, key, rows, k);
    KeyedRowsSucceeds(parse, key, rows);
    if k in KeyedRows(parse, key, rows).value {
      var j :| 0 <= j < |rows| && parse(rows[j], j + 1).Ok? && key(parse(rows[j], j + 1).value) == k;
      assert Get(rows[j], col) == Some(k);
    }
    if exists j :: 0 <= j < |rows| && Get(rows[j], col) == Some(k) {
      var j :| 0 <= j < |rows| && Get(rows[j], col) == Some(k);
      assert parse(rows[j], j + 1).Ok?;
    }
  }

  /** With keys read from a column, the record under a key is the one parsed from the last row
      with that column value. */
  lemma KeyedRowsColumnLastWins<V>(parse: (Row, nat) -> Result<V, AbcParseError>, key: V -> string, col: nat, rows: seq<Row>, j: nat)
    requires KeyFromColumn(parse, key, col)
    requires KeyedRows(parse, key, rows).Ok?
    requires j < |rows|
    requires forall j' :: j < j' < |rows| ==> Get(rows[j'], col) != Get(rows[j], col)
    ensures Get(rows[j], col).Some?
    ensures var m := KeyedRows(parse, key, rows).value;
      rows[j][col] in m && parse(rows[j], j + 1) == Ok(m[rows[j][col]])
  {
    KeyedRowsSucceeds(parse, key, rows);
    assert parse(rows[j], j + 1).Ok?;
    forall j' | j < j' < |rows| && parse(rows[j'], j' + 1).Ok?
      ensures key(parse(rows[j'], j' + 1).value) != key(parse(rows[j], j + 1).value)
    {
      assert Get(rows[j'], col) != Get(rows[j], col);
    }
    KeyedRowsLastWins(parse, key, rows, j);
  }
}
