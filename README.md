# abc-product in Dafny

A model of the record pipeline of `abc-product`, a Rust crate. The crate reads the two files of an
ABC accounting database export, `item.data` and `item_posted.data`, into one map from sku to
`AbcProduct`. The model has five parts:

- **Price sanitiser** (`price_from_str`). It keeps only ASCII digits and `'.'` and hands what is
  left to the decimal parser.
- **UPC normaliser.** It reduces the UPC column to digits and commas and splits the result on
  commas. Each piece is classified by length: a piece shorter than 11 characters is dropped, an
  11-character piece gets `"0"` appended, and a piece of 12 or more characters is passed as it
  is. Whatever the non-strict EAN-13 constructor accepts is kept.
- **The two row extractors** (`parse_item_data`, `parse_item_posted_data`). Each reads fixed
  columns with a 1-based row counter. A missing required column is a `MissingField` error. A
  price or stock that does not parse is a `Custom` error. Weight, last-sold date, group and
  alternate skus fall back to absent instead. Rows go into a map keyed by sku, and a later row
  overwrites an earlier one.
- **The reconciler** (`from_db_export` with `TryFrom`). It checks that the two maps have the
  same size. For every base sku it looks up the posted record and merges the two records.
- **`AbcProductBuilder`.** Its setters, `with_group`, `build`, and `From<AbcProduct>`.

Layout, one module per file:

- `wrappers.dfy`: `Option`, and a `Result` that supports `:-` the way Rust supports `?`.
- `seqs.dfy`: the iterator adaptors the code uses (`filter`, `filter_map`, `split`) and their
  algebra.
- `externals.dfy`: the collaborating libraries, as abstract types and caller-supplied parsers.
- `errors.dfy`: `AbcParseError`, and the decimal rendering of row numbers.
- `price.dfy`, `upc.dfy`: the sanitiser and the UPC normaliser.
- `product.dfy`: the product and the two intermediate records, and `TryFrom`.
- `builder.dfy`: the builder.
- `rows.dfy`: the row model and `KeyedRows`, the meaning both extractor loops share.
- `item_data.dfy`, `item_posted_data.dfy`: the two extractors.
- `db_export.dfy`: the reconciler and `from_db_export`.

Collaborators are parameters of the model:

- **Parsers.** `rust_decimal`, `f64` parsing, `chrono`'s `%Y-%m-%d` date parser and
  `Ean13::from_str_nonstrict` are fields of a `Parsers` value the caller passes in. Each is a
  total function `string -> Option<T>` over an abstract type `T`.
- **Files.** A file is the list of its already-read rows. A row is the list of its tab-separated
  fields.
- **Loops.** Both extractors and the reconciler are methods with loops. Each extractor is proved
  equal to a specification function, and the properties are lemmas about those functions. The
  reconciler equals the specification function `Joined` only on success. Its errors are stated
  as a disjunction, because which sku it reports depends on the map's iteration order.

Some properties follow from the order in which the code checks things, and the model proves them:

- **Base extractor.** A `MissingField("list", _)` or `MissingField("cost", _)` error cannot arise,
  because column 43 is checked before columns 6 and 8. A row that parses has every column up to
  45. So the "column absent" branches for the group and the alternate skus are never taken on
  success.
- **Posted extractor.** `MissingField("last_sold", _)` cannot arise, because column 19 is
  checked before column 1.
- **`from_db_export`.** It can never return `MisMatchedSkus`. Every record in an extracted map
  has the sku it is stored under, so the check inside `try_from` cannot fail there.

## Model

| member | source | states |
|---|---|---|
| Seqs.Filter | src/lib.rs:20-23 | The result is no longer than the input, holds only input elements that pass the test, and holds every input element that passes it. |
| Seqs.FilterConcat | src/lib.rs:20-23 | Filtering a concatenation is concatenating the filtered parts, so order is kept. |
| Seqs.FilterIdentity | src/lib.rs:20-23 | Filtering leaves a sequence unchanged exactly when every element passes. |
| Seqs.FilterIdempotent | src/lib.rs:20-23 | Filtering twice is filtering once. |
| Seqs.FilterMap | src/lib.rs:552-566 | `filter_map` yields at most one output per input. |
| Seqs.FilterMapConcat | src/lib.rs:552-566 | `filter_map` over a concatenation is the concatenation of the parts' results, so order is kept. |
| Seqs.FilterMapMembers | src/lib.rs:552-566 | A value is in the result exactly when the closure returns it for some input element. |
| Seqs.FilterMapAllNone | src/lib.rs:552-566 | If the closure rejects every element, the result is empty. |
| Seqs.FilterMapCongruent | src/lib.rs:552-566 | Two closures that agree on every element give the same result. |
| Seqs.Count | src/lib.rs:552-553 | The number of separators is at most the length, and it is zero exactly when the separator does not occur. |
| Seqs.Split | src/lib.rs:552-553 | `split` yields one more piece than there are separators. |
| Seqs.JoinSplit | src/lib.rs:552-553 | Joining the pieces with the separator gives back the input. |
| Seqs.SplitJoin | src/lib.rs:552-553 | Splitting a join of separator-free pieces gives back those pieces. |
| Seqs.SplitPrefix | src/lib.rs:552-553 | A separator-free prefix extends the first piece of what follows it. |
| Seqs.SplitElements | src/lib.rs:552-553 | Every element of every piece is an element of the input and is not the separator, so no piece contains the separator. |
| Seqs.SplitConcat | src/lib.rs:552-553 | Splitting `x + [sep] + y` gives the pieces of `x` followed by the pieces of `y`. |
| Seqs.SplitOnlySeparators | src/lib.rs:552-553 | An input made only of separators splits into empty pieces. |
| Errors.NatToString | src/lib.rs:570-573 | A row number renders as a non-empty string of decimal digits with no leading zero. |
| Errors.NatToStringRoundTrip | src/lib.rs:570-573 | The rendered digits denote the number again, so different rows give different messages. |
| Price.Sanitize | src/lib.rs:20-23 | The cleaned string is no longer than the input and holds only digits and `'.'`. |
| Price.PriceFromStr | src/lib.rs:19-25 | A string made only of digits and `'.'` is handed to the decimal parser unchanged. |
| Price.PriceFromStrIgnoresNoise | src/lib.rs:19-25 | Removing one character that is neither a digit nor `'.'` does not change the parsed price, so currency signs, separators and spaces are ignored. |
| Price.SanitizeKeepsOrder | src/lib.rs:19-25 | The cleaned string of a concatenation is the concatenation of the cleaned parts. A single character is kept exactly when it is a digit or `'.'`. Together: the cleaned string is exactly the input's price characters in their original order. |
| Price.SanitizeContents | src/lib.rs:19-25 | Every character handed to the decimal parser is a digit or `'.'` from the input, and every such input character is handed on. |
| Price.SanitizeCleanInput | src/lib.rs:19-25 | A string is handed on unchanged exactly when it consists only of digits and `'.'`. |
| Price.PriceFromStrIdempotent | src/lib.rs:19-25 | Parsing an already-cleaned price gives the same result as parsing the raw string. |
| Upc.UpcDigits | src/lib.rs:546-551 | The reduced column is no longer than the column and holds only digits and commas. |
| Upc.UpcPieces | src/lib.rs:552-553 | The reduced column splits into one more piece than it has commas. |
| Upc.NormalizePiece | src/lib.rs:554-565 | A piece shorter than 11 characters yields nothing. An 11-character piece is handed to the constructor with `"0"` appended. A piece of 12 or more characters is handed on unchanged. |
| Upc.ParseUpcs | src/lib.rs:546-566 | A column yields at most one UPC per comma-separated piece. |
| Upc.NormalizeAllThroughCandidates | src/lib.rs:554-565 | Classifying each piece and calling the constructor is the same as computing the candidate strings first and then calling the constructor on them. |
| Upc.ParseUpcsThroughInputs | src/lib.rs:546-566 | The UPCs are the constructor's successes on the candidate strings, in order. Its failures are dropped, never reported. |
| Upc.PiecesAreDigits | src/lib.rs:546-553 | Every piece after `split` is a run of ASCII digits. |
| Upc.EanInputsShape | src/lib.rs:554-565 | A string reaches the constructor exactly when it is an 11-character piece with `"0"` appended, or a piece of 12 or more characters unchanged. Every such string has 12 or more digits, so pieces shorter than 11 never reach it. |
| Upc.OnlyLongCodesConsulted | src/lib.rs:554-565 | Two constructors that agree on strings of 12 or more characters give the same UPCs. |
| Upc.NoDigitsNoUpcs | src/lib.rs:546-566 | A column without digits, the empty column included, yields no UPCs. |
| Upc.ParseUpcsConcat | src/lib.rs:546-566 | The UPCs of `a + "," + b` are those of `a` followed by those of `b`. |
| Upc.SinglePiece | src/lib.rs:546-566 | A run of digits without commas yields the constructor's result on its normalised form, or nothing. |
| Product.TryFrom | src/lib.rs:220-241 | Fails exactly when the skus differ, and then with `MisMatchedSkus`. On success the product's base fields are the base record and its posted fields are the posted record. |
| Product.TryFromParts | src/lib.rs:220-241 | Merging a product's own two parts gives the product back, so the merge loses no field. |
| Builder.New | src/lib.rs:246-259 | Every required field is unset, and the optional fields and both lists are empty. |
| Builder.WithSku | src/lib.rs:262-267 | Sets the sku and changes nothing else. |
| Builder.WithDesc | src/lib.rs:270-275 | Sets the description and changes nothing else. |
| Builder.WithUpcs | src/lib.rs:278-280 | Replaces the UPC list and changes nothing else. |
| Builder.AddUpc | src/lib.rs:283-290 | Appends exactly one code at the end of the UPC list, keeps the earlier codes and changes nothing else. |
| Builder.WithList | src/lib.rs:293-298 | Sets the list price and changes nothing else. |
| Builder.WithCost | src/lib.rs:301-306 | Sets the cost and changes nothing else. |
| Builder.WithStock | src/lib.rs:309-314 | Sets the stock and changes nothing else. |
| Builder.WithWeight | src/lib.rs:317-322 | Sets the weight and changes nothing else. |
| Builder.WithGroup | src/lib.rs:332-340 | None exactly when the character is not an ASCII letter. Otherwise the group becomes a one-letter string in `'A'..'Z'`: an uppercase letter is kept, a lowercase one is mapped to its uppercase form. Nothing else changes. |
| Builder.WithLastSold | src/lib.rs:343-348 | Sets the last-sold date and changes nothing else. |
| Builder.WithAltSkus | src/lib.rs:351-356 | Replaces the alternate skus and changes nothing else. |
| Builder.AddAltSku | src/lib.rs:359-366 | Appends exactly one alternate sku at the end, keeps the earlier ones and changes nothing else. |
| Builder.Require | src/lib.rs:381-398 | `ok_or` succeeds exactly on `Some`, with its value. On `None` it is `MissingField(name, 0)`. |
| Builder.FromProduct | src/lib.rs:407-422 | A builder seeded from a product has every required field set. |
| Builder.Build | src/lib.rs:379-404 | Fails exactly when a required field is unset. The error names the first unset field in the order sku, desc, list, cost, stock, with row 0. On success the product carries the builder's values and copies the optional fields verbatim: seeding a builder from it gives the same builder. |
| Builder.BuildFromProduct | src/lib.rs:379-422 | Round trip: building from a builder seeded with `p` gives `Ok(p)`. |
| Builder.BuildsExactly | src/lib.rs:379-422 | A builder builds `p` exactly when it is the builder seeded from `p`. |
| Builder.RebuildWithStock | src/lib.rs:379-422 | Seeding a builder from a product, changing the stock and building gives the product with only the stock changed. |
| Builder.WithGroupIgnoresCase | src/lib.rs:332-340 | A lowercase letter and its uppercase form give the same builder. |
| Rows.Get | src/lib.rs:478-479 | `row.get(col)` is present exactly when the column exists, and then it is that column. |
| Rows.Field | src/lib.rs:478-481 | A required column gives its value when present, and `MissingField(name, i)` with the row's number otherwise. |
| Rows.KeyedRows | src/lib.rs:474-503 | The fold both extractor loops compute. A successful result has at most as many entries as rows. |
| Rows.KeyedRowsKeyed | src/lib.rs:474-503 | Every key of the resulting map is the key of the record stored under it, and there are at most as many entries as rows. |
| Rows.KeyedRowsStep | src/lib.rs:475-502 | The loop's step: one more row either ends the file with that row's error or inserts that row's record under its key. |
| Rows.KeyedRowsPrefixError | src/lib.rs:475-477 | Once a row has failed, later rows do not change the result. |
| Rows.KeyedRowsSucceeds | src/lib.rs:474-504 | A file yields a map exactly when every one of its rows parses under its 1-based number. |
| Rows.KeyedRowsFirstError | src/lib.rs:474-504 | The file's error is the error of its first failing row, reported with that row's 1-based number. |
| Rows.KeyedRowsErrorOfRow | src/lib.rs:474-504 | Every error of a file is the error of one of its rows. |
| Rows.KeyedRowsKeys | src/lib.rs:474-504 | The keys of the map are exactly the keys of the rows. |
| Rows.KeyedRowsLastWins | src/lib.rs:495-502 | The record under a key is the one parsed from the last row with that key. |
| Rows.KeyedRowsColumnKeys | src/lib.rs:474-503 | When every record's key is read from a fixed column, the map's keys are exactly that column's values in the file. |
| Rows.KeyedRowsColumnLastWins | src/lib.rs:474-503 | When every record's key is read from a fixed column, the record under a key is the one parsed from the last row with that column value. |
| ItemData.ParsePrice | src/lib.rs:567-580 | Succeeds exactly when `price_from_str` does, with its value. Otherwise it is `Custom("Cannot parse a price for <field> in row <i>")`. |
| ItemData.GroupColumn | src/lib.rs:588-598 | No group exactly when column 18 is absent or empty. Otherwise the group is that column. |
| ItemData.AltSkuColumns | src/lib.rs:599-606 | At most three alternate skus, none of them empty. |
| ItemData.ParseBaseRow | src/lib.rs:538-619 | A parsed row has at least 46 columns and takes its sku and description from columns 0 and 1. A failure is always `MissingField` or `Custom`. |
| ItemData.ParseItemData | src/lib.rs:525-622 | The loop returns exactly the first failing row's error, or the map of all rows keyed by sku. |
| ItemData.BaseRowErrors | src/lib.rs:538-587 | A row fails exactly when it has fewer than 46 columns or its list or cost price does not parse. The error is the first of: missing sku, missing desc, missing upcs, `Custom` for the list price, `Custom` for the cost, missing weight. Each carries the row's number and the messages' exact wording. |
| ItemData.BaseRowFields | src/lib.rs:538-606 | A parsed row holds columns 0 and 1, the UPCs of column 43, the parsed prices of columns 6 and 8, and the weight parse of column 45, which is absent when that parse fails. Its group is absent exactly when column 18 is empty, and otherwise equals it. Its alternate skus are the non-empty ones among columns 40-42, in order. |
| ItemData.BaseRowSku | src/lib.rs:538-541 | A parsed row's sku is its column 0. |
| ItemData.ItemDataFirstError | src/lib.rs:533-541 | Rows are numbered from 1: the file fails with its first failing row's error. |
| ItemData.ItemDataSucceeds | src/lib.rs:533-621 | `item.data` yields a map exactly when each of its rows parses. |
| ItemData.ItemDataKeys | src/lib.rs:607-619 | Every record's sku is its key, and the keys are exactly the file's sku column values. |
| ItemData.BaseKeyFromColumn | src/lib.rs:607-610 | The base extractor keys every record by its row's column 0. |
| ItemData.ItemDataKeyed | src/lib.rs:607-619 | Every record in the map is stored under its own sku. |
| ItemData.ItemDataLastRowWins | src/lib.rs:607-619 | The record under a sku is the one parsed from the last row with that sku. |
| ItemData.ItemDataNeverMismatch | src/lib.rs:525-622 | The extractor never fails with `MisMatchedSkus`. |
| ItemPostedData.ParseStock | src/lib.rs:486-489 | Succeeds exactly when the f64 parse does, with its value. Otherwise it is `Custom("Cannot parse f64 from stock_str in row <i> of posted items")`. |
| ItemPostedData.ParsePostedRow | src/lib.rs:478-501 | A parsed row has at least 20 columns and takes its sku from column 0. A failure is always `MissingField` or `Custom`. |
| ItemPostedData.ParseItemPostedData | src/lib.rs:465-505 | The loop returns exactly the first failing row's error, or the map of all rows keyed by sku. |
| ItemPostedData.PostedRowErrors | src/lib.rs:478-494 | A row fails exactly when it has fewer than 20 columns or its stock does not parse. The error is missing sku, missing stock, or the stock's `Custom` message, with the row's number. |
| ItemPostedData.PostedRowFields | src/lib.rs:478-501 | A parsed row holds column 0 as its sku and the parsed stock of column 19. Its last-sold date is the date parse of column 1, which is absent when that parse fails. |
| ItemPostedData.PostedRowSku | src/lib.rs:478-481 | A parsed row's sku is its column 0. |
| ItemPostedData.PostedDataFirstError | src/lib.rs:474-477 | Rows are numbered from 1: the file fails with its first failing row's error. |
| ItemPostedData.PostedDataSucceeds | src/lib.rs:473-504 | `item_posted.data` yields a map exactly when each of its rows parses. |
| ItemPostedData.PostedDataKeys | src/lib.rs:495-502 | Every record's sku is its key, and the keys are exactly the file's sku column values. |
| ItemPostedData.PostedKeyFromColumn | src/lib.rs:495-498 | The posted extractor keys every record by its row's column 0. |
| ItemPostedData.PostedDataKeyed | src/lib.rs:495-502 | Every record in the map is stored under its own sku. |
| ItemPostedData.PostedDataLastRowWins | src/lib.rs:495-502 | The record under a sku is the one parsed from the last row with that sku. |
| ItemPostedData.PostedDataNeverMismatch | src/lib.rs:465-505 | The extractor never fails with `MisMatchedSkus`. |
| DbExport.Joinable | src/lib.rs:198-213 | The condition under which reconciliation succeeds: equal sizes, and for every base sku a posted record with the same sku. `DbExport.JoinableKeys` proves that the key sets are then equal. |
| DbExport.Joined | src/lib.rs:205-216 | The reconciled map has exactly the base skus as keys. Each product takes its base fields from the base record and stock and last_sold from the posted record. |
| DbExport.JoinableKeys | src/lib.rs:198-213 | Equal sizes plus every base sku being posted means the two maps have the same key set. |
| DbExport.Reconcile | src/lib.rs:198-216 | Succeeds exactly when the sizes agree and every base sku has a posted record with an equal sku, and then returns the reconciled map. Different sizes give the size-mismatch `Custom` error. Otherwise an error is either `Custom` naming a base sku with no posted record, or `MisMatchedSkus` for a sku whose records disagree. |
| DbExport.ExtractedJoinable | src/lib.rs:198-216 | For maps whose records carry their own keys, reconciliation succeeds exactly when the key sets are equal, and the skus always agree. |
| DbExport.FromDbExport | src/lib.rs:192-217 | An `item.data` error comes first, then an `item_posted.data` error. Success happens exactly when both files parse and describe the same set of skus, and the result is the reconciled map. When both parse, different sizes give the size-mismatch `Custom` error. With equal sizes, any error is the `Custom` error naming a base sku missing from the posted file. `MisMatchedSkus` is never returned. |
| DbExport.ExportJoinsLastRows | src/lib.rs:192-217 | End to end: the product under a sku joins the last `item.data` row and the last `item_posted.data` row with that sku. |

## Left out

- CSV reading and file access: `csv::ReaderBuilder`, `from_path`, `records()`, and the `CsvError`
  that `row?` propagates. These are I/O. A file is modelled as its already-read rows, so a CSV
  error never arises. The `CsvError` variant still exists. In particular, the reader is built
  in the csv crate's default non-flexible mode (src/lib.rs:528-531). In that mode, a row whose
  field count differs from the first row's is a `CsvError`. The model instead reports
  `MissingField` for a short row anywhere in the file.
- `rust_decimal`, `f64`, `chrono` and the `ean13` crate: external libraries. Their values are
  abstract types and their parsers are caller-supplied functions. No arithmetic, checksum or date
  logic is modelled.
- `price_from_str`'s error payload (`rust_decimal::Error`) is modelled as `None`, because its
  only callers discard it.
- Rust's `f64` equality, where NaN differs from itself, is not modelled. `F64` has plain equality,
  so `Builder.BuildFromProduct` and `Product.TryFromParts` are structural round trips.
- The iteration order of `HashMap` is left unspecified. `DbExport.Reconcile` picks the next sku
  with `:|`. When several skus are missing or mismatched, which one is reported depends on that
  order, so the error contract is a disjunction.
- `usize` overflow of the row counter is not modelled: row numbers are unbounded naturals.
- `add_upc` and `add_alt_sku` push onto a vector that the builder owns by value and then return
  a new builder. They are modelled as functions on an immutable builder value, as are all setters.
- `Builder.WithGroup`: `to_uppercase` is modelled only on ASCII letters, the only input that
  reaches it.
- `AbcProduct::new` (src/lib.rs:116-118) is the same function as `Builder.New`.
- The `Display` and `Error` impls for `AbcParseError` (src/lib.rs:424-447): message formatting only.
- The field getters (src/lib.rs:121-169): trivial clones.
- The test module (src/lib.rs:625 onwards): it depends on fixture files on disk.
