/** `AbcProduct::from_db_export`: extract both files, then join the two maps by sku. */
module DbExport {
  import opened Wrappers
  import opened Externals
  import opened Errors
  import opened Product
  import opened Rows
  import opened ItemData
  import opened ItemPostedData

  /** The message for files with different numbers of products (its spelling is the source's). */
  const SizeMismatchMsg: string := "The item_posted.data and item.data files have a different nember of items"

  /** "item_posted.data file has no product with sku '{sku}'" */
  function NoPostedSkuMsg(sku: string): string {
    "item_posted.data file has no product with sku '" + sku + "'"
  }

  /** The two maps can be reconciled: as many posted records as base records, and for every
      base sku a posted record with the same sku. */
  predicate Joinable(base: map<string, IntermediateBase>, posted: map<string, IntermediatePosted>) {
    && |base| == |posted|
    && forall k :: k in base ==> k in posted && base[k].sku == posted[k].sku
  }

  /** The reconciled products: under each base sku, the merge of its two records. */
  function Joined(base: map<string, IntermediateBase>, posted: map<string, IntermediatePosted>): (r: map<string, AbcProduct>)
    requires Joinable(base, posted)
    ensures r.Keys == base.Keys
    ensures forall k :: k in r ==> BasePart(r[k]) == base[k] && PostedPart(r[k]) == posted[k]
  {
    map k | k in base :: TryFrom(base[k], posted[k]).value
  }

  /** Equal sizes and every base sku posted leave no posted sku unmatched either. */
  lemma JoinableKeys(base: map<string, IntermediateBase>, posted: map<string, IntermediatePosted>)
    requires Joinable(base, posted)
    ensures base.Keys == posted.Keys
  {
    var extra := posted.Keys - base.Keys;
    assert posted.Keys == base.Keys + extra;
    assert base.Keys !! extra;
    assert |posted.Keys| == |base.Keys| + |extra|;
    assert |extra| == 0;
  }

  /** Lines 198-216 of `from_db_export`: the size check, then one pass over the base map (in the
      map's own, unspecified order) that looks each sku up in the posted map and merges. Which
      missing sku, or which mismatch, is reported first depends on that order. */
  method Reconcile(base: map<string, IntermediateBase>, posted: map<string, IntermediatePosted>)
    returns (r: Result<map<string, AbcProduct>, AbcParseError>)
    ensures r.Ok? <==> Joinable(base, posted)
    ensures r.Ok? ==> r.value == Joined(base, posted)
    ensures |base| != |posted| ==> r == Err(Custom(SizeMismatchMsg))
    ensures r.Err? && |base| == |posted| ==>
      || (exists k :: k in base && k !in posted && r.error == Custom(NoPostedSkuMsg(k)))
      || (exists k :: k in base && k in posted && base[k].sku != posted[k].sku && r.error == MisMatchedSkus)
  {
    if |base| != |posted| {
      return Err(Custom(SizeMismatchMsg));
    }
    var products: map<string, AbcProduct> := map[];
    var remaining := base.Keys;
    while remaining != {}
      invariant remaining <= base.Keys
      invariant products.Keys == base.Keys - remaining
      invariant forall k :: k in products ==> k in posted && base[k].sku == posted[k].sku
      invariant forall k :: k in products ==> products[k] == TryFrom(base[k], posted[k]).value
      decreases remaining
    {
      var sku :| sku in remaining;
      remaining := remaining - {sku};
      if sku !in posted {
        return Err(Custom(NoPostedSkuMsg(sku)));
      }
      var merged := TryFrom(base[sku], posted[sku]);
      if merged.Err? {
        return Err(merged.error);
      }
      products := products[sku := merged.value];
    }
    return Ok(products);
  }

  /** On maps the extractors produce, reconciliation succeeds exactly when the two files
      describe the same set of skus, and `MisMatchedSkus` cannot occur. */
  lemma ExtractedJoinable(base: map<string, IntermediateBase>, posted: map<string, IntermediatePosted>)
    requires forall k :: k in base ==> base[k].sku == k
    requires forall k :: k in posted ==> posted[k].sku == k
    ensures Joinable(base, posted) <==> base.Keys == posted.Keys
    ensures forall k :: k in base && k in posted ==> base[k].sku == posted[k].sku
  {
    if Joinable(base, posted) {
      JoinableKeys(base, posted);
    }
  }

  /** `from_db_export`, over the already-read rows of `item.data` and `item_posted.data`. */
  method FromDbExport(p: Parsers, itemRows: seq<Row>, postedRows: seq<Row>)
    returns (r: Result<map<string, AbcProduct>, AbcParseError>)
    ensures ParseItemRows(p, itemRows).Err? ==> r == Err(ParseItemRows(p, itemRows).error)
    ensures ParseItemRows(p, itemRows).Ok? && ParsePostedRows(p, postedRows).Err? ==>
              r == Err(ParsePostedRows(p, postedRows).error)
    ensures r.Ok? <==>
      && ParseItemRows(p, itemRows).Ok? && ParsePostedRows(p, postedRows).Ok?
      && ParseItemRows(p, itemRows).value.Keys == ParsePostedRows(p, postedRows).value.Keys
    ensures r.Ok? ==>
      && Joinable(ParseItemRows(p, itemRows).value, ParsePostedRows(p, postedRows).value)
      && r.value == Joined(ParseItemRows(p, itemRows).value, ParsePostedRows(p, postedRows).value)
    ensures ParseItemRows(p, itemRows).Ok? && ParsePostedRows(p, postedRows).Ok? &&
            |ParseItemRows(p, itemRows).value| != |ParsePostedRows(p, postedRows).value| ==>
              r == Err(Custom(SizeMismatchMsg))
    ensures r.Err? && ParseItemRows(p, itemRows).Ok? && ParsePostedRows(p, postedRows).Ok? &&
            |ParseItemRows(p, itemRows).value| == |ParsePostedRows(p, postedRows).value| ==>
              exists k :: k in ParseItemRows(p, itemRows).value && k !in ParsePostedRows(p, postedRows).value &&
                r.error == Custom(NoPostedSkuMsg(k))
    ensures r != Err(MisMatchedSkus)
  {
    var baseProducts := ParseItemData(p, itemRows);
    if baseProducts.Err? {
      ItemDataNeverMismatch(p, itemRows);
      return Err(baseProducts.error);
    }
    var postedProducts := ParseItemPostedData(p, postedRows);
    if postedProducts.Err? {
      PostedDataNeverMismatch(p, postedRows);
      return Err(postedProducts.error);
    }
    var base, posted := baseProducts.value, postedProducts.value;
    ItemDataKeyed(p, itemRows);
    PostedDataKeyed(p, postedRows);
    ExtractedJoinable(base, posted);
    r := Reconcile(base, posted);
  }

  /** End to end: with both files extracted over the same skus, the product under a sku joins
      the last `item.data` row and the last `item_posted.data` row carrying that sku. */
  lemma ExportJoinsLastRows(p: Parsers, itemRows: seq<Row>, postedRows: seq<Row>, i: nat, j: nat)
    requires ParseItemRows(p, itemRows).Ok? && ParsePostedRows(p, postedRows).Ok?
    requires ParseItemRows(p, itemRows).value.Keys == ParsePostedRows(p, postedRows).value.Keys
    requires i < |itemRows| && j < |postedRows|
    requires forall i' :: i < i' < |itemRows| ==> Get(itemRows[i'], ItemData.SKU_COL) != Get(itemRows[i], ItemData.SKU_COL)
    requires forall j' :: j < j' < |postedRows| ==> Get(postedRows[j'], ItemPostedData.SKU_COL) != Get(postedRows[j], ItemPostedData.SKU_COL)
    requires Get(itemRows[i], ItemData.SKU_COL) == Get(postedRows[j], ItemPostedData.SKU_COL)
    ensures Joinable(ParseItemRows(p, itemRows).value, ParsePostedRows(p, postedRows).value)
    ensures Get(itemRows[i], ItemData.SKU_COL).Some?
    ensures var m := Joined(ParseItemRows(p, itemRows).value, ParsePostedRows(p, postedRows).value);
      var k := itemRows[i][ItemData.SKU_COL];
      && k in m
      && ParseBaseRow(p, itemRows[i], i + 1) == Ok(BasePart(m[k]))
      && ParsePostedRow(p, postedRows[j], j + 1) == Ok(PostedPart(m[k]))
  {
    var base, posted := ParseItemRows(p, itemRows).value, ParsePostedRows(p, postedRows).value;
    ItemDataKeyed(p, itemRows);
    PostedDataKeyed(p, postedRows);
    ExtractedJoinable(base, posted);
    ItemDataLastRowWins(p, itemRows, i);
    PostedDataLastRowWins(p, postedRows, j);
  }
}
