/** The finished product record, the two partial records the export files yield, and
    `TryFrom<(&IntermediateBaseProduct, &IntermediatePostedProduct)> for AbcProduct`. */
module Product {
  import opened Wrappers
  import opened Externals
  import opened Errors

  datatype AbcProduct = AbcProduct(
    sku: string,
    desc: string,
    upcs: seq<Ean13>,
    list: Decimal,
    cost: Decimal,
    stock: F64,
    group: Option<string>,
    weight: Option<F64>,
    lastSold: Option<Date>,
    altSkus: seq<string>)

  /** What one row of `item.data` provides. */
  datatype IntermediateBase = IntermediateBase(
    sku: string,
    desc: string,
    upcs: seq<Ean13>,
    list: Decimal,
    cost: Decimal,
    group: Option<string>,
    weight: Option<F64>,
    altSkus: seq<string>)

  /** What one row of `item_posted.data` provides. */
  datatype IntermediatePosted = IntermediatePosted(
    sku: string,
    stock: F64,
    lastSold: Option<Date>)

  /** The fields of a product that come from `item.data`. */
  function BasePart(p: AbcProduct): IntermediateBase {
    IntermediateBase(p.sku, p.desc, p.upcs, p.list, p.cost, p.group, p.weight, p.altSkus)
  }

  /** The fields of a product that come from `item_posted.data`. */
  function PostedPart(p: AbcProduct): IntermediatePosted {
    IntermediatePosted(p.sku, p.stock, p.lastSold)
  }

  /** `AbcProduct::try_from((&inter, &posted))`: refuses records with different skus, otherwise
      takes every field but stock and last_sold from the base record and those two from the
      posted one. */
  function TryFrom(inter: IntermediateBase, posted: IntermediatePosted): (r: Result<AbcProduct, AbcParseError>)
    ensures r.Err? <==> inter.sku != posted.sku
    ensures r.Err? ==> r.error == MisMatchedSkus
    ensures r.Ok? ==> BasePart(r.value) == inter && PostedPart(r.value) == posted
  {
    if inter.sku != posted.sku then
      Err(MisMatchedSkus)
    else
      Ok(AbcProduct(
        sku := inter.sku,
        desc := inter.desc,
        altSkus := inter.altSkus,
        upcs := inter.upcs,
        cost := inter.cost,
        list := inter.list,
        group := inter.group,
        weight := inter.weight,
        stock := posted.stock,
        lastSold := posted.lastSold))
  }

  /** Every product is the merge of its own two parts, so no field is lost in the merge. */
  lemma TryFromParts(p: AbcProduct)
    ensures TryFrom(BasePart(p), PostedPart(p)) == Ok(p)
  {
  }
}
