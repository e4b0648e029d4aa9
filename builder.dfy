/** `AbcProductBuilder`: a deferred-validation accumulator. Required fields are held as options
    and checked once, in a fixed order, by `build`. Every setter returns a new builder. */
module Builder {
  import opened Wrappers
  import opened Externals
  import opened Errors
  import opened Product

  datatype AbcProductBuilder = AbcProductBuilder(
    sku: Option<string>,
    desc: Option<string>,
    upcs: seq<Ean13>,
    list: Option<Decimal>,
    cost: Option<Decimal>,
    stock: Option<F64>,
    weight: Option<F64>,
    group: Option<string>,
    lastSold: Option<Date>,
    altSkus: seq<string>)

  /** The names of the required fields not yet set, in the order `build` checks them. */
  function MissingRequired(b: AbcProductBuilder): seq<string> {
    (if b.sku.None? then ["sku"] else [])
    + (if b.desc.None? then ["desc"] else [])
    + (if b.list.None? then ["list"] else [])
    + (if b.cost.None? then ["cost"] else [])
    + (if b.stock.None? then ["stock"] else [])
  }

  /** `AbcProductBuilder::new()` (also reached as `AbcProduct::new()`): nothing set yet. */
  function New(): (r: AbcProductBuilder)
    ensures MissingRequired(r) == ["sku", "desc", "list", "cost", "stock"]
    ensures r.upcs == [] && r.altSkus == []
    ensures r.weight.None? && r.group.None? && r.lastSold.None?
  {
    AbcProductBuilder(None, None, [], None, None, None, None, None, None, [])
  }

  function WithSku(b: AbcProductBuilder, sku: string): (r: AbcProductBuilder)
    ensures r.sku == Some(sku) && r.(sku := b.sku) == b
  {
    b.(sku := Some(sku))
  }

  function WithDesc(b: AbcProductBuilder, desc: string): (r: AbcProductBuilder)
    ensures r.desc == Some(desc) && r.(desc := b.desc) == b
  {
    b.(desc := Some(desc))
  }

  function WithUpcs(b: AbcProductBuilder, upcs: seq<Ean13>): (r: AbcProductBuilder)
    ensures r.upcs == upcs && r.(upcs := b.upcs) == b
  {
    b.(upcs := upcs)
  }

  /** `add_upc`: the builder's vector is copied, the code pushed onto the copy. */
  function AddUpc(b: AbcProductBuilder, upc: Ean13): (r: AbcProductBuilder)
    ensures |r.upcs| == |b.upcs| + 1 && r.upcs[..|b.upcs|] == b.upcs && r.upcs[|b.upcs|] == upc
    ensures r.(upcs := b.upcs) == b
  {
    var newUpcs := b.upcs + [upc];
    b.(upcs := newUpcs)
  }

  function WithList(b: AbcProductBuilder, list: Decimal): (r: AbcProductBuilder)
    ensures r.list == Some(list) && r.(list := b.list) == b
  {
    b.(list := Some(list))
  }

  function WithCost(b: AbcProductBuilder, cost: Decimal): (r: AbcProductBuilder)
    ensures r.cost == Some(cost) && r.(cost := b.cost) == b
  {
    b.(cost := Some(cost))
  }

  function WithStock(b: AbcProductBuilder, stock: F64): (r: AbcProductBuilder)
    ensures r.stock == Some(stock) && r.(stock := b.stock) == b
  {
    b.(stock := Some(stock))
  }

  function WithWeight(b: AbcProductBuilder, weight: F64): (r: AbcProductBuilder)
    ensures r.weight == Some(weight) && r.(weight := b.weight) == b
  {
    b.(weight := Some(weight))
  }

  predicate IsAsciiLetter(c: char) {
    'A' <= c <= 'Z' || 'a' <= c <= 'z'
  }

  /** `char::to_string().to_uppercase()` on an ASCII letter. */
  function AsciiUpper(c: char): char
    requires IsAsciiLetter(c)
  {
    if 'a' <= c <= 'z' then (c as int - 32) as char else c
  }

  /** `with_group`: None for anything but an ASCII letter; otherwise the group becomes that
      letter in upper case and nothing else changes. */
  function WithGroup(b: AbcProductBuilder, group: char): (r: Option<AbcProductBuilder>)
    ensures r.None? <==> !IsAsciiLetter(group)
    ensures r.Some? ==> r.value.(group := b.group) == b
    ensures r.Some? ==> r.value.group.Some? && |r.value.group.value| == 1
    ensures r.Some? ==> 'A' <= r.value.group.value[0] <= 'Z'
    ensures r.Some? && 'A' <= group <= 'Z' ==> r.value.group == Some([group])
    ensures r.Some? && 'a' <= group <= 'z' ==> r.value.group.value[0] as int == group as int - 32
  {
    if (group < 'A' || group > 'Z') && (group < 'a' || group > 'z') then
      None
    else
      Some(b.(group := Some([AsciiUpper(group)])))
  }

  function WithLastSold(b: AbcProductBuilder, lastSold: Date): (r: AbcProductBuilder)
    ensures r.lastSold == Some(lastSold) && r.(lastSold := b.lastSold) == b
  {
    b.(lastSold := Some(lastSold))
  }

  function WithAltSkus(b: AbcProductBuilder, altSkus: seq<string>): (r: AbcProductBuilder)
    ensures r.altSkus == altSkus && r.(altSkus := b.altSkus) == b
  {
    b.(altSkus := altSkus)
  }

  /** `add_alt_sku`: one more alternate sku at the end. */
  function AddAltSku(b: AbcProductBuilder, alt: string): (r: AbcProductBuilder)
    ensures |r.altSkus| == |b.altSkus| + 1 && r.altSkus[..|b.altSkus|] == b.altSkus && r.altSkus[|b.altSkus|] == alt
    ensures r.(altSkus := b.altSkus) == b
  {
    var newSkus := b.altSkus + [alt];
    b.(altSkus := newSkus)
  }

  /** `option.ok_or(MissingField(name, 0))` */
  function Require<T>(o: Option<T>, name: string): (r: Result<T, AbcParseError>)
    ensures r.Ok? <==> o.Some?
    ensures r.Ok? ==> o == Some(r.value)
    ensures r.Err? ==> r.error == MissingField(name, 0)
  {
    match o
    case Some(v) => Ok(v)
    case None => Err(MissingField(name, 0))
  }

  /** `From<AbcProduct> for AbcProductBuilder`: a builder seeded with every field of `p`. */
  function FromProduct(p: AbcProduct): (r: AbcProductBuilder)
    ensures MissingRequired(r) == []
  {
    AbcProductBuilder(
      sku := Some(p.sku),
      desc := Some(p.desc),
      upcs := p.upcs,
      list := Some(p.list),
      cost := Some(p.cost),
      stock := Some(p.stock),
      weight := p.weight,
      group := p.group,
      lastSold := p.lastSold,
      altSkus := p.altSkus)
  }

  /** `build`: fails exactly when a required field is unset, naming the first one in the order
      sku, desc, list, cost, stock, with row 0; on success the product carries the builder's
      values and the optional fields verbatim, so seeding a builder from it gives `b` back. */
  function Build(b: AbcProductBuilder): (r: Result<AbcProduct, AbcParseError>)
    ensures r.Err? <==> MissingRequired(b) != []
    ensures r.Err? ==> r.error == MissingField(MissingRequired(b)[0], 0)
    ensures r.Ok? ==> FromProduct(r.value) == b
  {
    var sku :- Require(b.sku, "sku");
    var desc :- Require(b.desc, "desc");
    var list :- Require(b.list, "list");
    var cost :- Require(b.cost, "cost");
    var stock :- Require(b.stock, "stock");
    Ok(AbcProduct(
      sku := sku,
      desc := desc,
      upcs := b.upcs,
      list := list,
      cost := cost,
      stock := stock,
      weight := b.weight,
      group := b.group,
      lastSold := b.lastSold,
      altSkus := b.altSkus))
  }

  /** Builder round trip: a product seeded into a builder and built again is unchanged. */
  lemma BuildFromProduct(p: AbcProduct)
    ensures Build(FromProduct(p)) == Ok(p)
  {
  }

  /** A builder builds `p` exactly when it is the builder seeded from `p`. */
  lemma BuildsExactly(b: AbcProductBuilder, p: AbcProduct)
    ensures Build(b) == Ok(p) <==> b == FromProduct(p)
  {
    if b == FromProduct(p) {
      BuildFromProduct(p);
    }
  }

  /** Changing one field of a built product goes through a builder seeded from it. */
  lemma RebuildWithStock(p: AbcProduct, stock: F64)
    ensures Build(WithStock(FromProduct(p), stock)) == Ok(p.(stock := stock))
  {
  }

  /** The group letter does not depend on the case of the character given. */
  lemma WithGroupIgnoresCase(b: AbcProductBuilder, c: char)
    requires 'a' <= c <= 'z'
    ensures WithGroup(b, c) == WithGroup(b, (c as int - 32) as char)
  {
  }
}
