/** The product catalog's rules on values: the catalog invariant, the acceptance
    conditions of addProduct, updateProduct and deleteProduct, and the effect of each. */
module Catalog {
  import opened Seqs
  import opened Text
  import opened Records

  /** The filter of getProductById: p.getId() == id. */
  function ProductWithId(id: int): Product -> bool
  {
    (p: Product) => p.id == id
  }

  /** The identifiers present in the catalog. */
  ghost function ProductIds(ps: seq<Product>): set<int>
  {
    set i | 0 <= i < |ps| :: ps[i].id
  }

  ghost predicate UniqueIds(ps: seq<Product>)
  {
    forall i, j :: 0 <= i < |ps| && 0 <= j < |ps| && i != j ==> ps[i].id != ps[j].id
  }

  /** What every operation keeps true of the catalog: identifiers drawn from the counter's
      past values and pairwise distinct; names non-blank and pairwise distinct ignoring
      case; prices non-negative. */
  ghost predicate ProductsValid(ps: seq<Product>, nextId: int)
  {
    && (forall i :: 0 <= i < |ps| ==> 1 <= ps[i].id < nextId && !IsBlank(ps[i].name) && ps[i].price >= 0)
    && UniqueIds(ps)
    && (forall i, j :: 0 <= i < |ps| && 0 <= j < |ps| && i != j ==> !EqualsIgnoreCase(ps[i].name, ps[j].name))
  }

  /** No product's quantity on hand is negative. */
  ghost predicate StockNonNegative(ps: seq<Product>)
  {
    forall i :: 0 <= i < |ps| ==> ps[i].quantity >= 0
  }

  /** Two catalogs that differ at most in quantities on hand. */
  ghost predicate SameCatalog(a: seq<Product>, b: seq<Product>)
  {
    |a| == |b| && forall i :: 0 <= i < |a| ==> a[i].id == b[i].id && a[i].name == b[i].name && a[i].price == b[i].price
  }

  /** Changing only quantities keeps the catalog invariant and the identifier set. */
  lemma SameCatalogKeepsValid(a: seq<Product>, b: seq<Product>, nextId: int)
    requires SameCatalog(a, b)
    ensures ProductsValid(a, nextId) ==> ProductsValid(b, nextId)
    ensures ProductIds(a) == ProductIds(b)
  {
    SameIdsSameSet(a, b);
  }

  /** With distinct identifiers, looking a product up by its own identifier finds it. */
  lemma LookupFinds(ps: seq<Product>, i: nat)
    requires UniqueIds(ps) && i < |ps|
    ensures FirstIndex(ps, ProductWithId(ps[i].id)) == Some(i)
  {
  }

  /** A lookup succeeds exactly for the identifiers in the catalog. */
  lemma LookupIffPresent(ps: seq<Product>, id: int)
    ensures FirstIndex(ps, ProductWithId(id)).Some? <==> id in ProductIds(ps)
  {
    if id in ProductIds(ps) {
      var i :| 0 <= i < |ps| && ps[i].id == id;
      assert ProductWithId(id)(ps[i]);
    }
  }

  /** Some product other than `id` already has `name`, ignoring case. */
  predicate NameTakenByOther(ps: seq<Product>, name: string, id: int)
  {
    exists i :: 0 <= i < |ps| && ps[i].id != id && EqualsIgnoreCase(ps[i].name, name)
  }

  /** Some product already has `name`, ignoring case. */
  predicate NameTaken(ps: seq<Product>, name: string)
  {
    exists i :: 0 <= i < |ps| && EqualsIgnoreCase(ps[i].name, name)
  }

  /** addProduct's checks. */
  predicate AddAccepts(ps: seq<Product>, name: string, price: int, quantity: int)
  {
    !IsBlank(name) && price >= 0 && quantity >= 0 && !NameTaken(ps, name)
  }

  /** An accepted product, given the counter's next value as identifier, keeps the
      catalog invariant under the advanced counter; the identifier is new. */
  lemma AddKeepsValid(ps: seq<Product>, nextId: int, name: string, price: int, quantity: int)
    requires ProductsValid(ps, nextId) && nextId >= 1
    requires AddAccepts(ps, name, price, quantity)
    ensures nextId !in ProductIds(ps)
    ensures ProductsValid(ps + [Product(nextId, name, price, quantity)], nextId + 1)
    ensures StockNonNegative(ps) ==> StockNonNegative(ps + [Product(nextId, name, price, quantity)])
  {
    var r := ps + [Product(nextId, name, price, quantity)];
    forall i, j | 0 <= i < |r| && 0 <= j < |r| && i != j
      ensures r[i].id != r[j].id && !EqualsIgnoreCase(r[i].name, r[j].name)
    {
      if i == |ps| { assert !EqualsIgnoreCase(ps[j].name, name); }
      else if j == |ps| { assert !EqualsIgnoreCase(ps[i].name, name); }
    }
  }

  /** The product after updateProduct's three setters: a name is written only when
      present and non-blank, a price or quantity only when present and non-negative. */
  function Revised(p: Product, name: Option<string>, price: Option<int>, quantity: Option<int>): Product
  {
    var p1 := if name.Some? && !IsBlank(name.value) then p.(name := name.value) else p;
    var p2 := if price.Some? && price.value >= 0 then p1.(price := price.value) else p1;
    if quantity.Some? && quantity.value >= 0 then p2.(quantity := quantity.value) else p2
  }

  /** Appending a product keeps every identifier already present. */
  lemma AppendKeepsIds(ps: seq<Product>, p: Product)
    ensures ProductIds(ps) <= ProductIds(ps + [p])
  {
    forall x | x in ProductIds(ps) ensures x in ProductIds(ps + [p]) {
      var j :| 0 <= j < |ps| && ps[j].id == x;
      assert (ps + [p])[j].id == x;
    }
  }

  /** updateProduct on values: the result flag and the new catalog. The update is
      refused when no product has the identifier, or when the new name is taken by a
      different product. */
  function ProductUpdate(ps: seq<Product>, id: int, name: Option<string>, price: Option<int>, quantity: Option<int>)
    : (r: (bool, seq<Product>))
    ensures r.0 <==> id in ProductIds(ps) && !(name.Some? && !IsBlank(name.value) && NameTakenByOther(ps, name.value, id))
    ensures !r.0 ==> r.1 == ps
  {
    LookupIffPresent(ps, id);
    match FirstIndex(ps, ProductWithId(id))
    case None => (false, ps)
    case Some(i) =>
      if name.Some? && !IsBlank(name.value) && NameTakenByOther(ps, name.value, id) then (false, ps)
      else (true, ps[i := Revised(ps[i], name, price, quantity)])
  }

  /** A successful updateProduct leaves at the product's position the same identifier,
      the given name when it is present and not blank, the given price and quantity when
      present and not negative, and the old value of every other field. */
  lemma ProductUpdateWrites(ps: seq<Product>, id: int, name: Option<string>, price: Option<int>, quantity: Option<int>)
    ensures var r := ProductUpdate(ps, id, name, price, quantity);
            r.0 ==> var i := FirstIndex(ps, ProductWithId(id)).value;
                    && |r.1| == |ps|
                    && r.1[i] == Product(id,
                         if name.Some? && !IsBlank(name.value) then name.value else ps[i].name,
                         if price.Some? && price.value >= 0 then price.value else ps[i].price,
                         if quantity.Some? && quantity.value >= 0 then quantity.value else ps[i].quantity)
  {
  }

  /** updateProduct changes only the product with that identifier, and never changes an
      identifier. */
  lemma ProductUpdateFrame(ps: seq<Product>, id: int, name: Option<string>, price: Option<int>, quantity: Option<int>)
    ensures |ProductUpdate(ps, id, name, price, quantity).1| == |ps|
    ensures forall j :: 0 <= j < |ps| ==>
      ProductUpdate(ps, id, name, price, quantity).1[j].id == ps[j].id
      && (ps[j].id != id ==> ProductUpdate(ps, id, name, price, quantity).1[j] == ps[j])
  {
  }

  /** Rewriting one product, keeping its identifier, keeps the catalog invariant when
      its new name is not blank, its price not negative, and no other product has its
      name. */
  lemma ReplaceKeepsValid(ps: seq<Product>, nextId: int, i: nat, p: Product)
    requires ProductsValid(ps, nextId) && i < |ps|
    requires p.id == ps[i].id && !IsBlank(p.name) && p.price >= 0
    requires !NameTakenByOther(ps, p.name, p.id)
    ensures ProductsValid(ps[i := p], nextId)
    ensures StockNonNegative(ps) && p.quantity >= 0 ==> StockNonNegative(ps[i := p])
  {
    var r := ps[i := p];
    forall a, b | 0 <= a < |r| && 0 <= b < |r| && a != b
      ensures r[a].id != r[b].id && !EqualsIgnoreCase(r[a].name, r[b].name)
    {
      if a == i {
        assert ps[b].id != p.id;
      } else if b == i {
        assert ps[a].id != p.id;
      }
    }
  }

  /** updateProduct keeps the catalog invariant and non-negative stock. */
  lemma ProductUpdateKeepsValid(ps: seq<Product>, nextId: int, id: int, name: Option<string>, price: Option<int>, quantity: Option<int>)
    requires ProductsValid(ps, nextId)
    ensures ProductsValid(ProductUpdate(ps, id, name, price, quantity).1, nextId)
    ensures StockNonNegative(ps) ==> StockNonNegative(ProductUpdate(ps, id, name, price, quantity).1)
  {
    var r := ProductUpdate(ps, id, name, price, quantity);
    if r.0 {
      var i := FirstIndex(ps, ProductWithId(id)).value;
      var p := Revised(ps[i], name, price, quantity);
      assert r.1 == ps[i := p];
      assert !NameTakenByOther(ps, p.name, id) by {
        if !(name.Some? && !IsBlank(name.value)) {
          assert p.name == ps[i].name;
          forall j | 0 <= j < |ps| && ps[j].id != id ensures !EqualsIgnoreCase(ps[j].name, p.name) {
            assert j != i;
          }
        }
      }
      ReplaceKeepsValid(ps, nextId, i, p);
    }
  }

  /** Catalogs with the same identifiers position by position have the same identifier set. */
  lemma SameIdsSameSet(a: seq<Product>, b: seq<Product>)
    requires |a| == |b| && forall j :: 0 <= j < |a| ==> a[j].id == b[j].id
    ensures ProductIds(a) == ProductIds(b)
  {
    forall x | x in ProductIds(a) ensures x in ProductIds(b) {
      var j :| 0 <= j < |a| && a[j].id == x;
      assert b[j].id == x;
    }
    forall x | x in ProductIds(b) ensures x in ProductIds(a) {
      var j :| 0 <= j < |b| && b[j].id == x;
      assert a[j].id == x;
    }
  }

  /** A present but negative price or quantity is ignored, not refused. */
  lemma NegativeValuesIgnored(ps: seq<Product>, i: nat, price: int, quantity: int)
    requires UniqueIds(ps) && i < |ps|
    requires price < 0 && quantity < 0
    ensures ProductUpdate(ps, ps[i].id, None, Some(price), Some(quantity)) == (true, ps)
  {
    LookupFinds(ps, i);
    assert ps[i := ps[i]] == ps;
  }

  /** Some order has a line item referring to product `id`. */
  predicate Referenced(os: seq<Order>, id: int)
  {
    exists k :: 0 <= k < |os| && exists m :: 0 <= m < |os[k].items| && os[k].items[m].productId == id
  }

  /** deleteProduct's checks: the product exists and no order refers to it. */
  predicate DeleteAccepts(ps: seq<Product>, os: seq<Order>, id: int)
  {
    FirstIndex(ps, ProductWithId(id)).Some? && !Referenced(os, id)
  }

  /** Removing a product keeps the catalog invariant and non-negative stock, and keeps
      every other product. */
  lemma RemoveKeepsValid(ps: seq<Product>, nextId: int, i: nat)
    requires ProductsValid(ps, nextId) && i < |ps|
    ensures ProductsValid(RemoveAt(ps, i), nextId)
    ensures StockNonNegative(ps) ==> StockNonNegative(RemoveAt(ps, i))
    ensures forall j :: 0 <= j < |ps| && j != i ==> ps[j] in RemoveAt(ps, i)
  {
    var r := RemoveAt(ps, i);
    RemoveAtMembers(ps, i);
    forall a, b | 0 <= a < |r| && 0 <= b < |r| && a != b
      ensures r[a].id != r[b].id && !EqualsIgnoreCase(r[a].name, r[b].name)
    {
      var a' := if a < i then a else a + 1;
      var b' := if b < i then b else b + 1;
      assert r[a] == ps[a'] && r[b] == ps[b'];
    }
  }

  /** Removing a product with distinct identifiers removes exactly its identifier. */
  lemma RemoveDropsId(ps: seq<Product>, i: nat)
    requires UniqueIds(ps) && i < |ps|
    ensures ProductIds(RemoveAt(ps, i)) == ProductIds(ps) - {ps[i].id}
  {
    var r := RemoveAt(ps, i);
    forall x | x in ProductIds(r) ensures x in ProductIds(ps) - {ps[i].id} {
      var j :| 0 <= j < |r| && r[j].id == x;
      var j' := if j < i then j else j + 1;
      assert r[j] == ps[j'];
    }
    forall x | x in ProductIds(ps) - {ps[i].id} ensures x in ProductIds(r) {
      var j :| 0 <= j < |ps| && ps[j].id == x;
      var j' := if j < i then j else j - 1;
      assert r[j'] == ps[j];
    }
  }
}
