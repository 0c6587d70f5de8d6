/** Stock accounting on values: isProductInStock, reduceProductStock, the decrement
    pass of createOrder, the give-back pass of deleteOrder and getTotalInStock, with
    the facts that tie them together. */
module Stock {
  import opened Seqs
  import opened Records
  import opened Catalog

  /** isProductInStock: the product exists and has at least `quantity` on hand. */
  function InStock(ps: seq<Product>, id: int, quantity: int): (r: bool)
    ensures r ==> id in ProductIds(ps)
  {
    LookupIffPresent(ps, id);
    match FirstIndex(ps, ProductWithId(id))
    case None => false
    case Some(i) => ps[i].quantity >= quantity
  }

  /** With distinct identifiers, a product is in stock for a quantity exactly when its
      quantity on hand is at least that. */
  lemma InStockIff(ps: seq<Product>, i: nat, quantity: int)
    requires UniqueIds(ps) && i < |ps|
    ensures InStock(ps, ps[i].id, quantity) <==> ps[i].quantity >= quantity
  {
    LookupFinds(ps, i);
  }

  /** reduceProductStock's effect: when the product is in stock its quantity drops by
      `quantity`; otherwise nothing changes. */
  function ReduceStock(ps: seq<Product>, id: int, quantity: int): (r: seq<Product>)
    ensures SameCatalog(ps, r)
    ensures !InStock(ps, id, quantity) ==> r == ps
    ensures StockNonNegative(ps) ==> StockNonNegative(r)
  {
    match FirstIndex(ps, ProductWithId(id))
    case None => ps
    case Some(i) =>
      if ps[i].quantity < quantity then ps
      else ps[i := ps[i].(quantity := ps[i].quantity - quantity)]
  }

  /** The decrement pass of createOrder: reduceProductStock for each item in turn,
      with the outcome of each call ignored. */
  function ReduceAll(ps: seq<Product>, items: seq<OrderItem>): seq<Product>
    decreases |items|
  {
    if items == [] then ps
    else
      var last := items[|items| - 1];
      ReduceStock(ReduceAll(ps, items[..|items| - 1]), last.productId, last.quantity)
  }

  /** One step of deleteOrder's loop: add the item's quantity back to its product,
      if that product still exists. */
  function RestoreStock(ps: seq<Product>, id: int, quantity: int): (r: seq<Product>)
    ensures SameCatalog(ps, r)
  {
    match FirstIndex(ps, ProductWithId(id))
    case None => ps
    case Some(i) => ps[i := ps[i].(quantity := ps[i].quantity + quantity)]
  }

  /** The give-back pass of deleteOrder over all of an order's items. */
  function RestoreAll(ps: seq<Product>, items: seq<OrderItem>): seq<Product>
    decreases |items|
  {
    if items == [] then ps
    else
      var last := items[|items| - 1];
      RestoreStock(RestoreAll(ps, items[..|items| - 1]), last.productId, last.quantity)
  }

  /** The total quantity the items request of product `id`. */
  function SumFor(items: seq<OrderItem>, id: int): int
    decreases |items|
  {
    if items == [] then 0
    else
      var last := items[|items| - 1];
      SumFor(items[..|items| - 1], id) + (if last.productId == id then last.quantity else 0)
  }

  /** getTotalInStock: the sum of all quantities on hand. */
  function TotalInStock(ps: seq<Product>): int
  {
    if ps == [] then 0 else ps[0].quantity + TotalInStock(ps[1..])
  }

  /** createOrder's check pass: every item is in stock against the current catalog. */
  ghost predicate AllInStock(ps: seq<Product>, items: seq<OrderItem>)
  {
    forall k :: 0 <= k < |items| ==> InStock(ps, items[k].productId, items[k].quantity)
  }

  /** No two items refer to the same product. */
  ghost predicate DistinctProducts(items: seq<OrderItem>)
  {
    forall k, m :: 0 <= k < m < |items| ==> items[k].productId != items[m].productId
  }

  ghost predicate PositiveItems(items: seq<OrderItem>)
  {
    forall k :: 0 <= k < |items| ==> items[k].quantity > 0
  }

  /** One more step of the decrement pass. */
  lemma ReduceAllStep(ps: seq<Product>, items: seq<OrderItem>, k: nat)
    requires k < |items|
    ensures ReduceAll(ps, items[..k + 1]) == ReduceStock(ReduceAll(ps, items[..k]), items[k].productId, items[k].quantity)
  {
    assert items[..k + 1][..k] == items[..k];
  }

  /** One more step of the give-back pass. */
  lemma RestoreAllStep(ps: seq<Product>, items: seq<OrderItem>, k: nat)
    requires k < |items|
    ensures RestoreAll(ps, items[..k + 1]) == RestoreStock(RestoreAll(ps, items[..k]), items[k].productId, items[k].quantity)
  {
    assert items[..k + 1][..k] == items[..k];
  }

  lemma {:induction false} ReduceAllKeepsCatalog(ps: seq<Product>, items: seq<OrderItem>)
    ensures SameCatalog(ps, ReduceAll(ps, items))
    ensures StockNonNegative(ps) ==> StockNonNegative(ReduceAll(ps, items))
    decreases |items|
  {
    if items != [] {
      ReduceAllKeepsCatalog(ps, items[..|items| - 1]);
    }
  }

  lemma {:induction false} RestoreAllKeepsCatalog(ps: seq<Product>, items: seq<OrderItem>)
    ensures SameCatalog(ps, RestoreAll(ps, items))
    ensures StockNonNegative(ps) && PositiveItems(items) ==> StockNonNegative(RestoreAll(ps, items))
    decreases |items|
  {
    if items != [] {
      var init := items[..|items| - 1];
      RestoreAllKeepsCatalog(ps, init);
    }
  }

  /** An item whose product is not in the list contributes nothing to any product. */
  lemma {:induction false} SumForAbsent(items: seq<OrderItem>, id: int)
    requires forall k :: 0 <= k < |items| ==> items[k].productId != id
    ensures SumFor(items, id) == 0
    decreases |items|
  {
    if items != [] {
      SumForAbsent(items[..|items| - 1], id);
    }
  }

  /** With distinct product identifiers in the catalog, giving back stock adds to each
      product exactly what the items request of it. */
  lemma {:induction false} RestoreAllPointwise(ps: seq<Product>, items: seq<OrderItem>)
    requires UniqueIds(ps)
    ensures SameCatalog(ps, RestoreAll(ps, items))
    ensures forall i :: 0 <= i < |ps| ==>
      RestoreAll(ps, items)[i].quantity == ps[i].quantity + SumFor(items, ps[i].id)
    decreases |items|
  {
    if items != [] {
      var init, last := items[..|items| - 1], items[|items| - 1];
      RestoreAllPointwise(ps, init);
      var mid := RestoreAll(ps, init);
      assert forall i :: 0 <= i < |ps| ==> mid[i].id == ps[i].id;
      var r := RestoreStock(mid, last.productId, last.quantity);
      match FirstIndex(mid, ProductWithId(last.productId))
      case None =>
        assert forall i :: 0 <= i < |ps| ==> ps[i].id != last.productId by {
          assert forall i :: 0 <= i < |ps| ==> !ProductWithId(last.productId)(mid[i]);
        }
      case Some(j) =>
        assert mid[j].id == last.productId;
        assert forall i :: 0 <= i < |ps| && i != j ==> ps[i].id != last.productId;
    }
  }

  /** With distinct product identifiers in the catalog and in the items, and every item
      in stock, the decrement pass takes from each product exactly what the items request
      of it: every single reduction succeeds. */
  lemma {:induction false} ReduceAllPointwise(ps: seq<Product>, items: seq<OrderItem>)
    requires UniqueIds(ps) && DistinctProducts(items) && AllInStock(ps, items)
    ensures SameCatalog(ps, ReduceAll(ps, items))
    ensures forall i :: 0 <= i < |ps| ==>
      ReduceAll(ps, items)[i].quantity == ps[i].quantity - SumFor(items, ps[i].id)
    decreases |items|
  {
    if items != [] {
      var init, last := items[..|items| - 1], items[|items| - 1];
      assert forall k :: 0 <= k < |init| ==> init[k] == items[k];
      ReduceAllPointwise(ps, init);
      var mid := ReduceAll(ps, init);
      assert InStock(ps, last.productId, last.quantity) by {
        assert items[|items| - 1] == last;
      }
      var j := FirstIndex(ps, ProductWithId(last.productId)).value;
      assert ps[j].id == last.productId;
      SumForAbsent(init, last.productId);
      assert mid[j].quantity == ps[j].quantity;
      LookupFinds(mid, j);
      assert forall i :: 0 <= i < |ps| && i != j ==> ps[i].id != last.productId;
    }
  }

  /** Deleting an order right after creating it restores every quantity on hand, when
      its items refer to distinct products. */
  lemma RestoreUndoesReduce(ps: seq<Product>, items: seq<OrderItem>)
    requires UniqueIds(ps) && DistinctProducts(items) && AllInStock(ps, items)
    ensures RestoreAll(ReduceAll(ps, items), items) == ps
  {
    var mid := ReduceAll(ps, items);
    ReduceAllPointwise(ps, items);
    assert UniqueIds(mid) by {
      assert forall i :: 0 <= i < |ps| ==> mid[i].id == ps[i].id;
    }
    RestoreAllPointwise(mid, items);
    var back := RestoreAll(mid, items);
    forall i | 0 <= i < |ps| ensures back[i] == ps[i] {
      assert back[i].quantity == ps[i].quantity;
    }
  }

  /** Two items for the same product are each checked against the untouched stock, and
      the second reduction then fails silently: with 5 on hand and two items of 3 the
      order is accepted, 3 are taken, and deleting it gives back 6. */
  lemma DuplicateItemsPartlyDecrement()
    ensures var ps := [Product(1, "Widget", 100, 5)];
            var items := [OrderItem(1, 3), OrderItem(1, 3)];
            AllInStock(ps, items)
            && ReduceAll(ps, items) == [Product(1, "Widget", 100, 2)]
            && RestoreAll(ReduceAll(ps, items), items) == [Product(1, "Widget", 100, 8)]
  {
    var ps := [Product(1, "Widget", 100, 5)];
    var items := [OrderItem(1, 3), OrderItem(1, 3)];
    assert items[..1] == [OrderItem(1, 3)];
    assert items[..1][..0] == [];
    assert FirstIndex(ps, ProductWithId(1)) == Some(0);
    var once := [Product(1, "Widget", 100, 2)];
    assert ReduceAll(ps, items[..1]) == once;
    assert FirstIndex(once, ProductWithId(1)) == Some(0);
    var back := [Product(1, "Widget", 100, 5)];
    assert RestoreAll(once, items[..1]) == back;
    assert FirstIndex(back, ProductWithId(1)) == Some(0);
  }

  /** An item with a negative quantity passes the stock check and raises stock when the
      order is created; deleting the order after the product's quantity was set to 0
      leaves it negative. */
  lemma NegativeItemDrivesStockNegative()
    ensures var items := [OrderItem(1, -3)];
            AllInStock([Product(1, "Widget", 100, 0)], items)
            && ReduceAll([Product(1, "Widget", 100, 0)], items) == [Product(1, "Widget", 100, 3)]
            && RestoreAll([Product(1, "Widget", 100, 0)], items) == [Product(1, "Widget", 100, -3)]
  {
    var items := [OrderItem(1, -3)];
    assert items[..0] == [];
    assert FirstIndex([Product(1, "Widget", 100, 0)], ProductWithId(1)) == Some(0);
  }

  /** Changing one product's quantity changes the total by the difference. */
  lemma {:induction false} TotalAfterSet(ps: seq<Product>, i: nat, q: int)
    requires i < |ps|
    ensures TotalInStock(ps[i := ps[i].(quantity := q)]) == TotalInStock(ps) - ps[i].quantity + q
  {
    if i > 0 {
      assert ps[i := ps[i].(quantity := q)][1..] == ps[1..][i - 1 := ps[i].(quantity := q)];
      TotalAfterSet(ps[1..], i - 1, q);
    }
  }

  /** A reduction that succeeds lowers the total in stock by the quantity taken. */
  lemma ReduceStockTotal(ps: seq<Product>, id: int, quantity: int)
    requires InStock(ps, id, quantity)
    ensures TotalInStock(ReduceStock(ps, id, quantity)) == TotalInStock(ps) - quantity
  {
    var i := FirstIndex(ps, ProductWithId(id)).value;
    TotalAfterSet(ps, i, ps[i].quantity - quantity);
  }

  /** Under the conditions of ReduceAllPointwise, the last item is still in stock when the
      decrement pass reaches it. */
  lemma LastStillInStock(ps: seq<Product>, items: seq<OrderItem>)
    requires items != []
    requires UniqueIds(ps) && DistinctProducts(items) && AllInStock(ps, items)
    ensures InStock(ReduceAll(ps, items[..|items| - 1]), items[|items| - 1].productId, items[|items| - 1].quantity)
  {
    var init, last := items[..|items| - 1], items[|items| - 1];
    PrefixConditions(ps, items);
    ReduceAllPointwise(ps, init);
    var mid := ReduceAll(ps, init);
    assert InStock(ps, last.productId, last.quantity);
    var j := FirstIndex(ps, ProductWithId(last.productId)).value;
    SumForAbsent(init, last.productId);
    LookupFinds(mid, j);
  }

  /** The conditions of ReduceAllPointwise hold of every prefix of the items. */
  lemma PrefixConditions(ps: seq<Product>, items: seq<OrderItem>)
    requires items != []
    requires DistinctProducts(items) && AllInStock(ps, items)
    ensures DistinctProducts(items[..|items| - 1]) && AllInStock(ps, items[..|items| - 1])
  {
    var init := items[..|items| - 1];
    assert forall k :: 0 <= k < |init| ==> init[k] == items[k];
  }

  /** The last step of the decrement pass lowers the total by the last item's quantity. */
  lemma ReduceAllTotalStep(ps: seq<Product>, items: seq<OrderItem>)
    requires items != []
    requires UniqueIds(ps) && DistinctProducts(items) && AllInStock(ps, items)
    ensures TotalInStock(ReduceAll(ps, items)) == TotalInStock(ReduceAll(ps, items[..|items| - 1])) - items[|items| - 1].quantity
  {
    var last := items[|items| - 1];
    LastStillInStock(ps, items);
    ReduceStockTotal(ReduceAll(ps, items[..|items| - 1]), last.productId, last.quantity);
  }

  /** Under the conditions of ReduceAllPointwise, the decrement pass lowers the total in
      stock by exactly getTotalItems of the order. */
  lemma {:induction false} ReduceAllTotal(ps: seq<Product>, items: seq<OrderItem>)
    requires UniqueIds(ps) && DistinctProducts(items) && AllInStock(ps, items)
    ensures TotalInStock(ReduceAll(ps, items)) == TotalInStock(ps) - TotalItems(items)
    decreases |items|
  {
    if items != [] {
      PrefixConditions(ps, items);
      ReduceAllTotal(ps, items[..|items| - 1]);
      ReduceAllTotalStep(ps, items);
      TotalItemsLast(items);
    }
  }

  /** Giving back stock to a product that exists raises the total by that quantity. */
  lemma RestoreStockTotal(ps: seq<Product>, id: int, quantity: int)
    requires id in ProductIds(ps)
    ensures TotalInStock(RestoreStock(ps, id, quantity)) == TotalInStock(ps) + quantity
  {
    LookupIffPresent(ps, id);
    var i := FirstIndex(ps, ProductWithId(id)).value;
    assert RestoreStock(ps, id, quantity) == ps[i := ps[i].(quantity := ps[i].quantity + quantity)];
    TotalAfterSet(ps, i, ps[i].quantity + quantity);
  }

  /** When every item's product still exists, deleting the order returns exactly
      getTotalItems of it to the total in stock. */
  lemma {:induction false} RestoreAllTotal(ps: seq<Product>, items: seq<OrderItem>)
    requires forall k :: 0 <= k < |items| ==> items[k].productId in ProductIds(ps)
    ensures TotalInStock(RestoreAll(ps, items)) == TotalInStock(ps) + TotalItems(items)
    decreases |items|
  {
    if items != [] {
      var init, last := items[..|items| - 1], items[|items| - 1];
      assert forall k :: 0 <= k < |init| ==> init[k] == items[k];
      RestoreAllTotal(ps, init);
      RestoreAllKeepsCatalog(ps, init);
      SameCatalogKeepsValid(ps, RestoreAll(ps, init), 0);
      RestoreStockTotal(RestoreAll(ps, init), last.productId, last.quantity);
      TotalItemsLast(items);
    }
  }

  /** With no negative quantity on hand the total in stock is not negative. */
  lemma {:induction false} TotalNonNegative(ps: seq<Product>)
    ensures StockNonNegative(ps) ==> TotalInStock(ps) >= 0
  {
    if ps != [] {
      TotalNonNegative(ps[1..]);
    }
  }
}
