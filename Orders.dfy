/** Orders on values: the order-list invariant, referential integrity between order
    items and the catalog, and the date ordering of getRecentOrders. */
module Orders {
  import opened Seqs
  import opened Text
  import opened Records
  import opened Catalog
  import opened Stock

  /** The filter of getOrderById: o.getId() == id. */
  function OrderWithId(id: int): Order -> bool
  {
    (o: Order) => o.id == id
  }

  /** The identifiers present in the order list. */
  ghost function OrderIds(os: seq<Order>): set<int>
  {
    set k | 0 <= k < |os| :: os[k].id
  }

  /** A lookup succeeds exactly for the identifiers in the list. */
  lemma OrderLookupIffPresent(os: seq<Order>, id: int)
    ensures FirstIndex(os, OrderWithId(id)).Some? <==> id in OrderIds(os)
  {
    if id in OrderIds(os) {
      var k :| 0 <= k < |os| && os[k].id == id;
      assert OrderWithId(id)(os[k]);
    }
  }

  /** What every operation keeps true of the order list: identifiers drawn from the
      counter's past values and pairwise distinct; a non-blank customer name; at least
      one item. */
  ghost predicate OrdersValid(os: seq<Order>, nextId: int)
  {
    && (forall k :: 0 <= k < |os| ==> 1 <= os[k].id < nextId && !IsBlank(os[k].customerName) && os[k].items != [])
    && UniqueOrderIds(os)
  }

  /** No two orders share an identifier. */
  ghost predicate UniqueOrderIds(os: seq<Order>)
  {
    forall k, m :: 0 <= k < |os| && 0 <= m < |os| && k != m ==> os[k].id != os[m].id
  }

  /** Every item of every order refers to a product in the catalog. */
  ghost predicate References(os: seq<Order>, ps: seq<Product>)
  {
    forall k, m :: 0 <= k < |os| && 0 <= m < |os[k].items| ==> os[k].items[m].productId in ProductIds(ps)
  }

  /** Every stored item has a positive quantity. */
  ghost predicate ItemsPositive(os: seq<Order>)
  {
    forall k :: 0 <= k < |os| ==> PositiveItems(os[k].items)
  }

  /** A new order that passed createOrder's checks keeps the order invariant and
      referential integrity, under the advanced counter. */
  lemma AppendKeepsValid(os: seq<Order>, ps: seq<Product>, nextId: int, o: Order)
    requires OrdersValid(os, nextId) && References(os, ps) && nextId >= 1
    requires o.id == nextId && !IsBlank(o.customerName) && o.items != [] && AllInStock(ps, o.items)
    ensures OrdersValid(os + [o], nextId + 1) && References(os + [o], ps)
  {
    var r := os + [o];
    forall k, m | 0 <= k < |r| && 0 <= m < |r[k].items| ensures r[k].items[m].productId in ProductIds(ps) {
      if k == |os| {
        assert InStock(ps, o.items[m].productId, o.items[m].quantity);
      }
    }
  }

  /** Appending an order with positive items keeps every stored item positive. */
  lemma AppendKeepsPositive(os: seq<Order>, o: Order)
    ensures ItemsPositive(os) && PositiveItems(o.items) ==> ItemsPositive(os + [o])
  {
  }

  /** Removing an order keeps the order invariant and referential integrity. */
  lemma RemoveKeepsValid(os: seq<Order>, ps: seq<Product>, nextId: int, i: nat)
    requires OrdersValid(os, nextId) && References(os, ps) && i < |os|
    ensures OrdersValid(RemoveAt(os, i), nextId) && References(RemoveAt(os, i), ps)
    ensures ItemsPositive(os) ==> ItemsPositive(RemoveAt(os, i))
  {
    var r := RemoveAt(os, i);
    forall a, b | 0 <= a < |r| && 0 <= b < |r| && a != b ensures r[a].id != r[b].id {
      var a' := if a < i then a else a + 1;
      var b' := if b < i then b else b + 1;
      assert r[a] == os[a'] && r[b] == os[b'];
    }
    forall k, m | 0 <= k < |r| && 0 <= m < |r[k].items| ensures r[k].items[m].productId in ProductIds(ps) {
      var k' := if k < i then k else k + 1;
      assert r[k] == os[k'];
    }
  }

  /** Removing an order with distinct identifiers removes exactly its identifier. */
  lemma RemoveDropsOrderId(os: seq<Order>, i: nat)
    requires UniqueOrderIds(os) && i < |os|
    ensures OrderIds(RemoveAt(os, i)) == OrderIds(os) - {os[i].id}
  {
    var r := RemoveAt(os, i);
    forall x | x in OrderIds(r) ensures x in OrderIds(os) - {os[i].id} {
      var j :| 0 <= j < |r| && r[j].id == x;
      var j' := if j < i then j else j + 1;
      assert r[j] == os[j'];
    }
    forall x | x in OrderIds(os) - {os[i].id} ensures x in OrderIds(r) {
      var j :| 0 <= j < |os| && os[j].id == x;
      assert j != i;
      var j' := if j < i then j else j - 1;
      assert r[j'] == os[j];
    }
  }

  /** Changing an order's status keeps the order invariant, referential integrity and
      positive items. */
  lemma StatusChangeKeepsValid(os: seq<Order>, ps: seq<Product>, nextId: int, i: nat, st: OrderStatus)
    requires OrdersValid(os, nextId) && References(os, ps) && i < |os|
    ensures OrdersValid(os[i := os[i].(status := st)], nextId) && References(os[i := os[i].(status := st)], ps)
    ensures ItemsPositive(os) ==> ItemsPositive(os[i := os[i].(status := st)])
  {
  }

  /** A catalog holding every identifier of another still satisfies its references. */
  lemma WiderCatalogKeepsReferences(os: seq<Order>, a: seq<Product>, b: seq<Product>)
    requires References(os, a) && ProductIds(a) <= ProductIds(b)
    ensures References(os, b)
  {
  }

  /** Removing a product that no order refers to keeps referential integrity. */
  lemma UnreferencedRemovalKeepsReferences(os: seq<Order>, ps: seq<Product>, i: nat)
    requires References(os, ps) && UniqueIds(ps) && i < |ps| && !Referenced(os, ps[i].id)
    ensures References(os, RemoveAt(ps, i))
  {
    RemoveDropsId(ps, i);
    forall k, m | 0 <= k < |os| && 0 <= m < |os[k].items| ensures os[k].items[m].productId in ProductIds(RemoveAt(ps, i)) {
      assert os[k].items[m].productId != ps[i].id;
    }
  }

  /** The filter of searchOrders: the customer name contains the query, ignoring case. */
  function CustomerMatches(query: string): Order -> bool
  {
    (o: Order) => ContainsIgnoreCase(o.customerName, query)
  }

  /** Ordered by creation timestamp, most recent first. */
  ghost predicate NewestFirst(os: seq<Order>)
  {
    forall i, j :: 0 <= i < j < |os| ==> os[i].date >= os[j].date
  }

  /** Place `o` before the first order that is not newer than it. */
  function Insert(o: Order, os: seq<Order>): (r: seq<Order>)
    ensures |r| == |os| + 1
    ensures multiset(r) == multiset(os) + multiset{o}
  {
    if os == [] then [o]
    else if os[0].date > o.date then
      assert os == [os[0]] + os[1..];
      [os[0]] + Insert(o, os[1..])
    else [o] + os
  }

  /** Inserting keeps every timestamp at most `d` when all were. */
  lemma {:induction false} InsertBounded(o: Order, os: seq<Order>, d: int)
    requires o.date <= d && forall i :: 0 <= i < |os| ==> os[i].date <= d
    ensures forall i :: 0 <= i < |Insert(o, os)| ==> Insert(o, os)[i].date <= d
  {
    if os != [] && os[0].date > o.date {
      var rest := Insert(o, os[1..]);
      assert Insert(o, os) == [os[0]] + rest;
      InsertBounded(o, os[1..], d);
    }
  }

  /** Inserting into a newest-first list keeps it newest-first. */
  lemma {:induction false} InsertKeepsOrder(o: Order, os: seq<Order>)
    requires NewestFirst(os)
    ensures NewestFirst(Insert(o, os))
  {
    if os != [] && os[0].date > o.date {
      var rest := Insert(o, os[1..]);
      InsertKeepsOrder(o, os[1..]);
      InsertBounded(o, os[1..], os[0].date);
      var r := [os[0]] + rest;
      assert forall i :: 1 <= i < |r| ==> r[i] == rest[i - 1];
    }
  }

  /** The sort of getRecentOrders: newest first, a stable insertion sort so that orders
      with equal timestamps keep their list order, as a stable sort does. */
  function SortNewestFirst(os: seq<Order>): (r: seq<Order>)
    ensures |r| == |os|
    ensures multiset(r) == multiset(os)
    ensures NewestFirst(r)
  {
    if os == [] then []
    else
      assert os == [os[0]] + os[1..];
      InsertKeepsOrder(os[0], SortNewestFirst(os[1..]));
      Insert(os[0], SortNewestFirst(os[1..]))
  }

  function HasDate(d: int): Order -> bool
  {
    (o: Order) => o.date == d
  }

  /** Inserting an order places it first among the orders with its timestamp. */
  lemma {:induction false} InsertStable(o: Order, os: seq<Order>, d: int)
    ensures Filter(Insert(o, os), HasDate(d)) == if o.date == d then [o] + Filter(os, HasDate(d)) else Filter(os, HasDate(d))
  {
    if os == [] {
      FilterCons(o, [], HasDate(d));
    } else if os[0].date > o.date {
      assert Insert(o, os) == [os[0]] + Insert(o, os[1..]);
      InsertStable(o, os[1..], d);
      FilterCons(os[0], Insert(o, os[1..]), HasDate(d));
      FilterCons(os[0], os[1..], HasDate(d));
      assert os == [os[0]] + os[1..];
    } else {
      FilterCons(o, os, HasDate(d));
    }
  }

  /** The sort is stable: for every timestamp, the orders carrying it appear in the same
      relative order as in the original list. */
  lemma {:induction false} SortStable(os: seq<Order>, d: int)
    ensures Filter(SortNewestFirst(os), HasDate(d)) == Filter(os, HasDate(d))
  {
    if os != [] {
      SortStable(os[1..], d);
      InsertStable(os[0], SortNewestFirst(os[1..]), d);
    }
  }

  /** The first `count` orders of the sorted list are orders of the list, none taken more
      often than the list holds it. */
  lemma PrefixFromList(os: seq<Order>, count: nat)
    ensures forall i :: 0 <= i < |Take(SortNewestFirst(os), count)| ==> Take(SortNewestFirst(os), count)[i] in os
    ensures multiset(Take(SortNewestFirst(os), count)) <= multiset(os)
  {
    var sorted := SortNewestFirst(os);
    var r := Take(sorted, count);
    assert sorted == r + sorted[|r|..];
    forall i | 0 <= i < |r| ensures r[i] in os {
      assert r[i] == sorted[i];
      assert sorted[i] in multiset(sorted);
    }
  }

  /** An order left out of the first `count` of the sorted list is no newer than any
      order kept. */
  lemma PrefixIsNewest(os: seq<Order>, count: nat)
    ensures var r := Take(SortNewestFirst(os), count);
            forall o :: o in os && o !in r ==> forall i :: 0 <= i < |r| ==> r[i].date >= o.date
  {
    var sorted := SortNewestFirst(os);
    var r := Take(sorted, count);
    forall o, i | o in os && o !in r && 0 <= i < |r| ensures r[i].date >= o.date {
      assert o in multiset(sorted);
      var m :| 0 <= m < |sorted| && sorted[m] == o;
      assert m >= |r|;
    }
  }

  /** Orders with equal timestamps are taken in list order: for every timestamp, the
      orders returned with it are the first of the orders in the list with it. */
  lemma PrefixKeepsTies(os: seq<Order>, count: nat)
    ensures forall d :: Filter(Take(SortNewestFirst(os), count), HasDate(d)) <= Filter(os, HasDate(d))
  {
    var sorted := SortNewestFirst(os);
    forall d ensures Filter(Take(sorted, count), HasDate(d)) <= Filter(os, HasDate(d)) {
      SortStable(os, d);
      if count < |sorted| {
        FilterPrefix(sorted, count, HasDate(d));
      }
    }
  }

  /** getRecentOrders on values: the first `count` orders of the stable newest-first sort. */
  function Recent(os: seq<Order>, count: nat): (r: seq<Order>)
    ensures r == Take(SortNewestFirst(os), count)
    ensures |r| == if count < |os| then count else |os|
    ensures NewestFirst(r)
    ensures multiset(r) <= multiset(os)
    ensures forall i :: 0 <= i < |r| ==> r[i] in os
    ensures forall o :: o in os && o !in r ==> forall i :: 0 <= i < |r| ==> r[i].date >= o.date
    ensures forall d :: Filter(r, HasDate(d)) <= Filter(os, HasDate(d))
  {
    PrefixFromList(os, count);
    PrefixIsNewest(os, count);
    PrefixKeepsTies(os, count);
    Take(SortNewestFirst(os), count)
  }
}
