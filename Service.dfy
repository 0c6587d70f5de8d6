/** The inventory service: the account list, the product catalog and the order list,
    with the signed-in account and the two identifier counters, updated in place by
    each operation as the Java class updates its lists and records. */
module Service {
  import opened Seqs
  import opened Text
  import opened Records
  import opened Accounts
  import opened Catalog
  import opened Stock
  import opened Orders

  class InventoryService {
    var users: seq<User>
    var products: seq<Product>
    var orders: seq<Order>
    /** The signed-in account, as its position in `users` (accounts are never removed). */
    var current: Option<nat>
    /** Product.nextId: the identifier the next product receives. */
    var nextProductId: int
    /** Order.nextId: the identifier the next order receives. */
    var nextOrderId: int

    /** What every operation keeps true. */
    ghost predicate Valid()
      reads this
    {
      && UsersValid(users)
      && (current.Some? ==> current.value < |users|)
      && nextProductId >= 1 && ProductsValid(products, nextProductId)
      && nextOrderId >= 1 && OrdersValid(orders, nextOrderId)
      && References(orders, products)
    }

    /** Quantities on hand are non-negative and every stored item is positive. Kept by
        every operation, except that createOrder keeps it only for positive items. */
    ghost predicate StockSound()
      reads this
    {
      StockNonNegative(products) && ItemsPositive(orders)
    }

    constructor()
      ensures Valid() && StockSound()
      ensures users == [] && products == [] && orders == [] && current == None
      ensures nextProductId == 1 && nextOrderId == 1
    {
      users, products, orders := [], [], [];
      current := None;
      nextProductId, nextOrderId := 1, 1;
    }

    // ---------------------------------------------------------------- accounts

    /** registerUser */
    method RegisterUser(username: string, password: string, email: string) returns (ok: bool)
      requires Valid()
      modifies this
      ensures Valid()
      ensures ok <==> RegisterAccepts(old(users), username, password, email)
      ensures users == if ok then old(users) + [NewAccount(username, password, email)] else old(users)
      ensures current == old(current) && products == old(products) && orders == old(orders)
      ensures nextProductId == old(nextProductId) && nextOrderId == old(nextOrderId)
    {
      if IsBlank(username) || Utf16Length(password) < 3 || !IsValidEmail(email) {
        return false;
      }
      if UsernameTaken(users, username, |users|) || EmailTaken(users, email, |users|) {
        return false;
      }
      RegisterKeepsValid(users, username, password, email);
      users := users + [NewAccount(username, password, email)];
      ok := true;
    }

    /** login: the first account whose username matches ignoring case and whose password
        matches exactly becomes the signed-in account; a failed attempt changes nothing. */
    method Login(username: string, password: string) returns (ok: bool)
      requires Valid()
      modifies this
      ensures Valid()
      ensures ok <==> exists j :: 0 <= j < |users| && EqualsIgnoreCase(users[j].username, username) && users[j].password == password
      ensures ok ==> current.Some? && EqualsIgnoreCase(users[current.value].username, username)
                     && users[current.value].password == password
      ensures ok ==> forall j :: 0 <= j < current.value ==>
                       !(EqualsIgnoreCase(users[j].username, username) && users[j].password == password)
      ensures !ok ==> current == old(current)
      ensures users == old(users) && products == old(products) && orders == old(orders)
      ensures nextProductId == old(nextProductId) && nextOrderId == old(nextOrderId)
    {
      var found := FirstIndex(users, Credentials(username, password));
      if found.None? {
        return false;
      }
      current := found;
      ok := true;
    }

    /** logout */
    method Logout()
      requires Valid()
      modifies this
      ensures Valid()
      ensures current == None
      ensures users == old(users) && products == old(products) && orders == old(orders)
      ensures nextProductId == old(nextProductId) && nextOrderId == old(nextOrderId)
    {
      current := None;
    }

    /** getCurrentUser */
    function CurrentUser(): (r: Option<User>)
      requires Valid()
      reads this
      ensures r.Some? <==> current.Some?
      ensures r.Some? ==> r.value == users[current.value]
    {
      if current.None? then None else Some(users[current.value])
    }

    /** getUserByUsername: the account with that username, ignoring case. */
    function UserByUsername(username: string): (r: Option<User>)
      requires Valid()
      reads this
      ensures r.Some? ==> r.value in users && EqualsIgnoreCase(r.value.username, username)
      ensures r.None? <==> forall j :: 0 <= j < |users| ==> !EqualsIgnoreCase(users[j].username, username)
    {
      match FirstIndex(users, NamedUser(username))
      case None => None
      case Some(j) => Some(users[j])
    }

    /** requestPasswordReset: reports whether the email is valid and registered. */
    function RequestPasswordReset(email: string): (r: bool)
      reads this
      ensures r ==> IsValidEmail(email)
      ensures r <==> PasswordResetKnown(users, email)
    {
      IsValidEmail(email) && EmailTaken(users, email, |users|)
    }

    /** updateUserProfile, field by field on the signed-in account. */
    method UpdateUserProfile(username: Option<string>, phone: Option<string>, email: Option<string>,
                             oldPassword: Option<string>, newPassword: Option<string>) returns (ok: bool)
      requires Valid()
      modifies this
      ensures Valid()
      ensures (ok, users) == ProfileUpdate(old(users), old(current), username, phone, email, oldPassword, newPassword)
      ensures current == old(current) && products == old(products) && orders == old(orders)
      ensures nextProductId == old(nextProductId) && nextOrderId == old(nextOrderId)
    {
      ProfileUpdateKeepsValid(users, current, username, phone, email, oldPassword, newPassword);
      if current.None? {
        return false;
      }
      var i := current.value;
      var us := users;
      if ChangesPassword(newPassword) {
        if oldPassword.None? || us[i].password != oldPassword.value {
          return false;
        }
        if Utf16Length(newPassword.value) < 3 {
          return false;
        }
      }
      if username.Some? && !IsBlank(username.value) {
        if UsernameTaken(us, username.value, i) {
          return false;
        }
        us := us[i := us[i].(username := username.value)];
      }
      if phone.Some? {
        us := us[i := us[i].(phone := phone.value)];
      }
      if email.Some? && IsValidEmail(email.value) {
        if EmailTaken(us, email.value, i) {
          users := us;
          return false;
        }
        us := us[i := us[i].(email := email.value)];
      }
      if ChangesPassword(newPassword) {
        us := us[i := us[i].(password := newPassword.value)];
      }
      users := us;
      ok := true;
    }

    // ---------------------------------------------------------------- products

    /** addProduct: an accepted product receives the next identifier. */
    method AddProduct(name: string, price: int, quantity: int) returns (ok: bool)
      requires Valid()
      modifies this
      ensures Valid()
      ensures old(StockSound()) ==> StockSound()
      ensures ok <==> AddAccepts(old(products), name, price, quantity)
      ensures ok ==> old(nextProductId) !in ProductIds(old(products))
      ensures products == if ok then old(products) + [Product(old(nextProductId), name, price, quantity)] else old(products)
      ensures nextProductId == if ok then old(nextProductId) + 1 else old(nextProductId)
      ensures users == old(users) && current == old(current) && orders == old(orders) && nextOrderId == old(nextOrderId)
    {
      if IsBlank(name) || price < 0 || quantity < 0 || NameTaken(products, name) {
        return false;
      }
      var p := Product(nextProductId, name, price, quantity);
      assert ProductsValid(products + [p], nextProductId + 1) && nextProductId !in ProductIds(products)
             && (StockNonNegative(products) ==> StockNonNegative(products + [p])) by {
        AddKeepsValid(products, nextProductId, name, price, quantity);
      }
      assert References(orders, products + [p]) by {
        AppendKeepsIds(products, p);
        WiderCatalogKeepsReferences(orders, products, products + [p]);
      }
      products := products + [p];
      nextProductId := nextProductId + 1;
      ok := true;
    }

    /** updateProduct: the name, price and quantity are written in turn on the product
        with that identifier. */
    method UpdateProduct(id: int, name: Option<string>, price: Option<int>, quantity: Option<int>) returns (ok: bool)
      requires Valid()
      modifies this
      ensures Valid()
      ensures old(StockSound()) ==> StockSound()
      ensures (ok, products) == ProductUpdate(old(products), id, name, price, quantity)
      ensures users == old(users) && current == old(current) && orders == old(orders)
      ensures nextProductId == old(nextProductId) && nextOrderId == old(nextOrderId)
    {
      var ps;
      ok, ps := Revise(products, id, name, price, quantity);
      assert ProductsValid(ps, nextProductId) && References(orders, ps)
             && (StockNonNegative(products) ==> StockNonNegative(ps)) by {
        ProductUpdateKeepsValid(products, nextProductId, id, name, price, quantity);
        ProductUpdateFrame(products, id, name, price, quantity);
        SameIdsSameSet(products, ps);
        WiderCatalogKeepsReferences(orders, products, ps);
      }
      products := ps;
    }

    /** The steps of updateProduct on a copy of the catalog: look the product up, refuse a
        name another product has, then apply each given field. */
    static method Revise(ps0: seq<Product>, id: int, name: Option<string>, price: Option<int>, quantity: Option<int>)
      returns (ok: bool, ps: seq<Product>)
      ensures (ok, ps) == ProductUpdate(ps0, id, name, price, quantity)
    {
      ps := ps0;
      var found := FirstIndex(ps, ProductWithId(id));
      if found.None? {
        return false, ps;
      }
      var i := found.value;
      var p := ps[i];
      if name.Some? && !IsBlank(name.value) {
        if NameTakenByOther(ps, name.value, id) {
          return false, ps;
        }
        p := p.(name := name.value);
      }
      if price.Some? && price.value >= 0 {
        p := p.(price := price.value);
      }
      if quantity.Some? && quantity.value >= 0 {
        p := p.(quantity := quantity.value);
      }
      ps := ps[i := p];
      ok := true;
    }

    /** deleteProduct: refused when the product is missing or an order refers to it. */
    method DeleteProduct(id: int) returns (ok: bool)
      requires Valid()
      modifies this
      ensures Valid()
      ensures old(StockSound()) ==> StockSound()
      ensures ok <==> DeleteAccepts(old(products), orders, id)
      ensures ok ==> products == RemoveAt(old(products), FirstIndex(old(products), ProductWithId(id)).value)
      ensures ok ==> ProductIds(products) == ProductIds(old(products)) - {id}
      ensures !ok ==> products == old(products)
      ensures users == old(users) && current == old(current) && orders == old(orders)
      ensures nextProductId == old(nextProductId) && nextOrderId == old(nextOrderId)
    {
      var found := FirstIndex(products, ProductWithId(id));
      if found.None? || Referenced(orders, id) {
        return false;
      }
      var i := found.value;
      Catalog.RemoveKeepsValid(products, nextProductId, i);
      RemoveDropsId(products, i);
      UnreferencedRemovalKeepsReferences(orders, products, i);
      products := RemoveAt(products, i);
      ok := true;
    }

    /** getProductById */
    function ProductById(id: int): (r: Option<Product>)
      reads this
      ensures r.Some? <==> id in ProductIds(products)
      ensures r.Some? ==> r.value in products && r.value.id == id
    {
      LookupIffPresent(products, id);
      match FirstIndex(products, ProductWithId(id))
      case None => None
      case Some(i) => Some(products[i])
    }

    /** The filter of searchProducts. */
    function NameMatches(query: string): Product -> bool
    {
      (p: Product) => ContainsIgnoreCase(p.name, query)
    }

    /** searchProducts: every product for a blank query; otherwise the products whose
        name contains the query ignoring case, in catalog order. */
    function SearchProducts(query: string): (r: seq<Product>)
      reads this
      ensures IsBlank(query) ==> r == products
      ensures !IsBlank(query) ==> forall i :: 0 <= i < |r| ==> r[i] in products && ContainsIgnoreCase(r[i].name, query)
      ensures !IsBlank(query) ==> forall i :: 0 <= i < |products| && ContainsIgnoreCase(products[i].name, query) ==> products[i] in r
      ensures !IsBlank(query) ==> forall p :: multiset(r)[p] == if ContainsIgnoreCase(p.name, query) then multiset(products)[p] else 0
      ensures IsSubseq(r, products)
    {
      if IsBlank(query) then
        IsSubseqRefl(products);
        products
      else
        FilterCounts(products, NameMatches(query));
        Filter(products, NameMatches(query))
    }

    /** getLowStockProducts: the products at or below the threshold, in catalog order. */
    function LowStockProducts(): (r: seq<Product>)
      reads this
      ensures forall i :: 0 <= i < |r| ==> r[i] in products && r[i].quantity <= LowStockThreshold
      ensures forall i :: 0 <= i < |products| && products[i].quantity <= LowStockThreshold ==> products[i] in r
      ensures forall p :: multiset(r)[p] == if p.quantity <= LowStockThreshold then multiset(products)[p] else 0
      ensures IsSubseq(r, products)
    {
      FilterCounts(products, IsLowStock);
      Filter(products, IsLowStock)
    }

    /** getLowStockCount: counts what getLowStockProducts lists. */
    function LowStockCount(): (n: nat)
      reads this
      ensures n == |LowStockProducts()|
      ensures n <= |products|
    {
      CountIsFilterLength(products, IsLowStock);
      Count(products, IsLowStock)
    }

    /** isProductInStock */
    function IsProductInStock(id: int, quantity: int): (r: bool)
      requires Valid()
      reads this
      ensures r <==> exists i :: 0 <= i < |products| && products[i].id == id && products[i].quantity >= quantity
      ensures r == InStock(products, id, quantity)
    {
      if InStock(products, id, quantity) then
        true
      else
        assert forall i :: 0 <= i < |products| && products[i].id == id ==> products[i].quantity < quantity by {
          forall i | 0 <= i < |products| && products[i].id == id ensures products[i].quantity < quantity {
            InStockIff(products, i, quantity);
          }
        }
        false
    }

    /** reduceProductStock: refused when the product is missing or short of stock. */
    method ReduceProductStock(id: int, quantity: int) returns (ok: bool)
      requires Valid()
      modifies this
      ensures Valid()
      ensures StockNonNegative(old(products)) ==> StockNonNegative(products)
      ensures ok <==> InStock(old(products), id, quantity)
      ensures products == ReduceStock(old(products), id, quantity)
      ensures ok ==> TotalInStock(products) == TotalInStock(old(products)) - quantity
      ensures users == old(users) && current == old(current) && orders == old(orders)
      ensures nextProductId == old(nextProductId) && nextOrderId == old(nextOrderId)
    {
      var found := FirstIndex(products, ProductWithId(id));
      if found.None? || products[found.value].quantity < quantity {
        return false;
      }
      var i := found.value;
      var after := products[i := products[i].(quantity := products[i].quantity - quantity)];
      assert after == ReduceStock(products, id, quantity);
      assert TotalInStock(after) == TotalInStock(products) - quantity by {
        assert InStock(products, id, quantity);
        ReduceStockTotal(products, id, quantity);
      }
      assert ProductsValid(after, nextProductId) && References(orders, after) by {
        SameCatalogKeepsValid(products, after, nextProductId);
        WiderCatalogKeepsReferences(orders, products, after);
      }
      products := after;
      ok := true;
    }

    /** getTotalProducts */
    function TotalProducts(): (n: nat)
      reads this
    {
      |products|
    }

    /** getTotalInStock */
    function StockOnHand(): (n: int)
      reads this
      ensures StockNonNegative(products) ==> n >= 0
    {
      TotalNonNegative(products);
      TotalInStock(products)
    }

    // ---------------------------------------------------------------- orders

    /** createOrder: after every item passes the stock check, the order is recorded with
        the next identifier, the current time and status Pending, and each item's
        quantity is taken off its product. */
    method CreateOrder(customerName: string, items: seq<OrderItem>, now: int) returns (r: Option<Order>)
      requires Valid()
      modifies this
      ensures Valid()
      ensures old(StockSound()) && PositiveItems(items) ==> StockSound()
      ensures r.None? <==> IsBlank(customerName) || items == [] || !AllInStock(old(products), items)
      ensures r.Some? ==> r.value == Order(old(nextOrderId), customerName, items, now, Pending)
      ensures orders == if r.Some? then old(orders) + [r.value] else old(orders)
      ensures nextOrderId == if r.Some? then old(nextOrderId) + 1 else old(nextOrderId)
      ensures products == if r.Some? then ReduceAll(old(products), items) else old(products)
      ensures r.Some? && DistinctProducts(items) ==> TotalInStock(products) == TotalInStock(old(products)) - TotalItems(items)
      ensures users == old(users) && current == old(current) && nextProductId == old(nextProductId)
    {
      if IsBlank(customerName) || items == [] {
        return None;
      }
      var all := AllItemsInStock(items);
      if !all {
        return None;
      }
      ghost var start := products;
      var order := Order(nextOrderId, customerName, items, now, Pending);
      RecordOrder(order);
      if DistinctProducts(items) {
        ReduceAllTotal(start, items);
      }
      ReduceAllKeepsCatalog(start, items);
      AppendKeepsPositive(old(orders), order);
      r := Some(order);
    }

    /** The second half of createOrder, once every check has passed: the order is added
        to the list and each item's quantity taken off its product. */
    method RecordOrder(order: Order)
      requires Valid()
      requires order.id == nextOrderId && !IsBlank(order.customerName) && order.items != []
      requires AllInStock(products, order.items)
      modifies this
      ensures Valid()
      ensures orders == old(orders) + [order] && nextOrderId == old(nextOrderId) + 1
      ensures products == ReduceAll(old(products), order.items)
      ensures users == old(users) && current == old(current) && nextProductId == old(nextProductId)
    {
      AppendKeepsValid(orders, products, nextOrderId, order);
      orders := orders + [order];
      nextOrderId := nextOrderId + 1;
      TakeStock(order.items);
    }

    /** The check pass of createOrder: isProductInStock for every item, stopping at the
        first that fails. */
    method AllItemsInStock(items: seq<OrderItem>) returns (all: bool)
      requires Valid()
      ensures all <==> AllInStock(products, items)
    {
      var k := 0;
      while k < |items|
        invariant 0 <= k <= |items|
        invariant forall j :: 0 <= j < k ==> InStock(products, items[j].productId, items[j].quantity)
      {
        if !IsProductInStock(items[k].productId, items[k].quantity) {
          return false;
        }
        k := k + 1;
      }
      all := true;
    }

    /** The decrement pass of createOrder: reduceProductStock's effect for every item in
        turn, its outcome ignored, computed on a copy of the catalog and written back. */
    method TakeStock(items: seq<OrderItem>)
      requires Valid()
      modifies this
      ensures Valid()
      ensures products == ReduceAll(old(products), items)
      ensures users == old(users) && current == old(current) && orders == old(orders)
      ensures nextProductId == old(nextProductId) && nextOrderId == old(nextOrderId)
    {
      var ps := Reduced(products, items);
      assert ProductsValid(ps, nextProductId) && References(orders, ps) by {
        ReduceAllKeepsCatalog(products, items);
        SameCatalogKeepsValid(products, ps, nextProductId);
        WiderCatalogKeepsReferences(orders, products, ps);
      }
      products := ps;
    }

    /** The catalog after createOrder's decrement loop: each item in turn goes through
        reduceProductStock's effect, `ReduceStock`. */
    static method Reduced(ps0: seq<Product>, items: seq<OrderItem>) returns (ps: seq<Product>)
      ensures ps == ReduceAll(ps0, items)
    {
      ps := ps0;
      var k := 0;
      while k < |items|
        invariant 0 <= k <= |items|
        invariant ps == ReduceAll(ps0, items[..k])
      {
        ReduceAllStep(ps0, items, k);
        ps := ReduceStock(ps, items[k].productId, items[k].quantity);
        k := k + 1;
      }
      assert items[..k] == items;
    }

    /** getOrderById */
    function OrderById(id: int): (r: Option<Order>)
      reads this
      ensures r.Some? <==> id in OrderIds(orders)
      ensures r.Some? ==> r.value in orders && r.value.id == id
    {
      OrderLookupIffPresent(orders, id);
      match FirstIndex(orders, OrderWithId(id))
      case None => None
      case Some(i) => Some(orders[i])
    }

    /** searchOrders: every order for a blank query; otherwise the orders whose customer
        name contains the query ignoring case, in list order. */
    function SearchOrders(query: string): (r: seq<Order>)
      reads this
      ensures IsBlank(query) ==> r == orders
      ensures !IsBlank(query) ==> forall i :: 0 <= i < |r| ==> r[i] in orders && ContainsIgnoreCase(r[i].customerName, query)
      ensures !IsBlank(query) ==> forall i :: 0 <= i < |orders| && ContainsIgnoreCase(orders[i].customerName, query) ==> orders[i] in r
      ensures !IsBlank(query) ==> forall o :: multiset(r)[o] == if ContainsIgnoreCase(o.customerName, query) then multiset(orders)[o] else 0
      ensures IsSubseq(r, orders)
    {
      if IsBlank(query) then
        IsSubseqRefl(orders);
        orders
      else
        FilterCounts(orders, CustomerMatches(query));
        Filter(orders, CustomerMatches(query))
    }

    /** updateOrderStatus */
    method UpdateOrderStatus(id: int, status: OrderStatus) returns (ok: bool)
      requires Valid()
      modifies this
      ensures Valid()
      ensures old(StockSound()) ==> StockSound()
      ensures ok <==> id in OrderIds(old(orders))
      ensures |orders| == |old(orders)|
      ensures forall k :: 0 <= k < |orders| ==>
                if old(orders)[k].id == id then orders[k] == old(orders)[k].(status := status) else orders[k] == old(orders)[k]
      ensures users == old(users) && current == old(current) && products == old(products)
      ensures nextProductId == old(nextProductId) && nextOrderId == old(nextOrderId)
    {
      OrderLookupIffPresent(orders, id);
      var found := FirstIndex(orders, OrderWithId(id));
      if found.None? {
        return false;
      }
      var i := found.value;
      StatusChangeKeepsValid(orders, products, nextOrderId, i, status);
      orders := orders[i := orders[i].(status := status)];
      ok := true;
    }

    /** deleteOrder: each item's quantity goes back to its product, if that product still
        exists, and the order is removed. */
    method DeleteOrder(id: int) returns (ok: bool)
      requires Valid()
      modifies this
      ensures Valid()
      ensures old(StockSound()) ==> StockSound()
      ensures ok <==> id in OrderIds(old(orders))
      ensures ok ==> var i := FirstIndex(old(orders), OrderWithId(id)).value;
                     && orders == RemoveAt(old(orders), i)
                     && products == RestoreAll(old(products), old(orders)[i].items)
                     && TotalInStock(products) == TotalInStock(old(products)) + TotalItems(old(orders)[i].items)
      ensures ok ==> id !in OrderIds(orders)
      ensures !ok ==> orders == old(orders) && products == old(products)
      ensures users == old(users) && current == old(current)
      ensures nextProductId == old(nextProductId) && nextOrderId == old(nextOrderId)
    {
      OrderLookupIffPresent(orders, id);
      var found := FirstIndex(orders, OrderWithId(id));
      if found.None? {
        return false;
      }
      var i := found.value;
      var items := orders[i].items;
      GiveBackStock(items);
      RemoveOrderAt(i);
      ok := true;
    }

    /** orders.remove(order) in deleteOrder, for the order at position `i`. */
    method RemoveOrderAt(i: nat)
      requires Valid() && i < |orders|
      modifies this
      ensures Valid()
      ensures orders == RemoveAt(old(orders), i)
      ensures OrderIds(orders) == OrderIds(old(orders)) - {old(orders)[i].id}
      ensures ItemsPositive(old(orders)) ==> ItemsPositive(orders)
      ensures users == old(users) && current == old(current) && products == old(products)
      ensures nextProductId == old(nextProductId) && nextOrderId == old(nextOrderId)
    {
      Orders.RemoveKeepsValid(orders, products, nextOrderId, i);
      RemoveDropsOrderId(orders, i);
      orders := RemoveAt(orders, i);
    }

    /** The give-back loop of deleteOrder: each item's quantity is added back to its
        product when that product still exists. */
    method GiveBackStock(items: seq<OrderItem>)
      requires Valid()
      requires forall k :: 0 <= k < |items| ==> items[k].productId in ProductIds(products)
      modifies this
      ensures Valid()
      ensures products == RestoreAll(old(products), items)
      ensures TotalInStock(products) == TotalInStock(old(products)) + TotalItems(items)
      ensures StockNonNegative(old(products)) && PositiveItems(items) ==> StockNonNegative(products)
      ensures users == old(users) && current == old(current) && orders == old(orders)
      ensures nextProductId == old(nextProductId) && nextOrderId == old(nextOrderId)
    {
      var ps := Restored(products, items);
      assert ProductsValid(ps, nextProductId) && ProductIds(ps) == ProductIds(products)
             && (StockNonNegative(products) && PositiveItems(items) ==> StockNonNegative(ps)) by {
        RestoreAllKeepsCatalog(products, items);
        SameCatalogKeepsValid(products, ps, nextProductId);
      }
      assert TotalInStock(ps) == TotalInStock(products) + TotalItems(items) by {
        RestoreAllTotal(products, items);
      }
      assert References(orders, ps);
      products := ps;
    }

    /** The catalog after deleteOrder's loop adds each item's quantity back to its
        product, where that product still exists. */
    static method Restored(ps0: seq<Product>, items: seq<OrderItem>) returns (ps: seq<Product>)
      ensures ps == RestoreAll(ps0, items)
    {
      ps := ps0;
      var k := 0;
      while k < |items|
        invariant 0 <= k <= |items|
        invariant ps == RestoreAll(ps0, items[..k])
      {
        RestoreAllStep(ps0, items, k);
        ps := RestoreStock(ps, items[k].productId, items[k].quantity);
        k := k + 1;
      }
      assert items[..k] == items;
    }

    /** getTotalOrders */
    function TotalOrders(): (n: nat)
      reads this
    {
      |orders|
    }

    /** getRecentOrders: the `count` most recent orders, newest first. */
    function RecentOrders(count: nat): (r: seq<Order>)
      reads this
      ensures |r| == if count < |orders| then count else |orders|
      ensures NewestFirst(r)
      ensures multiset(r) <= multiset(orders)
      ensures forall i :: 0 <= i < |r| ==> r[i] in orders
      ensures forall o :: o in orders && o !in r ==> forall i :: 0 <= i < |r| ==> r[i].date >= o.date
      ensures forall d :: Filter(r, HasDate(d)) <= Filter(orders, HasDate(d))
    {
      Recent(orders, count)
    }
  }
}
