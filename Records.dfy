/** The service's record types: accounts, products, orders and their line items,
    with the order status enumeration and the per-record derived values. */
module Records {
  import opened Text

  /** LOW_STOCK_THRESHOLD */
  const LowStockThreshold: int := 5

  /** An account. The password is stored and compared as plain text. */
  datatype User = User(username: string, password: string, email: string, phone: string)

  /** A product. The price is kept in integral minor units (cents). */
  datatype Product = Product(id: int, name: string, price: int, quantity: int)

  /** A line item: a reference to a product by identifier, and a quantity. */
  datatype OrderItem = OrderItem(productId: int, quantity: int)

  datatype OrderStatus = Pending | Processing | Completed | Cancelled

  /** An order. `date` is the creation timestamp, supplied by the caller. */
  datatype Order = Order(id: int, customerName: string, items: seq<OrderItem>, date: int, status: OrderStatus)

  /** Product.isLowStock */
  predicate IsLowStock(p: Product)
  {
    p.quantity <= LowStockThreshold
  }

  function DisplayName(s: OrderStatus): string
  {
    match s
    case Pending => "Pending"
    case Processing => "Processing"
    case Completed => "Completed"
    case Cancelled => "Cancelled"
  }

  /** No two display names are equal ignoring case, so at most one status matches a string. */
  lemma DisplayNamesDistinct(a: OrderStatus, b: OrderStatus)
    requires a != b
    ensures !EqualsIgnoreCase(DisplayName(a), DisplayName(b))
  {
    var la, lb := LowerStr(DisplayName(a)), LowerStr(DisplayName(b));
    if |la| == |lb| {
      assert {a, b} == {Completed, Cancelled};
      assert la[1] != lb[1];
    }
  }

  /** At most one status has a display name equal to `s` ignoring case. */
  lemma MatchingStatusUnique(s: string)
    ensures forall a, b :: EqualsIgnoreCase(DisplayName(a), s) && EqualsIgnoreCase(DisplayName(b), s) ==> a == b
  {
    forall a, b | EqualsIgnoreCase(DisplayName(a), s) && EqualsIgnoreCase(DisplayName(b), s)
      ensures a == b
    {
      if a != b { DisplayNamesDistinct(a, b); }
    }
  }

  /** OrderStatus.fromString: the status whose display name equals `s` ignoring case,
      and PENDING when none does. */
  function FromString(s: string): (r: OrderStatus)
    ensures forall st :: EqualsIgnoreCase(DisplayName(st), s) ==> r == st
    ensures (forall st :: !EqualsIgnoreCase(DisplayName(st), s)) ==> r == Pending
  {
    MatchingStatusUnique(s);
    if EqualsIgnoreCase(DisplayName(Pending), s) then Pending
    else if EqualsIgnoreCase(DisplayName(Processing), s) then Processing
    else if EqualsIgnoreCase(DisplayName(Completed), s) then Completed
    else if EqualsIgnoreCase(DisplayName(Cancelled), s) then Cancelled
    else Pending
  }

  /** Parsing a display name, in any letter case, gives back its status. */
  lemma FromStringRoundTrip(st: OrderStatus, s: string)
    requires LowerStr(s) == LowerStr(DisplayName(st))
    ensures FromString(s) == st
  {
  }

  /** Order.getTotalItems: the sum of the line items' quantities. */
  function TotalItems(items: seq<OrderItem>): int
  {
    if items == [] then 0 else items[0].quantity + TotalItems(items[1..])
  }

  /** The total of a list extended by one item grows by that item's quantity. */
  lemma {:induction false} TotalItemsSnoc(items: seq<OrderItem>, it: OrderItem)
    ensures TotalItems(items + [it]) == TotalItems(items) + it.quantity
  {
    if items != [] {
      assert (items + [it])[1..] == items[1..] + [it];
      TotalItemsSnoc(items[1..], it);
    }
  }

  /** The total is the total of all but the last item, plus the last. */
  lemma TotalItemsLast(items: seq<OrderItem>)
    requires items != []
    ensures TotalItems(items) == TotalItems(items[..|items| - 1]) + items[|items| - 1].quantity
  {
    assert items == items[..|items| - 1] + [items[|items| - 1]];
    TotalItemsSnoc(items[..|items| - 1], items[|items| - 1]);
  }
}
