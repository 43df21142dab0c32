/**
 What checkout writes: the order's line items, copied from the cart, and
 the price of a list of line items.
 */
module Orders {
  import opened Wrappers
  import opened Records
  import opened Cart

  /**
   The OrderItem rows checkout inserts for the cart lines `items`, in order,
   with keys from `first` on.
   */
  function OrderLines(items: seq<CartItem>, orderId: int, first: int): (r: seq<OrderItem>)
    ensures |r| == |items|
    ensures forall k :: 0 <= k < |items| ==>
      r[k] == OrderItem(first + k, orderId, items[k].productId, items[k].quantity)
  {
    if items == [] then []
    else [OrderItem(first, orderId, items[0].productId, items[0].quantity)] + OrderLines(items[1..], orderId, first + 1)
  }

  /** The lines for one more cart line are the old lines followed by that line's copy. */
  lemma OrderLinesSnoc(items: seq<CartItem>, c: CartItem, orderId: int, first: int)
    ensures OrderLines(items + [c], orderId, first)
      == OrderLines(items, orderId, first) + [OrderItem(first + |items|, orderId, c.productId, c.quantity)]
  {
    var l := OrderLines(items + [c], orderId, first);
    var r := OrderLines(items, orderId, first) + [OrderItem(first + |items|, orderId, c.productId, c.quantity)];
    assert |l| == |r|;
    forall k | 0 <= k < |l| ensures l[k] == r[k] {
      if k < |items| {
        assert (items + [c])[k] == items[k];
      }
    }
  }

  /**
   One step of the copying loop: the copies of the first `k + 1` cart lines
   are the copies of the first `k` followed by the copy of line `k`.
   */
  lemma CopyStep(lines: seq<OrderItem>, items: seq<CartItem>, k: int, orderId: int, first: int)
    requires 0 <= k < |items|
    ensures lines + OrderLines(items[..k + 1], orderId, first)
      == lines + OrderLines(items[..k], orderId, first)
         + [OrderItem(first + k, orderId, items[k].productId, items[k].quantity)]
  {
    OrderLinesSnoc(items[..k], items[k], orderId, first);
    assert items[..k + 1] == items[..k] + [items[k]];
  }

  /**
   The copies get the keys `first`, `first + 1`, ..., all above the keys in
   the table when `first` is the table's next key, so the keys stay unique.
   */
  lemma AppendedLinesUnique(lines: seq<OrderItem>, items: seq<CartItem>, orderId: int, first: int)
    requires UniqueIds(lines, OrderItemId)
    requires first == NextId(lines, OrderItemId)
    ensures UniqueIds(lines + OrderLines(items, orderId, first), OrderItemId)
  {
    var added := OrderLines(items, orderId, first);
    var after := lines + added;
    forall i, j | 0 <= i < j < |after| ensures after[i].id != after[j].id {
      if j < |lines| {
        UniqueIdsApart(lines, OrderItemId, i, j);
      } else if i < |lines| {
        assert after[i] == lines[i] && after[j] == added[j - |lines|];
      } else {
        assert after[i] == added[i - |lines|] && after[j] == added[j - |lines|];
      }
    }
    forall x, y | x in after && y in after && x.id == y.id ensures x == y {
      var i :| 0 <= i < |after| && after[i] == x;
      var j :| 0 <= j < |after| && after[j] == y;
      assert !(i < j) && !(j < i);
    }
  }

  /** Every line item's product is in the catalogue. */
  ghost predicate LinesPriced(products: seq<Product>, lines: seq<OrderItem>) {
    forall l :: l in lines ==> FindProduct(products, l.productId).Some?
  }

  /**
   Sum of price times quantity over line items: `Total` of the cart, taken
   over the OrderItem rows an order holds instead of the cart rows.
   */
  function LinesTotal(products: seq<Product>, lines: seq<OrderItem>): int
    requires LinesPriced(products, lines)
  {
    if lines == [] then 0
    else FindProduct(products, lines[0].productId).value.price * lines[0].quantity + LinesTotal(products, lines[1..])
  }

  /**
   The total stored on the order equals the sum over the order's line items
   of price times quantity: copying the cart keeps every product and quantity.
   */
  lemma {:induction false} LinesTotalIsCartTotal(products: seq<Product>, items: seq<CartItem>, orderId: int, first: int)
    requires Priced(products, items)
    ensures LinesPriced(products, OrderLines(items, orderId, first))
    ensures LinesTotal(products, OrderLines(items, orderId, first)) == Total(products, items)
  {
    if items != [] {
      LinesTotalIsCartTotal(products, items[1..], orderId, first + 1);
      var lines := OrderLines(items, orderId, first);
      assert lines[1..] == OrderLines(items[1..], orderId, first + 1);
    }
  }

  /** The line items of order `orderId`, in table order (the `items` backref of an order). */
  function ItemsOf(lines: seq<OrderItem>, orderId: int): (r: seq<OrderItem>)
    ensures forall l :: l in r <==> l in lines && l.orderId == orderId
  {
    if lines == [] then []
    else (if lines[0].orderId == orderId then [lines[0]] else []) + ItemsOf(lines[1..], orderId)
  }

  /**
   Appending the lines of a new order gives that order exactly those lines
   and leaves the items of every other order as they were.
   */
  lemma {:induction false} ItemsOfAppend(old_lines: seq<OrderItem>, items: seq<CartItem>, orderId: int, first: int, o: int)
    requires forall l :: l in old_lines ==> l.orderId != orderId
    ensures ItemsOf(old_lines + OrderLines(items, orderId, first), o)
      == if o == orderId then OrderLines(items, orderId, first) else ItemsOf(old_lines, o)
  {
    var lines := OrderLines(items, orderId, first);
    if old_lines == [] {
      assert old_lines + lines == lines;
      OwnLines(items, orderId, first, o);
    } else {
      assert (old_lines + lines)[1..] == old_lines[1..] + lines;
      assert (old_lines + lines)[0] == old_lines[0];
      ItemsOfAppend(old_lines[1..], items, orderId, first, o);
    }
  }

  lemma {:induction false} OwnLines(items: seq<CartItem>, orderId: int, first: int, o: int)
    ensures ItemsOf(OrderLines(items, orderId, first), o) == if o == orderId then OrderLines(items, orderId, first) else []
  {
    if items != [] {
      OwnLines(items[1..], orderId, first + 1, o);
      var lines := OrderLines(items, orderId, first);
      assert lines[1..] == OrderLines(items[1..], orderId, first + 1);
    }
  }

  /**
   The invariants of the order tables: unique keys, every line item belongs
   to an order key already handed out and names a product in the catalogue,
   and every order's total is the price of its line items.
   */
  ghost predicate Ledger(products: seq<Product>, orders: seq<Order>, lines: seq<OrderItem>) {
    && UniqueIds(orders, OrderId)
    && UniqueIds(lines, OrderItemId)
    && (forall l :: l in lines ==> l.orderId < NextId(orders, OrderId))
    && LinesPriced(products, lines)
    && (forall o :: o in orders ==> o.totalPrice == LinesTotal(products, ItemsOf(lines, o.id)))
  }

  /**
   Adding an order with the next key and its freshly copied line items
   gives the new order exactly the copies, leaves the line items of every
   earlier order alone, and keeps every order's total equal to the price of
   its line items.
   */
  lemma CheckoutKeepsLedger(products: seq<Product>, orders: seq<Order>, lines: seq<OrderItem>,
                            order: Order, items: seq<CartItem>, first: int)
    requires Ledger(products, orders, lines)
    requires order.id == NextId(orders, OrderId)
    requires Priced(products, items) && order.totalPrice == Total(products, items)
    requires UniqueIds(lines + OrderLines(items, order.id, first), OrderItemId)
    ensures Ledger(products, orders + [order], lines + OrderLines(items, order.id, first))
    ensures ItemsOf(lines + OrderLines(items, order.id, first), order.id) == OrderLines(items, order.id, first)
  {
    var added := OrderLines(items, order.id, first);
    var after := lines + added;
    InsertKeepsIdsUnique(orders, order, OrderId);
    NextIdAfterInsert(orders, order, OrderId);
    LinesTotalIsCartTotal(products, items, order.id, first);
    assert forall o :: o in orders ==> o.id < order.id;
    forall o | o in orders + [order] ensures o.totalPrice == LinesTotal(products, ItemsOf(after, o.id)) {
      ItemsOfAppend(lines, items, order.id, first, o.id);
    }
    ItemsOfAppend(lines, items, order.id, first, order.id);
  }

  /**
   Overwriting the status of the order at `i` keeps the keys, so keys stay
   unique, the next key stays the same, and every total still matches.
   */
  lemma StatusKeepsLedger(products: seq<Product>, orders: seq<Order>, lines: seq<OrderItem>, i: nat, status: Option<string>)
    requires i < |orders|
    requires Ledger(products, orders, lines)
    ensures Ledger(products, orders[i := orders[i].(status := status)], lines)
  {
    var after := orders[i := orders[i].(status := status)];
    NextIdSameKeys(orders, after, OrderId);
    forall j, k | 0 <= j < k < |after| ensures after[j] != after[k] {
      UniqueIdsApart(orders, OrderId, j, k);
    }
    forall x, y | x in after && y in after && x.id == y.id ensures x == y {
      var j :| 0 <= j < |after| && after[j] == x;
      var k :| 0 <= k < |after| && after[k] == y;
      if j != k {
        UniqueIdsApart(orders, OrderId, j, k);
      }
    }
    forall o | o in after ensures o.totalPrice == LinesTotal(products, ItemsOf(lines, o.id)) {
      var j :| 0 <= j < |after| && after[j] == o;
      assert orders[j] in orders;
    }
  }
}
