/**
 The rules of the shopping cart as functions over the cart table: adding a
 product, removing a row, the rows of one user, the bulk delete at checkout
 and the price of a list of lines.
 */
module Cart {
  import opened Wrappers
  import opened Records

  /**
   The product with key `pid` (`Product.query.get`), if any: the row that
   the key lookup `Locate` finds, rather than its position.
   */
  function FindProduct(products: seq<Product>, pid: int): (r: Option<Product>)
    ensures r.Some? ==> r.value in products && r.value.id == pid
    ensures r.None? ==> forall p :: p in products ==> p.id != pid
  {
    match Locate(products, ProductId, pid)
    case Some(i) => Some(products[i])
    case None => None
  }

  /** `c` is the row of user `uid` for product `pid`. */
  predicate IsLine(c: CartItem, uid: int, pid: int) {
    c.userId == uid && c.productId == pid
  }

  /** Position of the first row of (`uid`, `pid`), as `filter_by(...).first()` returns it. */
  function FindLine(cart: seq<CartItem>, uid: int, pid: int): (r: Option<nat>)
    ensures r.Some? ==> r.value < |cart| && IsLine(cart[r.value], uid, pid)
    ensures r.Some? ==> forall j :: 0 <= j < r.value ==> !IsLine(cart[j], uid, pid)
    ensures r.None? ==> forall j :: 0 <= j < |cart| ==> !IsLine(cart[j], uid, pid)
  {
    if cart == [] then None
    else if IsLine(cart[0], uid, pid) then Some(0)
    else match FindLine(cart[1..], uid, pid)
      case None => None
      case Some(k) => Some(k + 1)
  }

  /** The quantity of `pid` in the cart of `uid`; 0 when there is no row. */
  function Quantity(cart: seq<CartItem>, uid: int, pid: int): int {
    match FindLine(cart, uid, pid)
    case Some(i) => cart[i].quantity
    case None => 0
  }

  /**
   The invariants of the cart table: unique keys, at most one row per
   (user, product), every quantity at least 1, every row's product present.
   */
  ghost predicate WellFormed(cart: seq<CartItem>, products: seq<Product>) {
    && UniqueIds(cart, CartItemId)
    && (forall x, y :: x in cart && y in cart && IsLine(y, x.userId, x.productId) ==> x == y)
    && (forall x :: x in cart ==> x.quantity >= 1)
    && (forall x :: x in cart ==> FindProduct(products, x.productId).Some?)
  }

  /** The row at `i` is the first row of (`uid`, `pid`). */
  lemma FindLineAt(cart: seq<CartItem>, uid: int, pid: int, i: nat)
    requires i < |cart| && IsLine(cart[i], uid, pid)
    requires forall j :: 0 <= j < i ==> !IsLine(cart[j], uid, pid)
    ensures FindLine(cart, uid, pid) == Some(i)
  {
  }

  /** `add_to_cart` for a product that exists: bump the existing row, or insert one with quantity 1. */
  function AddLine(cart: seq<CartItem>, uid: int, pid: int): seq<CartItem> {
    match FindLine(cart, uid, pid)
    case Some(i) => cart[i := cart[i].(quantity := cart[i].quantity + 1)]
    case None => cart + [CartItem(NextId(cart, CartItemId), pid, uid, 1)]
  }

  /**
   Adding raises the quantity of (`uid`, `pid`) by one and leaves the quantity
   of every other (user, product) pair alone; it grows the table only when
   there was no row yet.
   */
  lemma AddLineSpec(cart: seq<CartItem>, uid: int, pid: int)
    ensures Quantity(AddLine(cart, uid, pid), uid, pid) == Quantity(cart, uid, pid) + 1
    ensures forall u, p :: (u, p) != (uid, pid) ==>
      Quantity(AddLine(cart, uid, pid), u, p) == Quantity(cart, u, p)
    ensures |AddLine(cart, uid, pid)| == |cart| + (if FindLine(cart, uid, pid).None? then 1 else 0)
  {
    var after := AddLine(cart, uid, pid);
    match FindLine(cart, uid, pid)
    case Some(i) =>
      FindLineAt(after, uid, pid, i);
      forall u, p | (u, p) != (uid, pid) ensures Quantity(after, u, p) == Quantity(cart, u, p) {
        SameLinesElsewhere(cart, after, i, u, p);
      }
    case None =>
      FindLineAt(after, uid, pid, |cart|);
      forall u, p | (u, p) != (uid, pid) ensures Quantity(after, u, p) == Quantity(cart, u, p) {
        SameLinesElsewhere(cart, after, |cart|, u, p);
      }
  }

  /** Changing or appending the row at `i`, which is not a row of (`u`, `p`), does not move the row of (`u`, `p`). */
  lemma SameLinesElsewhere(cart: seq<CartItem>, after: seq<CartItem>, i: nat, u: int, p: int)
    requires i <= |cart| && |after| == |cart| + (if i == |cart| then 1 else 0)
    requires forall j :: 0 <= j < |cart| && j != i ==> after[j] == cart[j]
    requires !IsLine(after[i], u, p) && (i < |cart| ==> !IsLine(cart[i], u, p))
    ensures Quantity(after, u, p) == Quantity(cart, u, p)
  {
    match FindLine(cart, u, p)
    case Some(k) =>
      assert k != i && after[k] == cart[k];
      FindLineAt(after, u, p, k);
    case None =>
      forall j | 0 <= j < |after| ensures !IsLine(after[j], u, p) {
        if j != i { assert after[j] == cart[j]; }
      }
  }

  /** Raising the quantity of the row at `i` keeps the cart table well formed. */
  lemma BumpWellFormed(cart: seq<CartItem>, products: seq<Product>, i: nat)
    requires WellFormed(cart, products) && i < |cart|
    ensures WellFormed(cart[i := cart[i].(quantity := cart[i].quantity + 1)], products)
  {
    var after := cart[i := cart[i].(quantity := cart[i].quantity + 1)];
    var bumped := after[i];
    forall x | x in after ensures x == bumped || (x in cart && x.id != bumped.id) {
      var j :| 0 <= j < |after| && after[j] == x;
      if j != i {
        UniqueIdsApart(cart, CartItemId, i, j);
      }
    }
    forall j, k | 0 <= j < k < |after| ensures after[j] != after[k] {
      if j != i && k != i {
        assert cart[j] != cart[k];
      } else {
        UniqueIdsApart(cart, CartItemId, j, k);
      }
    }
  }

  /** Appending a new row of (`uid`, `pid`) with the next key and quantity 1 keeps the cart table well formed. */
  lemma InsertWellFormed(cart: seq<CartItem>, products: seq<Product>, uid: int, pid: int)
    requires WellFormed(cart, products)
    requires FindProduct(products, pid).Some?
    requires FindLine(cart, uid, pid).None?
    ensures WellFormed(cart + [CartItem(NextId(cart, CartItemId), pid, uid, 1)], products)
  {
    var row := CartItem(NextId(cart, CartItemId), pid, uid, 1);
    InsertKeepsIdsUnique(cart, row, CartItemId);
    assert row !in cart;
  }

  /** When (`uid`, `pid`) already has the row at `i`, adding bumps that row in place. */
  lemma AddLineAt(cart: seq<CartItem>, uid: int, pid: int, i: nat)
    requires FindLine(cart, uid, pid) == Some(i)
    ensures AddLine(cart, uid, pid) == cart[i := cart[i].(quantity := cart[i].quantity + 1)]
  {
  }

  /** Adding keeps the cart table well formed. */
  lemma AddLineWellFormed(cart: seq<CartItem>, products: seq<Product>, uid: int, pid: int)
    requires WellFormed(cart, products)
    requires FindProduct(products, pid).Some?
    ensures WellFormed(AddLine(cart, uid, pid), products)
  {
    match FindLine(cart, uid, pid)
    case Some(i) =>
      AddLineAt(cart, uid, pid, i);
      BumpWellFormed(cart, products, i);
    case None =>
      InsertWellFormed(cart, products, uid, pid);
  }

  /** `n` calls of `add_to_cart` with the same user and product. */
  function AddTimes(cart: seq<CartItem>, uid: int, pid: int, n: nat): seq<CartItem>
    decreases n
  {
    if n == 0 then cart else AddTimes(AddLine(cart, uid, pid), uid, pid, n - 1)
  }

  /**
   After `n` adds the quantity has grown by exactly `n` (so it is `n` when
   the product was not in the cart), and the table still has at most one row
   per (user, product).
   */
  lemma {:induction false} AddTimesSpec(cart: seq<CartItem>, products: seq<Product>, uid: int, pid: int, n: nat)
    requires WellFormed(cart, products)
    requires FindProduct(products, pid).Some?
    ensures Quantity(AddTimes(cart, uid, pid, n), uid, pid) == Quantity(cart, uid, pid) + n
    ensures WellFormed(AddTimes(cart, uid, pid, n), products)
    decreases n
  {
    if n > 0 {
      var next := AddLine(cart, uid, pid);
      assert Quantity(next, uid, pid) == Quantity(cart, uid, pid) + 1 by {
        AddLineSpec(cart, uid, pid);
      }
      AddLineWellFormed(cart, products, uid, pid);
      AddTimesSpec(next, products, uid, pid, n - 1);
      assert AddTimes(cart, uid, pid, n) == AddTimes(next, uid, pid, n - 1);
    }
  }

  /** The table without the row at position `i`. */
  function RemoveAt(cart: seq<CartItem>, i: nat): seq<CartItem>
    requires i < |cart|
  {
    cart[..i] + cart[i + 1..]
  }

  /**
   Removing the row with key `id` takes out exactly that row: the table
   loses that one element, and afterwards holds exactly the rows with other
   keys.
   */
  lemma RemoveSpec(cart: seq<CartItem>, i: nat)
    requires UniqueIds(cart, CartItemId)
    requires i < |cart|
    ensures multiset(RemoveAt(cart, i)) + multiset{cart[i]} == multiset(cart)
    ensures forall r :: r in RemoveAt(cart, i) <==> r in cart && r.id != cart[i].id
  {
    var after := RemoveAt(cart, i);
    assert cart == cart[..i] + [cart[i]] + cart[i + 1..];
    forall r | r in cart && r.id != cart[i].id ensures r in after {
      var k :| 0 <= k < |cart| && cart[k] == r;
      if k < i { assert after[k] == r; } else { assert after[k - 1] == r; }
    }
    forall r | r in after ensures r in cart && r.id != cart[i].id {
      var k :| 0 <= k < |after| && after[k] == r;
      var m := if k < i then k else k + 1;
      assert after[k] == cart[m];
      UniqueIdsApart(cart, CartItemId, i, m);
    }
  }

  /** Removing a row keeps the cart table well formed. */
  lemma RemoveWellFormed(cart: seq<CartItem>, products: seq<Product>, i: nat)
    requires WellFormed(cart, products)
    requires i < |cart|
    ensures WellFormed(RemoveAt(cart, i), products)
  {
    var after := RemoveAt(cart, i);
    assert forall j :: 0 <= j < |after| ==> after[j] == cart[if j < i then j else j + 1];
    assert forall x :: x in after ==> x in cart;
  }

  /** The rows of user `uid`, in table order (`filter_by(user_id=uid).all()`). */
  function UserLines(cart: seq<CartItem>, uid: int): (r: seq<CartItem>)
    ensures forall c :: c in r <==> c in cart && c.userId == uid
  {
    if cart == [] then []
    else (if cart[0].userId == uid then [cart[0]] else []) + UserLines(cart[1..], uid)
  }

  /** The table after the bulk delete `filter_by(user_id=uid).delete()`. */
  function WithoutUser(cart: seq<CartItem>, uid: int): (r: seq<CartItem>)
    ensures forall c :: c in r <==> c in cart && c.userId != uid
  {
    if cart == [] then []
    else (if cart[0].userId != uid then [cart[0]] else []) + WithoutUser(cart[1..], uid)
  }

  /**
   The bulk delete empties the cart of `uid` and leaves every other user's
   cart exactly as it was, rows and order alike.
   */
  lemma {:induction false} WithoutUserSpec(cart: seq<CartItem>, uid: int, v: int)
    ensures UserLines(WithoutUser(cart, uid), v) == if v == uid then [] else UserLines(cart, v)
  {
    if cart != [] {
      WithoutUserSpec(cart[1..], uid, v);
      var rest := WithoutUser(cart[1..], uid);
      assert UserLines(cart, v) == (if cart[0].userId == v then [cart[0]] else []) + UserLines(cart[1..], v);
      if cart[0].userId != uid {
        var r := [cart[0]] + rest;
        assert WithoutUser(cart, uid) == r;
        assert r[0] == cart[0] && r[1..] == rest;
        assert UserLines(r, v) == (if cart[0].userId == v then [cart[0]] else []) + UserLines(rest, v);
      } else {
        assert WithoutUser(cart, uid) == rest;
      }
    }
  }

  /** The bulk delete keeps the cart table well formed. */
  lemma WithoutUserWellFormed(cart: seq<CartItem>, products: seq<Product>, uid: int)
    requires WellFormed(cart, products)
    ensures WellFormed(WithoutUser(cart, uid), products)
  {
    WithoutUserDistinct(cart, uid);
  }

  lemma {:induction false} WithoutUserDistinct(cart: seq<CartItem>, uid: int)
    requires Distinct(cart)
    ensures Distinct(WithoutUser(cart, uid))
  {
    if cart != [] {
      var tail := cart[1..];
      assert Distinct(tail) by {
        forall i, j | 0 <= i < j < |tail| ensures tail[i] != tail[j] {
          assert cart[i + 1] != cart[j + 1];
        }
      }
      WithoutUserDistinct(tail, uid);
      var rest := WithoutUser(tail, uid);
      if cart[0].userId != uid {
        assert cart[0] !in tail by {
          forall k | 0 <= k < |tail| ensures tail[k] != cart[0] {
            assert cart[0] != cart[k + 1];
          }
        }
        var r := [cart[0]] + rest;
        forall i, j | 0 <= i < j < |r| ensures r[i] != r[j] {
          if i == 0 {
            assert r[j] == rest[j - 1];
          } else {
            assert r[i] == rest[i - 1] && r[j] == rest[j - 1];
          }
        }
      }
    }
  }

  /** Every line's product is in the catalogue, so the line has a price. */
  ghost predicate Priced(products: seq<Product>, items: seq<CartItem>) {
    forall c :: c in items ==> FindProduct(products, c.productId).Some?
  }

  /** `sum(item.product.price * item.quantity for item in items)`. */
  function Total(products: seq<Product>, items: seq<CartItem>): int
    requires Priced(products, items)
  {
    if items == [] then 0
    else FindProduct(products, items[0].productId).value.price * items[0].quantity + Total(products, items[1..])
  }

  /** The total of two lists of lines is the sum of their totals. */
  lemma {:induction false} TotalAppend(products: seq<Product>, a: seq<CartItem>, b: seq<CartItem>)
    requires Priced(products, a) && Priced(products, b)
    ensures Priced(products, a + b)
    ensures Total(products, a + b) == Total(products, a) + Total(products, b)
  {
    if a != [] {
      assert (a + b)[0] == a[0] && (a + b)[1..] == a[1..] + b;
      TotalAppend(products, a[1..], b);
      var head := FindProduct(products, a[0].productId).value.price * a[0].quantity;
      assert Total(products, a + b) == head + Total(products, a[1..] + b);
      assert Total(products, a) == head + Total(products, a[1..]);
    } else {
      assert a + b == b;
    }
  }

  /** With non-negative prices and positive quantities, a total is never negative, and it is 0 for no lines. */
  lemma {:induction false} TotalSign(products: seq<Product>, items: seq<CartItem>)
    requires Priced(products, items)
    requires forall p :: p in products ==> p.price >= 0
    requires forall c :: c in items ==> c.quantity >= 1
    ensures Total(products, items) >= 0
    ensures items == [] ==> Total(products, items) == 0
  {
    if items != [] {
      TotalSign(products, items[1..]);
      var p := FindProduct(products, items[0].productId).value;
      assert p.price * items[0].quantity >= 0 by {
        assert p.price >= 0 && items[0].quantity >= 1;
      }
    }
  }
}
