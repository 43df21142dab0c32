/**
 The store's database as one object whose tables are sequences of rows, and
 the request handlers that change it as methods. Each handler's signed-in
 user arrives as a parameter (the session is outside this model); every
 handler keeps the invariant `Valid`.
 */
module Storefront {
  import opened Wrappers
  import opened Records
  import opened Text
  import opened Cart
  import opened Orders
  import opened Accounts
  import opened Favorites
  import opened Categories

  /** `add_to_cart`: 404 for an unknown product, otherwise the cart changes. */
  datatype CartReply = ProductNotFound | AddedToCart

  /** `remove_from_cart`: 404 for an unknown row key. */
  datatype RemoveReply = ItemNotFound | ItemRemoved

  /** `checkout`: an empty cart is refused; otherwise the key of the new order. */
  datatype CheckoutReply = CartEmpty | OrderPlaced(orderId: int)

  /** `change_order_status`: 403 for a non-admin, 404 for an unknown order. */
  datatype StatusReply = Forbidden | OrderNotFound | StatusUpdated

  /** `register`: a signed-in visitor is sent to their landing page; a taken name is refused. */
  datatype RegisterReply = AlreadySignedIn(landing: Landing) | UsernameTaken | Registered(user: User)

  class Store {
    var products: seq<Product>
    var categories: seq<Category>
    var users: seq<User>
    var cart: seq<CartItem>
    var orders: seq<Order>
    var orderItems: seq<OrderItem>
    var favorites: seq<Favorite>

    /**
     The database invariants: unique keys and unique names, the cart rules,
     every line item belongs to an order already handed out and has a
     product, every order's total is the price of its line items, and each
     (user, product) pair is a favourite at most once.
     */
    ghost predicate Valid()
      reads this
    {
      && UniqueIds(products, ProductId)
      && CategoryTable(categories)
      && UniqueIds(users, UserId) && UniqueUsernames(users)
      && WellFormed(cart, products)
      && Ledger(products, orders, orderItems)
      && UniqueIds(favorites, FavoriteId) && OncePerPair(favorites)
    }

    /** An empty database over a fixed catalogue. */
    constructor (catalogue: seq<Product>)
      requires UniqueIds(catalogue, ProductId)
      ensures products == catalogue
      ensures categories == [] && users == [] && cart == [] && orders == [] && orderItems == [] && favorites == []
      ensures Valid()
    {
      products := catalogue;
      categories := [];
      users := [];
      cart := [];
      orders := [];
      orderItems := [];
      favorites := [];
    }

    /**
     `view_cart`: the rows of user `uid` and their total. Every row has a
     product and a quantity of at least 1, and an empty cart costs 0.
     */
    method ViewCart(uid: int) returns (items: seq<CartItem>, total: int)
      requires Valid()
      ensures forall c :: c in items <==> c in cart && c.userId == uid
      ensures items == UserLines(cart, uid) && Priced(products, items)
      ensures total == Total(products, items)
      ensures forall c :: c in items ==> c.quantity >= 1
      ensures items == [] ==> total == 0
    {
      items := UserLines(cart, uid);
      total := Total(products, items);
    }

    /**
     `add_to_cart`: for a product in the catalogue, the quantity of
     (`uid`, `pid`) goes up by one, by raising the row's quantity or by
     inserting a row with quantity 1, and no other pair's quantity changes.
     An unknown product changes nothing.
     */
    method AddToCart(uid: int, pid: int) returns (reply: CartReply)
      requires Valid()
      modifies this`cart
      ensures Valid()
      ensures reply == ProductNotFound <==> FindProduct(products, pid).None?
      ensures reply == ProductNotFound ==> cart == old(cart)
      ensures reply == AddedToCart ==> cart == AddLine(old(cart), uid, pid)
      ensures reply == AddedToCart ==> Quantity(cart, uid, pid) == Quantity(old(cart), uid, pid) + 1
      ensures forall u, p :: (u, p) != (uid, pid) ==> Quantity(cart, u, p) == Quantity(old(cart), u, p)
    {
      if FindProduct(products, pid).None? {
        return ProductNotFound;
      }
      AddLineSpec(cart, uid, pid);
      AddLineWellFormed(cart, products, uid, pid);
      ghost var expected := AddLine(cart, uid, pid);
      var existing := FindLine(cart, uid, pid);
      if existing.Some? {
        var i := existing.value;
        cart := cart[i := cart[i].(quantity := cart[i].quantity + 1)];
      } else {
        cart := cart + [CartItem(NextId(cart, CartItemId), pid, uid, 1)];
      }
      assert cart == expected;
      reply := AddedToCart;
    }

    /**
     `remove_from_cart`: deletes the row with key `itemId`, whoever owns it,
     and nothing else; an unknown key changes nothing.
     */
    method RemoveFromCart(itemId: int) returns (reply: RemoveReply)
      requires Valid()
      modifies this`cart
      ensures Valid()
      ensures reply == ItemNotFound <==> forall c :: c in old(cart) ==> c.id != itemId
      ensures reply == ItemNotFound ==> cart == old(cart)
      ensures reply == ItemRemoved ==>
        && |cart| == |old(cart)| - 1
        && (forall c :: c in cart <==> c in old(cart) && c.id != itemId)
        && exists i :: 0 <= i < |old(cart)| && old(cart)[i].id == itemId && cart == RemoveAt(old(cart), i)
    {
      match Locate(cart, CartItemId, itemId) {
        case None =>
          reply := ItemNotFound;
        case Some(i) =>
          RemoveSpec(cart, i);
          RemoveWellFormed(cart, products, i);
          cart := RemoveAt(cart, i);
          reply := ItemRemoved;
      }
    }

    /**
     `checkout_test`, which is also the last step of `checkout`: the bulk
     delete `filter_by(user_id=uid).delete()`. The cart of `uid` is emptied
     and every other user's cart is left as it was, rows and order alike.
     */
    method ClearCart(uid: int)
      requires Valid()
      modifies this`cart
      ensures Valid()
      ensures cart == WithoutUser(old(cart), uid)
      ensures UserLines(cart, uid) == []
      ensures forall v :: v != uid ==> UserLines(cart, v) == UserLines(old(cart), v)
    {
      WithoutUserWellFormed(cart, products, uid);
      forall v ensures UserLines(WithoutUser(cart, uid), v) == if v == uid then [] else UserLines(cart, v) {
        WithoutUserSpec(cart, uid, v);
      }
      cart := WithoutUser(cart, uid);
    }

    /**
     `checkout`: an empty cart is refused and nothing changes. Otherwise one
     order is added with the next key, the cart's total and the default
     status; one line item per cart row, in cart order, with that row's
     product and quantity; and the cart of `uid` is emptied while every other
     cart and every earlier order and line item stay as they were.
     */
    method Checkout(uid: int) returns (reply: CheckoutReply)
      requires Valid()
      modifies this`cart, this`orders, this`orderItems
      ensures Valid()
      ensures reply == CartEmpty <==> UserLines(old(cart), uid) == []
      ensures reply == CartEmpty ==> cart == old(cart) && orders == old(orders) && orderItems == old(orderItems)
      ensures reply.OrderPlaced? ==>
        var items := UserLines(old(cart), uid);
        var oid := NextId(old(orders), OrderId);
        && Priced(products, items)
        && reply.orderId == oid
        && orders == old(orders) + [Order(oid, uid, Total(products, items), Some(DefaultStatus))]
        && orderItems == old(orderItems) + OrderLines(items, oid, NextId(old(orderItems), OrderItemId))
        && cart == WithoutUser(old(cart), uid)
    {
      var items := UserLines(cart, uid);
      if items == [] {
        return CartEmpty;
      }
      var oid := PlaceOrder(uid, items);
      ClearCart(uid);
      reply := OrderPlaced(oid);
    }

    /**
     The order part of `checkout` for the non-empty cart rows `items` of
     `uid`: one order with the next key, the rows' total and the default
     status, then one line item per row; the ledger stays consistent.
     */
    method PlaceOrder(uid: int, items: seq<CartItem>) returns (oid: int)
      requires Valid()
      requires Priced(products, items)
      modifies this`orders, this`orderItems
      ensures Valid()
      ensures oid == NextId(old(orders), OrderId)
      ensures orders == old(orders) + [Order(oid, uid, Total(products, items), Some(DefaultStatus))]
      ensures orderItems == old(orderItems) + OrderLines(items, oid, NextId(old(orderItems), OrderItemId))
      ensures ItemsOf(orderItems, oid) == OrderLines(items, oid, NextId(old(orderItems), OrderItemId))
    {
      var total := Total(products, items);
      oid := NextId(orders, OrderId);
      var order := Order(oid, uid, total, Some(DefaultStatus));
      var lines := CopyLines(orderItems, items, oid);
      CheckoutKeepsLedger(products, orders, orderItems, order, items, NextId(orderItems, OrderItemId));
      orders := orders + [order];
      orderItems := lines;
    }

    /**
     `change_order_status`: only an admin may call it; the order with key
     `orderId` gets `status` (NULL when the form has no status field) and
     nothing else changes.
     */
    method ChangeOrderStatus(current: User, orderId: int, status: Option<string>) returns (reply: StatusReply)
      requires Valid()
      modifies this`orders
      ensures Valid()
      ensures reply == Forbidden <==> !IsAdmin(Some(current))
      ensures reply == OrderNotFound <==> IsAdmin(Some(current)) && forall o :: o in old(orders) ==> o.id != orderId
      ensures reply != StatusUpdated ==> orders == old(orders)
      ensures reply == StatusUpdated ==>
        && |orders| == |old(orders)|
        && forall j :: 0 <= j < |orders| ==>
          orders[j] == if old(orders)[j].id == orderId then old(orders)[j].(status := status) else old(orders)[j]
    {
      if !IsAdmin(Some(current)) {
        return Forbidden;
      }
      match Locate(orders, OrderId, orderId) {
        case None =>
          reply := OrderNotFound;
        case Some(i) =>
          forall j | 0 <= j < |orders| && j != i ensures orders[j].id != orderId {
            UniqueIdsApart(orders, OrderId, i, j);
          }
          StatusKeepsLedger(products, orders, orderItems, i, status);
          orders := orders[i := orders[i].(status := status)];
          reply := StatusUpdated;
      }
    }

    /**
     `add_to_favorite`: a missing product key answers Unauthorized and
     changes nothing; a pair already present answers "already" and changes
     nothing; otherwise one row is added. Each pair stays in at most once.
     */
    method AddToFavorite(uid: int, productId: Option<int>) returns (reply: FavoriteReply)
      requires Valid()
      modifies this`favorites
      ensures Valid()
      ensures reply == FavoriteReplyFor(old(favorites), uid, productId)
      ensures favorites == FavoritesAfter(old(favorites), uid, productId)
      ensures reply != AddedToFavorites ==> favorites == old(favorites)
      ensures reply == AddedToFavorites ==> |favorites| == |old(favorites)| + 1
      ensures !MissingProduct(productId) ==> FavoriteCount(favorites, uid, productId.value) == 1
    {
      FavoritesAfterSpec(favorites, uid, productId);
      FavoritesAfterOncePerPair(favorites, uid, productId);
      if MissingProduct(productId) {
        return Unauthorized;
      }
      if HasFavorite(favorites, uid, productId.value) {
        return AlreadyInFavorites;
      }
      var row := Favorite(NextId(favorites, FavoriteId), uid, productId.value);
      InsertKeepsIdsUnique(favorites, row, FavoriteId);
      favorites := favorites + [row];
      reply := AddedToFavorites;
    }

    /**
     `register`: a signed-in visitor is redirected and nothing changes; a
     stripped name already in use is refused and nothing changes; otherwise
     one account is added with the stripped name and the digest, as admin
     exactly when there were no accounts before.
     */
    method Register(current: Option<User>, username: string, digest: string) returns (reply: RegisterReply)
      requires Valid()
      modifies this`users
      ensures Valid()
      ensures reply.AlreadySignedIn? <==> current.Some?
      ensures reply.AlreadySignedIn? ==> reply.landing == LandingFor(current.value)
      ensures reply == UsernameTaken <==> current.None? && exists u :: u in old(users) && u.username == Strip(username)
      ensures !reply.Registered? ==> users == old(users)
      ensures reply.Registered? ==>
        && reply.user == User(NextId(old(users), UserId), Strip(username), digest, NewUserRole(old(users)))
        && users == old(users) + [reply.user]
        && (reply.user.role == Admin <==> old(users) == [])
    {
      if current.Some? {
        return AlreadySignedIn(LandingFor(current.value));
      }
      var name := Strip(username);
      if FindUser(users, name).Some? {
        return UsernameTaken;
      }
      var role := NewUserRole(users);
      var user := User(NextId(users, UserId), name, digest, role);
      InsertKeepsIdsUnique(users, user, UserId);
      users := users + [user];
      reply := Registered(user);
    }

    /**
     `manage_categories` on a submitted form: the stripped name is added
     unless it is blank or already a category.
     */
    method ManageCategories(rawName: string)
      requires Valid()
      modifies this`categories
      ensures Valid()
      ensures categories == AddCategory(old(categories), rawName)
      ensures Names(categories) == Names(old(categories)) + (if Strip(rawName) == "" then {} else {Strip(rawName)})
      ensures Strip(rawName) == "" || Strip(rawName) in Names(old(categories)) <==> categories == old(categories)
    {
      AddCategorySpec(categories, rawName);
      var name := Strip(rawName);
      if name != "" && name !in Names(categories) {
        categories := categories + [Category(NextId(categories, CategoryId), name)];
      }
    }

    /**
     Startup: adds the default categories that are missing, in order, then
     the account 'admin' with the given digest unless a user of that name
     exists. Afterwards all defaults and the admin account are present, and
     a later registration can no longer be the first one.
     */
    method Seed(adminDigest: string)
      requires Valid()
      modifies this`categories, this`users
      ensures Valid()
      ensures categories == Seeded(old(categories))
      ensures users == if FindUser(old(users), AdminUsername).Some? then old(users)
        else old(users) + [User(NextId(old(users), UserId), AdminUsername, adminDigest, Admin)]
      ensures FindUser(users, AdminUsername).Some?
      ensures NewUserRole(users) == Customer
    {
      DefaultCategoriesDistinct();
      SeedWith(DefaultCategories, adminDigest);
    }

    /** The body of startup seeding, for the distinct category names `defaults`. */
    method SeedWith(defaults: seq<string>, adminDigest: string)
      requires Valid()
      requires DistinctNames(defaults)
      modifies this`categories, this`users
      ensures Valid()
      ensures categories == AddMissing(old(categories), defaults, Names(old(categories)))
      ensures users == if FindUser(old(users), AdminUsername).Some? then old(users)
        else old(users) + [User(NextId(old(users), UserId), AdminUsername, adminDigest, Admin)]
      ensures FindUser(users, AdminUsername).Some?
      ensures NewUserRole(users) == Customer
    {
      FillMissingSpec(categories, defaults);
      categories := InsertMissing(categories, defaults);

      if FindUser(users, AdminUsername).None? {
        var admin := User(NextId(users, UserId), AdminUsername, adminDigest, Admin);
        InsertKeepsIdsUnique(users, admin, UserId);
        users := users + [admin];
        assert FindUser(users, AdminUsername).Some? by {
          assert admin in users;
        }
      }
    }
  }

  /**
   The loop of `checkout` that adds one line item per cart row of the new
   order `oid` to the table `lines`, with that row's product and quantity.
   The database hands the rows the keys `next`, `next + 1`, ... in turn,
   where `next` is the table's next key before the loop.
   */
  method CopyLines(lines: seq<OrderItem>, items: seq<CartItem>, oid: int) returns (r: seq<OrderItem>)
    requires UniqueIds(lines, OrderItemId)
    ensures r == lines + OrderLines(items, oid, NextId(lines, OrderItemId))
    ensures UniqueIds(r, OrderItemId)
  {
    var next := NextId(lines, OrderItemId);
    r := lines;
    for k := 0 to |items|
      invariant r == lines + OrderLines(items[..k], oid, next)
    {
      CopyStep(lines, items, k, oid, next);
      r := r + [OrderItem(next + k, oid, items[k].productId, items[k].quantity)];
    }
    assert items[..|items|] == items;
    AppendedLinesUnique(lines, items, oid, next);
  }

  /**
   The seeding loop: each of `names` that is not among the names of `cats`
   read before the loop is inserted, in order, with the next key.
   */
  method InsertMissing(cats: seq<Category>, names: seq<string>) returns (r: seq<Category>)
    ensures r == AddMissing(cats, names, Names(cats))
  {
    var existing := Names(cats);
    r := cats;
    for k := 0 to |names|
      invariant AddMissing(r, names[k..], existing) == AddMissing(cats, names, existing)
    {
      assert names[k..][1..] == names[k + 1..];
      if names[k] !in existing {
        r := r + [Category(NextId(r, CategoryId), names[k])];
      }
    }
  }
}
