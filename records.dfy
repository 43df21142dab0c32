/** The Option wrapper used for nullable columns and for lookups that may miss. */
module Wrappers {
  datatype Option<+T> = None | Some(value: T)
}

/**
 The rows of the storefront's tables, as values, and the rule by which the
 database hands out primary keys.

 Prices and totals are integers in minor units (the store keeps them as
 floating point). Every table is a sequence of rows in insertion order.
 */
module Records {
  import opened Wrappers

  /** The `role` column: the store only ever writes 'user' (Customer) or 'admin'. */
  datatype Role = Customer | Admin

  datatype Product = Product(id: int, name: string, price: int, category: string, stock: int)
  datatype Category = Category(id: int, name: string)
  /** `password` holds the digest produced by the password-hashing library, never the password. */
  datatype User = User(id: int, username: string, password: string, role: Role)
  datatype CartItem = CartItem(id: int, productId: int, userId: int, quantity: int)
  /** `status` is a nullable free-text column; a missing form field writes NULL (None). */
  datatype Order = Order(id: int, userId: int, totalPrice: int, status: Option<string>)
  datatype OrderItem = OrderItem(id: int, orderId: int, productId: int, quantity: int)
  datatype Favorite = Favorite(id: int, userId: int, productId: int)

  /** Default status of a new order: "in progress" in Persian. */
  const DefaultStatus: string := "در حال پردازش"

  /** User name of the account created at startup. */
  const AdminUsername: string := "admin"

  /** Categories guaranteed at startup: vehicle, clothing, food, household, electronic, digital. */
  const DefaultCategories: seq<string> :=
    ["وسیله نقلیه", "پوشاک", "خوراکی", "لوازم خانگی", "الکترونیکی", "دیجیتال"]

  function ProductId(r: Product): int { r.id }
  function CategoryId(r: Category): int { r.id }
  function UserId(r: User): int { r.id }
  function CartItemId(r: CartItem): int { r.id }
  function OrderId(r: Order): int { r.id }
  function OrderItemId(r: OrderItem): int { r.id }
  function FavoriteId(r: Favorite): int { r.id }

  /** No row occurs twice. */
  ghost predicate Distinct<T>(rows: seq<T>) {
    forall i, j :: 0 <= i < j < |rows| ==> rows[i] != rows[j]
  }

  /** Rows with the same key are the same row. */
  ghost predicate KeyedBy<T>(rows: seq<T>, id: T -> int) {
    forall x, y :: x in rows && y in rows && id(x) == id(y) ==> x == y
  }

  /** No two rows of a table share a primary key. */
  ghost predicate UniqueIds<T>(rows: seq<T>, id: T -> int) {
    Distinct(rows) && KeyedBy(rows, id)
  }

  /** Two rows at different positions have different keys. */
  lemma UniqueIdsApart<T>(rows: seq<T>, id: T -> int, i: int, j: int)
    requires UniqueIds(rows, id)
    requires 0 <= i < |rows| && 0 <= j < |rows| && i != j
    ensures id(rows[i]) != id(rows[j])
  {
    if i < j { assert rows[i] != rows[j]; } else { assert rows[j] != rows[i]; }
  }

  function Max(a: int, b: int): int { if a < b then b else a }

  /**
   The key the database gives the next inserted row: one more than the largest
   key in the table, or 1 for an empty table (an INTEGER PRIMARY KEY of SQLite).
   */
  function NextId<T>(rows: seq<T>, id: T -> int): (n: int)
    ensures n >= 1
    ensures forall i :: 0 <= i < |rows| ==> id(rows[i]) < n
  {
    if rows == [] then 1 else Max(NextId(rows[..|rows| - 1], id), id(rows[|rows| - 1]) + 1)
  }

  /** Inserting a row with the next key moves the next key up by exactly one. */
  lemma NextIdAfterInsert<T>(rows: seq<T>, r: T, id: T -> int)
    requires id(r) == NextId(rows, id)
    ensures NextId(rows + [r], id) == NextId(rows, id) + 1
  {
    assert (rows + [r])[..|rows|] == rows;
  }

  /** Two tables with the same keys, position by position, hand out the same next key. */
  lemma {:induction false} NextIdSameKeys<T>(a: seq<T>, b: seq<T>, id: T -> int)
    requires |a| == |b|
    requires forall j :: 0 <= j < |a| ==> id(a[j]) == id(b[j])
    ensures NextId(a, id) == NextId(b, id)
  {
    if a != [] {
      NextIdSameKeys(a[..|a| - 1], b[..|b| - 1], id);
    }
  }

  /** Inserting a row with the next key keeps the keys unique. */
  lemma InsertKeepsIdsUnique<T>(rows: seq<T>, r: T, id: T -> int)
    requires UniqueIds(rows, id)
    requires id(r) == NextId(rows, id)
    ensures UniqueIds(rows + [r], id)
  {
    assert r !in rows;
    var after := rows + [r];
    forall i, j | 0 <= i < j < |after| ensures after[i] != after[j] {
      if j == |rows| {
        assert after[i] == rows[i];
      } else {
        assert after[i] == rows[i] && after[j] == rows[j];
      }
    }
  }

  /** Position of the row with key `key` (`query.get(key)`), if any. */
  function Locate<T>(rows: seq<T>, id: T -> int, key: int): (r: Option<nat>)
    ensures r.Some? ==> r.value < |rows| && id(rows[r.value]) == key
    ensures r.None? ==> forall j :: 0 <= j < |rows| ==> id(rows[j]) != key
  {
    if rows == [] then None
    else if id(rows[0]) == key then Some(0)
    else match Locate(rows[1..], id, key)
      case None => None
      case Some(k) => Some(k + 1)
  }
}
