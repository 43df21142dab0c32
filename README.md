# Storefront rules, modelled and proved in Dafny

This project models the business rules of a small Flask storefront (`app.py`).
It covers:

- the shopping cart (`add_to_cart`, `remove_from_cart`, `view_cart`);
- checkout into orders (`checkout`, `checkout_test`);
- the admin's order-status update (`change_order_status`);
- the favourites endpoint (`add_to_favorite`);
- registration and login (`register`, `login`, `is_admin`);
- the category form (`manage_categories`);
- the product listing of `dashboard` and `shop`;
- the seeding run at startup.

The database is a `Store` object in `store.dfy`. Each table is a sequence of
rows, in insertion order, held in a field of the object. Each request handler
is a method that changes only the tables it writes, stating each table's new
contents in terms of the old ones. Every handler keeps the invariant
`Store.Valid`:

- primary keys are unique in every table;
- category names and user names are unique;
- the cart holds at most one row per (user, product), every quantity is at
  least 1 and every row's product exists;
- every line item belongs to an order whose key has already been handed out;
- every order's stored total equals price × quantity summed over its own line
  items;
- every (user, product) pair appears in the favourites at most once.

The pure parts are functions, each with lemmas about it:

- the cart rules (`cart.dfy`);
- the checkout copies (`orders.dfy`);
- the account rules (`accounts.dfy`);
- favourites (`favorites.dfy`);
- categories (`categories.dfy`);
- the listing (`catalog.dfy`);
- Python's `str.strip()` and the case-insensitive substring test (`text.dfy`).

`records.dfy` holds the row types and SQLite's key rule: a new row gets one
more than the largest key, or 1 in an empty table.

The following are parameters of the model:

- the signed-in user;
- the digest of a new password;
- the password check, an arbitrary function `verify(digest, password)`.

Prices and totals are integers in minor units.

Two behaviours of the code to note:

- **The seeded 'admin' counts as an account.** Registration makes an account
  admin only when the user table is empty, and it counts the 'admin' account
  created at startup (app.py:337-338, 538-542). So no registration after
  startup gets the admin role. `Storefront.Store.Seed` proves this: it
  ensures `NewUserRole(users) == Customer`.
- **Checkout commits in two steps.** Checkout commits the order (app.py:436)
  before its line items and the cart delete (app.py:449). The model states
  only the end state of a request that completes.

## Model

| member | source | states |
|---|---|---|
| Records.NextId | app.py:37-94 | The key the database gives a new row is at least 1 and larger than every key in the table. |
| Records.NextIdAfterInsert | app.py:37-94 | Inserting a row with the next key moves the next key up by exactly one. |
| Records.InsertKeepsIdsUnique | app.py:37-94 | Inserting a row with the next key keeps every primary key unique. |
| Records.NextIdSameKeys | app.py:477 | Two tables with the same keys, position by position, hand out the same next key, so overwriting a non-key column does not move the next key. |
| Records.Locate | app.py:303 | `get_or_404` by key: the position found holds that key; when nothing is found, no row has that key. |
| Text.StripSpec | app.py:109 | `strip()` returns a contiguous piece of the input with only white space cut off either end, and no white space at either edge of the result. |
| Text.StripBlankIff | app.py:255-256 | A stripped name is blank exactly when the raw input held only white space, which is when the category form ignores it. |
| Text.StripIdempotent | app.py:327 | Stripping twice is stripping once. |
| Text.FindIff | app.py:115 | The substring scan succeeds exactly when the term occurs contiguously in the name. |
| Text.ContainsIgnoringCaseIff | app.py:236 | The name filter holds exactly when the lower-cased term occurs in the lower-cased name. |
| Catalog.Filter | app.py:113-118 | The filtered query holds exactly the products passing the name and category filters, each as often as in the table. |
| Catalog.Insert | app.py:120-123 | Inserting into a price-sorted list gives a sorted permutation of the list plus the new product. |
| Catalog.SortByPrice | app.py:120-123 | Ordering by price yields a permutation of the input that is sorted in the chosen direction. |
| Catalog.ListingSpec | app.py:229-246 | The listing is a permutation of the filtered products; 'price_asc' gives non-decreasing and 'price_desc' non-increasing prices. |
| Catalog.ListedMatch | app.py:113-118 | Every listed product's name contains the stripped term, ignoring ASCII case, and its category is the chosen one when one is given. |
| Cart.FindProduct | app.py:285 | `Product.query.get` finds a product with that key, or proves that no product has it. |
| Cart.FindLine | app.py:288 | `filter_by(product_id, user_id).first()` returns the first row of the pair, or proves there is none. |
| Cart.AddLineSpec | app.py:288-294 | Adding raises the pair's quantity by one and leaves every other pair's quantity alone; the table grows exactly when the pair had no row. |
| Cart.BumpWellFormed | app.py:291 | Raising one row's quantity keeps the cart well formed. |
| Cart.InsertWellFormed | app.py:293-294 | Inserting a row for a pair without one, with quantity 1 and the next key, keeps the cart well formed. |
| Cart.AddLineWellFormed | app.py:288-294 | Adding a catalogued product keeps at most one row per pair, quantities of at least 1 and unique keys. |
| Cart.AddTimesSpec | app.py:284-296 | `n` adds raise the quantity by exactly `n`, so the quantity is `n` from an empty cart, and the table stays well formed. |
| Cart.RemoveSpec | app.py:303-304 | Deleting the row with a key removes exactly that one row: afterwards the table holds exactly the rows with other keys. |
| Cart.RemoveWellFormed | app.py:303-305 | Deleting a row keeps the cart well formed. |
| Cart.UserLines | app.py:276 | `filter_by(user_id=uid).all()` holds exactly the rows of that user. |
| Cart.WithoutUser | app.py:417 | After the bulk delete the table holds exactly the rows of other users. |
| Cart.WithoutUserSpec | app.py:417 | The bulk delete empties that user's cart and leaves every other user's rows as they were, in the same order. |
| Cart.WithoutUserWellFormed | app.py:448 | The bulk delete keeps the cart well formed. |
| Cart.TotalAppend | app.py:277 | The sum of price × quantity over two lists of lines is the sum of their two totals. |
| Cart.TotalSign | app.py:277 | With non-negative prices and quantities of at least 1, a total is never negative, and an empty cart costs 0. |
| Orders.OrderLines | app.py:439-445 | The copies of the cart rows keep each row's product and quantity, in cart order, link them to the order and carry consecutive keys. |
| Orders.OrderLinesSnoc | app.py:439-445 | Copying one more cart row appends exactly that row's copy. |
| Orders.CopyStep | app.py:439-445 | One loop step extends the copied prefix by the copy of the next cart row. |
| Orders.AppendedLinesUnique | app.py:445 | Line items inserted from the next key on keep every line-item key unique. |
| Orders.LinesTotalIsCartTotal | app.py:431-445 | The total over the copied line items equals the cart total stored on the order. |
| Orders.ItemsOf | app.py:84 | The items of an order are exactly the line items linked to it. |
| Orders.ItemsOfAppend | app.py:439-445 | Adding a new order's line items gives it exactly those items and leaves every other order's items unchanged. |
| Orders.OwnLines | app.py:441 | The copies belong to the new order and to no other. |
| Orders.CheckoutKeepsLedger | app.py:431-445 | A new order with the next key and the cart total, plus its copied items, keeps keys unique and every order's total equal to its items' total. |
| Orders.StatusKeepsLedger | app.py:477 | Overwriting one order's status keeps the keys, the next key and every order's total consistent. |
| Accounts.FindUser | app.py:361 | The lookup by user name returns an account with that name, or proves that none exists. |
| Accounts.LoginSpec | app.py:356-381 | Login signs in exactly when an account has the stripped name, the password is not empty and it verifies. An unknown name and an empty password each get their own refusal. An admin lands on the dashboard, anyone else on the shop. |
| Favorites.HasFavoriteIff | app.py:492 | `filter_by(user_id, product_id).first()` finds a row exactly when the pair's count is positive. |
| Favorites.FavoritesAfterSpec | app.py:489-499 | A missing product key changes nothing. Otherwise the pair is present afterwards, a row is added exactly when the reply is "Added", and no other pair changes. |
| Favorites.FavoritesAfterOncePerPair | app.py:492-498 | The endpoint keeps each pair in the favourites at most once. |
| Favorites.AddFavoriteTwice | app.py:492-494 | A second add of the same product answers "Already in favorites", changes nothing, and leaves the pair in exactly once. |
| Categories.AddCategorySpec | app.py:255-260 | The form adds the stripped name unless it is blank or already used, and only then changes the table. Names and keys stay unique, and submitting the same name again changes nothing. |
| Categories.AddMissingNames | app.py:531-535 | The seeding loop adds exactly the names that were not already present. |
| Categories.AddMissingKeepsRows | app.py:533-535 | The seeding loop keeps the existing rows as a prefix and keeps keys unique. |
| Categories.AddMissingUniqueNames | app.py:533-535 | The seeding loop keeps category names unique when the names it adds are distinct. |
| Categories.AddMissingNone | app.py:534 | When every name is already present, the seeding loop adds nothing. |
| Categories.DefaultCategoriesDistinct | app.py:530 | The six default category names are pairwise distinct. |
| Categories.FillMissingSpec | app.py:530-535 | Seeding with distinct names adds exactly the missing ones after the existing rows and keeps names and keys unique; a second run adds nothing. |
| Categories.SeededSpec | app.py:526-535 | After startup all six defaults are present, the existing rows are kept, names and keys are unique, and a second start changes nothing. |
| Text.Strip | app.py:109 | Python's `str.strip()`, used at app.py:230, 255, 327 and 356 as well. Its properties are stated by Text.StripSpec, Text.StripBlankIff and Text.StripIdempotent. |
| Catalog.ParseSort | app.py:120-123 | Only 'price_asc' and 'price_desc' select an order; any other value leaves the query unordered. Stated through Catalog.ListingSpec. |
| Catalog.Matches | app.py:114-117 | An empty term or category applies no filter. Otherwise the name must contain the term and the category must be equal. Characterized by Catalog.Filter and Catalog.ListedMatch. |
| Catalog.Listing | app.py:230-246 | Strip `q`, filter, then order by `sort`; the same pipeline as app.py:109-123. Its properties are stated by Catalog.ListingSpec and Catalog.ListedMatch. |
| Cart.AddLine | app.py:288-294 | Bump the existing row of the pair, or insert one with quantity 1 and the next key. Stated by Cart.AddLineSpec, Cart.AddLineWellFormed and Cart.AddTimesSpec. |
| Cart.RemoveAt | app.py:303-304 | The table without the deleted row. Stated by Cart.RemoveSpec and Cart.RemoveWellFormed. |
| Cart.Total | app.py:277 | Sum of price × quantity over the lines, also used at app.py:431. Stated by Cart.TotalAppend, Cart.TotalSign and Orders.LinesTotalIsCartTotal. |
| Orders.LinesTotal | app.py:439-445 | Sum of price × quantity over line items. Orders.LinesTotalIsCartTotal proves that it equals the cart total stored on the order. |
| Accounts.NewUserRole | app.py:337-338 | 'admin' exactly when there are no accounts, otherwise 'user'. Stated by Storefront.Store.Register and Storefront.Store.Seed. |
| Accounts.IsAdmin | app.py:406-407 | Signed in and role 'admin'. Storefront.Store.ChangeOrderStatus answers Forbidden exactly when it fails. |
| Accounts.LandingFor | app.py:321-324 | Admins land on the dashboard and everyone else on the shop, as at app.py:375-378 too. Stated by Accounts.LoginSpec and Storefront.Store.Register. |
| Accounts.Login | app.py:354-383 | The login decision: name lookup first, then the empty-password refusal, then the digest check. Its properties are stated by Accounts.LoginSpec. |
| Favorites.MissingProduct | app.py:489 | `not product_id`: the key is absent or 0. Stated by Favorites.FavoritesAfterSpec. |
| Favorites.FavoriteReplyFor | app.py:489-499 | The reply of `add_to_favorite`. Stated by Favorites.FavoritesAfterSpec and Favorites.AddFavoriteTwice. |
| Favorites.FavoritesAfter | app.py:492-498 | The favourites table after the call. Stated by Favorites.FavoritesAfterSpec, Favorites.FavoritesAfterOncePerPair and Favorites.AddFavoriteTwice. |
| Categories.AddCategory | app.py:255-260 | The category form on the table. Its properties are stated by Categories.AddCategorySpec. |
| Categories.AddMissing | app.py:533-535 | The seeding loop over names, checked against the names read before it. Stated by Categories.AddMissingNames, Categories.AddMissingKeepsRows, Categories.AddMissingUniqueNames, Categories.AddMissingNone and Categories.FillMissingSpec. |
| Categories.Seeded | app.py:530-535 | The category table after startup. Its properties are stated by Categories.SeededSpec. |
| Storefront.Store.constructor | app.py:102-103 | An empty store over a catalogue with unique keys satisfies the invariant. |
| Storefront.Store.ViewCart | app.py:275-278 | The cart page shows exactly the user's rows and their total. Each row has a product and a quantity of at least 1, and an empty cart costs 0. |
| Storefront.Store.AddToCart | app.py:284-296 | An unknown product answers 404 and changes nothing. Otherwise the pair's quantity rises by one, no other pair's quantity changes, and the invariant holds. |
| Storefront.Store.RemoveFromCart | app.py:302-305 | An unknown key answers 404 and changes nothing. Otherwise exactly the row with that key is deleted, whoever owns it: the new table is the old one without that row, in the same order. The invariant holds. |
| Storefront.Store.ClearCart | app.py:415-418 | The user's cart is emptied, every other user's rows stay as they were, and the invariant holds. |
| Storefront.Store.Checkout | app.py:425-449 | An empty cart is refused and nothing changes. Otherwise one order is added with the next key, the cart total and the default status, one line item per cart row with the same product and quantity, and the user's cart is emptied. The invariant holds. |
| Storefront.Store.PlaceOrder | app.py:431-445 | The new order and its line items are appended after the existing ones, the order's items are exactly the copies, and the invariant holds. |
| Storefront.CopyLines | app.py:439-445 | The loop appends exactly the copies of the cart rows, with consecutive fresh keys, keeping keys unique. |
| Storefront.Store.ChangeOrderStatus | app.py:471-478 | A non-admin gets 403 and an unknown order 404, with no change. Otherwise only that order's status is overwritten, with NULL when the form has no status. |
| Storefront.Store.AddToFavorite | app.py:485-499 | A missing product key answers Unauthorized, a pair already present answers "already", and only otherwise is one row added, with a fresh key. Afterwards the pair is present exactly once. |
| Storefront.Store.Register | app.py:319-342 | A signed-in visitor is redirected to their landing page, and a taken stripped name is refused, each with no change. Otherwise one account is added with the stripped name and the digest; it is admin exactly when there were no accounts. |
| Storefront.Store.ManageCategories | app.py:254-260 | The stripped name is added exactly when it is not blank and not already a category. |
| Storefront.Store.Seed | app.py:526-544 | The missing default categories are added in order, and 'admin' is added unless it exists. Afterwards 'admin' exists and a new registration gets the role 'user'. |
| Storefront.Store.SeedWith | app.py:531-542 | Seeding with any distinct default names adds the missing ones and the admin account and keeps the invariant. |
| Storefront.InsertMissing | app.py:531-535 | The seeding loop, reading the existing names once before it starts, inserts exactly what the specification function `AddMissing` describes. |

## Left out

- Flask plumbing is left out; replies are datatypes. This covers routing, templates, `flash`, `redirect`, `abort`, JSON bodies and the `login_required` guard.
- The session and `login_user` are left out. The signed-in user arrives as a parameter of each handler.
- Password hashing is left out, because it is a foreign library. The digest is a parameter, and the check is the function `verify`.
- The seeding password `admin123` appears only through the digest passed to `Storefront.Store.Seed`.
- File uploads and serving are left out, because they are file-system I/O. These are `add_product` and `edit_product` with images, and `uploaded_file`.
- The product administration handlers are not modelled; the catalogue is fixed when the `Store` is built. These handlers are `add_product`, `edit_product`, `delete_product` and `delete_category`. So the model never holds a cart row or line item whose product was deleted.
- Requests are modelled as running one at a time. No unique constraint in the schema backs two invariants of `Store.Valid`: at most one cart row per (user, product), and at most one favourite per pair (app.py:52-56, 88-91). Only the handlers' check-then-insert keeps them (app.py:288-294, 492-497). Two concurrent requests could both miss the row and both insert, and the model does not capture that.
- Orders.Ledger: the invariant that every order's stored total equals price × quantity over its line items is measured against current prices. It holds only because the model's catalogue never changes. `edit_product` (app.py:200-201) can change a price, while the stored total stays the snapshot taken at app.py:431. What the program promises is that snapshot, which `Storefront.Store.Checkout` states in its ensures.
- Transactions and commits are left out. Checkout's two commits make it non-atomic, and the model states only the end state of a request that completes.
- Floating-point prices are modelled as integer minor units. No rounding is modelled.
- The `favorite/<id>` toggle is left out, because it uses `favorite_ids`, which the `User` model does not define.
- `created_at`, the time ordering of `admin_orders` and the admin dashboard counts are left out. The first two depend on the clock; the counts are plain reads.
- `view_favorites` and `product_detail` are left out, because they are plain reads.
- Catalog.Matches: the search term is a plain substring. `%` and `_` inside the term, which SQLite's `LIKE` treats as wildcards, are not modelled.
- Storefront.Store.AddToFavorite: the JSON body is modelled as an optional product key. A body that is not JSON, and a key that is not an integer, are not modelled.
- Storefront.Store.Register: the model, like the code, accepts an empty user name after stripping. It does not model the `String(50)` length limits, which SQLite does not enforce.
- Storefront.Store.ChangeOrderStatus: the `String(20)` limit on `status` is not modelled, because SQLite does not enforce it.
- Storefront.CopyLines: the keys are written as the counter `next + k` rather than fetched from the table row by row. They are the same keys.
