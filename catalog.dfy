/**
 The product listing shared by the dashboard and the shop pages: keep the
 products whose name contains the search term and whose category equals the
 chosen one, then optionally order them by price.
 */
module Catalog {
  import opened Records
  import opened Text

  /** The `sort` query parameter. */
  datatype SortOrder = Unsorted | PriceAscending | PriceDescending

  /** 'price_asc' and 'price_desc' select an order; any other value leaves the query unordered. */
  function ParseSort(param: string): SortOrder {
    if param == "price_asc" then PriceAscending
    else if param == "price_desc" then PriceDescending
    else Unsorted
  }

  /** The filters of the listing; an empty term or category means "no filter". */
  predicate Matches(p: Product, term: string, category: string) {
    && (term == "" || ContainsIgnoringCase(p.name, term))
    && (category == "" || p.category == category)
  }

  /** The query with its filters applied, in table order. */
  function Filter(products: seq<Product>, term: string, category: string): (r: seq<Product>)
    ensures forall p :: p in r ==> p in products && Matches(p, term, category)
    ensures forall p :: p in products && Matches(p, term, category) ==> p in r
    ensures forall p :: multiset(r)[p] == if Matches(p, term, category) then multiset(products)[p] else 0
  {
    if products == [] then []
    else
      var rest := Filter(products[1..], term, category);
      assert products == [products[0]] + products[1..];
      if Matches(products[0], term, category) then [products[0]] + rest else rest
  }

  /** `a` may come before `b` in the chosen price order. */
  predicate InOrder(a: Product, b: Product, descending: bool) {
    if descending then a.price >= b.price else a.price <= b.price
  }

  ghost predicate Sorted(s: seq<Product>, descending: bool) {
    forall i, j :: 0 <= i < j < |s| ==> InOrder(s[i], s[j], descending)
  }

  /**
   A sorted sequence headed by `a` stays sorted when its tail is replaced by a
   sorted permutation of that tail plus some `x` that `a` may precede.
   */
  lemma SortedAfterHead(a: Product, tail: seq<Product>, x: Product, r: seq<Product>, descending: bool)
    requires Sorted([a] + tail, descending) && Sorted(r, descending)
    requires InOrder(a, x, descending)
    requires multiset(r) == multiset(tail) + multiset{x}
    ensures Sorted([a] + r, descending)
  {
    forall y | y in r ensures InOrder(a, y, descending) {
      assert y in multiset(r);
      if y != x {
        assert y in multiset(tail);
        var k :| 0 <= k < |tail| && tail[k] == y;
        assert ([a] + tail)[0] == a && ([a] + tail)[k + 1] == y;
      }
    }
    var s := [a] + r;
    forall i, j | 0 <= i < j < |s| ensures InOrder(s[i], s[j], descending) {
      assert s[j] == r[j - 1];
      if i > 0 {
        assert s[i] == r[i - 1];
      }
    }
  }

  /** Inserts `x` into a sorted sequence, after the elements it does not precede. */
  function Insert(x: Product, s: seq<Product>, descending: bool): (r: seq<Product>)
    requires Sorted(s, descending)
    ensures multiset(r) == multiset(s) + multiset{x}
    ensures Sorted(r, descending)
  {
    if s == [] then [x]
    else if InOrder(x, s[0], descending) then [x] + s
    else
      var rest := Insert(x, s[1..], descending);
      assert s == [s[0]] + s[1..];
      SortedAfterHead(s[0], s[1..], x, rest, descending);
      [s[0]] + rest
  }

  /** Sorts by price, stably; the database leaves the order of equal prices unspecified. */
  function SortByPrice(s: seq<Product>, descending: bool): (r: seq<Product>)
    ensures multiset(r) == multiset(s)
    ensures Sorted(r, descending)
  {
    if s == [] then []
    else
      assert s == [s[0]] + s[1..];
      Insert(s[0], SortByPrice(s[1..], descending), descending)
  }

  function Order(s: seq<Product>, order: SortOrder): seq<Product> {
    match order
    case Unsorted => s
    case PriceAscending => SortByPrice(s, false)
    case PriceDescending => SortByPrice(s, true)
  }

  /** The products listed for the raw query parameters `q`, `category` and `sort`. */
  function Listing(products: seq<Product>, q: string, category: string, sort: string): seq<Product> {
    Order(Filter(products, Strip(q), category), ParseSort(sort))
  }

  /**
   The listing holds exactly the products that pass the filters, each as
   often as in the table; 'price_asc' lists them with non-decreasing and
   'price_desc' with non-increasing prices.
   */
  lemma ListingSpec(products: seq<Product>, q: string, category: string, sort: string)
    ensures var r := Listing(products, q, category, sort);
      && multiset(r) == multiset(Filter(products, Strip(q), category))
      && (forall p :: p in r <==> p in products && Matches(p, Strip(q), category))
      && (sort == "price_asc" ==> forall i, j :: 0 <= i < j < |r| ==> r[i].price <= r[j].price)
      && (sort == "price_desc" ==> forall i, j :: 0 <= i < j < |r| ==> r[i].price >= r[j].price)
  {
    var f := Filter(products, Strip(q), category);
    var r := Listing(products, q, category, sort);
    assert multiset(r) == multiset(f);
    forall p ensures p in r <==> p in f {
      assert p in r <==> p in multiset(r);
      assert p in f <==> p in multiset(f);
    }
  }

  /**
   Every listed product's name contains the stripped search term (ignoring
   ASCII case), and its category is the chosen one when one is given.
   */
  lemma ListedMatch(products: seq<Product>, q: string, category: string, sort: string, p: Product)
    requires p in Listing(products, q, category, sort)
    ensures Strip(q) != "" ==> Occurs(Lower(Strip(q)), Lower(p.name))
    ensures category != "" ==> p.category == category
  {
    ListingSpec(products, q, category, sort);
    ContainsIgnoringCaseIff(p.name, Strip(q));
  }
}
