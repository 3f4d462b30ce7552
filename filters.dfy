/** The three filter sets of the query interface: which customers, products
    and orders a query with given filter arguments returns. Every supplied
    argument is one lookup, and the lookups are AND-ed together. Records are
    the in-memory rows of the store, in the store's order. */
module Filters {
  import opened Wrappers
  import opened Seqs
  import opened Text

  /** A point in time as the store keeps `created_at` and `order_date`:
      microseconds on one time line (time zones already resolved). */
  type Instant = int

  datatype Customer = Customer(id: int, name: string, email: string, phone: Option<string>, createdAt: Instant)

  datatype Product = Product(id: int, name: string, price: real, stock: int)

  /** An order with its customer (required) and its associated products. */
  datatype Order = Order(id: int, customer: Customer, products: seq<Product>, totalAmount: real, orderDate: Instant)

  // ---------------------------------------------------------------------
  // Lookups. `None` is a filter argument that was not supplied.
  // ---------------------------------------------------------------------

  /** The value a text filter works with: the submitted text as the form
      cleans it (whitespace stripped). A value that is empty after cleaning
      is treated as not supplied, so the filter is skipped. */
  function Cleaned(v: Option<string>): (r: Option<string>)
    ensures r.None? <==> v.None? || AllSpace(v.value)
    ensures r.Some? ==> r.value != [] && exists i :: SpaceAround(v.value, i, r.value)
    ensures r.Some? ==> !IsSpace(r.value[0]) && !IsSpace(r.value[|r.value| - 1])
  {
    match v
    case None => None
    case Some(t) =>
      StripEmpty(t);
      if Strip(t) == [] then None else Some(Strip(t))
  }

  /** `icontains` */
  predicate IContainsLookup(field: string, v: Option<string>)
  {
    match Cleaned(v)
    case None => true
    case Some(q) => IContains(field, q)
  }

  /** An `icontains` filter keeps the field exactly when the cleaned text
      occurs somewhere in it, both sides lower-cased. */
  lemma IContainsLookupMeaning(field: string, v: Option<string>)
    ensures IContainsLookup(field, v) <==>
      (Cleaned(v).Some? ==> exists i :: OccursAt(Lower(field), Lower(Cleaned(v).value), i))
  {
    if Cleaned(v).Some? {
      var q := Cleaned(v).value;
      assert IContainsLookup(field, v) == Contains(Lower(field), Lower(q));
      ContainsIff(Lower(field), Lower(q));
    }
  }

  /** `startswith` on a column that may be NULL; NULL never matches. */
  predicate StartsWithLookup(field: Option<string>, v: Option<string>)
  {
    match Cleaned(v)
    case None => true
    case Some(q) => field.Some? && StartsWith(field.value, q)
  }

  /** `exact` on a text column that may be NULL. */
  predicate ExactTextLookup(field: Option<string>, v: Option<string>)
  {
    match Cleaned(v)
    case None => true
    case Some(q) => field == Some(q)
  }

  /** `exact` on a number or timestamp column. */
  predicate ExactLookup<T(==)>(field: T, v: Option<T>)
  {
    v.None? || v.value == field
  }

  /** `gte` and `lte` on a decimal column. */
  predicate GteLookup(field: real, v: Option<real>) { v.None? || v.value <= field }
  predicate LteLookup(field: real, v: Option<real>) { v.None? || field <= v.value }

  /** `gte` and `lte` on an integer or timestamp column. */
  predicate GteIntLookup(field: int, v: Option<int>) { v.None? || v.value <= field }
  predicate LteIntLookup(field: int, v: Option<int>) { v.None? || field <= v.value }

  // ---------------------------------------------------------------------
  // CustomerFilter
  // ---------------------------------------------------------------------

  /** The arguments of `CustomerFilter`: the declared `name`, `email`,
      `created_at_gte`, `created_at_lte` and `phone_pattern`, and the exact
      `phone` filter that its field list adds. */
  datatype CustomerCriteria = CustomerCriteria(
    name: Option<string>,
    email: Option<string>,
    createdAtGte: Option<Instant>,
    createdAtLte: Option<Instant>,
    phonePattern: Option<string>,
    phone: Option<string>)

  predicate MatchesCustomer(c: Customer, k: CustomerCriteria)
  {
    && IContainsLookup(c.name, k.name)
    && IContainsLookup(c.email, k.email)
    && GteIntLookup(c.createdAt, k.createdAtGte)
    && LteIntLookup(c.createdAt, k.createdAtLte)
    && StartsWithLookup(c.phone, k.phonePattern)
    && ExactTextLookup(c.phone, k.phone)
  }

  function CustomerPred(k: CustomerCriteria): Customer -> bool
  {
    c => MatchesCustomer(c, k)
  }

  /** The customers a query with arguments `k` returns. */
  function FilterCustomers(cs: seq<Customer>, k: CustomerCriteria): (r: seq<Customer>)
    ensures IsSubsequence(r, cs)
    ensures forall i :: 0 <= i < |r| ==> MatchesCustomer(r[i], k)
    ensures forall i :: 0 <= i < |cs| && MatchesCustomer(cs[i], k) ==> cs[i] in r
  {
    Select(cs, CustomerPred(k))
  }

  /** What each customer argument means, in terms of the record: a text
      occurs in the lower-cased field, a bound is inclusive, a prefix is
      compared as written. */
  lemma MatchesCustomerMeaning(c: Customer, k: CustomerCriteria)
    ensures MatchesCustomer(c, k) <==>
      && (Cleaned(k.name).Some? ==> exists i :: OccursAt(Lower(c.name), Lower(Cleaned(k.name).value), i))
      && (Cleaned(k.email).Some? ==> exists i :: OccursAt(Lower(c.email), Lower(Cleaned(k.email).value), i))
      && (k.createdAtGte.Some? ==> k.createdAtGte.value <= c.createdAt)
      && (k.createdAtLte.Some? ==> c.createdAt <= k.createdAtLte.value)
      && (Cleaned(k.phonePattern).Some? ==>
            c.phone.Some? && |Cleaned(k.phonePattern).value| <= |c.phone.value|
            && c.phone.value[..|Cleaned(k.phonePattern).value|] == Cleaned(k.phonePattern).value)
      && (Cleaned(k.phone).Some? ==> c.phone == Cleaned(k.phone))
  {
    IContainsLookupMeaning(c.name, k.name);
    IContainsLookupMeaning(c.email, k.email);
  }

  // ---------------------------------------------------------------------
  // ProductFilter
  // ---------------------------------------------------------------------

  /** The arguments of `ProductFilter`: the declared `name`, `price_gte`,
      `price_lte`, `stock_gte` and `stock_lte`, and the exact `price` and
      `stock` filters that its field list adds. */
  datatype ProductCriteria = ProductCriteria(
    name: Option<string>,
    priceGte: Option<real>,
    priceLte: Option<real>,
    stockGte: Option<int>,
    stockLte: Option<int>,
    price: Option<real>,
    stock: Option<int>)

  predicate MatchesProduct(p: Product, k: ProductCriteria)
  {
    && IContainsLookup(p.name, k.name)
    && GteLookup(p.price, k.priceGte)
    && LteLookup(p.price, k.priceLte)
    && GteIntLookup(p.stock, k.stockGte)
    && LteIntLookup(p.stock, k.stockLte)
    && ExactLookup(p.price, k.price)
    && ExactLookup(p.stock, k.stock)
  }

  function ProductPred(k: ProductCriteria): Product -> bool
  {
    p => MatchesProduct(p, k)
  }

  /** The products a query with arguments `k` returns. */
  function FilterProducts(ps: seq<Product>, k: ProductCriteria): (r: seq<Product>)
    ensures IsSubsequence(r, ps)
    ensures forall i :: 0 <= i < |r| ==> MatchesProduct(r[i], k)
    ensures forall i :: 0 <= i < |ps| && MatchesProduct(ps[i], k) ==> ps[i] in r
  {
    Select(ps, ProductPred(k))
  }

  /** What each product argument means: the ranges are inclusive at both
      ends and the exact filters compare for equality. */
  lemma MatchesProductMeaning(p: Product, k: ProductCriteria)
    ensures MatchesProduct(p, k) <==>
      && (Cleaned(k.name).Some? ==> exists i :: OccursAt(Lower(p.name), Lower(Cleaned(k.name).value), i))
      && (k.priceGte.Some? ==> k.priceGte.value <= p.price)
      && (k.priceLte.Some? ==> p.price <= k.priceLte.value)
      && (k.stockGte.Some? ==> k.stockGte.value <= p.stock)
      && (k.stockLte.Some? ==> p.stock <= k.stockLte.value)
      && (k.price.Some? ==> p.price == k.price.value)
      && (k.stock.Some? ==> p.stock == k.stock.value)
  {
    IContainsLookupMeaning(p.name, k.name);
  }

  // ---------------------------------------------------------------------
  // OrderFilter
  // ---------------------------------------------------------------------

  /** The arguments of `OrderFilter`: the declared `total_amount_gte`,
      `total_amount_lte`, `order_date_gte`, `order_date_lte`,
      `customer_name` and `product_name`, and the exact `total_amount` and
      `order_date` filters that its field list adds. */
  datatype OrderCriteria = OrderCriteria(
    totalAmountGte: Option<real>,
    totalAmountLte: Option<real>,
    orderDateGte: Option<Instant>,
    orderDateLte: Option<Instant>,
    customerName: Option<string>,
    productName: Option<string>,
    totalAmount: Option<real>,
    orderDate: Option<Instant>)

  /** Every order argument except `product_name`: each one is about the
      order row itself or its single customer. */
  predicate MatchesOrderRow(o: Order, k: OrderCriteria)
  {
    && GteLookup(o.totalAmount, k.totalAmountGte)
    && LteLookup(o.totalAmount, k.totalAmountLte)
    && GteIntLookup(o.orderDate, k.orderDateGte)
    && LteIntLookup(o.orderDate, k.orderDateLte)
    && IContainsLookup(o.customer.name, k.customerName)
    && ExactLookup(o.totalAmount, k.totalAmount)
    && ExactLookup(o.orderDate, k.orderDate)
  }

  /** Some product of the order has a name containing `q`, ignoring case
      (see `CountNamed`). */
  predicate HasProductNamed(o: Order, q: string)
  {
    CountNamed(o.products, q) > 0
  }

  predicate MatchesOrder(o: Order, k: OrderCriteria)
  {
    && MatchesOrderRow(o, k)
    && match Cleaned(k.productName)
       case None => true
       case Some(q) => HasProductNamed(o, q)
  }

  /** Product `j` of the order has a name in which `q` occurs at some
      offset, both lower-cased. */
  ghost predicate ProductNamedAt(o: Order, q: string, j: int)
  {
    0 <= j < |o.products| && exists i :: OccursAt(Lower(o.products[j].name), Lower(q), i)
  }

  /** `product_name` holds exactly when some product's name contains the
      text. */
  lemma HasProductNamedMeaning(o: Order, q: string)
    ensures HasProductNamed(o, q) <==> exists j :: ProductNamedAt(o, q, j)
  {
    if HasProductNamed(o, q) {
      var j :| 0 <= j < |o.products| && IContains(o.products[j].name, q);
      ContainsIff(Lower(o.products[j].name), Lower(q));
      assert ProductNamedAt(o, q, j);
    }
    if exists j :: ProductNamedAt(o, q, j) {
      var j :| ProductNamedAt(o, q, j);
      ContainsIff(Lower(o.products[j].name), Lower(q));
      assert IContains(o.products[j].name, q);
    }
  }

  /** What each order argument other than `product_name` means: the amount
      and date ranges are inclusive at both ends, `customer_name` is a
      case-insensitive substring of the customer's name, and the exact
      filters compare for equality. */
  lemma MatchesOrderRowMeaning(o: Order, k: OrderCriteria)
    ensures MatchesOrderRow(o, k) <==>
      && (k.totalAmountGte.Some? ==> k.totalAmountGte.value <= o.totalAmount)
      && (k.totalAmountLte.Some? ==> o.totalAmount <= k.totalAmountLte.value)
      && (k.orderDateGte.Some? ==> k.orderDateGte.value <= o.orderDate)
      && (k.orderDateLte.Some? ==> o.orderDate <= k.orderDateLte.value)
      && (Cleaned(k.customerName).Some? ==>
            exists i :: OccursAt(Lower(o.customer.name), Lower(Cleaned(k.customerName).value), i))
      && (k.totalAmount.Some? ==> o.totalAmount == k.totalAmount.value)
      && (k.orderDate.Some? ==> o.orderDate == k.orderDate.value)
  {
    IContainsLookupMeaning(o.customer.name, k.customerName);
  }

  /** An order matches when its row does and, with `product_name`, some of
      its products' names contains the text. */
  lemma MatchesOrderMeaning(o: Order, k: OrderCriteria)
    ensures MatchesOrder(o, k) <==>
      && MatchesOrderRow(o, k)
      && (Cleaned(k.productName).Some? ==> exists j :: ProductNamedAt(o, Cleaned(k.productName).value, j))
  {
    if Cleaned(k.productName).Some? {
      HasProductNamedMeaning(o, Cleaned(k.productName).value);
    }
  }

  function OrderRowPred(k: OrderCriteria): Order -> bool
  {
    o => MatchesOrderRow(o, k)
  }

  function OrderPred(k: OrderCriteria): Order -> bool
  {
    o => MatchesOrder(o, k)
  }

  function HasProductPred(q: string): Order -> bool
  {
    o => HasProductNamed(o, q)
  }

  predicate UniqueIds(os: seq<Order>)
  {
    forall i, j :: 0 <= i < j < |os| ==> os[i].id != os[j].id
  }

  /** How many of the products have a name containing `q`, ignoring case. */
  function CountNamed(ps: seq<Product>, q: string): (n: nat)
    ensures n > 0 <==> exists i :: 0 <= i < |ps| && IContains(ps[i].name, q)
  {
    if ps == [] then 0
    else
      var rest := CountNamed(ps[1..], q);
      assert forall i :: 1 <= i < |ps| ==> ps[i] == ps[1..][i - 1];
      (if IContains(ps[0].name, q) then 1 else 0) + rest
  }

  /** The rows of the join of orders with their products on "product name
      contains `q`": an order appears once per matching product. */
  function JoinProducts(os: seq<Order>, q: string): (rows: seq<Order>)
    ensures forall i :: 0 <= i < |rows| ==> rows[i] in os && HasProductNamed(rows[i], q)
  {
    if os == [] then []
    else Repeat(os[0], CountNamed(os[0].products, q)) + JoinProducts(os[1..], q)
  }

  /** `DISTINCT`: the rows whose id is not in `seen` and was not seen
      earlier in `rows`, in order. */
  function DistinctFrom(rows: seq<Order>, seen: set<int>): (r: seq<Order>)
    ensures forall i :: 0 <= i < |r| ==> r[i] in rows && r[i].id !in seen
    ensures UniqueIds(r)
  {
    if rows == [] then []
    else if rows[0].id in seen then DistinctFrom(rows[1..], seen)
    else [rows[0]] + DistinctFrom(rows[1..], seen + {rows[0].id})
  }

  /** The orders a query with arguments `k` returns. With `product_name`
      the query joins the products, so it computes a row per matching
      product and then removes the repeats (`distinct=True`). */
  function FilterOrders(os: seq<Order>, k: OrderCriteria): (r: seq<Order>)
    ensures forall i :: 0 <= i < |r| ==> r[i] in os && MatchesOrder(r[i], k)
    ensures Cleaned(k.productName).Some? ==> UniqueIds(r)
  {
    match Cleaned(k.productName)
    case None => Select(os, OrderRowPred(k))
    case Some(q) => DistinctFrom(Select(JoinProducts(os, q), OrderRowPred(k)), {})
  }

  /** The row lookups can be applied before or after the join: the join
      repeats an order, it does not change it. */
  lemma {:induction false} SelectJoin(os: seq<Order>, q: string, p: Order -> bool)
    ensures Select(JoinProducts(os, q), p) == JoinProducts(Select(os, p), q)
  {
    if os != [] {
      var o, n := os[0], CountNamed(os[0].products, q);
      SelectAppend(Repeat(o, n), JoinProducts(os[1..], q), p);
      SelectRepeat(o, n, p);
      SelectJoin(os[1..], q, p);
      if p(o) {
        var sel := Select(os[1..], p);
        assert Select(os, p) == [o] + sel;
        assert ([o] + sel)[0] == o && ([o] + sel)[1..] == sel;
      }
    }
  }

  /** `DISTINCT` skips rows whose ids were already seen. */
  lemma {:induction false} DistinctSkipsSeen(xs: seq<Order>, ys: seq<Order>, seen: set<int>)
    requires forall i :: 0 <= i < |xs| ==> xs[i].id in seen
    ensures DistinctFrom(xs + ys, seen) == DistinctFrom(ys, seen)
  {
    if xs == [] {
      assert xs + ys == ys;
    } else {
      assert (xs + ys)[0] == xs[0] && (xs + ys)[1..] == xs[1..] + ys;
      DistinctSkipsSeen(xs[1..], ys, seen);
    }
  }

  /** Distinct ids survive dropping the first order, whose id is then new. */
  lemma UniqueTail(os: seq<Order>)
    requires UniqueIds(os) && os != []
    ensures UniqueIds(os[1..])
    ensures forall i :: 0 <= i < |os| - 1 ==> os[1..][i].id != os[0].id
  {
    var rest := os[1..];
    forall i, j | 0 <= i < j < |rest| ensures rest[i].id != rest[j].id {
      assert rest[i] == os[i + 1] && rest[j] == os[j + 1];
    }
    forall i | 0 <= i < |rest| ensures rest[i].id != os[0].id {
      assert rest[i] == os[i + 1];
    }
  }

  /** `DISTINCT` keeps a row with a new id and remembers the id. */
  lemma DistinctKeepsNew(o: Order, tail: seq<Order>, seen: set<int>)
    requires o.id !in seen
    ensures DistinctFrom([o] + tail, seen) == [o] + DistinctFrom(tail, seen + {o.id})
  {
    assert ([o] + tail)[0] == o && ([o] + tail)[1..] == tail;
  }

  /** An order without a matching product adds no row to the join. */
  lemma JoinSkips(os: seq<Order>, q: string)
    requires os != [] && CountNamed(os[0].products, q) == 0
    ensures JoinProducts(os, q) == JoinProducts(os[1..], q)
  {
    assert Repeat(os[0], 0) == [];
  }

  /** An order with a matching product starts the join with itself. */
  lemma JoinCopies(os: seq<Order>, q: string)
    requires os != [] && CountNamed(os[0].products, q) > 0
    ensures JoinProducts(os, q)
         == [os[0]] + (Repeat(os[0], CountNamed(os[0].products, q) - 1) + JoinProducts(os[1..], q))
  {
    var o, n := os[0], CountNamed(os[0].products, q);
    RepeatCons(o, n);
    ConsAppend(o, Repeat(o, n - 1), JoinProducts(os[1..], q));
  }

  /** The ids after the first order are new to `seen` and to the first. */
  lemma FreshTail(os: seq<Order>, seen: set<int>)
    requires UniqueIds(os) && os != []
    requires forall i :: 0 <= i < |os| ==> os[i].id !in seen
    ensures forall i :: 0 <= i < |os| - 1 ==> os[1..][i].id !in seen + {os[0].id}
  {
    UniqueTail(os);
    forall i | 0 <= i < |os| - 1 ensures os[1..][i].id !in seen {
      assert os[1..][i] == os[i + 1];
    }
  }

  /** One step of `DistinctJoin` for a first order with a matching product. */
  lemma DistinctJoinCopies(os: seq<Order>, q: string, seen: set<int>)
    requires os != [] && CountNamed(os[0].products, q) > 0 && os[0].id !in seen
    requires DistinctFrom(JoinProducts(os[1..], q), seen + {os[0].id}) == Select(os[1..], HasProductPred(q))
    ensures DistinctFrom(JoinProducts(os, q), seen) == Select(os, HasProductPred(q))
  {
    var o, n, rest := os[0], CountNamed(os[0].products, q), os[1..];
    JoinCopies(os, q);
    DistinctKeepsNew(o, Repeat(o, n - 1) + JoinProducts(rest, q), seen);
    DistinctSkipsSeen(Repeat(o, n - 1), JoinProducts(rest, q), seen + {o.id});
    assert HasProductPred(q)(o);
  }

  /** One step of `DistinctJoin` for a first order without one. */
  lemma DistinctJoinSkips(os: seq<Order>, q: string, seen: set<int>)
    requires os != [] && CountNamed(os[0].products, q) == 0
    requires DistinctFrom(JoinProducts(os[1..], q), seen) == Select(os[1..], HasProductPred(q))
    ensures DistinctFrom(JoinProducts(os, q), seen) == Select(os, HasProductPred(q))
  {
    JoinSkips(os, q);
    assert !HasProductPred(q)(os[0]);
  }

  /** On orders with distinct ids, removing the repeats from the join gives
      back each order that has a matching product, once, in order. */
  lemma {:induction false} DistinctJoin(os: seq<Order>, q: string, seen: set<int>)
    requires UniqueIds(os)
    requires forall i :: 0 <= i < |os| ==> os[i].id !in seen
    ensures DistinctFrom(JoinProducts(os, q), seen) == Select(os, HasProductPred(q))
  {
    if os != [] {
      UniqueTail(os);
      FreshTail(os, seen);
      if CountNamed(os[0].products, q) == 0 {
        DistinctJoin(os[1..], q, seen);
        DistinctJoinSkips(os, q, seen);
      } else {
        DistinctJoin(os[1..], q, seen + {os[0].id});
        DistinctJoinCopies(os, q, seen);
      }
    }
  }

  /** An order whose id differs from all of `s` keeps `[o] + s`'s ids distinct. */
  lemma UniqueCons(o: Order, s: seq<Order>)
    requires UniqueIds(s)
    requires forall i :: 0 <= i < |s| ==> s[i].id != o.id
    ensures UniqueIds([o] + s)
  {
    var t := [o] + s;
    forall i, j | 0 <= i < j < |t| ensures t[i].id != t[j].id {
      assert t[j] == s[j - 1];
      if i > 0 {
        assert t[i] == s[i - 1];
      }
    }
  }

  /** Selecting keeps ids distinct. */
  lemma {:induction false} SelectUniqueIds(os: seq<Order>, p: Order -> bool)
    requires UniqueIds(os)
    ensures UniqueIds(Select(os, p))
  {
    if os != [] {
      var rest := os[1..];
      UniqueTail(os);
      SelectUniqueIds(rest, p);
      var sel := Select(rest, p);
      if p(os[0]) {
        forall i | 0 <= i < |sel| ensures sel[i].id != os[0].id {
          var j :| 0 <= j < |rest| && rest[j] == sel[i];
        }
        UniqueCons(os[0], sel);
      }
    }
  }

  /** On a store whose order ids are distinct (they are primary keys), the
      orders a query returns are exactly the input orders that satisfy every
      supplied argument, each once and in input order. */
  lemma FilterOrdersSelects(os: seq<Order>, k: OrderCriteria)
    requires UniqueIds(os)
    ensures FilterOrders(os, k) == Select(os, OrderPred(k))
    ensures IsSubsequence(FilterOrders(os, k), os)
    ensures forall i :: 0 <= i < |os| ==> (os[i] in FilterOrders(os, k) <==> MatchesOrder(os[i], k))
    ensures UniqueIds(FilterOrders(os, k))
  {
    match Cleaned(k.productName)
    case None =>
      SelectCongruent(os, OrderRowPred(k), OrderPred(k));
      SelectUniqueIds(os, OrderPred(k));
    case Some(q) =>
      var sel := Select(os, OrderRowPred(k));
      SelectJoin(os, q, OrderRowPred(k));
      SelectUniqueIds(os, OrderRowPred(k));
      DistinctJoin(sel, q, {});
      SelectSelect(os, OrderRowPred(k), HasProductPred(q), OrderPred(k));
      SelectUniqueIds(os, OrderPred(k));
  }
}
