/** The CRM report task: count the customers and orders the API returns
    and add up the orders' totals. */
module Report {
  import opened Wrappers

  /** One element of `allCustomers`; only `id` is queried. */
  datatype CustomerRow = CustomerRow(id: Field<string>)

  /** One element of `allOrders`: the queried `id` and `totalAmount`. */
  datatype OrderRow = OrderRow(id: Field<string>, totalAmount: Field<real>)

  datatype Report = Report(customerCount: nat, orderCount: nat, totalRevenue: real)

  /** The report, or the failure the task returns as its error message. */
  datatype Outcome = Generated(report: Report) | Failed

  /** A total that `order.get('totalAmount') or 0` replaces by `0`: missing,
      null or zero. */
  predicate Falsy(f: Field<real>)
  {
    !f.Present? || f.value == 0.0
  }

  /** `float(order.get('totalAmount') or 0)`, in exact arithmetic. */
  function Contribution(o: OrderRow): (c: real)
    ensures Falsy(o.totalAmount) ==> c == 0.0
    ensures !Falsy(o.totalAmount) ==> c == o.totalAmount.value
  {
    if o.totalAmount.Present? then o.totalAmount.value else 0.0
  }

  /** `sum(...)` of the contributions, taken from the front: orders whose
      totals are all falsy (no orders at all, in particular) sum to 0, and
      a single order contributes its own total. */
  function Revenue(orders: seq<OrderRow>): (r: real)
    ensures (forall i :: 0 <= i < |orders| ==> Falsy(orders[i].totalAmount)) ==> r == 0.0
    ensures |orders| == 1 ==> r == Contribution(orders[0])
  {
    if orders == [] then 0.0
    else
      assert forall i :: 0 <= i < |orders| - 1 ==> orders[1..][i] == orders[i + 1];
      Contribution(orders[0]) + Revenue(orders[1..])
  }

  /** `result.get(key, [])`: a missing key is the empty list; a null value
      stays null. */
  function ListOr<T>(f: Field<seq<T>>): Option<seq<T>>
  {
    match f
    case Absent => Some([])
    case Null => None
    case Present(xs) => Some(xs)
  }

  /** Lines 35-44 of the task: `len` of a null list raises `TypeError`,
      which the task's handler turns into its error message. So the report
      fails exactly when one of the lists is null; otherwise each count is
      the length of its list (zero when the key is missing) and the revenue
      is the sum over the orders alone. */
  function GenerateReport(allCustomers: Field<seq<CustomerRow>>, allOrders: Field<seq<OrderRow>>): (r: Outcome)
    ensures r.Failed? <==> allCustomers.Null? || allOrders.Null?
    ensures r.Generated? ==>
      && r.report.customerCount == (if allCustomers.Present? then |allCustomers.value| else 0)
      && r.report.orderCount == (if allOrders.Present? then |allOrders.value| else 0)
      && r.report.totalRevenue == (if allOrders.Present? then Revenue(allOrders.value) else 0.0)
  {
    var customers, orders := ListOr(allCustomers), ListOr(allOrders);
    if customers.None? || orders.None? then Failed
    else Generated(Report(|customers.value|, |orders.value|, Revenue(orders.value)))
  }

  // ---------------------------------------------------------------------
  // What the report promises
  // ---------------------------------------------------------------------

  /** Revenue does not depend on the customers, nor the order count on the
      totals. */
  lemma ReportIndependent(c1: Field<seq<CustomerRow>>, c2: Field<seq<CustomerRow>>, o: Field<seq<OrderRow>>)
    requires !c1.Null? && !c2.Null? && !o.Null?
    ensures GenerateReport(c1, o).report.totalRevenue == GenerateReport(c2, o).report.totalRevenue
    ensures GenerateReport(c1, o).report.orderCount == GenerateReport(c2, o).report.orderCount
  {
  }

  /** The revenue of two lists in turn is the sum of their revenues. */
  lemma {:induction false} RevenueAppend(a: seq<OrderRow>, b: seq<OrderRow>)
    ensures Revenue(a + b) == Revenue(a) + Revenue(b)
  {
    if a == [] {
      assert a + b == b;
    } else {
      assert (a + b)[0] == a[0];
      assert (a + b)[1..] == a[1..] + b;
      RevenueAppend(a[1..], b);
    }
  }

  /** The order between two parts adds its own contribution. */
  lemma RevenueMiddle(a: seq<OrderRow>, o: OrderRow, b: seq<OrderRow>)
    ensures Revenue(a + [o] + b) == Contribution(o) + Revenue(a + b)
  {
    RevenueAppend(a + [o], b);
    RevenueAppend(a, [o]);
    RevenueAppend(a, b);
    assert Revenue([o]) == Contribution(o) + Revenue([]);
  }

  /** An order with a missing, null or zero total adds nothing. */
  lemma RevenueSkipsFalsy(a: seq<OrderRow>, o: OrderRow, b: seq<OrderRow>)
    requires Falsy(o.totalAmount)
    ensures Revenue(a + [o] + b) == Revenue(a + b)
  {
    RevenueMiddle(a, o, b);
  }

  lemma MultisetRemove(b: seq<OrderRow>, j: nat)
    requires j < |b|
    ensures multiset(b[..j] + b[j + 1..]) == multiset(b) - multiset{b[j]}
  {
    assert b == b[..j] + [b[j]] + b[j + 1..];
  }

  lemma {:induction false} RevenueRemove(b: seq<OrderRow>, j: nat)
    requires j < |b|
    ensures Revenue(b) == Contribution(b[j]) + Revenue(b[..j] + b[j + 1..])
  {
    if j == 0 {
      assert b[..0] + b[1..] == b[1..];
    } else {
      var t := b[1..];
      RevenueRemove(t, j - 1);
      var u := b[..j] + b[j + 1..];
      assert u[0] == b[0] && u[1..] == t[..j - 1] + t[j..];
      assert t[j - 1] == b[j];
    }
  }

  lemma MultisetTail(a: seq<OrderRow>)
    requires a != []
    ensures multiset(a[1..]) == multiset(a) - multiset{a[0]}
  {
    assert a == [a[0]] + a[1..];
  }

  lemma IndexOf(x: OrderRow, b: seq<OrderRow>) returns (j: nat)
    requires x in multiset(b)
    ensures j < |b| && b[j] == x
  {
    j :| 0 <= j < |b| && b[j] == x;
  }

  /** Where the first order of `a` sits in its permutation `b`, and what
      remains of both once it is taken out. */
  lemma TakeOut(a: seq<OrderRow>, b: seq<OrderRow>) returns (j: nat)
    requires a != [] && multiset(a) == multiset(b)
    ensures j < |b| && b[j] == a[0]
    ensures multiset(a[1..]) == multiset(b[..j] + b[j + 1..])
  {
    assert a[0] in multiset(a);
    j := IndexOf(a[0], b);
    MultisetRemove(b, j);
    MultisetTail(a);
  }

  /** Revenue is the sum of the totals present: the order of the orders does
      not matter. */
  lemma {:induction false} RevenuePermutation(a: seq<OrderRow>, b: seq<OrderRow>)
    requires multiset(a) == multiset(b)
    ensures Revenue(a) == Revenue(b)
    decreases |a|
  {
    if a == [] {
      assert |b| == |multiset(b)| == 0;
    } else {
      var j := TakeOut(a, b);
      RevenuePermutation(a[1..], b[..j] + b[j + 1..]);
      RevenueRemove(b, j);
    }
  }

  /** Totals that are never negative give a revenue that is not negative;
      no orders give zero. */
  lemma {:induction false} RevenueNonNegative(orders: seq<OrderRow>)
    requires forall i :: 0 <= i < |orders| ==> Falsy(orders[i].totalAmount) || orders[i].totalAmount.value >= 0.0
    ensures Revenue(orders) >= 0.0
    ensures orders == [] ==> Revenue(orders) == 0.0
  {
    if orders != [] {
      assert forall i :: 0 <= i < |orders| - 1 ==> orders[1..][i] == orders[i + 1];
      RevenueNonNegative(orders[1..]);
    }
  }

  /** Only non-falsy totals matter: two lists with the same totals in the
      same places, up to falsy ones, have the same revenue. */
  lemma {:induction false} RevenueCountsTotals(a: seq<OrderRow>, b: seq<OrderRow>)
    requires |a| == |b|
    requires forall i :: 0 <= i < |a| ==> Contribution(a[i]) == Contribution(b[i])
    ensures Revenue(a) == Revenue(b)
  {
    if a != [] {
      assert forall i :: 0 <= i < |a| - 1 ==> a[1..][i] == a[i + 1] && b[1..][i] == b[i + 1];
      RevenueCountsTotals(a[1..], b[1..]);
    }
  }
}
