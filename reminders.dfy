/** The order-reminder job: walk the orders returned by the API, read
    each order's date, and write one log entry for every order dated on
    or after the day seven days before today. */
module Reminders {
  import opened Wrappers
  import opened Dates
  import opened Seqs

  /** The `customer` object of an order record; only `email` is queried. */
  datatype CustomerObj = CustomerObj(email: Field<string>)

  /** One element of `allOrders`: the queried `id`, `orderDate` and
      `customer` keys, each of which may be missing or null. */
  datatype OrderRecord = OrderRecord(id: Field<string>, orderDate: Field<string>, customer: Field<CustomerObj>)

  /** A log line, reduced to the order id and the address it names. */
  datatype Entry = Entry(orderId: string, email: string)

  /** The entries written, and whether the loop ran to its end (`false`
      when an exception escaped to the outer handler). */
  datatype Run = Run(entries: seq<Entry>, completed: bool)

  /** `str(order.get(key))`: a missing or null value prints as `None`. */
  function Str(f: Field<string>): (t: string)
    ensures f.Present? ==> t == f.value
    ensures !f.Present? ==> t == "None"
  {
    if f.Present? then f.value else "None"
  }

  /** The date read from the order, or `None` where parsing raises
      `ValueError` and the order is skipped. */
  function DateOf(o: OrderRecord): Option<Date>
  {
    ParseOrderDate(Str(o.orderDate))
  }

  /** `order_date >= seven_days_ago.date()` for an order whose date parses:
      Python's date comparison is a comparison of day numbers. */
  predicate Qualifies(o: OrderRecord, cutoff: Date)
    ensures ValidDate(cutoff) ==>
      (Qualifies(o, cutoff) <==> DateOf(o).Some? && Ordinal(cutoff) <= Ordinal(DateOf(o).value))
  {
    DateOf(o).Some? && (ComparedByOrdinal(cutoff, DateOf(o).value); OnOrBefore(cutoff, DateOf(o).value))
  }

  lemma ComparedByOrdinal(a: Date, b: Date)
    ensures ValidDate(a) && ValidDate(b) ==> (OnOrBefore(a, b) <==> Ordinal(a) <= Ordinal(b))
  {
    if ValidDate(a) && ValidDate(b) {
      OrdinalOrder(a, b);
    }
  }

  function QualPred(cutoff: Date): OrderRecord -> bool
  {
    o => Qualifies(o, cutoff)
  }

  /** A qualifying order whose `customer` is null: `None.get` raises
      `AttributeError`, which the per-order handler does not catch. */
  predicate Aborts(o: OrderRecord, qualifies: OrderRecord -> bool)
  {
    qualifies(o) && o.customer.Null?
  }

  /** `order.get("customer", {}).get("email", "Unknown")`, as the log line
      prints it. */
  function EmailFor(o: OrderRecord): (e: string)
    requires !o.customer.Null?
    ensures o.customer.Absent? ==> e == "Unknown"
    ensures o.customer.Present? && o.customer.value.email.Absent? ==> e == "Unknown"
    ensures o.customer.Present? && o.customer.value.email.Null? ==> e == "None"
    ensures o.customer.Present? && o.customer.value.email.Present? ==> e == o.customer.value.email.value
  {
    match o.customer
    case Absent => "Unknown"
    case Present(c) =>
      match c.email
      case Absent => "Unknown"
      case Null => "None"
      case Present(s) => s
  }

  function EntryFor(o: OrderRecord): (e: Entry)
    requires !o.customer.Null?
    ensures e.orderId == Str(o.id)
  {
    Entry(Str(o.id), EmailFor(o))
  }

  /** The entries of the orders `qs`, one each, in order. */
  function Entries(qs: seq<OrderRecord>): (r: seq<Entry>)
    requires forall i :: 0 <= i < |qs| ==> !qs[i].customer.Null?
    ensures |r| == |qs|
    ensures forall i :: 0 <= i < |qs| ==> r[i] == EntryFor(qs[i])
  {
    if qs == [] then [] else [EntryFor(qs[0])] + Entries(qs[1..])
  }

  function Prepend(e: seq<Entry>, r: Run): Run
  {
    Run(e + r.entries, r.completed)
  }

  /** What the loop over `orders` does, order by order from the front,
      where `qualifies` is the date test of the current run. */
  function Process(orders: seq<OrderRecord>, qualifies: OrderRecord -> bool): (r: Run)
    ensures |r.entries| <= |orders|
  {
    if orders == [] then Run([], true)
    else if Aborts(orders[0], qualifies) then Run([], false)
    else
      var rest := Process(orders[1..], qualifies);
      if qualifies(orders[0]) then Prepend([EntryFor(orders[0])], rest) else rest
  }

  /** The whole job on `allOrders` as the response holds it, run on `today`.
      `today - timedelta(days=7)` before 0001-01-01 raises `OverflowError`;
      a null `allOrders` raises `TypeError` when iterated; a missing one
      is the empty list. Either exception ends the job with nothing written. */
  function RunOf(allOrders: Field<seq<OrderRecord>>, today: Date): (r: Run)
    requires ValidDate(today)
    ensures Ordinal(today) <= 7 || allOrders.Null? ==> r == Run([], false)
    ensures Ordinal(today) > 7 && allOrders.Absent? ==> r == Run([], true)
    ensures allOrders.Present? ==> |r.entries| <= |allOrders.value|
  {
    if Ordinal(today) <= 7 || allOrders.Null? then Run([], false)
    else Process(if allOrders.Present? then allOrders.value else [], QualPred(DaysEarlier(today, 7)))
  }

  /** The reminder loop. `entries` are the lines appended to the log, and
      `remindersSent` is the counter the job keeps beside them. */
  method SendReminders(allOrders: Field<seq<OrderRecord>>, today: Date)
      returns (entries: seq<Entry>, remindersSent: nat, completed: bool)
    requires ValidDate(today)
    ensures remindersSent == |entries|
    ensures Run(entries, completed) == RunOf(allOrders, today)
  {
    entries, remindersSent := [], 0;
    if allOrders.Null? || Ordinal(today) <= 7 {
      return entries, remindersSent, false;
    }
    var orders := if allOrders.Present? then allOrders.value else [];
    var cutoff := DaysEarlier(today, 7);
    var qualifies := QualPred(cutoff);
    var i := 0;
    while i < |orders|
      invariant 0 <= i <= |orders|
      invariant remindersSent == |entries|
      invariant Process(orders, qualifies) == Prepend(entries, Process(orders[i..], qualifies))
    {
      var order := orders[i];
      ProcessStep(orders, i, qualifies);
      var orderDate := ParseOrderDate(Str(order.orderDate));
      QualPredMeans(order, cutoff);
      if orderDate.Some? && OnOrBefore(cutoff, orderDate.value) {
        if order.customer.Null? {
          return entries, remindersSent, false;
        }
        PrependPrepend(entries, [EntryFor(order)], Process(orders[i + 1..], qualifies));
        entries := entries + [EntryFor(order)];
        remindersSent := remindersSent + 1;
      }
      i := i + 1;
    }
    completed := true;
  }

  /** One turn of the loop, on the order at `i`. */
  lemma ProcessStep(orders: seq<OrderRecord>, i: nat, qualifies: OrderRecord -> bool)
    requires i < |orders|
    ensures Process(orders[i..], qualifies)
            == if Aborts(orders[i], qualifies) then Run([], false)
               else if qualifies(orders[i]) then Prepend([EntryFor(orders[i])], Process(orders[i + 1..], qualifies))
               else Process(orders[i + 1..], qualifies)
  {
    assert orders[i..][0] == orders[i] && orders[i..][1..] == orders[i + 1..];
  }

  lemma QualPredMeans(o: OrderRecord, cutoff: Date)
    ensures QualPred(cutoff)(o)
            == (ParseOrderDate(Str(o.orderDate)).Some? && OnOrBefore(cutoff, ParseOrderDate(Str(o.orderDate)).value))
  {
  }

  lemma PrependPrepend(e: seq<Entry>, x: seq<Entry>, r: Run)
    ensures Prepend(e, Prepend(x, r)) == Prepend(e + x, r)
  {
    assert e + (x + r.entries) == (e + x) + r.entries;
  }

  // ---------------------------------------------------------------------
  // What the job promises
  // ---------------------------------------------------------------------

  /** Running over two lists in turn: the second runs only if the first
      completed, and its entries follow the first's. */
  lemma {:induction false} ProcessAppend(a: seq<OrderRecord>, b: seq<OrderRecord>, qualifies: OrderRecord -> bool)
    ensures Process(a + b, qualifies)
            == if Process(a, qualifies).completed then Prepend(Process(a, qualifies).entries, Process(b, qualifies))
               else Process(a, qualifies)
  {
    if a == [] {
      assert a + b == b;
    } else {
      assert (a + b)[0] == a[0];
      assert (a + b)[1..] == a[1..] + b;
      ProcessAppend(a[1..], b, qualifies);
    }
  }

  /** The loop runs to the end exactly when no qualifying order has a null
      customer. */
  lemma {:induction false} ProcessCompleted(orders: seq<OrderRecord>, qualifies: OrderRecord -> bool)
    ensures Process(orders, qualifies).completed <==> forall i :: 0 <= i < |orders| ==> !Aborts(orders[i], qualifies)
  {
    if orders != [] {
      ProcessCompleted(orders[1..], qualifies);
      assert forall i :: 1 <= i < |orders| ==> orders[i] == orders[1..][i - 1];
    }
  }

  /** When nothing aborts, the entries are those of the qualifying orders,
      one per order, in input order. */
  lemma {:induction false} ProcessEntries(orders: seq<OrderRecord>, qualifies: OrderRecord -> bool)
    requires forall i :: 0 <= i < |orders| ==> !Aborts(orders[i], qualifies)
    ensures forall i :: 0 <= i < |Select(orders, qualifies)| ==> !Select(orders, qualifies)[i].customer.Null?
    ensures Process(orders, qualifies).entries == Entries(Select(orders, qualifies))
  {
    var qs := Select(orders, qualifies);
    forall i | 0 <= i < |qs|
      ensures !qs[i].customer.Null?
    {
      assert qs[i] in orders && qualifies(qs[i]);
    }
    if orders != [] {
      assert forall i :: 1 <= i < |orders| ==> orders[i] == orders[1..][i - 1];
      ProcessEntries(orders[1..], qualifies);
    }
  }

  /** When nothing aborts, entry `i` is written for the `i`-th qualifying
      order: its id as `str` prints it, and its customer's email, `Unknown`
      when the customer or the email is missing and `None` when the email
      is null. */
  lemma ProcessEntryFields(orders: seq<OrderRecord>, qualifies: OrderRecord -> bool)
    requires forall i :: 0 <= i < |orders| ==> !Aborts(orders[i], qualifies)
    ensures var qs, es := Select(orders, qualifies), Process(orders, qualifies).entries;
      && |es| == |qs|
      && (forall i :: 0 <= i < |qs| ==>
            && es[i].orderId == (if qs[i].id.Present? then qs[i].id.value else "None")
            && !qs[i].customer.Null?
            && (qs[i].customer.Absent? ==> es[i].email == "Unknown")
            && (qs[i].customer.Present? ==>
                  var email := qs[i].customer.value.email;
                  es[i].email == (if email.Absent? then "Unknown" else if email.Null? then "None" else email.value)))
  {
    ProcessEntries(orders, qualifies);
  }

  /** When the first order to abort is at `k`, the job stops there with the
      entries of the qualifying orders before it. */
  lemma ProcessStops(orders: seq<OrderRecord>, qualifies: OrderRecord -> bool, k: nat)
    requires k < |orders| && Aborts(orders[k], qualifies)
    requires forall i :: 0 <= i < k ==> !Aborts(orders[i], qualifies)
    ensures forall i :: 0 <= i < |Select(orders[..k], qualifies)| ==> !Select(orders[..k], qualifies)[i].customer.Null?
    ensures Process(orders, qualifies) == Run(Entries(Select(orders[..k], qualifies)), false)
  {
    var a := orders[..k];
    assert orders == a + orders[k..];
    ProcessEntries(a, qualifies);
    ProcessCompleted(a, qualifies);
    ProcessAppend(a, orders[k..], qualifies);
  }

  /** The cutoff is inclusive and counted in days: an order qualifies
      exactly when its date parses and is at most seven days before today. */
  lemma QualifiesWithinWeek(o: OrderRecord, today: Date)
    requires ValidDate(today) && Ordinal(today) > 7
    ensures Qualifies(o, DaysEarlier(today, 7))
            <==> DateOf(o).Some? && Ordinal(DateOf(o).value) >= Ordinal(today) - 7
  {
  }

  /** An order whose date does not parse writes nothing and the loop goes on
      with the next order. */
  lemma SkipUnparsed(o: OrderRecord, rest: seq<OrderRecord>, cutoff: Date)
    requires DateOf(o).None?
    ensures Process([o] + rest, QualPred(cutoff)) == Process(rest, QualPred(cutoff))
  {
    assert ([o] + rest)[1..] == rest;
  }
}
