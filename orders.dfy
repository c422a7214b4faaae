/** The order-item table the dashboard works on, the date-range selection made
    from the sidebar, and the reduction of the table to one record per order
    (pandas `groupby('order_id').first()`). */
module Orders {
  import opened Tables
  import opened Calendar

  datatype OrderStatus =
    Created | Approved | Processing | Invoiced | Shipped | Delivered | Canceled | Unavailable

  /** One row of the merged table: one line item of one order.
      `paymentType` and `paymentValue` belong to the order and repeat on each of
      its item rows; money is in centavos; `onTimeDelivery` is a signed number of
      days (negative means late). */
  datatype OrderItem = OrderItem(
    orderId: string,
    orderItemId: Option<int>,
    customerId: string,
    customerState: string,
    category: Option<string>,
    purchasedAt: Timestamp,
    approvedAt: Option<Timestamp>,
    status: OrderStatus,
    paymentType: string,
    paymentValue: int,
    onTimeDelivery: Option<int>)

  /** Parsed timestamps are real calendar instants. */
  predicate ValidItem(r: OrderItem) {
    ValidTimestamp(r.purchasedAt)
    && (r.approvedAt.Some? ==> ValidTimestamp(r.approvedAt.value))
  }

  predicate ValidTable(rows: seq<OrderItem>) {
    forall r :: r in rows ==> ValidItem(r)
  }

  // ------------------------------------------------------ date-range filter

  /** The sidebar bounds are dates; compared with a timestamp column each one
      stands for midnight at the start of its day, so the end day itself is
      only kept up to 00:00:00.  A null approval time never compares true. */
  predicate ApprovedBetween(r: OrderItem, start: Date, end: Date) {
    r.approvedAt.Some?
    && TsLe(Midnight(start), r.approvedAt.value)
    && TsLe(r.approvedAt.value, Midnight(end))
  }

  function InDateRange(start: Date, end: Date): OrderItem -> bool {
    r => ApprovedBetween(r, start, end)
  }

  /** The rows whose approval time lies in the chosen date range, in table order. */
  function SelectDateRange(rows: seq<OrderItem>, start: Date, end: Date): (r: seq<OrderItem>)
    ensures forall x :: x in r <==> x in rows && ApprovedBetween(x, start, end)
    ensures forall x :: x in r ==> x.approvedAt.Some?
    ensures ValidTable(rows) ==> ValidTable(r)
    ensures forall x :: multiset(r)[x] == if ApprovedBetween(x, start, end) then multiset(rows)[x] else 0
  {
    var sel := Filter(rows, InDateRange(start, end));
    forall x ensures multiset(sel)[x] == if ApprovedBetween(x, start, end) then multiset(rows)[x] else 0 {
      FilterMultiplicity(rows, InDateRange(start, end), x);
    }
    sel
  }

  /** The selection keeps table order: the rows before position k are selected
      ahead of the rows from k on, and a single row is kept exactly when it
      passes.  Together these fix the selection as the passing rows in their
      original order. */
  lemma SelectDateRangeKeepsOrder(rows: seq<OrderItem>, k: int, start: Date, end: Date)
    requires 0 <= k <= |rows|
    ensures SelectDateRange(rows, start, end)
            == SelectDateRange(rows[..k], start, end) + SelectDateRange(rows[k..], start, end)
    ensures forall x :: SelectDateRange([x], start, end) == if ApprovedBetween(x, start, end) then [x] else []
  {
    assert rows == rows[..k] + rows[k..];
    FilterConcat(rows[..k], rows[k..], InDateRange(start, end));
    forall x ensures SelectDateRange([x], start, end) == if ApprovedBetween(x, start, end) then [x] else [] {
      assert [x][1..] == [];
    }
  }

  /** Re-applying the same date range to a selected table changes nothing. */
  lemma SelectDateRangeIdempotent(rows: seq<OrderItem>, start: Date, end: Date)
    ensures SelectDateRange(SelectDateRange(rows, start, end), start, end) == SelectDateRange(rows, start, end)
  {
    FilterIdempotent(rows, InDateRange(start, end));
  }

  /** A start date after the end date selects nothing. */
  lemma InvertedRangeSelectsNothing(rows: seq<OrderItem>, start: Date, end: Date)
    requires DateLt(end, start)
    ensures SelectDateRange(rows, start, end) == []
  {
  }

  /** A row approved on the end date after midnight is not selected. */
  lemma EndDayIsCutAtMidnight(r: OrderItem, start: Date, end: Date)
    requires r.approvedAt.Some? && r.approvedAt.value.date == end && r.approvedAt.value.second > 0
    ensures !ApprovedBetween(r, start, end)
  {
  }

  // ------------------------------------------------------ one row per order

  /** The order-level fields kept by `groupby('order_id').first()`. */
  datatype OrderRecord = OrderRecord(
    orderId: string,
    approvedAt: Option<Timestamp>,
    paymentType: string,
    paymentValue: int)

  function OrderKey(r: OrderItem): Option<string> {
    Some(r.orderId)
  }

  function ItemOrderId(r: OrderItem): string {
    r.orderId
  }

  function ItemCustomerId(r: OrderItem): string {
    r.customerId
  }

  function RecordId(o: OrderRecord): string {
    o.orderId
  }

  function RecordPayment(o: OrderRecord): int {
    o.paymentValue
  }

  function RecordIds(orders: seq<OrderRecord>): (ids: seq<string>)
    ensures |ids| == |orders|
    ensures forall i :: 0 <= i < |orders| ==> ids[i] == orders[i].orderId
  {
    Project(orders, RecordId)
  }

  /** The first non-null approval time among some rows (pandas `first` skips nulls). */
  function FirstApproval(items: seq<OrderItem>): (a: Option<Timestamp>)
    ensures a.None? <==> forall i :: 0 <= i < |items| ==> items[i].approvedAt.None?
    ensures a.Some? ==> exists i :: 0 <= i < |items| && items[i].approvedAt == a
                          && forall j :: 0 <= j < i ==> items[j].approvedAt.None?
  {
    if items == [] then None
    else if items[0].approvedAt.Some? then items[0].approvedAt
    else
      var a := FirstApproval(items[1..]);
      assert forall i :: 0 < i < |items| ==> items[i] == items[1..][i - 1];
      a
  }

  /** The record of order `id`: payment fields from its first row, approval time
      from its first row that has one. */
  predicate HasOrder(rows: seq<OrderItem>, id: string) {
    exists x :: x in rows && x.orderId == id
  }

  function FirstOfOrder(rows: seq<OrderItem>, id: string): (o: OrderRecord)
    requires HasOrder(rows, id)
    ensures o.orderId == id
  {
    var test := HasKey(OrderKey, id);
    assert exists j :: 0 <= j < |rows| && test(rows[j]) by {
      var x :| x in rows && x.orderId == id;
      var j :| 0 <= j < |rows| && rows[j] == x;
      assert OrderKey(rows[j]) == Some(id);
    }
    var first := FirstIndex(rows, test);
    OrderRecord(id, FirstApproval(Group(rows, OrderKey, id)), rows[first].paymentType, rows[first].paymentValue)
  }

  function RecordsFor(rows: seq<OrderItem>, ids: seq<string>): (orders: seq<OrderRecord>)
    requires forall id :: id in ids ==> HasOrder(rows, id)
    ensures RecordIds(orders) == ids
    ensures forall i :: 0 <= i < |ids| ==> orders[i] == FirstOfOrder(rows, ids[i])
  {
    if ids == [] then []
    else
      assert ids[0] in ids;
      [FirstOfOrder(rows, ids[0])] + RecordsFor(rows, ids[1..])
  }

  /** `groupby('order_id').first()`: one record per distinct order id, in order
      of first appearance. */
  function FirstPerOrder(rows: seq<OrderItem>): (orders: seq<OrderRecord>)
    ensures NoDup(RecordIds(orders))
    ensures forall id :: id in RecordIds(orders) <==> exists x :: x in rows && x.orderId == id
    ensures |orders| == CountUnique(Project(rows, ItemOrderId))
  {
    var ids := GroupKeys(rows, OrderKey);
    var all := Project(rows, ItemOrderId);
    assert forall id :: id in ids <==> id in Distinct(all) by {
      forall id ensures id in ids <==> id in all {
        if id in all {
          var i :| 0 <= i < |all| && all[i] == id;
          assert rows[i] in rows;
        }
        if id in ids {
          var x :| x in rows && OrderKey(x) == Some(id);
          var i :| 0 <= i < |rows| && rows[i] == x;
          assert all[i] == id;
        }
      }
    }
    SameElementsSameLength(ids, Distinct(all));
    RecordsFor(rows, ids)
  }

  lemma RecordOfItsOrder(rows: seq<OrderItem>, o: OrderRecord)
    requires o in FirstPerOrder(rows)
    ensures HasOrder(rows, o.orderId) && o == FirstOfOrder(rows, o.orderId)
  {
    var orders := FirstPerOrder(rows);
    var ids := GroupKeys(rows, OrderKey);
    var k :| 0 <= k < |orders| && orders[k] == o;
    assert RecordIds(orders)[k] == o.orderId;
    assert ids[k] in ids;
  }

  /** Each order's payment fields are those of the first row of that order. */
  lemma FirstPerOrderTakesFirstRow(rows: seq<OrderItem>, o: OrderRecord)
    requires o in FirstPerOrder(rows)
    ensures exists i :: 0 <= i < |rows| && rows[i].orderId == o.orderId
              && (forall j :: 0 <= j < i ==> rows[j].orderId != o.orderId)
              && o.paymentType == rows[i].paymentType
              && o.paymentValue == rows[i].paymentValue
  {
    RecordOfItsOrder(rows, o);
    OrderFirstRow(rows, o.orderId);
  }

  lemma OrderFirstRow(rows: seq<OrderItem>, id: string)
    requires HasOrder(rows, id)
    ensures var o := FirstOfOrder(rows, id);
            exists i :: 0 <= i < |rows| && rows[i].orderId == id
              && (forall j :: 0 <= j < i ==> rows[j].orderId != id)
              && o.paymentType == rows[i].paymentType
              && o.paymentValue == rows[i].paymentValue
  {
    var test := HasKey(OrderKey, id);
    var x :| x in rows && x.orderId == id;
    var k :| 0 <= k < |rows| && rows[k] == x;
    assert OrderKey(rows[k]) == Some(id);
    var i := FirstIndex(rows, test);
    assert test(rows[i]) <==> OrderKey(rows[i]) == Some(id);
    forall j | 0 <= j < i ensures rows[j].orderId != id {
      assert test(rows[j]) <==> OrderKey(rows[j]) == Some(id);
    }
  }

  /** The first non-null approval time among an order's rows exists exactly
      when one of its rows is approved, and is then one of their approval times. */
  lemma GroupApproval(rows: seq<OrderItem>, id: string)
    ensures var a := FirstApproval(Group(rows, OrderKey, id));
            a.Some? <==> exists x :: x in rows && x.orderId == id && x.approvedAt.Some?
  {
    var items := Group(rows, OrderKey, id);
    if exists x :: x in rows && x.orderId == id && x.approvedAt.Some? {
      var x :| x in rows && x.orderId == id && x.approvedAt.Some?;
      assert OrderKey(x) == Some(id);
      var i :| 0 <= i < |items| && items[i] == x;
    }
    var a := FirstApproval(items);
    if a.Some? {
      var i :| 0 <= i < |items| && items[i].approvedAt == a;
      assert items[i] in items;
    }
  }

  /** The first row of a table carrying the order id and an approval time: the
      approval found by `FirstApproval` on the order's rows is that row's, and
      every earlier row of the order has none. */
  predicate FirstApprovedRow(rows: seq<OrderItem>, id: string, i: int, a: Option<Timestamp>) {
    0 <= i < |rows| && rows[i].orderId == id && rows[i].approvedAt == a
    && forall j :: 0 <= j < i && rows[j].orderId == id ==> rows[j].approvedAt.None?
  }

  /** The order's rows are kept in table order, so their first non-null
      approval time is the one of the order's first approved row in the table. */
  lemma {:induction false} GroupApprovalInOrder(rows: seq<OrderItem>, id: string)
    ensures var a := FirstApproval(Group(rows, OrderKey, id));
            a.Some? ==> exists i :: FirstApprovedRow(rows, id, i, a)
  {
    if rows != [] {
      var x, tail := rows[0], rows[1..];
      assert HasKey(OrderKey, id)(x) <==> OrderKey(x) == Some(id);
      var g := Group(tail, OrderKey, id);
      GroupApprovalInOrder(tail, id);
      var a := FirstApproval(Group(rows, OrderKey, id));
      if x.orderId == id {
        assert Group(rows, OrderKey, id) == [x] + g;
        assert ([x] + g)[1..] == g;
        if x.approvedAt.Some? {
          assert FirstApprovedRow(rows, id, 0, a);
        } else if a.Some? {
          assert a == FirstApproval(g);
          var i :| FirstApprovedRow(tail, id, i, a);
          assert FirstApprovedRow(rows, id, i + 1, a);
        }
      } else if a.Some? {
        assert Group(rows, OrderKey, id) == g;
        var i :| FirstApprovedRow(tail, id, i, a);
        assert FirstApprovedRow(rows, id, i + 1, a);
      }
    }
  }

  /** An order has an approval time exactly when one of its rows has one, and
      then, as pandas `first()` does, it is the approval time of the order's
      first row in table order that has one. */
  lemma FirstPerOrderApproval(rows: seq<OrderItem>, o: OrderRecord)
    requires o in FirstPerOrder(rows)
    ensures o.approvedAt.Some? <==> exists x :: x in rows && x.orderId == o.orderId && x.approvedAt.Some?
    ensures o.approvedAt.Some? ==>
              exists i :: 0 <= i < |rows| && rows[i].orderId == o.orderId && rows[i].approvedAt == o.approvedAt
                && forall j :: 0 <= j < i && rows[j].orderId == o.orderId ==> rows[j].approvedAt.None?
  {
    RecordOfItsOrder(rows, o);
    assert o.approvedAt == FirstApproval(Group(rows, OrderKey, o.orderId));
    GroupApproval(rows, o.orderId);
    GroupApprovalInOrder(rows, o.orderId);
  }

  /** Orders built from a table of valid rows carry valid approval times. */
  lemma FirstPerOrderValid(rows: seq<OrderItem>)
    requires ValidTable(rows)
    ensures forall o :: o in FirstPerOrder(rows) && o.approvedAt.Some? ==> ValidTimestamp(o.approvedAt.value)
  {
    forall o | o in FirstPerOrder(rows) && o.approvedAt.Some? ensures ValidTimestamp(o.approvedAt.value) {
      FirstPerOrderApproval(rows, o);
      var i :| 0 <= i < |rows| && rows[i].orderId == o.orderId && rows[i].approvedAt == o.approvedAt
                 && forall j :: 0 <= j < i && rows[j].orderId == o.orderId ==> rows[j].approvedAt.None?;
      assert rows[i] in rows;
    }
  }
}
