/** The monthly orders table (`create_monthly_orders_df`): the table is first
    reduced to one record per order, then the records are bucketed by the
    calendar month of their approval time, every month from the first to the
    last one present, each with its number of distinct orders and its summed
    order payment. */
module Monthly {
  import opened Tables
  import opened Calendar
  import opened Orders

  /** One row of the monthly table; `revenue` is in centavos. */
  datatype MonthRow = MonthRow(month: YearMonth, orderCount: nat, revenue: int)

  predicate IsApproved(o: OrderRecord) {
    o.approvedAt.Some?
  }

  /** The test "approved in month number i". */
  function InMonth(i: int): OrderRecord -> bool {
    (o: OrderRecord) => o.approvedAt.Some? && MonthIndex(MonthOf(o.approvedAt.value)) == i
  }

  /** The test "approved in a month numbered lo .. hi". */
  function InMonths(lo: int, hi: int): OrderRecord -> bool {
    (o: OrderRecord) => o.approvedAt.Some? && lo <= MonthIndex(MonthOf(o.approvedAt.value)) <= hi
  }

  /** The approval times of the approved records (a resample skips null times). */
  function ApprovalTimes(orders: seq<OrderRecord>): (ts: seq<Timestamp>)
    ensures forall t :: t in ts <==> exists o :: o in orders && o.approvedAt == Some(t)
    ensures forall o :: o in orders && o.approvedAt.Some? ==> o.approvedAt.value in ts
  {
    if orders == [] then []
    else
      var rest := ApprovalTimes(orders[1..]);
      assert forall o :: o in orders <==> o == orders[0] || o in orders[1..];
      match orders[0].approvedAt
      case Some(t) => [t] + rest
      case None => rest
  }

  /** The row of month number i. */
  function MonthBucket(orders: seq<OrderRecord>, i: int): MonthRow {
    var inMonth := Filter(orders, InMonth(i));
    MonthRow(MonthAt(i), CountUnique(RecordIds(inMonth)), Total(inMonth, RecordPayment))
  }

  /** The rows of months lo .. hi, one per month, empty months included. */
  function MonthBuckets(orders: seq<OrderRecord>, lo: int, hi: int): (r: seq<MonthRow>)
    ensures |r| == if lo <= hi then hi - lo + 1 else 0
    decreases hi - lo
  {
    if hi < lo then [] else [MonthBucket(orders, lo)] + MonthBuckets(orders, lo + 1, hi)
  }

  lemma {:induction false} MonthBucketsAt(orders: seq<OrderRecord>, lo: int, hi: int, k: int)
    requires 0 <= k <= hi - lo
    ensures MonthBuckets(orders, lo, hi)[k] == MonthBucket(orders, lo + k)
    decreases hi - lo
  {
    var rest := MonthBuckets(orders, lo + 1, hi);
    assert MonthBuckets(orders, lo, hi) == [MonthBucket(orders, lo)] + rest;
    if k > 0 {
      MonthBucketsAt(orders, lo + 1, hi, k - 1);
      assert MonthBuckets(orders, lo, hi)[k] == rest[k - 1];
    }
  }

  lemma MonthBucketsEnds(orders: seq<OrderRecord>, lo: int, hi: int)
    requires lo <= hi
    ensures var r := MonthBuckets(orders, lo, hi);
            r[0].month == MonthAt(lo) && r[|r| - 1].month == MonthAt(hi)
  {
    MonthBucketsAt(orders, lo, hi, 0);
    MonthBucketsAt(orders, lo, hi, hi - lo);
  }

  /** The monthly table of a list of order records. */
  function MonthlyFromOrders(orders: seq<OrderRecord>): seq<MonthRow> {
    var times := ApprovalTimes(orders);
    if times == [] then []
    else MonthBuckets(orders, MonthIndex(MonthOf(Earliest(times))), MonthIndex(MonthOf(Latest(times))))
  }

  /** `create_monthly_orders_df` without the label formatting. */
  function MonthlyOrders(rows: seq<OrderItem>): seq<MonthRow> {
    MonthlyFromOrders(FirstPerOrder(rows))
  }

  function TotalOrderCount(t: seq<MonthRow>): int {
    if t == [] then 0 else t[0].orderCount + TotalOrderCount(t[1..])
  }

  function TotalRevenue(t: seq<MonthRow>): int {
    if t == [] then 0 else t[0].revenue + TotalRevenue(t[1..])
  }

  /** Approval times of the records fall in real calendar months. */
  predicate MonthsInRange(orders: seq<OrderRecord>) {
    forall o :: o in orders && o.approvedAt.Some? ==> 1 <= o.approvedAt.value.date.month <= 12
  }

  lemma FirstPerOrderMonths(rows: seq<OrderItem>)
    requires ValidTable(rows)
    ensures MonthsInRange(FirstPerOrder(rows))
  {
    FirstPerOrderValid(rows);
  }

  // ------------------------------------------------- over order records

  /** Every approval time lies between the months of the earliest and the
      latest approval. */
  lemma ApprovalMonthsBetween(orders: seq<OrderRecord>)
    requires MonthsInRange(orders)
    requires ApprovalTimes(orders) != []
    ensures var times := ApprovalTimes(orders);
            forall o :: o in orders && o.approvedAt.Some? ==>
              MonthIndex(MonthOf(Earliest(times))) <= MonthIndex(MonthOf(o.approvedAt.value)) <= MonthIndex(MonthOf(Latest(times)))
  {
    var times := ApprovalTimes(orders);
    forall o | o in orders && o.approvedAt.Some?
      ensures MonthIndex(MonthOf(Earliest(times))) <= MonthIndex(MonthOf(o.approvedAt.value)) <= MonthIndex(MonthOf(Latest(times)))
    {
      var t := o.approvedAt.value;
      assert t in times;
      var e, l := Earliest(times), Latest(times);
      var oe :| oe in orders && oe.approvedAt == Some(e);
      var ol :| ol in orders && ol.approvedAt == Some(l);
      MonthIndexMonotone(e, t);
      MonthIndexMonotone(t, l);
    }
  }

  lemma MonthlyFromOrdersEmpty(orders: seq<OrderRecord>)
    requires MonthsInRange(orders)
    ensures MonthlyFromOrders(orders) == [] <==> forall o :: o in orders ==> o.approvedAt.None?
  {
    var times := ApprovalTimes(orders);
    if times != [] {
      var o :| o in orders && o.approvedAt == Some(times[0]);
      ApprovalMonthsBetween(orders);
    } else {
    }
  }

  lemma MonthlyFromOrdersConsecutive(orders: seq<OrderRecord>)
    ensures var r := MonthlyFromOrders(orders);
            forall k :: 0 <= k < |r| ==> 1 <= r[k].month.month <= 12 && MonthIndex(r[k].month) == MonthIndex(r[0].month) + k
  {
    var times := ApprovalTimes(orders);
    if times != [] {
      var lo, hi := MonthIndex(MonthOf(Earliest(times))), MonthIndex(MonthOf(Latest(times)));
      var r := MonthBuckets(orders, lo, hi);
      forall k | 0 <= k < |r| ensures 1 <= r[k].month.month <= 12 && MonthIndex(r[k].month) == MonthIndex(r[0].month) + k {
        MonthBucketsAt(orders, lo, hi, k);
        MonthBucketsAt(orders, lo, hi, 0);
      }
    }
  }

  /** The first and last rows are the months of the earliest and the latest
      approval. */
  lemma MonthlyFromOrdersEnds(orders: seq<OrderRecord>)
    requires MonthsInRange(orders)
    requires ApprovalTimes(orders) != []
    ensures var r, times := MonthlyFromOrders(orders), ApprovalTimes(orders);
            r != [] && r[0].month == MonthOf(Earliest(times)) && r[|r| - 1].month == MonthOf(Latest(times))
  {
    var times := ApprovalTimes(orders);
    var first, last := Earliest(times), Latest(times);
    assert 1 <= first.date.month <= 12 && 1 <= last.date.month <= 12 by {
      var o1 :| o1 in orders && o1.approvedAt == Some(first);
      var o2 :| o2 in orders && o2.approvedAt == Some(last);
    }
    MonthIndexMonotone(first, last);
    MonthBucketsEnds(orders, MonthIndex(MonthOf(first)), MonthIndex(MonthOf(last)));
    MonthAtIndex(MonthOf(first));
    MonthAtIndex(MonthOf(last));
  }

  lemma MonthlyFromOrdersSpan(orders: seq<OrderRecord>)
    requires MonthsInRange(orders)
    ensures var r := MonthlyFromOrders(orders);
            r != [] ==>
              (exists o :: o in orders && o.approvedAt.Some? && MonthOf(o.approvedAt.value) == r[0].month)
              && (exists o :: o in orders && o.approvedAt.Some? && MonthOf(o.approvedAt.value) == r[|r| - 1].month)
              && (forall o :: o in orders && o.approvedAt.Some? ==>
                    MonthIndex(r[0].month) <= MonthIndex(MonthOf(o.approvedAt.value)) <= MonthIndex(r[|r| - 1].month))
  {
    var times := ApprovalTimes(orders);
    if times != [] {
      MonthlyFromOrdersEnds(orders);
      var o1 :| o1 in orders && o1.approvedAt == Some(Earliest(times));
      var o2 :| o2 in orders && o2.approvedAt == Some(Latest(times));
      ApprovalMonthsBetween(orders);
    }
  }

  lemma {:induction false} BucketsCount(orders: seq<OrderRecord>, lo: int, hi: int)
    requires NoDup(RecordIds(orders))
    ensures TotalOrderCount(MonthBuckets(orders, lo, hi)) == |Filter(orders, InMonths(lo, hi))|
    ensures TotalRevenue(MonthBuckets(orders, lo, hi)) == Total(Filter(orders, InMonths(lo, hi)), RecordPayment)
    decreases hi - lo
  {
    if hi < lo {
      FilterKeepsNone(orders, InMonths(lo, hi));
    } else {
      BucketsCount(orders, lo + 1, hi);
      var inMonth := Filter(orders, InMonth(lo));
      FilterKeepsDistinct(orders, InMonth(lo), RecordId);
      CountUniqueOfNoDup(RecordIds(inMonth));
      TotalOfDisjointSplit(orders, InMonth(lo), InMonths(lo + 1, hi), InMonths(lo, hi), RecordPayment);
      TotalOfDisjointSplit(orders, InMonth(lo), InMonths(lo + 1, hi), InMonths(lo, hi), One);
      TotalOfOnes(inMonth);
      TotalOfOnes(Filter(orders, InMonths(lo + 1, hi)));
      TotalOfOnes(Filter(orders, InMonths(lo, hi)));
    }
  }

  /** The bucket of month number i counts the orders approved in that month
      and sums their payments. */
  lemma MonthBucketContents(orders: seq<OrderRecord>, i: int)
    requires NoDup(RecordIds(orders))
    ensures var row, inMonth := MonthBucket(orders, i), Filter(orders, InMonth(i));
            MonthIndex(row.month) == i && row.orderCount == |inMonth| && row.revenue == Total(inMonth, RecordPayment)
  {
    FilterKeepsDistinct(orders, InMonth(i), RecordId);
    CountUniqueOfNoDup(RecordIds(Filter(orders, InMonth(i))));
  }

  /** Every row of the table is the bucket of some month. */
  lemma MonthlyFromOrdersAt(orders: seq<OrderRecord>, k: int)
    requires 0 <= k < |MonthlyFromOrders(orders)|
    ensures exists i :: MonthlyFromOrders(orders)[k] == MonthBucket(orders, i)
  {
    var times := ApprovalTimes(orders);
    if times != [] {
      var lo, hi := MonthIndex(MonthOf(Earliest(times))), MonthIndex(MonthOf(Latest(times)));
      MonthBucketsAt(orders, lo, hi, k);
    }
  }

  /** Each row counts the orders approved in its month and sums their
      payments. */
  lemma MonthlyFromOrdersRow(orders: seq<OrderRecord>, k: int)
    requires NoDup(RecordIds(orders))
    requires 0 <= k < |MonthlyFromOrders(orders)|
    ensures var row := MonthlyFromOrders(orders)[k];
            var inMonth := Filter(orders, InMonth(MonthIndex(row.month)));
            row.orderCount == |inMonth| && row.revenue == Total(inMonth, RecordPayment)
  {
    MonthlyFromOrdersAt(orders, k);
    var i :| MonthlyFromOrders(orders)[k] == MonthBucket(orders, i);
    MonthBucketContents(orders, i);
  }

  lemma MonthlyFromOrdersConserve(orders: seq<OrderRecord>)
    requires MonthsInRange(orders)
    requires NoDup(RecordIds(orders))
    ensures TotalOrderCount(MonthlyFromOrders(orders)) == |Filter(orders, IsApproved)|
    ensures TotalRevenue(MonthlyFromOrders(orders)) == Total(Filter(orders, IsApproved), RecordPayment)
  {
    var times := ApprovalTimes(orders);
    if times == [] {
      FilterKeepsNone(orders, IsApproved);
    } else {
      var lo, hi := MonthIndex(MonthOf(Earliest(times))), MonthIndex(MonthOf(Latest(times)));
      BucketsCount(orders, lo, hi);
      ApprovalMonthsBetween(orders);
      FilterSameTest(orders, InMonths(lo, hi), IsApproved);
    }
  }

  // ------------------------------------------------------- over the table

  /** The table is empty exactly when no row of the input has an approval time. */
  lemma MonthlyOrdersEmpty(rows: seq<OrderItem>)
    requires ValidTable(rows)
    ensures MonthlyOrders(rows) == [] <==> forall x :: x in rows ==> x.approvedAt.None?
  {
    var orders := FirstPerOrder(rows);
    FirstPerOrderMonths(rows);
    MonthlyFromOrdersEmpty(orders);
    if exists x :: x in rows && x.approvedAt.Some? {
      var x :| x in rows && x.approvedAt.Some?;
      assert x.orderId in RecordIds(orders);
      var k :| 0 <= k < |orders| && RecordIds(orders)[k] == x.orderId;
      FirstPerOrderApproval(rows, orders[k]);
    } else if exists o :: o in orders && o.approvedAt.Some? {
      var o :| o in orders && o.approvedAt.Some?;
      FirstPerOrderApproval(rows, o);
    }
  }

  /** The rows cover consecutive calendar months, one row per month, in
      ascending order. */
  lemma MonthlyOrdersConsecutive(rows: seq<OrderItem>)
    ensures var r := MonthlyOrders(rows);
            forall k :: 0 <= k < |r| ==> 1 <= r[k].month.month <= 12 && MonthIndex(r[k].month) == MonthIndex(r[0].month) + k
  {
    MonthlyFromOrdersConsecutive(FirstPerOrder(rows));
  }

  /** The first row is the month of the earliest approval and the last row the
      month of the latest; every approved order lies between them. */
  lemma MonthlyOrdersSpan(rows: seq<OrderItem>)
    requires ValidTable(rows)
    ensures var r := MonthlyOrders(rows);
            r != [] ==>
              (exists o :: o in FirstPerOrder(rows) && o.approvedAt.Some? && MonthOf(o.approvedAt.value) == r[0].month)
              && (exists o :: o in FirstPerOrder(rows) && o.approvedAt.Some? && MonthOf(o.approvedAt.value) == r[|r| - 1].month)
              && (forall o :: o in FirstPerOrder(rows) && o.approvedAt.Some? ==>
                    MonthIndex(r[0].month) <= MonthIndex(MonthOf(o.approvedAt.value)) <= MonthIndex(r[|r| - 1].month))
  {
    FirstPerOrderMonths(rows);
    MonthlyFromOrdersSpan(FirstPerOrder(rows));
  }

  /** Row k holds the number of orders approved in its month and their summed
      payment, each order counted once whatever its number of items. */
  lemma MonthlyOrdersRow(rows: seq<OrderItem>, k: int)
    requires 0 <= k < |MonthlyOrders(rows)|
    ensures var row := MonthlyOrders(rows)[k];
            var inMonth := Filter(FirstPerOrder(rows), InMonth(MonthIndex(row.month)));
            row.orderCount == |inMonth| && row.revenue == Total(inMonth, RecordPayment)
  {
    MonthlyFromOrdersRow(FirstPerOrder(rows), k);
  }

  /** Every approved order is counted in exactly one month: the month counts add
      up to the number of approved orders and the month revenues to their summed
      payment. */
  lemma MonthlyOrdersConserve(rows: seq<OrderItem>)
    requires ValidTable(rows)
    ensures TotalOrderCount(MonthlyOrders(rows)) == |Filter(FirstPerOrder(rows), IsApproved)|
    ensures TotalRevenue(MonthlyOrders(rows)) == Total(Filter(FirstPerOrder(rows), IsApproved), RecordPayment)
  {
    FirstPerOrderMonths(rows);
    MonthlyFromOrdersConserve(FirstPerOrder(rows));
  }

  predicate RowApproved(x: OrderItem) {
    x.approvedAt.Some?
  }

  /** An order record is approved exactly when one of the order's rows is. */
  lemma ApprovedIds(rows: seq<OrderItem>)
    ensures Elements(RecordIds(Filter(FirstPerOrder(rows), IsApproved)))
            == Elements(Project(Filter(rows, RowApproved), ItemOrderId))
  {
    var orders := FirstPerOrder(rows);
    var approved := Filter(orders, IsApproved);
    var approvedRows := Filter(rows, RowApproved);
    ElementsOfProject(approved, RecordId);
    ElementsOfProject(approvedRows, ItemOrderId);
    forall id | id in Elements(RecordIds(approved)) ensures id in Elements(Project(approvedRows, ItemOrderId)) {
      var o :| o in approved && o.orderId == id;
      FirstPerOrderApproval(rows, o);
      var x :| x in rows && x.orderId == id && x.approvedAt.Some?;
      assert x in approvedRows;
    }
    forall id | id in Elements(Project(approvedRows, ItemOrderId)) ensures id in Elements(RecordIds(approved)) {
      var x :| x in approvedRows && x.orderId == id;
      assert id in RecordIds(orders);
      var k :| 0 <= k < |orders| && RecordIds(orders)[k] == id;
      FirstPerOrderApproval(rows, orders[k]);
      assert orders[k] in approved;
    }
  }

  /** The approved order records are one per distinct order id among the rows
      that carry an approval time. */
  lemma ApprovedOrdersCount(rows: seq<OrderItem>)
    ensures |Filter(FirstPerOrder(rows), IsApproved)| == CountUnique(Project(Filter(rows, RowApproved), ItemOrderId))
  {
    var approved := Filter(FirstPerOrder(rows), IsApproved);
    FilterKeepsDistinct(FirstPerOrder(rows), IsApproved, RecordId);
    CountUniqueOfNoDup(RecordIds(approved));
    ApprovedIds(rows);
  }

  /** The month counts add up to the number of distinct order ids among the
      rows that carry an approval time. */
  lemma MonthlyOrdersCountsApprovedOrders(rows: seq<OrderItem>)
    requires ValidTable(rows)
    ensures TotalOrderCount(MonthlyOrders(rows)) == CountUnique(Project(Filter(rows, RowApproved), ItemOrderId))
  {
    MonthlyOrdersConserve(rows);
    ApprovedOrdersCount(rows);
  }
}
