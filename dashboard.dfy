/** The page wiring (`main_df` and the six tables computed from it): the rows
    approved in the chosen date range are selected once and every summary is
    computed from that selection.  The lemmas here relate the summaries to each
    other. */
module Dashboard {
  import opened Tables
  import opened Calendar
  import opened Orders
  import Monthly
  import CategorySales
  import PaymentTypes
  import DeliveryStatus
  import CustomerDemography
  import Rfm

  datatype Views = Views(
    monthly: seq<Monthly.MonthRow>,
    categories: seq<Tally<string>>,
    payments: seq<Tally<string>>,
    delivery: seq<Tally<DeliveryStatus.DeliveryGroup>>,
    demography: seq<Tally<string>>,
    rfm: seq<Rfm.RfmRow>)

  /** The six tables of one selection. */
  function ViewsOf(main: seq<OrderItem>): Views {
    Views(
      Monthly.MonthlyOrders(main),
      CategorySales.CategorySales(main),
      PaymentTypes.PaymentTypes(main),
      DeliveryStatus.DeliveryStatus(main),
      CustomerDemography.CustomerDemography(main),
      Rfm.RfmTable(main))
  }

  /** The tables shown for the date range start .. end. */
  function BuildViews(rows: seq<OrderItem>, start: Date, end: Date): Views {
    ViewsOf(SelectDateRange(rows, start, end))
  }

  predicate AllEmpty(v: Views) {
    v.monthly == [] && v.categories == [] && v.payments == [] && v.delivery == []
    && v.demography == [] && v.rfm == []
  }

  /** An empty selection gives six empty tables. */
  lemma EmptySelectionEmptyViews()
    ensures AllEmpty(ViewsOf([]))
  {
    assert FirstPerOrder([]) == [];
    assert Monthly.ApprovalTimes([]) == [];
  }

  /** A single-day range on a day without approvals selects nothing, so every
      table is empty. */
  lemma DayWithoutOrdersEmptyViews(rows: seq<OrderItem>, day: Date)
    requires forall x :: x in rows && x.approvedAt.Some? ==> x.approvedAt.value.date != day
    ensures AllEmpty(BuildViews(rows, day, day))
  {
    forall x | x in rows ensures !ApprovedBetween(x, day, day) {
      if ApprovedBetween(x, day, day) {
        TsLeTotal(Midnight(day), x.approvedAt.value);
      }
    }
    EmptySelectionEmptyViews();
  }

  /** A range whose start is after its end selects nothing. */
  lemma InvertedRangeEmptyViews(rows: seq<OrderItem>, start: Date, end: Date)
    requires DateLt(end, start)
    ensures AllEmpty(BuildViews(rows, start, end))
  {
    InvertedRangeSelectsNothing(rows, start, end);
    EmptySelectionEmptyViews();
  }

  /** When every row is approved, so is every order record. */
  lemma AllRecordsApproved(rows: seq<OrderItem>)
    requires forall x :: x in rows ==> x.approvedAt.Some?
    ensures Filter(FirstPerOrder(rows), Monthly.IsApproved) == FirstPerOrder(rows)
  {
    forall o | o in FirstPerOrder(rows) ensures Monthly.IsApproved(o) {
      RecordOfItsOrder(rows, o);
      FirstPerOrderApproval(rows, o);
      var x :| x in rows && x.orderId == o.orderId;
    }
    FilterKeepsAll(FirstPerOrder(rows), Monthly.IsApproved);
  }

  /** On a date-range selection every row is approved, so the monthly counts
      add up to the number of distinct orders selected and the monthly revenue
      equals the payment-type total: both count each order's payment once. */
  lemma SelectionTotalsAgree(rows: seq<OrderItem>, start: Date, end: Date)
    requires ValidTable(rows)
    ensures var main := SelectDateRange(rows, start, end);
            var v := BuildViews(rows, start, end);
            Monthly.TotalOrderCount(v.monthly) == CountUnique(Project(main, ItemOrderId))
            && Monthly.TotalRevenue(v.monthly) == SumValues(v.payments)
            && SumValues(v.payments) == Total(FirstPerOrder(main), RecordPayment)
  {
    var main := SelectDateRange(rows, start, end);
    Monthly.MonthlyOrdersCountsApprovedOrders(main);
    FilterKeepsAll(main, Monthly.RowApproved);
    Monthly.MonthlyOrdersConserve(main);
    AllRecordsApproved(main);
    PaymentTypes.PaymentTypesTotal(main);
  }

  // ------------------------------------------------------------- a scenario

  /** Two line items of one order, each repeating the order's payment p. */
  predicate OneOrderTwoItems(rows: seq<OrderItem>, p: int) {
    |rows| == 2 && rows[0].orderId == rows[1].orderId
    && rows[0].paymentValue == p && rows[1].paymentValue == p
  }

  lemma OneOrderTwoItemsRecord(rows: seq<OrderItem>, p: int)
    requires OneOrderTwoItems(rows, p)
    ensures |FirstPerOrder(rows)| == 1
    ensures Total(FirstPerOrder(rows), RecordPayment) == p
  {
    assert Elements(Project(rows, ItemOrderId)) == {rows[0].orderId};
    var orders := FirstPerOrder(rows);
    var o := orders[0];
    assert o in orders;
    FirstPerOrderTakesFirstRow(rows, o);
    assert orders == [o];
  }

  /** The payment split reports the order's payment once, not once per item. */
  lemma OneOrderTwoItemsPayments(rows: seq<OrderItem>, p: int)
    requires OneOrderTwoItems(rows, p)
    ensures SumValues(ViewsOf(rows).payments) == p
  {
    OneOrderTwoItemsRecord(rows, p);
    PaymentTypes.PaymentTypesTotal(rows);
  }

  /** So do the monthly counts and revenue, when the order is approved. */
  lemma OneOrderTwoItemsMonthly(rows: seq<OrderItem>, p: int)
    requires OneOrderTwoItems(rows, p)
    requires ValidTable(rows)
    requires rows[0].approvedAt.Some? && rows[1].approvedAt.Some?
    ensures Monthly.TotalOrderCount(ViewsOf(rows).monthly) == 1
    ensures Monthly.TotalRevenue(ViewsOf(rows).monthly) == p
  {
    assert rows == [rows[0], rows[1]];
    OneOrderTwoItemsRecord(rows, p);
    AllRecordsApproved(rows);
    Monthly.MonthlyOrdersConserve(rows);
  }

  /** The category ranking counts both items. */
  lemma OneOrderTwoItemsCategories(rows: seq<OrderItem>, p: int)
    requires OneOrderTwoItems(rows, p)
    requires forall x :: x in rows ==> x.category.Some? && x.orderItemId.Some?
    ensures SumValues(ViewsOf(rows).categories) == 2
  {
    CategorySales.CategorySalesTotal(rows);
    FilterKeepsAll(rows, CategorySales.Counted);
  }

  /** The RFM monetary column counts the order's payment once per item. */
  lemma OneOrderTwoItemsMonetary(rows: seq<OrderItem>, p: int)
    requires OneOrderTwoItems(rows, p)
    ensures SumValues(Project(ViewsOf(rows).rfm, Rfm.MonetaryTally)) == 2 * p
  {
    assert ViewsOf(rows).rfm == Rfm.RfmTable(rows);
    Rfm.RfmMonetaryTotal(rows);
    OneOrderTwoItemsRowPayments(rows, p);
  }

  lemma OneOrderTwoItemsRowPayments(rows: seq<OrderItem>, p: int)
    requires OneOrderTwoItems(rows, p)
    ensures Total(rows, Rfm.ItemPayment) == 2 * p
  {
    var tail := rows[1..];
    assert tail[0] == rows[1] && tail[1..] == [];
    assert Total(tail, Rfm.ItemPayment) == p;
  }
}
