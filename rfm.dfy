/** The RFM table (`create_rfm_df`): one row per customer with the number of
    days since the customer's last purchase, counted back from the last
    purchase date of the whole table (recency), the number of distinct orders
    (frequency) and the summed payment over all the customer's rows
    (monetary). */
module Rfm {
  import opened Tables
  import opened Calendar
  import opened Orders

  datatype RfmRow = RfmRow(customerId: string, frequency: nat, monetary: int, recency: int)

  function CustomerKey(x: OrderItem): Option<string> {
    Some(x.customerId)
  }

  function PurchasedAt(x: OrderItem): Timestamp {
    x.purchasedAt
  }

  function ItemPayment(x: OrderItem): int {
    x.paymentValue
  }

  predicate HasCustomer(rows: seq<OrderItem>, c: string) {
    exists x :: x in rows && x.customerId == c
  }

  /** The latest purchase date among some rows (`dt.date.max()`): the date of
      one of them, and no row's date is later. */
  function LastPurchaseDate(rows: seq<OrderItem>): (d: Date)
    requires rows != []
    ensures exists x :: x in rows && x.purchasedAt.date == d
    ensures forall x :: x in rows ==> DateLe(x.purchasedAt.date, d)
  {
    var ts := Project(rows, PurchasedAt);
    var last := Latest(ts);
    assert forall x :: x in rows ==> x.purchasedAt in ts by {
      forall x | x in rows ensures x.purchasedAt in ts {
        var i :| 0 <= i < |rows| && rows[i] == x;
        assert ts[i] == x.purchasedAt;
      }
    }
    var i :| 0 <= i < |ts| && ts[i] == last;
    assert rows[i] in rows;
    last.date
  }

  /** The rows of customer c. */
  function CustomerItems(rows: seq<OrderItem>, c: string): (mine: seq<OrderItem>)
    requires HasCustomer(rows, c)
    ensures mine != []
    ensures forall x :: x in mine <==> x in rows && x.customerId == c
  {
    var mine := Group(rows, CustomerKey, c);
    var x :| x in rows && x.customerId == c;
    assert CustomerKey(x) == Some(c);
    mine
  }

  /** `order_id: nunique` for customer c. */
  function Frequency(rows: seq<OrderItem>, c: string): nat
    requires HasCustomer(rows, c)
  {
    CountUnique(Project(CustomerItems(rows, c), ItemOrderId))
  }

  /** `payment_value: sum` for customer c. */
  function Monetary(rows: seq<OrderItem>, c: string): int
    requires HasCustomer(rows, c)
  {
    Total(CustomerItems(rows, c), ItemPayment)
  }

  /** `(recent_date - max_order_timestamp).days` for customer c. */
  function Recency(rows: seq<OrderItem>, c: string): int
    requires HasCustomer(rows, c)
  {
    DayNumber(LastPurchaseDate(rows)) - DayNumber(LastPurchaseDate(CustomerItems(rows, c)))
  }

  /** The row of customer c. */
  function CustomerRow(rows: seq<OrderItem>, c: string): (r: RfmRow)
    requires HasCustomer(rows, c)
  {
    RfmRow(c, Frequency(rows, c), Monetary(rows, c), Recency(rows, c))
  }

  function RfmRows(rows: seq<OrderItem>, cs: seq<string>): (r: seq<RfmRow>)
    requires forall c :: c in cs ==> HasCustomer(rows, c)
    ensures |r| == |cs|
    ensures forall i :: 0 <= i < |cs| ==> r[i] == CustomerRow(rows, cs[i])
  {
    seq(|cs|, i requires 0 <= i < |cs| => CustomerRow(rows, cs[i]))
  }

  /** `groupby('customer_id').agg(max purchase, nunique order_id, sum payment)`
      followed by the recency column. */
  function RfmTable(rows: seq<OrderItem>): seq<RfmRow> {
    RfmRows(rows, GroupKeys(rows, CustomerKey))
  }

  function RowCustomerId(r: RfmRow): string {
    r.customerId
  }

  /** Each row of the table is the row of its own customer. */
  lemma RowOfItsCustomer(rows: seq<OrderItem>, row: RfmRow)
    requires row in RfmTable(rows)
    ensures HasCustomer(rows, row.customerId)
    ensures row == CustomerRow(rows, row.customerId)
  {
    var ks := GroupKeys(rows, CustomerKey);
    var r := RfmRows(rows, ks);
    var i :| 0 <= i < |r| && r[i] == row;
    assert ks[i] in ks;
  }

  lemma RfmIds(rows: seq<OrderItem>, cs: seq<string>)
    requires forall c :: c in cs ==> HasCustomer(rows, c)
    ensures Project(RfmRows(rows, cs), RowCustomerId) == cs
  {
    var ids := Project(RfmRows(rows, cs), RowCustomerId);
    assert |ids| == |cs|;
    forall i | 0 <= i < |cs| ensures ids[i] == cs[i] {
      assert ids[i] == RfmRows(rows, cs)[i].customerId;
    }
  }

  /** One row per distinct customer. */
  lemma RfmCustomers(rows: seq<OrderItem>)
    ensures var r := RfmTable(rows);
            NoDup(Project(r, RowCustomerId))
            && |r| == CountUnique(Project(rows, ItemCustomerId))
            && forall c :: c in Project(r, RowCustomerId) <==> HasCustomer(rows, c)
  {
    var ks := GroupKeys(rows, CustomerKey);
    RfmIds(rows, ks);
    KeyColumnOfTotalKey(rows, CustomerKey, ItemCustomerId);
    forall c ensures c in ks <==> HasCustomer(rows, c) {
      if HasCustomer(rows, c) {
        var x :| x in rows && x.customerId == c;
        assert CustomerKey(x) == Some(c);
      }
    }
  }

  /** The row of every customer of the input is in the table. */
  lemma CustomerInTable(rows: seq<OrderItem>, c: string)
    requires HasCustomer(rows, c)
    ensures CustomerRow(rows, c) in RfmTable(rows)
  {
    var ks := GroupKeys(rows, CustomerKey);
    var x :| x in rows && x.customerId == c;
    assert CustomerKey(x) == Some(c);
    var i :| 0 <= i < |ks| && ks[i] == c;
    assert RfmTable(rows)[i] == CustomerRow(rows, c);
  }

  /** Frequency is the number of distinct orders the customer placed, so at
      least 1 and at most the customer's number of rows. */
  lemma FrequencyCountsOrders(rows: seq<OrderItem>, c: string)
    requires HasCustomer(rows, c)
    ensures Frequency(rows, c) == |set x | x in rows && x.customerId == c :: x.orderId|
    ensures 1 <= Frequency(rows, c) <= |CustomerItems(rows, c)|
  {
    var mine := CustomerItems(rows, c);
    ElementsOfProject(mine, ItemOrderId);
    var ids := set x | x in rows && x.customerId == c :: x.orderId;
    assert Elements(Project(mine, ItemOrderId)) == ids;
  }

  /** Recency is never negative, since no customer's last purchase is after
      the table's last purchase.  It counts whole days: it is 0 exactly when
      the customer's last purchase falls on the table's last purchase date,
      whatever the time of day. */
  lemma RecencyZero(rows: seq<OrderItem>, c: string)
    requires ValidTable(rows)
    requires HasCustomer(rows, c)
    ensures Recency(rows, c) >= 0
    ensures Recency(rows, c) == 0 <==> LastPurchaseDate(CustomerItems(rows, c)) == LastPurchaseDate(rows)
  {
    var mineLast, last := LastPurchaseDate(CustomerItems(rows, c)), LastPurchaseDate(rows);
    var x :| x in CustomerItems(rows, c) && x.purchasedAt.date == mineLast;
    var y :| y in rows && y.purchasedAt.date == last;
    assert ValidItem(x) && ValidItem(y);
    assert DateLe(mineLast, last);
    DaysBetweenOrdered(mineLast, last);
  }

  /** Recency is a number of calendar days: when the table's last purchase
      date is n days after the customer's last purchase date, it is n. */
  lemma RecencyCountsDays(rows: seq<OrderItem>, c: string, n: nat)
    requires ValidTable(rows)
    requires HasCustomer(rows, c)
    requires LastPurchaseDate(rows) == DaysAfter(LastPurchaseDate(CustomerItems(rows, c)), n)
    ensures Recency(rows, c) == n
  {
    var mineLast := LastPurchaseDate(CustomerItems(rows, c));
    var x :| x in CustomerItems(rows, c) && x.purchasedAt.date == mineLast;
    assert ValidItem(x);
    DaysAfterCountsDays(mineLast, n);
  }

  /** Every row of the table has a frequency of at least 1 counting the
      customer's distinct orders, and a recency of at least 0 that is 0 exactly
      when the customer's last purchase is on the table's last purchase date. */
  lemma RfmRowFacts(rows: seq<OrderItem>, row: RfmRow)
    requires ValidTable(rows)
    requires row in RfmTable(rows)
    ensures HasCustomer(rows, row.customerId)
    ensures row.frequency == |set x | x in rows && x.customerId == row.customerId :: x.orderId| >= 1
    ensures row.recency >= 0
    ensures row.recency == 0 <==> LastPurchaseDate(CustomerItems(rows, row.customerId)) == LastPurchaseDate(rows)
  {
    RowOfItsCustomer(rows, row);
    FrequencyCountsOrders(rows, row.customerId);
    RecencyZero(rows, row.customerId);
  }

  /** Some customer made the table's last purchase, so a non-empty table has a
      row with recency 0. */
  lemma RfmSomeRecencyZero(rows: seq<OrderItem>)
    requires ValidTable(rows)
    requires rows != []
    ensures exists row :: row in RfmTable(rows) && row.recency == 0
  {
    var last := LastPurchaseDate(rows);
    var x :| x in rows && x.purchasedAt.date == last;
    var c := x.customerId;
    LastBuyerDate(rows, x);
    RecencyZero(rows, c);
    CustomerInTable(rows, c);
  }

  /** The customer of a row dated on the table's last purchase date has that
      date as their own last purchase date. */
  lemma LastBuyerDate(rows: seq<OrderItem>, x: OrderItem)
    requires x in rows && x.purchasedAt.date == LastPurchaseDate(rows)
    ensures HasCustomer(rows, x.customerId)
    ensures LastPurchaseDate(CustomerItems(rows, x.customerId)) == LastPurchaseDate(rows)
  {
    var mine := CustomerItems(rows, x.customerId);
    var y :| y in mine && y.purchasedAt.date == LastPurchaseDate(mine);
    assert DateLe(LastPurchaseDate(mine), LastPurchaseDate(rows));
    assert DateLe(LastPurchaseDate(rows), LastPurchaseDate(mine));
  }

  /** The monetary column as a summary table keyed by customer. */
  function MonetaryTally(r: RfmRow): Tally<string> {
    Tally(r.customerId, r.monetary)
  }

  /** The monetary column is the per-customer sum of the payment column. */
  lemma RfmMonetaryIsGroupSum(rows: seq<OrderItem>)
    ensures Project(RfmTable(rows), MonetaryTally)
            == GroupSums(rows, CustomerKey, ItemPayment, GroupKeys(rows, CustomerKey))
  {
  }

  /** Monetary sums every row, not every order: over all customers it adds up
      to the payment column summed over all rows, so an order with several
      items has its payment counted once per item. */
  lemma RfmMonetaryTotal(rows: seq<OrderItem>)
    ensures SumValues(Project(RfmTable(rows), MonetaryTally)) == Total(rows, ItemPayment)
  {
    var ks := GroupKeys(rows, CustomerKey);
    RfmMonetaryIsGroupSum(rows);
    GroupSumsConserve(rows, CustomerKey, ItemPayment, ks);
    FilterKeepsAll(rows, HasSomeKey(CustomerKey));
  }
}
