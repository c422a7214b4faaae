/** The payment-type split (`create_payment_type_df`): the table is reduced to
    one record per order, then the order payments are summed per payment type,
    largest sum first. */
module PaymentTypes {
  import opened Tables
  import opened Orders

  function PaymentKey(o: OrderRecord): Option<string> {
    Some(o.paymentType)
  }

  /** Group the order records by payment type and sum their payments. */
  function PaymentSplit(orders: seq<OrderRecord>): seq<Tally<string>> {
    SortDescending(GroupSums(orders, PaymentKey, RecordPayment, GroupKeys(orders, PaymentKey)))
  }

  /** `groupby('order_id').first().groupby('payment_type').payment_value.sum()`
      sorted descending. */
  function PaymentTypes(rows: seq<OrderItem>): seq<Tally<string>> {
    PaymentSplit(FirstPerOrder(rows))
  }

  /** One row per payment type used by some order, largest first; each row holds
      the summed payment of the orders paid that way, each order once. */
  lemma PaymentTypesRows(rows: seq<OrderItem>)
    ensures var r, orders := PaymentTypes(rows), FirstPerOrder(rows);
            NonIncreasing(r) && UniqueKeys(r)
            && |r| == CountUnique(KeyColumn(orders, PaymentKey))
            && forall t :: t in r <==>
                 (exists o :: o in orders && o.paymentType == t.key)
                 && t.value == Total(Group(orders, PaymentKey, t.key), RecordPayment)
  {
    var orders := FirstPerOrder(rows);
    SortedGroupSums(orders, PaymentKey, RecordPayment, GroupKeys(orders, PaymentKey));
  }

  /** Every payment type reported is the one on the first row of some order. */
  lemma PaymentTypesFromFirstRows(rows: seq<OrderItem>, t: Tally<string>)
    requires t in PaymentTypes(rows)
    ensures exists i :: 0 <= i < |rows| && rows[i].paymentType == t.key
              && forall j :: 0 <= j < i ==> rows[j].orderId != rows[i].orderId
  {
    PaymentTypesRows(rows);
    var o :| o in FirstPerOrder(rows) && o.paymentType == t.key;
    FirstPerOrderTakesFirstRow(rows, o);
  }

  /** The split neither loses nor double counts: its values add up to the sum
      of the order payments, one per distinct order. */
  lemma PaymentTypesTotal(rows: seq<OrderItem>)
    ensures SumValues(PaymentTypes(rows)) == Total(FirstPerOrder(rows), RecordPayment)
  {
    var orders := FirstPerOrder(rows);
    var ks := GroupKeys(orders, PaymentKey);
    SortedGroupSums(orders, PaymentKey, RecordPayment, ks);
    GroupSumsConserve(orders, PaymentKey, RecordPayment, ks);
    FilterKeepsAll(orders, HasSomeKey(PaymentKey));
  }
}
