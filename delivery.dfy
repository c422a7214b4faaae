/** The delivery punctuality table (`create_delivery_status_df`): delivered rows
    with a known delivery offset are labelled on time or late and the distinct
    orders of each label are counted, largest count first. */
module DeliveryStatus {
  import opened Tables
  import opened Orders

  /** The three labels the classification can name. */
  datatype DeliveryGroup = OnTime | Late | InProcess

  /** `x >= 0` and `x < 0` on the float offset column: a missing value (NaN)
      compares false both ways. */
  predicate AtLeastZero(d: Option<int>) {
    d.Some? && d.value >= 0
  }

  predicate BelowZero(d: Option<int>) {
    d.Some? && d.value < 0
  }

  /** The labelling lambda: "on time" when the offset is at least 0, else
      "late" when it is below 0, else "process". */
  function Classify(d: Option<int>): (g: DeliveryGroup)
    ensures g == OnTime <==> d.Some? && d.value >= 0
    ensures g == Late <==> d.Some? && d.value < 0
    ensures g == InProcess <==> d.None?
  {
    if AtLeastZero(d) then OnTime else if BelowZero(d) then Late else InProcess
  }

  predicate IsDelivered(x: OrderItem) {
    x.status == Delivered
  }

  predicate HasOffset(x: OrderItem) {
    x.onTimeDelivery.Some?
  }

  function DeliveryKey(x: OrderItem): Option<DeliveryGroup> {
    Some(Classify(x.onTimeDelivery))
  }

  /** `df.loc[order_status == 'delivered']` followed by `dropna(on_time_delivery)`. */
  function DeliveredWithOffset(rows: seq<OrderItem>): (d: seq<OrderItem>)
    ensures forall x :: x in d <==> x in rows && x.status == Delivered && x.onTimeDelivery.Some?
  {
    Filter(Filter(rows, IsDelivered), HasOffset)
  }

  /** `groupby(delivery_group).order_id.nunique().sort_values(ascending=False)`. */
  function DeliveryStatus(rows: seq<OrderItem>): seq<Tally<DeliveryGroup>> {
    var d := DeliveredWithOffset(rows);
    SortDescending(GroupUniqueCounts(d, DeliveryKey, ItemOrderId, GroupKeys(d, DeliveryKey)))
  }

  /** The test "delivered, with an offset, and labelled g". */
  function DeliveredAs(g: DeliveryGroup): OrderItem -> bool {
    (x: OrderItem) => x.status == Delivered && x.onTimeDelivery.Some? && Classify(x.onTimeDelivery) == g
  }

  predicate DeliveredWithOffsetRow(x: OrderItem) {
    IsDelivered(x) && HasOffset(x)
  }

  /** The rows of label g are exactly the delivered rows with an offset that
      carry that label. */
  lemma DeliveryGroupRows(rows: seq<OrderItem>, g: DeliveryGroup)
    ensures Group(DeliveredWithOffset(rows), DeliveryKey, g) == Filter(rows, DeliveredAs(g))
  {
    FilterOfFilter(rows, IsDelivered, HasOffset, DeliveredWithOffsetRow);
    forall x | x in rows
      ensures DeliveredAs(g)(x) <==> DeliveredWithOffsetRow(x) && HasKey(DeliveryKey, g)(x)
    {
      assert HasKey(DeliveryKey, g)(x) <==> DeliveryKey(x) == Some(g);
    }
    FilterOfFilter(rows, DeliveredWithOffsetRow, HasKey(DeliveryKey, g), DeliveredAs(g));
  }

  /** "process" never appears and there are at most two rows, sorted largest
      first; each row counts the distinct orders among the delivered rows of
      its label, and a label is listed exactly when some such row carries it. */
  lemma DeliveryStatusRows(rows: seq<OrderItem>)
    ensures var r := DeliveryStatus(rows);
            |r| <= 2 && NonIncreasing(r) && UniqueKeys(r)
            && (forall t :: t in r ==> t.key != InProcess && t.value >= 1)
            && forall t :: t in r <==>
                 (exists x :: x in rows && DeliveredAs(t.key)(x))
                 && t.value == CountUnique(Project(Filter(rows, DeliveredAs(t.key)), ItemOrderId))
  {
    var d := DeliveredWithOffset(rows);
    var ks := GroupKeys(d, DeliveryKey);
    var r := DeliveryStatus(rows);
    SortedGroupUniqueCounts(d, DeliveryKey, ItemOrderId, ks);
    LabelsPresent(rows);
    AtMostTwoLabels(ks);
    forall t ensures t in r <==>
                 (exists x :: x in rows && DeliveredAs(t.key)(x))
                 && t.value == CountUnique(Project(Filter(rows, DeliveredAs(t.key)), ItemOrderId))
    {
      DeliveryGroupRows(rows, t.key);
    }
    forall t | t in r ensures t.value >= 1 {
      var x :| x in rows && DeliveredAs(t.key)(x);
      assert x in Filter(rows, DeliveredAs(t.key));
    }
  }

  /** The labels listed are those carried by some delivered row with an
      offset, and "process" is not one of them. */
  lemma LabelsPresent(rows: seq<OrderItem>)
    ensures var ks := GroupKeys(DeliveredWithOffset(rows), DeliveryKey);
            (forall g :: g in ks ==> g != InProcess)
            && forall g :: g in ks <==> exists x :: x in rows && DeliveredAs(g)(x)
  {
    var d := DeliveredWithOffset(rows);
    var ks := GroupKeys(d, DeliveryKey);
    forall g ensures g in ks <==> exists x :: x in rows && DeliveredAs(g)(x) {
      if g in ks {
        var x :| x in d && DeliveryKey(x) == Some(g);
        assert DeliveredAs(g)(x);
      }
      if exists x :: x in rows && DeliveredAs(g)(x) {
        var x :| x in rows && DeliveredAs(g)(x);
        assert x in d && DeliveryKey(x) == Some(g);
      }
    }
  }

  /** Distinct labels other than "process" number at most two. */
  lemma AtMostTwoLabels(ks: seq<DeliveryGroup>)
    requires NoDup(ks)
    requires forall g :: g in ks ==> g != InProcess
    ensures |ks| <= 2
  {
    NoDupCardinality(ks);
    var labels := {OnTime, Late};
    assert Elements(ks) <= labels;
    assert labels == Elements(ks) + (labels - Elements(ks));
  }

  /** The counts never exceed the number of delivered rows with an offset. */
  lemma DeliveryStatusBounded(rows: seq<OrderItem>)
    ensures SumValues(DeliveryStatus(rows)) <= |DeliveredWithOffset(rows)|
  {
    var d := DeliveredWithOffset(rows);
    var ks := GroupKeys(d, DeliveryKey);
    SortedGroupUniqueCounts(d, DeliveryKey, ItemOrderId, ks);
    GroupUniqueCountsBounded(d, DeliveryKey, ItemOrderId, ks);
    FilterKeepsAll(d, HasSomeKey(DeliveryKey));
  }

  /** When all delivered rows of one order carry the same label, each order is
      counted exactly once: the counts add up to the number of distinct
      delivered orders with an offset. */
  lemma DeliveryStatusCountsOrders(rows: seq<OrderItem>)
    requires forall x, y :: x in rows && y in rows && x.orderId == y.orderId
               && x.status == Delivered && y.status == Delivered
               && x.onTimeDelivery.Some? && y.onTimeDelivery.Some?
               ==> Classify(x.onTimeDelivery) == Classify(y.onTimeDelivery)
    ensures SumValues(DeliveryStatus(rows)) == CountUnique(Project(DeliveredWithOffset(rows), ItemOrderId))
  {
    var d := DeliveredWithOffset(rows);
    var ks := GroupKeys(d, DeliveryKey);
    SortedGroupUniqueCounts(d, DeliveryKey, ItemOrderId, ks);
    GroupUniqueCountsConserve(d, DeliveryKey, ItemOrderId, ks);
    FilterKeepsAll(d, HasSomeKey(DeliveryKey));
  }

  /** A delivered row without an offset takes no part in the counts. */
  lemma MissingOffsetIgnored(rows: seq<OrderItem>, x: OrderItem)
    requires x.status == Delivered && x.onTimeDelivery.None?
    ensures DeliveryStatus(rows + [x]) == DeliveryStatus(rows)
  {
    FilterAppend(rows, x, IsDelivered);
    FilterAppend(Filter(rows, IsDelivered), x, HasOffset);
    assert DeliveredWithOffset(rows + [x]) == DeliveredWithOffset(rows);
  }
}
