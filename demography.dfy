/** The customer geography table (`create_customer_demography_df`): the number
    of distinct customers per state, largest first. */
module CustomerDemography {
  import opened Tables
  import opened Orders

  function StateKey(x: OrderItem): Option<string> {
    Some(x.customerState)
  }

  function ItemState(x: OrderItem): string {
    x.customerState
  }

  /** `groupby('customer_state').customer_id.nunique().sort_values(ascending=False)`. */
  function CustomerDemography(rows: seq<OrderItem>): seq<Tally<string>> {
    SortDescending(GroupUniqueCounts(rows, StateKey, ItemCustomerId, GroupKeys(rows, StateKey)))
  }

  /** The test "a row of state st". */
  function InState(st: string): OrderItem -> bool {
    (x: OrderItem) => x.customerState == st
  }

  /** One row per state observed, largest first; each row counts the distinct
      customers with a row in that state, so it is at least 1. */
  lemma CustomerDemographyRows(rows: seq<OrderItem>)
    ensures var r := CustomerDemography(rows);
            NonIncreasing(r) && UniqueKeys(r)
            && |r| == CountUnique(Project(rows, ItemState))
            && (forall t :: t in r ==> t.value >= 1)
            && forall t :: t in r <==>
                 (exists x :: x in rows && x.customerState == t.key)
                 && t.value == CountUnique(Project(Filter(rows, InState(t.key)), ItemCustomerId))
  {
    var ks := GroupKeys(rows, StateKey);
    var r := CustomerDemography(rows);
    SortedGroupUniqueCounts(rows, StateKey, ItemCustomerId, ks);
    StateColumn(rows);
    forall t ensures t in r <==>
                 (exists x :: x in rows && x.customerState == t.key)
                 && t.value == CountUnique(Project(Filter(rows, InState(t.key)), ItemCustomerId))
    {
      StateGroup(rows, t.key);
    }
    forall t | t in r ensures t.value >= 1 {
      var x :| x in rows && x.customerState == t.key;
      assert x in Filter(rows, InState(t.key));
    }
  }

  lemma StateGroup(rows: seq<OrderItem>, st: string)
    ensures Group(rows, StateKey, st) == Filter(rows, InState(st))
  {
    forall x | x in rows ensures HasKey(StateKey, st)(x) == InState(st)(x) {
      assert HasKey(StateKey, st)(x) <==> StateKey(x) == Some(st);
    }
    FilterSameTest(rows, HasKey(StateKey, st), InState(st));
  }

  /** The state column, with its nulls dropped, has the same distinct values as
      the plain state column (states are never null). */
  lemma StateColumn(rows: seq<OrderItem>)
    ensures CountUnique(KeyColumn(rows, StateKey)) == CountUnique(Project(rows, ItemState))
  {
    KeyColumnOfTotalKey(rows, StateKey, ItemState);
  }

  /** When each customer lives in one state, every customer is counted exactly
      once: the counts add up to the number of distinct customers. */
  lemma CustomerDemographyCountsCustomers(rows: seq<OrderItem>)
    requires forall x, y :: x in rows && y in rows && x.customerId == y.customerId ==> x.customerState == y.customerState
    ensures SumValues(CustomerDemography(rows)) == CountUnique(Project(rows, ItemCustomerId))
  {
    var ks := GroupKeys(rows, StateKey);
    SortedGroupUniqueCounts(rows, StateKey, ItemCustomerId, ks);
    GroupUniqueCountsConserve(rows, StateKey, ItemCustomerId, ks);
    FilterKeepsAll(rows, HasSomeKey(StateKey));
  }

  /** Whatever the states, the counts never exceed the number of rows. */
  lemma CustomerDemographyBounded(rows: seq<OrderItem>)
    ensures SumValues(CustomerDemography(rows)) <= |rows|
  {
    var ks := GroupKeys(rows, StateKey);
    SortedGroupUniqueCounts(rows, StateKey, ItemCustomerId, ks);
    GroupUniqueCountsBounded(rows, StateKey, ItemCustomerId, ks);
    FilterKeepsAll(rows, HasSomeKey(StateKey));
  }
}
