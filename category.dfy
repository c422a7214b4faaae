/** The category ranking (`create_sum_order_items_df`): every line item counts,
    with no per-order reduction; rows are grouped by product category and the
    non-null item ids of each group are counted, largest count first. */
module CategorySales {
  import opened Tables
  import opened Orders

  function CategoryKey(x: OrderItem): Option<string> {
    x.category
  }

  /** What `count()` adds for a row: 1 when its item id is not null. */
  function ItemCounted(x: OrderItem): int {
    if x.orderItemId.Some? then 1 else 0
  }

  predicate HasItem(x: OrderItem) {
    x.orderItemId.Some?
  }

  /** The test "a counted item of category c". */
  function CountedIn(c: string): OrderItem -> bool {
    (x: OrderItem) => x.category == Some(c) && x.orderItemId.Some?
  }

  /** The test "a counted item of some category". */
  predicate Counted(x: OrderItem) {
    x.category.Some? && x.orderItemId.Some?
  }

  /** `groupby(category).order_item_id.count().sort_values(ascending=False)`;
      rows with a null category belong to no group. */
  function CategorySales(rows: seq<OrderItem>): seq<Tally<string>> {
    SortDescending(GroupSums(rows, CategoryKey, ItemCounted, GroupKeys(rows, CategoryKey)))
  }

  /** A group's quantity is the number of its rows with a non-null item id. */
  lemma CategoryQuantity(rows: seq<OrderItem>, c: string)
    ensures Total(Group(rows, CategoryKey, c), ItemCounted) == |Filter(rows, CountedIn(c))|
  {
    forall x | x in rows ensures CountedIn(c)(x) <==> HasKey(CategoryKey, c)(x) && HasItem(x) {
      assert HasKey(CategoryKey, c)(x) <==> CategoryKey(x) == Some(c);
    }
    TotalOfIndicator(rows, HasKey(CategoryKey, c), HasItem, CountedIn(c), ItemCounted);
  }

  /** One row per category present, largest quantity first; each row's quantity
      is the number of line items of that category with an item id. */
  lemma CategorySalesRows(rows: seq<OrderItem>)
    ensures var r := CategorySales(rows);
            NonIncreasing(r) && UniqueKeys(r)
            && |r| == CountUnique(KeyColumn(rows, CategoryKey))
            && forall t :: t in r <==>
                 (exists x :: x in rows && x.category == Some(t.key))
                 && t.value == |Filter(rows, CountedIn(t.key))|
  {
    var ks := GroupKeys(rows, CategoryKey);
    SortedGroupSums(rows, CategoryKey, ItemCounted, ks);
    forall c ensures Total(Group(rows, CategoryKey, c), ItemCounted) == |Filter(rows, CountedIn(c))| {
      CategoryQuantity(rows, c);
    }
  }

  /** The quantities add up to the number of line items that have both a
      category and an item id. */
  lemma CategorySalesTotal(rows: seq<OrderItem>)
    ensures SumValues(CategorySales(rows)) == |Filter(rows, Counted)|
  {
    var ks := GroupKeys(rows, CategoryKey);
    SortedGroupSums(rows, CategoryKey, ItemCounted, ks);
    GroupSumsConserve(rows, CategoryKey, ItemCounted, ks);
    forall x | x in rows ensures Counted(x) <==> HasSomeKey(CategoryKey)(x) && HasItem(x) {
    }
    TotalOfIndicator(rows, HasSomeKey(CategoryKey), HasItem, Counted, ItemCounted);
  }
}
