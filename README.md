# Olist e-commerce dashboard: the aggregation core

The dashboard loads a flat table with one row per order line item, keeps the
rows whose approval time lies in a date range chosen in the sidebar, and
derives six summary tables from that selection. This project models those
computations as pure Dafny functions over a `seq<OrderItem>` and proves what
the tables mean:

- **Monthly orders**: one record per order, then a bucket per calendar month
  of approval, with the distinct-order count and summed payment of each month.
- **Category sales**: items counted per product category, largest first.
- **Payment types**: one record per order, then payments summed per payment
  type, largest first.
- **Delivery status**: delivered rows with a known delivery offset, labelled
  "on time" or "late", with distinct orders counted per label.
- **Customer demography**: distinct customers counted per state.
- **RFM**: per customer, recency (whole days back from the selection's last
  purchase date), frequency (distinct orders) and monetary (summed payment
  over all the customer's rows).

## Modules

| file | module | contents |
|---|---|---|
| `calendar.dfy` | `Calendar` | dates, timestamps (date plus second of the day), the proleptic Gregorian day number, month numbering |
| `tables.dfy` | `Tables` | generic selection, projection, sums, distinct counts, group-by over an optional key, summary rows (`Tally`) and the descending sort |
| `orders.dfy` | `Orders` | the order-item row, the date-range selection, and `groupby('order_id').first()` as one `OrderRecord` per order |
| `monthly.dfy` | `Monthly` | `create_monthly_orders_df` |
| `category.dfy` | `CategorySales` | `create_sum_order_items_df` |
| `payments.dfy` | `PaymentTypes` | `create_payment_type_df` |
| `delivery.dfy` | `DeliveryStatus` | `create_delivery_status_df` |
| `demography.dfy` | `CustomerDemography` | `create_customer_demography_df` |
| `rfm.dfy` | `Rfm` | `create_rfm_df` |
| `dashboard.dfy` | `Dashboard` | the selection feeding the six tables, and facts that relate the tables |

## Representation

- **Money** is integer centavos.
- **A timestamp** is a calendar date plus the second of the day. `ValidTable`
  says that every timestamp is a real calendar instant.
- **Nullable columns** are `Option`: the approval time, the category, the
  order item id and the delivery offset. The other columns are assumed
  non-null.
- **A month** is a `(year, month)` pair numbered consecutively by `MonthIndex`.
- **A summary table** is a `seq<Tally<K>>` of key/value pairs. Groups are
  listed in order of first appearance, then sorted by value, largest first,
  with an insertion sort.

## Model

| member | source | states |
|---|---|---|
| Orders.SelectDateRange | dashboard/dashboard.py:111 | Keeps a row exactly when it has an approval time between midnight of the start date and midnight of the end date. Each kept row keeps its multiplicity; validity is preserved. Table order is stated by `SelectDateRangeKeepsOrder`. |
| Orders.SelectDateRangeKeepsOrder | dashboard/dashboard.py:111 | The selection keeps table order. Rows before any position are selected ahead of the rows after it, and a single row is kept exactly when it passes. |
| Tables.FilterConcat | dashboard/dashboard.py:111 | Selecting from two tables laid end to end is selecting from each and laying the results end to end, so a selection keeps row order. |
| Orders.SelectDateRangeIdempotent | dashboard/dashboard.py:111 | Selecting the same range again from a selection changes nothing. |
| Orders.InvertedRangeSelectsNothing | dashboard/dashboard.py:111 | A start date after the end date selects no row. |
| Orders.EndDayIsCutAtMidnight | dashboard/dashboard.py:111 | A row approved on the end date after 00:00:00 is not selected. |
| Orders.FirstApproval | dashboard/dashboard.py:15 | The first non-null approval time among an order's rows. It is null only when all of them are null, and otherwise equals the first non-null row's value. |
| Orders.FirstPerOrder | dashboard/dashboard.py:15 | One record per distinct order id of the input. No id repeats, and the count equals the number of distinct order ids. |
| Orders.FirstPerOrderTakesFirstRow | dashboard/dashboard.py:15 | A record's payment type and value are those of the first row of its order. |
| Orders.OrderFirstRow | dashboard/dashboard.py:49 | The record built for an order takes its payment fields from the order's first row in table order. |
| Orders.FirstPerOrderApproval | dashboard/dashboard.py:15 | A record has an approval time exactly when some row of its order does. It is then the approval time of the order's first row in table order that has one, and every earlier row of the order has none. |
| Orders.GroupApprovalInOrder | dashboard/dashboard.py:15 | The first non-null approval among an order's rows is that of the order's first approved row in the table. |
| Orders.FirstOfOrder | dashboard/dashboard.py:15 | Builds the record of one order id; its ensures gives only the id. Its payment fields are characterised by `OrderFirstRow` and its approval time by `FirstPerOrderApproval`. |
| Monthly.MonthlyOrders | dashboard/dashboard.py:13-35 | No ensures. Characterised by `MonthlyOrdersRow`, `MonthlyOrdersConsecutive`, `MonthlyOrdersSpan`, `MonthlyOrdersEmpty` and `MonthlyOrdersConserve`. |
| Monthly.MonthlyFromOrders | dashboard/dashboard.py:18-21 | No ensures. Characterised by `MonthlyFromOrdersRow` and `MonthlyFromOrdersConserve`. |
| Monthly.MonthlyFromOrdersRow | dashboard/dashboard.py:18-21 | Each bucket counts the order records approved in its month and sums their payments. A month without approvals gets 0 and 0. |
| Monthly.MonthlyOrdersRow | dashboard/dashboard.py:13-21 | Row k of the monthly table holds the number of orders approved in its month and their summed payment, each order counted once. |
| Monthly.MonthlyOrdersConsecutive | dashboard/dashboard.py:18 | The rows are consecutive calendar months in ascending order, every month number in 1..12. |
| Monthly.MonthlyOrdersSpan | dashboard/dashboard.py:18 | The first row is the month of some approved order and so is the last. Every approved order's month lies between them. |
| Monthly.MonthlyOrdersEmpty | dashboard/dashboard.py:18-21 | The table is empty exactly when no input row has an approval time. |
| Monthly.MonthlyFromOrdersConserve | dashboard/dashboard.py:18-21 | Over distinct records, the month counts add up to the number of approved records and the revenues to their summed payments. |
| Monthly.MonthlyOrdersConserve | dashboard/dashboard.py:13-21 | Month counts add up to the number of approved orders, and revenues to the summed payment of those orders, one payment per order. |
| Monthly.ApprovedOrdersCount | dashboard/dashboard.py:15-19 | The number of approved order records equals the number of distinct order ids among rows with an approval time. |
| Monthly.MonthlyOrdersCountsApprovedOrders | dashboard/dashboard.py:15-19 | The monthly order counts add up to the number of distinct order ids among rows with an approval time. |
| CategorySales.CategorySales | dashboard/dashboard.py:39 | No ensures. Characterised by `CategorySalesRows` and `CategorySalesTotal`. |
| CategorySales.CategoryQuantity | dashboard/dashboard.py:39 | A category's quantity is the number of its rows with a non-null order item id. |
| CategorySales.CategorySalesRows | dashboard/dashboard.py:39 | Rows are sorted non-increasing, one per non-null category present, with as many rows as distinct categories. A pair is listed exactly when some row has that category and the value is its item count. |
| CategorySales.CategorySalesTotal | dashboard/dashboard.py:39 | The quantities add up to the number of rows with both a category and an order item id. |
| PaymentTypes.PaymentTypes | dashboard/dashboard.py:49 | No ensures. Characterised by `PaymentTypesRows`, `PaymentTypesFromFirstRows` and `PaymentTypesTotal`. |
| PaymentTypes.PaymentTypesRows | dashboard/dashboard.py:49 | Rows are sorted non-increasing, one per payment type of the order records. A pair is listed exactly when some order uses that type and the value is the summed payment of those orders. |
| PaymentTypes.PaymentTypesFromFirstRows | dashboard/dashboard.py:49 | Every listed payment type appears on the first row of some order. |
| PaymentTypes.PaymentTypesTotal | dashboard/dashboard.py:49 | The split adds up to the order payments summed once per distinct order. |
| DeliveryStatus.DeliveryStatus | dashboard/dashboard.py:54-60 | No ensures. Characterised by `DeliveryStatusRows`, `DeliveryStatusBounded`, `DeliveryStatusCountsOrders` and `MissingOffsetIgnored`. |
| DeliveryStatus.Classify | dashboard/dashboard.py:57 | "on time" exactly when the offset is at least 0, "late" exactly when it is below 0, "process" exactly when it is missing. |
| DeliveryStatus.DeliveredWithOffset | dashboard/dashboard.py:55-56 | Keeps exactly the delivered rows whose delivery offset is present. |
| DeliveryStatus.DeliveryGroupRows | dashboard/dashboard.py:55-59 | The rows grouped under a label are exactly the delivered rows with an offset that carry that label. |
| DeliveryStatus.DeliveryStatusRows | dashboard/dashboard.py:54-60 | At most two rows and never "process"; sorted non-increasing. A label is listed exactly when some delivered row with an offset carries it, with its distinct order count, which is at least 1. |
| DeliveryStatus.DeliveryStatusBounded | dashboard/dashboard.py:59 | The counts add up to at most the number of delivered rows with an offset. |
| DeliveryStatus.DeliveryStatusCountsOrders | dashboard/dashboard.py:59 | When all delivered rows of an order carry one label, the counts add up to the number of distinct orders among the delivered rows with an offset. |
| DeliveryStatus.MissingOffsetIgnored | dashboard/dashboard.py:56 | Appending a delivered row with no offset leaves the table unchanged. |
| CustomerDemography.CustomerDemography | dashboard/dashboard.py:64 | No ensures. Characterised by `CustomerDemographyRows`, `CustomerDemographyCountsCustomers` and `CustomerDemographyBounded`. |
| CustomerDemography.CustomerDemographyRows | dashboard/dashboard.py:64 | Rows are sorted non-increasing, one per state present. Each row's value is the number of distinct customers with a row in that state, so at least 1. |
| CustomerDemography.CustomerDemographyCountsCustomers | dashboard/dashboard.py:64 | When each customer has a single state, the counts add up to the number of distinct customers. |
| CustomerDemography.CustomerDemographyBounded | dashboard/dashboard.py:64 | The counts add up to at most the number of rows. |
| Rfm.RfmTable | dashboard/dashboard.py:68-83 | No ensures. Characterised by `RfmCustomers`, `CustomerInTable`, `RfmRowFacts`, `RfmSomeRecencyZero` and `RfmMonetaryTotal`. |
| Rfm.Frequency | dashboard/dashboard.py:71 | No ensures. Characterised by `FrequencyCountsOrders`. |
| Rfm.Monetary | dashboard/dashboard.py:72 | No ensures. Characterised by `RfmMonetaryTotal`. |
| Rfm.Recency | dashboard/dashboard.py:77-79 | No ensures. Characterised by `RecencyZero` and `RecencyCountsDays`. |
| Rfm.LastPurchaseDate | dashboard/dashboard.py:77-78 | The latest purchase date: the date of some row, and no row's date is later. |
| Rfm.RfmCustomers | dashboard/dashboard.py:69-74 | One row per distinct customer: no id repeats, the ids are exactly the input's customers, and the row count is the number of distinct customers. |
| Rfm.CustomerInTable | dashboard/dashboard.py:69-74 | Every customer of the input has their row in the table. |
| Rfm.FrequencyCountsOrders | dashboard/dashboard.py:71 | Frequency is the number of distinct order ids of the customer, between 1 and the customer's row count. |
| Rfm.RecencyZero | dashboard/dashboard.py:77-79 | Recency is at least 0, and 0 exactly when the customer's last purchase date is the selection's last purchase date, whatever the time of day. |
| Rfm.RecencyCountsDays | dashboard/dashboard.py:79 | When the table's last purchase date is n calendar days after the customer's last purchase date, recency is n. |
| Rfm.RfmRowFacts | dashboard/dashboard.py:68-83 | Every row belongs to an input customer. Its frequency counts that customer's distinct orders and is at least 1. Its recency is at least 0, and 0 exactly on the last purchase date. |
| Rfm.RfmSomeRecencyZero | dashboard/dashboard.py:78-79 | A non-empty selection has a customer with recency 0. |
| Rfm.RfmMonetaryTotal | dashboard/dashboard.py:72 | Monetary adds up, over all customers, to the payment column summed over every row, with no per-order de-duplication. |
| Calendar.NextDateIsOneDayLater | dashboard/dashboard.py:79 | The day after a real date is a real, later date whose day number is one higher. |
| Calendar.DaysAfterCountsDays | dashboard/dashboard.py:79 | The date n days after a real date is real, and its day number is n higher, so a difference of day numbers counts calendar days. |
| Calendar.DayNumberMonotone | dashboard/dashboard.py:79 | On real dates the day number is ordered exactly like the dates, so date differences in days respect date order. |
| Calendar.DaysBetweenOrdered | dashboard/dashboard.py:79 | Between ordered dates the day difference is at least 0, and 0 exactly when the dates are equal. |
| Tables.SortDescending | dashboard/dashboard.py:39 | `sort_values(ascending=False)`: the result is non-increasing and a permutation of the input. |
| Dashboard.BuildViews | dashboard/dashboard.py:111-118 | No ensures. Feeds the one date selection to all six tables; the lemmas below state what follows. |
| Dashboard.EmptySelectionEmptyViews | dashboard/dashboard.py:113-118 | An empty selection gives six empty tables. |
| Dashboard.DayWithoutOrdersEmptyViews | dashboard/dashboard.py:111-118 | A one-day range on a day without approvals gives six empty tables. |
| Dashboard.InvertedRangeEmptyViews | dashboard/dashboard.py:111-118 | A range whose start is after its end gives six empty tables. |
| Dashboard.SelectionTotalsAgree | dashboard/dashboard.py:111-115 | On any selection, the monthly counts add up to the distinct orders selected. The monthly revenue equals the payment-split total, which is the per-order payment sum. |
| Dashboard.OneOrderTwoItemsPayments | dashboard/dashboard.py:49 | An order with two items each repeating payment p contributes p to the payment split. |
| Dashboard.OneOrderTwoItemsMonthly | dashboard/dashboard.py:15-21 | That approved order counts once in the monthly table and contributes p to its revenue. |
| Dashboard.OneOrderTwoItemsCategories | dashboard/dashboard.py:39 | Its two items both count in the category quantities. |
| Dashboard.OneOrderTwoItemsMonetary | dashboard/dashboard.py:72 | Its payment counts twice, 2p, in the RFM monetary column. |

## Left out

- **Streamlit** widgets, layout and metrics are not modelled. The date range is a pair of parameters.
- **Chart construction and map drawing** (matplotlib, seaborn, plotly, GeoJSON and geopandas) are output only.
- **Data loading** is left out: reading the CSV, sorting by approval time and parsing datetimes. Rows are given already parsed and in table order.
- **Label formatting** is left out: `strftime('%Y-%m')` month labels and `format_currency`. A month is a `(year, month)` pair.
- **Floating point** is left out: the RFM means and rounding, and pie-chart percentages. Payments are integer centavos and delivery offsets integer days.
- **`.head(5)`** slicing of ranked tables is presentation.
- **Row order**: the tie order of `sort_values`, pandas' ordering of group keys and the `as_index=False` layout of the RFM frame are not modelled. Groups appear in order of first occurrence and ties keep no promised order. Only non-increasing values, one row per key, and contents are stated.
- **Per-column `first()`**: pandas `first()` takes the first non-null value per column. The model takes payment type and value from an order's first row, which is the same when those columns are non-null, as assumed here. The approval time follows the first-non-null rule, as `FirstPerOrderApproval` states.
- **Non-null columns**: order ids, customer ids, states, statuses and payment types are assumed non-null; pandas drops null group keys. Null categories are modelled and dropped.
- **Review score** takes no part in these six tables.
- **End of the date range**: the end date is compared as midnight at its start, so rows approved later on the end date are not selected. The model keeps this cut-off; `EndDayIsCutAtMidnight` states it.
- **Filters**: the sidebar offers only a date range; there is no category or state filter.
- **The "process" label**: the model keeps the branch in `Classify`, and `DeliveryStatusRows` proves the label never appears in the table.
- **RFM monetary**: it sums the payment of every row, so a multi-item order's payment counts once per item, while the monthly and payment tables count it once per order. The model keeps this behaviour; `RfmMonetaryTotal` and `OneOrderTwoItemsMonetary` state it.
