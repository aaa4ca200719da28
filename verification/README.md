# Rental availability accounting, in Dafny

This project models the availability accounting of a small Django rental
application. Customers book date-ranged orders. Each order holds line items
that reserve units of product rows. The pages work out, for every calendar
date, how many units of each product name are still free. The model covers
four places where the application does this accounting:

- the per-date availability loop of the `available_products` view and its
  copy in the `index` view;
- the choice of line items when an order is booked, in `create_order` and
  in its copy inside the `index` view (both are modelled by `Booking`);
- `Product.quantity_ordered_for_date`, a row's reserved units over a range;
- `Order.get_available_products_by_date`, the per-order accessor.

Dates are integer day numbers. Database rows are records held in sequences.
The query results of the ORM are written out as sums over those sequences.
All functions are pure. A dictionary lookup of a missing key, which the
views would raise, is a `Result.KeyError` value.

Files:

- `rental.dfy`: data shapes (`Product`, `Item`, `Order`, `Availability`,
  `CatalogEntry`) and the date tests `Touches` (inclusive containment) and
  `Overlaps` (range meets range).
- `catalog.dfy`: the grouped catalog. It holds each distinct name and the
  number of rows that carry it.
- `ledger.dfy`: the reference sums of reserved units by name and day.
- `day.dfy`: one day's availability list, plus laws relating different
  ledgers.
- `window.dfy`: the window of dates. It also holds the `index` view's loop
  as an imperative method, proved equal to the functional window.
- `booking.dfy`: the line items a booking creates.
- `product_query.dfy`: the per-row range query, and how it relates to the
  pages' by-name sums.
- `order_view.dfy`: the per-order accessor.
- `scenarios.dfy`: worked examples and facts that cross modules.

Two behaviours of the code are easy to misread; the model follows the code:

- A name's stock is the number of product rows with that name (a `Count`
  over the name column). It is not the sum of the rows' `quantity` fields.
  `StockIsRowCount` shows one row of quantity 10 offering a single unit.
- Suppose an order item names a product outside the catalog. The view's
  `total_ordered_quantity[...] += ...` then raises, so that item is not
  ignored. The model returns `KeyError`. `ReferencedItemsNeverFail` proves
  this cannot happen while every item references an existing product row.
  The foreign key guarantees that only when the database compares names as
  exact strings (see "Left out" on collation).

Other behaviour of the code that the model keeps:

- The per-order accessor subtracts only the order's own items. When several
  items share a name, the quantity of the one given later replaces the
  earlier one.
  The accessor ignores the order's dates.
- Booking never fills an order's product relation, so the accessor lists
  nothing for a booked order (`BookedOrderListsNothing`).
- The per-row range query counts an order whose range meets the query
  range, even when the order's own range is reversed and it contains no day
  at all (`ReversedOrderOverlaps`). For ranges that are not reversed,
  meeting means sharing a day (`OverlapIsSharedDay`).
- The row a booking picks is the one `.first()` returns. On a queryset with
  no ordering, that is the row with the smallest primary key.

## Model

| member | source | states |
|---|---|---|
| Rental.Touches | app_orders/views.py:37 | an order touches a day only when its own range is not reversed |
| Rental.Overlaps | app_orders/models.py:21-22 | an order touching some day of the query range overlaps that range |
| Rental.OverlapIsSharedDay | app_orders/models.py:21-22 | for ranges that are not reversed, the overlap test holds exactly when the order and the query range share a day |
| Rental.ReversedOrderOverlaps | app_orders/models.py:21-22 | an order from day 4 to day 2 passes the overlap test for days 2 to 4 although it contains no day |
| ProductCatalog.RowCount | app_orders/views.py:19 | a name's stock, the number of rows carrying it, never exceeds the number of rows |
| ProductCatalog.RowCountPositive | app_orders/views.py:19 | a name's row count is positive exactly when some row carries the name, so the `count__gt=0` filter drops nothing |
| ProductCatalog.Names | app_orders/views.py:19 | the grouped names are distinct and are exactly the names some row carries |
| ProductCatalog.NamesFirstOccurrence | app_orders/views.py:19 | the grouped names follow the order in which each name first occurs among the rows |
| ProductCatalog.Catalog | app_orders/views.py:19 | one entry per distinct row name, no name twice, each with the number of rows carrying it, which is at least 1 |
| DayView.ZeroReservations | app_orders/views.py:40 | the reservation dictionary starts with exactly the catalog names as keys, each at 0 |
| DayView.ReserveItems | app_orders/views.py:44-45 | adding items succeeds exactly when every item's name is a key; it keeps the keys and adds to each name the sum of that name's item quantities; otherwise it fails on a name that is not a key |
| DayView.ReserveOrders | app_orders/views.py:37-45 | only orders with start <= d <= end contribute; on success each key grows by the by-name reservation of day d; it fails exactly when a touching order has an item whose name is not a key |
| DayView.Offer | app_orders/views.py:48-55 | every reported quantity is positive |
| DayView.OfferSound | app_orders/views.py:48-55 | every reported entry is a catalog entry carrying its row count minus its reserved units |
| DayView.OfferComplete | app_orders/views.py:48-55 | every catalog entry whose row count exceeds its reserved units is reported |
| DayView.OfferOrdered | app_orders/views.py:48-55 | reported names form a subsequence of the catalog names |
| DayView.DayAvailability | app_orders/views.py:35-58 | a day's list fails exactly when an order touching the day has an item whose name no row carries, and the error names such an item |
| DayView.DayAvailabilitySpec | app_orders/views.py:40-55 | a name is listed iff some row carries it and its row count minus its reserved units on d is positive; the listed quantity is exactly that difference; the list is in catalog order with no repeated name |
| DayLaws.NoOrderTouchingFullStock | app_orders/views.py:40-55 | with no order touching d, the list is every catalog name with its full row count, in catalog order |
| DayLaws.UntouchedOrderIrrelevant | app_orders/views.py:37 | inserting an order whose range excludes d anywhere in the ledger leaves d's result unchanged |
| DayLaws.ReferencedItemsNeverFail | app_orders/views.py:40-45 | if every item references a product row, the per-day lookup never fails |
| DayLaws.MoreOrdersNeverMoreFree | app_orders/views.py:40-55 | adding orders never makes a name newly available and never raises a listed quantity |
| WindowView.FillWindow | app_orders/views.py:33-58 | on success the keys are the starting keys plus the visited dates; a failure comes from some visited date whose list fails |
| WindowView.Window | app_orders/views.py:30-58 | on success the window's keys are exactly the given dates |
| WindowView.FillWindowSpec | app_orders/views.py:33-58 | filling the dictionary stores each visited date's own list; entries not revisited are kept; it fails exactly when some date's list fails, with that date's error |
| WindowView.WindowSpec | app_orders/views.py:30-58 | the window has exactly the given dates as keys; each entry is the list computed for that date alone; it fails exactly when some date fails |
| WindowView.UpcomingWindowKeys | app_orders/views.py:30-33 | for any length n, a successful window over the n consecutive days from today has exactly those days as keys, n of them |
| WindowView.WindowOneEntryPerDay | app_orders/views.py:30-33 | the 365-day window from today has exactly the days today to today+364 as keys, 365 of them |
| WindowView.IndexReserveItems | app_orders/views.py:188-189 | the in-place loop over one order's items gives the same dictionary or error as the functional accumulation |
| WindowView.IndexReserveOrders | app_orders/views.py:181-189 | the loop over the orders touching d gives the same result as the availability view's accumulation |
| WindowView.IndexWindow | app_orders/views.py:172-202 | the index view's window loop produces the same dictionary, or the same error, as the availability view |
| Booking.FirstRow | app_orders/views.py:108-111 | returns None exactly when no row carries the name; otherwise a row with that name whose primary key is the smallest among such rows |
| Booking.FirstRowInKeyOrder | app_orders/views.py:111 | when the rows are in primary-key order, the chosen row is the first row carrying the name |
| Booking.BookingItems | app_orders/views.py:103-112 | every created item has a positive quantity, equal to the form quantity for its name, and references the row `FirstRow` picks for that name |
| Booking.BookingItemsCount | app_orders/views.py:76-79 | a name gets one item per time it was selected when its quantity is positive and some row carries it, and no item otherwise |
| Booking.BookingItemsOrdered | app_orders/views.py:103 | items follow the order of the selected names |
| Booking.Book | app_orders/views.py:96-112 | the booked order keeps the submitted dates, has an empty product relation, and every item references a product row with a positive quantity |
| Booking.BookingKeepsReferences | app_orders/views.py:108-112 | booking only creates items that reference existing rows, so the ledger keeps every item referencing a row |
| ProductQuery.QuantityOrderedForDate | app_orders/models.py:17-25 | the row query is 0 when no order overlaps the range, and 0 when no item of any order references this row |
| ProductQuery.QueryZeroIffNothingCounted | app_orders/models.py:19-25 | the row query is 0 exactly when every item of this row in an overlapping order has quantity 0; in particular it is 0 when nothing matches |
| ProductQuery.WideningNeverDecreases | app_orders/models.py:21-24 | widening the query range never lowers the result |
| ProductQuery.OneDayOverlapIsTouch | app_orders/models.py:21-22 | for the one-day range [d, d], the overlap test equals the views' inclusive containment test |
| ProductQuery.PagesAgreeWithRowQueries | app_orders/models.py:17-25 | with unique primary keys and items referencing rows, the views' reserved units for a name on d equal the sum of the one-day row query over the rows with that name |
| OrderView.OrderedQuantities | app_orders/models.py:39-42 | keys are exactly the names of the order's items |
| OrderView.OrderedQuantitiesLastWins | app_orders/models.py:39-42 | every entry of the dictionary holds the quantity of the last item carrying its name |
| OrderView.Remaining | app_orders/models.py:45-52 | every reported quantity is positive, and there are at most as many entries as products |
| OrderView.AvailableProductsOfOrder | app_orders/models.py:34-54 | every reported quantity is positive, and there are no more entries than the relation has products |
| OrderView.RemainingIsFreeEntries | app_orders/models.py:45-52 | the report is a subsequence of the per-product entries (quantity minus ordered quantity) whose length is the number of products with a positive entry, so with positive quantities it is exactly the positive entries, one per product, in relation order |
| OrderView.AvailableProductsOfOrderSpec | app_orders/models.py:34-54 | each reported entry is a product of the relation with quantity minus the order's own ordered quantity for its name (0 when absent); the list is exactly the positive entries, one per product of the relation even when products share a name, in relation order |
| OrderView.LastItemDecides | app_orders/models.py:39-42 | the ordered quantity of a name is the quantity of the last item with that name, so earlier items are overwritten, not summed |
| OrderView.UnorderedProductKeepsFullQuantity | app_orders/models.py:48-51 | a product whose name none of the order's items carries is listed with its full quantity when that is positive |
| Scenarios.BookedOrderListsNothing | app_orders/views.py:96-101 | an order created by booking has no related products, so the per-order accessor lists nothing for it |
| Scenarios.StockIsRowCount | app_orders/views.py:51 | one row named Tent with quantity field 10 offers exactly 1 unit |
| Scenarios.FullyBookedNameIsOmitted | app_orders/views.py:54 | with two Tent rows both booked on day 2, Tent is omitted rather than listed at 0, and only the Table is listed |
| Scenarios.SharedNameListedPerProduct | app_orders/models.py:45-52 | two Chair rows of quantity 1 in an order's relation, with no items, are reported as two Chair entries |
| Scenarios.LaterItemReplacesEarlier | app_orders/models.py:39-42 | items of 2 and then 3 Tents against a Tent of quantity 10 leave 7, not 5 |

## Left out

- Request, session, rendering and redirect handling is I/O. This covers `orderer_list`, `order_list`, `product_list`, and the rendering parts of `available_products`, `create_order` and `index`.
- The date window's start, `date.today()`, is a parameter. So are the parsed date and quantity form fields. ISO date parsing and `int()` parsing, including its `ValueError`, are library code.
- JSON `dumps`/`loads` of the per-order quantities is library serialisation. The stored JSON field does not take part in any availability computation.
- Orderer find-or-create and the database inserts of orders and items are persistence. Only the rule for choosing line items is modelled (`Booking.BookingItems`). `Booking.Book` assembles the resulting order value.
- Orders are fetched sorted by descending start date. The sums do not depend on order, so the model takes the ledger in the sequence given. Which unknown name a `KeyError` reports depends on that order. `DayView.DayAvailability` promises only that it names some offending item, not the first one in the database's order.
- The grouped catalog's order is whatever the database returns for a `GROUP BY` with no ordering. The model fixes it as the order in which names first occur among the rows.
- An item holds a copy of the product row it references, not a foreign key. Items whose row is missing from the product table are therefore representable. `ItemsReferenceRows` states the foreign-key guarantee where a lemma needs it.
- The `index` view's early lookup `available_products_by_date.get(selected_date, [])` is overwritten before use, so it is not modelled.
- Names are compared as exact strings. The database groups (`GROUP BY` on the name column, app_orders/views.py:19) and filters (app_orders/views.py:108) under its collation. Under a case- or accent-insensitive collation, rows "Tent" and "tent" form one group, and an item on the "tent" row raises a KeyError at app_orders/views.py:45 although the foreign key holds. `DayLaws.ReferencedItemsNeverFail` therefore holds only when the collation is exact string equality.
- Booking.BookingItems: quantities are unbounded integers. `OrderItem.quantity` is a `PositiveIntegerField` with a bounded database range. An insert with a larger form quantity fails at app_orders/views.py:112 after the order row was already created. The model creates such an item anyway.
- An order's line items (`self.items.all()`, app_orders/models.py:41) and its product relation (`self.products.all()`, app_orders/models.py:36) are fetched with no ordering. The model takes both in the sequence given. "The later item replaces the earlier one" refers to that sequence.
- Nothing guards against concurrent double-booking. There is no sequential behaviour to verify there.
- `app_orders/forms.py` (one form field) and the schema migration contain no logic.
