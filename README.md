# TransactionService: orders, line items, invoice numbers and the export

This project models the order workflow of a Laravel shop back office,
`TransactionService`. Two tables are involved: `orders` (invoice number,
customer, order date, grand total) and `order_products` (order id, product
name, quantity, price, subtotal). The service:

- creates an order and its line items and then sums the grand total;
- reconciles the line items when an order is edited;
- deletes orders;
- builds the date and invoice-number criteria of the order listing;
- writes both tables into a two-sheet spreadsheet, 5000 rows at a time.

Each invoice number reads `INV` + `Ymd` + a four-digit daily sequence.

The model has two layers.

- **Specification functions.** The `Workflow` module describes each
  repository call as a function on a `Tables` value. A failing call ends the
  operation and keeps what the earlier calls wrote, because the service opens
  no database transaction. `OrderNumber`, `Listing` and `Export` do the same
  for the invoice-number rule, the listing criteria and the two sheets.
  `Reconcile` holds the lemmas about the update path.
- **The service class.** `Service.TransactionService` keeps the two tables
  as `map` fields plus one auto-increment counter per table. Its methods
  update those fields step by step, with the source's loops. Each method's
  `ensures` ties the new state to the `Workflow` function of the old state.

Money is an integer amount. Dates are structured year, month, day, hour,
minute and second values. `Dates` renders them as `Ymd`, `d-m-Y` and
`Y-m-d H:i:s`. The `d-m-Y` and `Y-m-d H:i:s` renderings are proved to read
back as the date they render. Only `Y-m-d H:i:s` is proved to sort
chronologically, and in both directions; `d-m-Y` does not sort that way.
`Ymd` is only proved to be eight digits.

A request product is either readable or not (`ProductInput.wellFormed`). An
unreadable product lacks `product_name`, `quantity` or `price`, or has a
quantity or price that cannot be multiplied. Reading it throws, which ends
the loop at that product.

Three behaviours of the repository are not in the source, so the model
takes them as parameters or states them as assumptions:

- `notInEmptyMatchesAll`: what the criterion `['id', 'NOT IN', []]` selects:
  every row or none. The source passes it to the repository's own `where`
  (lines 207 and 212), whose translation is not part of this model. Laravel's
  `whereNotIn` with an empty list would compile to `1 = 1`, that is, every
  row.
- `cascadeOnDelete`: whether the schema deletes an order's line items with it.
- The repository's `update` of an id that has no row is taken to throw. An
  update request product whose id is `''` is dropped from the incoming ids
  but still takes the update branch, so it ends the update with a failure.

The service answers 200 or 404 (`Workflow.Code`), and each service method
returns that code beside its status. A thrown error is `Failed` and a
missing order on delete is `NotFound`; both answer 404.

Behaviour the model exhibits as written:

- **Sequence 9999.** After sequence 9999 the next number is `...10000`. That
  string sorts below `...9999`, so the search for the latest number keeps
  finding `...9999` and issues `...10000` again (`OrderNumber.RepeatsAfter9999`).
- **Updates are not scoped to the order.** The update by id does not check
  `order_id`. A product naming another order's line item rewrites that row,
  and the other order's total goes stale
  (`Reconcile.ForeignUpdateLeavesStaleTotal`).
- **A failed create keeps a partial order.** An unreadable product throws
  after `storeOrder` has inserted the order. The answer is 404, and the order
  stays with `grand_total = 0`, owning the rows of the products before the
  bad one (`Workflow.CreateKeepsPartialOrder`).
- **Products without ids are created twice.** With no incoming ids, every
  product is created before the delete step and again after it. What
  survives depends on `notInEmptyMatchesAll`
  (`Reconcile.ReconcileWithoutIdsMatchAll`,
  `Reconcile.ReconcileWithoutIdsMatchNone`).

## Model

| member | source | states |
|---|---|---|
| Text.ZeroPad | app/Services/TransactionService.php:92 | `str_pad(n, w, '0', STR_PAD_LEFT)` of an n below 10^w has exactly w characters, all digits, and reads back as n |
| Text.PhpToIntOfDigits | app/Services/TransactionService.php:89 | PHP's `(int)` cast of a string of digits is the decimal value of those digits |
| Text.PhpToIntExponent | app/Services/TransactionService.php:89 | the cast reads an exponent: digits a, `e`, digits b give a * 10^b |
| Text.PhpToIntTruncates | app/Services/TransactionService.php:89 | the cast of digits with a fractional part is the whole part: it truncates |
| Text.PhpToIntNegative | app/Services/TransactionService.php:89 | a minus sign negates what follows, so negative fractions truncate toward zero |
| Text.PhpToInt | app/Services/TransactionService.php:89 | definition: leading white space, an optional sign, then the longest decimal number with an optional fraction and exponent, truncated toward zero; no digits gives 0 |
| Text.UnsignedNumber | app/Services/TransactionService.php:89 | definition: the unsigned number the cast reads after the sign |
| Text.ExponentOf | app/Services/TransactionService.php:89 | definition: an `e` or `E`, an optional sign and at least one digit; otherwise no exponent |
| Text.PadLeft | app/Services/TransactionService.php:92 | definition: `str_pad(s, width, c, STR_PAD_LEFT)`: copies of c before s up to `width` characters; a long enough s stays |
| Text.IntToStr | app/Services/TransactionService.php:92 | definition: PHP's decimal rendering of an int, with a `-` for negatives |
| Text.LexLeDigits | app/Services/TransactionService.php:83 | for digit strings of equal length, string order (the order `orderByDesc('order_no')` uses) agrees with numeric order, both ways |
| Dates.FormatYmd | app/Services/TransactionService.php:76 | `format('Ymd')` yields eight digits |
| Dates.FormatYmdHis | app/Services/TransactionService.php:28-29 | `format('Y-m-d H:i:s')` yields 19 characters, each a digit, `-`, ` ` or `:` |
| Dates.ParseFormatDmy | app/Services/TransactionService.php:286 | the `d-m-Y` rendering of the export reads back as the same date |
| Dates.ParseFormatYmdHis | app/Services/TransactionService.php:28-29 | the `Y-m-d H:i:s` rendering reads back as the same date and time |
| Dates.FormatYmdHisInjective | app/Services/TransactionService.php:31 | two instants give equal `Y-m-d H:i:s` strings only when they are equal, so the `===` comparison at line 31 compares instants |
| Dates.FormatYmdHisOrder | app/Services/TransactionService.php:34 | string order of `Y-m-d H:i:s` renderings is chronological order, both ways, so the `BETWEEN` bounds compare as instants |
| SqlLike.Like | app/Services/TransactionService.php:78 | definition: SQL `LIKE` with `%`, `_` and backslash escapes, matched character by character |
| SqlLike.LikePrefix | app/Services/TransactionService.php:78 | a `LIKE` pattern of a wildcard-free text followed by `%` matches exactly the strings starting with that text |
| SqlLike.LikeContains | app/Services/TransactionService.php:44 | `LIKE '%t%'` with a wildcard-free t matches exactly the strings containing t |
| OrderNumber.DayPrefix | app/Services/TransactionService.php:76-78 | the prefix `INV` + `Ymd` has 11 characters, no `LIKE` wildcard, and digits after `INV` |
| OrderNumber.Latest | app/Services/TransactionService.php:83 | the first row of `orderByDesc('order_no')` among the matches: none exactly when nothing matches, otherwise a matching number that no other match exceeds in string order |
| OrderNumber.MatchesToday | app/Services/TransactionService.php:78 | a number matches the criterion `INV` + today + `%` exactly when it starts with `INV` + today |
| OrderNumber.LatestWith | app/Services/TransactionService.php:78-83 | the latest match is the greatest stored number starting with the prefix, and it is absent exactly when no number starts with it |
| OrderNumber.FirstOfTheDay | app/Services/TransactionService.php:85 | with no number starting `INV` + today, the result is `INV` + today + `0001` |
| OrderNumber.ContinuesFromGreatest | app/Services/TransactionService.php:87-96 | otherwise the result is `INV` + today + the 4-padded rendering of one plus the `(int)` value of the greatest today-number's characters from offset 11 |
| OrderNumber.ContinuesAfterExponent | app/Services/TransactionService.php:89-95 | a stored suffix `1e3` is read as 1000, so the next number ends in `1001` |
| OrderNumber.SuffixValue | app/Services/TransactionService.php:89 | definition: `(int) substr(no, 11)`; `substr` past the end is "" |
| OrderNumber.NextNumber | app/Services/TransactionService.php:85-96 | definition: prefix + `0001` when no row is found, else prefix + the 4-padded rendering of one more than the row's suffix |
| OrderNumber.NumberAfter | app/Services/TransactionService.php:78-96 | definition: `NextNumber` of the latest number matching the prefix |
| OrderNumber.GenerateOrderNumber | app/Services/TransactionService.php:74-99 | definition: `NumberAfter` with the prefix `INV` + today as `Ymd` |
| OrderNumber.DayNumberOrder | app/Services/TransactionService.php:83 | among 15-character today-numbers, string order is the order of their sequences |
| OrderNumber.NextIsFresh | app/Services/TransactionService.php:74-99 | when every today-number is 15 characters with a sequence of at most 9998, the result is a 15-character today-number. Its sequence is 1 or one more than a stored sequence. It is greater, as a string and by sequence, than every stored today-number, so it is not taken |
| OrderNumber.RepeatsAfter9999 | app/Services/TransactionService.php:83-95 | with `...9999` and `...10000` stored, the generator returns `...10000` again: the 5-digit number sorts below 9999 |
| Tables.SumRangeChange | app/Services/TransactionService.php:136 | rewriting one subtotal of an order and keeping its other rows changes the order's `SUM(subtotal)` by the difference |
| Tables.KeysAscending | app/Services/TransactionService.php:284 | a scan by primary key lists exactly the table's keys in the range, in strictly ascending order |
| Tables.KeysAscendingCount | app/Services/TransactionService.php:284 | that scan has as many entries as the table has keys |
| Workflow.Code | app/Services/TransactionService.php:67-70 | the answer is 200 exactly for Ok; every other status answers 404 |
| Workflow.NewItem | app/Services/TransactionService.php:108-112 | definition: the row `create` inserts: order id, name, quantity, price and subtotal quantity * price |
| Workflow.CreateItem | app/Services/TransactionService.php:115 | definition: `OrderProductRepository::create`: the new row under the next id, the counter one up |
| Workflow.Overwrite | app/Services/TransactionService.php:222-230 | definition: the update by id replaces name, quantity, price and subtotal, and keeps `order_id` |
| Workflow.StoreOrder | app/Services/TransactionService.php:119-132 | definition: the order row with the generated number, the request's customer and date and `grand_total = 0`, under the next id |
| Workflow.CreateRows | app/Services/TransactionService.php:106-116 | definition: one `create` per product, in order |
| Workflow.StoreDataProductOrder | app/Services/TransactionService.php:101-117 | definition: the loop of `create` calls, failing at the first unreadable product and keeping the rows created before it |
| Workflow.ReadableCount | app/Services/TransactionService.php:106-116 | the number of products before the first unreadable one: all before it are readable, it is not, and it is all of them exactly when every product is readable |
| Workflow.StoreStopsAtMalformed | app/Services/TransactionService.php:101-117 | the loop leaves the rows of the products before the first unreadable one and succeeds exactly when there is none |
| Workflow.StoreWellFormed | app/Services/TransactionService.php:101-117 | with every product readable, the loop succeeds and creates a row for each |
| Workflow.GenerateTransaction | app/Services/TransactionService.php:60-72 | definition: `storeOrder`, then `FinishCreate` for the new id |
| Workflow.FinishCreate | app/Services/TransactionService.php:64-70 | definition: the products, then the total; the first failure answers `Failed` and keeps what was written |
| Workflow.UpsertProduct | app/Services/TransactionService.php:220-242 | definition: an unreadable product fails; without an id a `create`; with an id an update that fails when no row has it |
| Workflow.UpsertProducts | app/Services/TransactionService.php:218-243 | definition: the update-or-create loop, stopping at the first failure |
| Workflow.UpdateDataOrderProduct | app/Services/TransactionService.php:187-244 | definition: create-all when no id arrives, delete the selected rows, then update or create per product |
| Workflow.UpdateOrderTransaction | app/Services/TransactionService.php:164-178 | definition: order fields, line items, total, ending at the first failure |
| Workflow.NewIds | app/Services/TransactionService.php:115 | the ids handed out by n inserts from counter lo are exactly lo, ..., lo + n - 1 |
| Workflow.CreatedRowsAt | app/Services/TransactionService.php:106-116 | the m-th product's row sits at id lo + m, with the order id, the product's name, quantity and price, and subtotal quantity * price |
| Workflow.StoreProductsEffect | app/Services/TransactionService.php:101-117 | `storeDataProductOrder` adds one line item per product in input order under the next ids. Every earlier row stays and the orders are untouched |
| Workflow.StoreValid | app/Services/TransactionService.php:101-117 | storing products for an existing order keeps the store valid |
| Workflow.StoreIntoEmpty | app/Services/TransactionService.php:101-117 | for an order with no rows yet, the order then owns exactly the new rows |
| Workflow.NewRowsSum | app/Services/TransactionService.php:112 | the subtotals of the rows created for the products sum to Σ quantity * price |
| Workflow.UpdateGrandTotalOrder | app/Services/TransactionService.php:134-139 | the update fails exactly when the order is absent. Otherwise the order's `grand_total` becomes the sum of its line items' subtotals; its other fields, the other orders and every line item stay |
| Workflow.CreatedOrder | app/Services/TransactionService.php:60-72 | when every product is readable, a create succeeds and the store is valid. The new order sits at the next id with the generated invoice number, the request's customer and date, and grand total Σ quantity * price. It owns exactly the new rows, one per product, and every earlier row and order is untouched |
| Workflow.CreatedWith | app/Services/TransactionService.php:119-139 | the same outcome for the row `storeOrder` inserts, whatever its invoice number |
| Workflow.CreateKeepsPartialOrder | app/Services/TransactionService.php:60-117 | with an unreadable product, a create answers `Failed`. The store stays valid; the new order keeps its generated number, the request's customer and date and `grand_total = 0`; it owns exactly one new row per product before the bad one; every earlier row and order is untouched |
| Workflow.FailedWith | app/Services/TransactionService.php:101-139 | the same outcome for the row `storeOrder` inserts, whatever its invoice number |
| Workflow.NewOrderTotal | app/Services/TransactionService.php:134-136 | a fresh order id owns exactly the rows just created, and its sum is the products' total |
| Workflow.UpdateDataOrder | app/Services/TransactionService.php:180-185 | the update fails exactly when the order is absent. Otherwise only that order's `customer_name` and `order_date` change |
| Workflow.IncomingIds | app/Services/TransactionService.php:191 | the incoming ids are exactly the row ids the products carry; missing, null and `''` ids are dropped |
| Workflow.ToDelete | app/Services/TransactionService.php:207-212 | the rows selected for deletion all belong to the order being updated |
| Workflow.DeleteDataOrder | app/Services/TransactionService.php:48-58 | delete answers Ok exactly when the order exists and removes only it (and, under a cascading schema, its line items). Otherwise it answers NotFound and changes nothing |
| Reconcile.FinalRowLast | app/Services/TransactionService.php:220-230 | the last product naming a row decides its fields; its `order_id` stays |
| Reconcile.UpsertEffect | app/Services/TransactionService.php:218-243 | when every product is readable, none carries `''` and every id names a row, the update-or-create loop succeeds. Each id-less product adds a row under the next ids, and each named row ends as the products naming it left it |
| Reconcile.UpsertFails | app/Services/TransactionService.php:222-230 | an unreadable product, a product carrying `''`, or an issued id whose row is gone ends the loop with a failure |
| Reconcile.UpsertSucceedsIff | app/Services/TransactionService.php:218-243 | for issued ids, the loop succeeds exactly when every product is readable, none carries `''` and every id names a row |
| Reconcile.UpsertAllNoId | app/Services/TransactionService.php:231-241 | with no ids at all, the loop is `storeDataProductOrder` once more, failing where it fails |
| Reconcile.Dropped | app/Services/TransactionService.php:207-215 | the set of this order's rows whose id is not among the incoming ids; once an id arrives, the deletion criterion selects exactly this set whatever `NOT IN ()` would select |
| Reconcile.ReconcileWithIds | app/Services/TransactionService.php:187-244 | with readable products whose incoming ids all exist, the update succeeds. The order then owns its kept rows plus one new row per id-less product. Every kept row holds its final overwrite, and no row of another order is deleted |
| Reconcile.ReconcileWithoutIdsMatchAll | app/Services/TransactionService.php:193-215 | with readable products, no ids and `NOT IN ()` selecting every row, all prior rows of the order go, the first copies among them. Only the second, one row per product, remain; other orders' rows stay |
| Reconcile.ReconcileWithoutIdsMatchNone | app/Services/TransactionService.php:193-241 | with readable products, no ids and `NOT IN ()` selecting nothing, the prior rows stay and every product has two new rows |
| Reconcile.StoreTwice | app/Services/TransactionService.php:193-205 | creating the same products twice gives each product two rows in input order and keeps the old rows |
| Reconcile.ProductsSucceedIff | app/Services/TransactionService.php:187-244 | the line-item step succeeds exactly when every product is readable, none carries `''` and every issued id names a row |
| Reconcile.ProductStepValid | app/Services/TransactionService.php:187-244 | the line-item step, whether it succeeds or stops, keeps the store valid and the orders as they were |
| Reconcile.UpdatedOrder | app/Services/TransactionService.php:164-185 | an update keeps the store valid and never answers NotFound. A missing order changes nothing and fails. Otherwise the customer and date are set, the invoice number stays, and the other orders stay. On success the total is current; on failure the old total stays. For issued ids, success holds exactly when every product is readable, no id is `''` and every id names a row |
| Reconcile.ForeignRowOverwritten | app/Services/TransactionService.php:222-230 | a product naming another order's row overwrites that row, keeping its `order_id`, and the other order's record is untouched |
| Reconcile.ForeignUpdateLeavesStaleTotal | app/Services/TransactionService.php:164-178 | when a product rewrites one row of another order with a different subtotal, and no other product names a row of that order, that order's total, current before, no longer matches its rows afterwards |
| Reconcile.ForeignReconcileChangesSum | app/Services/TransactionService.php:218-230 | the reconcile of that case changes the other order's `SUM(subtotal)` |
| Reconcile.DeleteEffect | app/Services/TransactionService.php:48-58 | a delete of an existing order keeps the store valid and the order is gone. Under a cascade its rows go and no other row does; without one its rows stay behind |
| Reconcile.DeleteKeepsOtherTotals | app/Services/TransactionService.php:48-58 | deleting one order keeps every other order's total current |
| Listing.PhpEmpty | app/Services/TransactionService.php:27 | definition: PHP's `empty()` on a request value: missing, '' or '0' |
| Listing.Satisfies | app/Services/TransactionService.php:31-35 | definition: an order's `Y-m-d H:i:s` date meets the `LIKE` or the `BETWEEN` |
| Listing.Selected | app/Services/TransactionService.php:20-45 | the selected orders all exist; definition: those meeting the date criterion, if any, whose number is `LIKE '%search%'` |
| Listing.GetDataOrders | app/Services/TransactionService.php:18-46 | definition: `Selected` for the request's date criterion |
| Listing.DateCriterion | app/Services/TransactionService.php:27-36 | there is no date criterion exactly when both bounds are empty. Otherwise a `LIKE` on the timestamp when the rendered bounds are equal, else `BETWEEN` the rendered bounds |
| Listing.NoPeriodSelectsBySearch | app/Services/TransactionService.php:27-45 | with no period and a wildcard-free search, the listing holds exactly the orders whose number contains the search |
| Listing.SameInstantSelectsThatInstant | app/Services/TransactionService.php:31-32 | with equal bounds, the listing holds exactly the orders dated at that instant whose number matches the search |
| Listing.RangeSelectsChronologically | app/Services/TransactionService.php:33-34 | with distinct bounds, the listing holds exactly the orders dated from the start through the end, chronologically, whose number matches the search |
| Listing.SelectedContainsSearch | app/Services/TransactionService.php:44 | every listed order's number contains the (wildcard-free) search |
| Export.Page | app/Services/TransactionService.php:284 | one chunk has at most `size` rows, continues the rows before the offset as a prefix of the query, is empty past the end, and is short only when it reaches the end |
| Export.OrderQuery | app/Services/TransactionService.php:281-284 | the order query has one entry per order id, by id |
| Export.JoinQuery | app/Services/TransactionService.php:303-306 | the join has one entry per line item whose order exists, by line item id |
| Export.OrderRow | app/Services/TransactionService.php:286-291 | definition: number, customer, date as `d-m-Y`, grand total |
| Export.ProductRow | app/Services/TransactionService.php:309-315 | definition: the order number, then name, quantity, price and subtotal |
| Export.OrdersSheet | app/Services/TransactionService.php:275-295 | definition: the 4-column header, then one row per order |
| Export.OrderProductSheet | app/Services/TransactionService.php:297-318 | definition: the 5-column header, then one row per joined line item |
| Export.WriteOrderRows | app/Services/TransactionService.php:285-293 | the inner loop appends one mapped row per order of the chunk |
| Export.WriteProductRows | app/Services/TransactionService.php:308-316 | the inner loop appends one mapped row per joined row of the chunk |
| Export.ChunkOrders | app/Services/TransactionService.php:281-294 | chunking the order query writes exactly the rows of the whole query, in order, whatever the chunk size |
| Export.ChunkProducts | app/Services/TransactionService.php:303-317 | chunking the join writes exactly the rows of the whole join, in order, whatever the chunk size |
| Export.WriteOrdersSheet | app/Services/TransactionService.php:275-295 | the "Orders" sheet written in chunks of any positive size (the service uses 5000) is the header followed by one mapped row per order, by id |
| Export.WriteOrderProductSheet | app/Services/TransactionService.php:297-318 | the "Order Product" sheet written in chunks is the header followed by one mapped row per joined line item, by id |
| Export.OrdersSheetSize | app/Services/TransactionService.php:249 | the "Orders" sheet has the 4-column header and one row per order |
| Export.OrdersSheetCovers | app/Services/TransactionService.php:281-294 | every order appears as a row of the "Orders" sheet |
| Export.OrdersSheetRowIsOrder | app/Services/TransactionService.php:281-294 | every row after the header is the mapped row of some order |
| Export.OrderProductSheetSize | app/Services/TransactionService.php:250 | the "Order Product" sheet has the 5-column header and one row per line item whose order exists |
| Export.OrderProductSheetCovers | app/Services/TransactionService.php:303-306 | every line item whose order exists appears, with that order's number |
| Export.OrderProductSheetRowIsJoined | app/Services/TransactionService.php:303-306 | every row after the header is a line item joined to its order's number; rows of a missing order never appear |
| Export.DateColumnReadsBack | app/Services/TransactionService.php:286-290 | the date column of an order row is the `d-m-Y` text of the order date, and it reads back as that date |
| Export.DeleteLeavesJoin | app/Services/TransactionService.php:48-58 | after a delete, the join loses exactly the deleted order's rows, with or without a cascade. Under a cascade, when every row joined before, every remaining row still joins |
| Service.TransactionService.constructor | app/Services/TransactionService.php:16 | a new service starts from the empty, valid store |
| Service.TransactionService.CreateProduct | app/Services/TransactionService.php:115 | `OrderProductRepository::create` inserts one row under the next id |
| Service.TransactionService.StoreOrder | app/Services/TransactionService.php:119-132 | the new order's id is the order counter, and the store becomes `Workflow.StoreOrder` of the old store |
| Service.TransactionService.StoreDataProductOrder | app/Services/TransactionService.php:101-117 | the loop leaves the store and the outcome that `Workflow.StoreDataProductOrder` describes |
| Service.TransactionService.UpdateGrandTotalOrder | app/Services/TransactionService.php:134-139 | the method reports whether the order exists and leaves `Workflow.UpdateGrandTotalOrder`'s store |
| Service.TransactionService.GenerateTransaction | app/Services/TransactionService.php:60-72 | the store and status are `Workflow.GenerateTransaction`'s and the code is `Workflow.Code` of the status. From a valid store the store stays valid and the status is Ok exactly when every product is readable |
| Service.TransactionService.UpdateDataOrder | app/Services/TransactionService.php:180-185 | the store becomes `Workflow.UpdateDataOrder`'s result, or stays when the order is missing |
| Service.TransactionService.UpdateProduct | app/Services/TransactionService.php:230 | the update by id finds the row exactly when the id names one, and then overwrites it |
| Service.TransactionService.DeleteProducts | app/Services/TransactionService.php:212-215 | the delete loop removes exactly the selected rows |
| Service.TransactionService.UpsertProducts | app/Services/TransactionService.php:218-243 | the update-or-create loop, stopping at an unreadable product or a missing row, leaves `Workflow.UpsertProducts`'s store and outcome |
| Service.TransactionService.UpdateDataOrderProduct | app/Services/TransactionService.php:187-244 | the three loops together leave `Workflow.UpdateDataOrderProduct`'s store and outcome |
| Service.TransactionService.UpdateOrderTransaction | app/Services/TransactionService.php:164-178 | the store and status are `Workflow.UpdateOrderTransaction`'s, the code is `Workflow.Code` of the status, and a valid store stays valid |
| Service.TransactionService.DeleteDataOrder | app/Services/TransactionService.php:48-58 | the store and status are `Workflow.DeleteDataOrder`'s, the code is `Workflow.Code` of the status, and a valid store stays valid |
| Service.TransactionService.ExportTransactionToXlsx | app/Services/TransactionService.php:246-318 | the two sheets written are exactly the "Orders" and "Order Product" sheets of the current store |

## Left out

- The spreadsheet file (OpenSpout `Writer`, `Options`, `Row`, sheet names), `Storage::put`, `storage_path` and `downloadFileExcel` (app/Services/TransactionService.php:252-273, 320-329): these are file I/O through a foreign library. The export is modelled as the two row sequences it writes.
- `Carbon::parse`, `now()` and the database's own date handling: today's date and the parsed period bounds are parameters, and the `order_date` column is taken to be a DATETIME rendered `Y-m-d H:i:s`.
- Calendar validity: a date is any year 0-9999, month 1-12 and day 1-31, because Carbon and the database validate dates and are not part of this model.
- `paginate` and the repository facades' internals (app/Repository/Facades/*.php): the listing is modelled as the set of selected order ids, before paging.
- `LIKE` is matched case-sensitively (a binary collation), with `%`, `_` and backslash escapes; a case-insensitive collation is not modelled.
- Listing.SelectedContainsSearch: holds only for a search with no `LIKE` wildcard, because with `%` or `_` in the search the substring reading does not apply.
- Export.WriteOrdersSheet: the chunked scan is modelled as pages of the query ordered by primary key, taken by offset; Laravel's `chunk` issues one offset query per page, and rows changing between pages (concurrency) are not modelled.
- Concurrency: two requests generating invoice numbers or editing the same order at once are not modelled; the model is sequential.
- Database failures other than the update of a missing row (connection loss, constraint violations) are not modelled. The failures the model has are an unreadable product and an update of a missing row.
- Request-level shape errors are not modelled: a missing `products`, `customer_name`, `order_date` or `order_id` key, or a `products` value that is not a list. Each of them throws as well, and when it comes after `storeOrder` it leaves a partial order just as an unreadable product does.
- Text.PhpToInt: the cast is computed exactly on the decimal number read. PHP goes through a double when there is a fraction, an exponent or too many digits, and it caps the result to 64 bits. Rounding of long mantissas and that saturation are not modelled.
- Money is an unbounded integer; database column widths and PHP integer overflow are not modelled, nor floating-point prices.
- `findDataOrder` and `findDataOrderProduct` (app/Services/TransactionService.php:141-162): read-only lookups with a SQL `DATE_FORMAT`, outside the modelled workflow.
- The discarded query at app/Services/TransactionService.php:210 has no effect and is not modelled, and neither is the JSON response body beyond its status code.
- Foreign keys: whether an order's line items go with it is the parameter `cascadeOnDelete`, and what `NOT IN ()` selects is the parameter `notInEmptyMatchesAll`.
