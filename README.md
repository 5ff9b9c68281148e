# Retail store core, modelled in Dafny

This project models the logic of a small retail store application written in
Java. The store keeps its catalog (name, description, price and stock per
product id) in a MySQL `products` table. It keeps its orders as documents in a
MongoDB `orders` collection. The model covers the parts of `DataStore` and
`Utils` that hold real logic:

- **Order placement** (`placeOrder`). It looks the product up and checks
  `stock < quantity`. It reserves the stock by writing the absolute value
  `stock - quantity`, builds the id `"ORD-" + millis`, and inserts a `"Pending"`
  order that carries a snapshot of the price. If the insert fails, it writes the
  original stock back.
- **Order lookups** (`findOrderById`, `getOrdersForUser`).
- **The sales report** (`generateSalesReport`): a `$match` on the order date,
  a `$group` by product summing the quantities, and priced rows for the
  products still in the catalog.
- **The product-search statement builder** (`searchProducts`).
- **The payment-method document converters.**
- **The query-string parser and the HTML escaper** (`Utils`).

Both databases are state: a `map<int32, Product>` and a `seq<OrderDoc>` in
insertion order. The calls whose failure the code handles inside placement
take a "fails" flag: `placeOrder`'s product lookup, the stock write and the
rollback write, and `createOrder`'s price lookup and `insertOne`. So every
failure branch of placement can be reached. The reads of the orders
collection (`find()`, `aggregate()`) and the report's per-row
`findProductById` take no flag: the model takes them to succeed.

Java's `int` is `int32`, and `stock - quantity` wraps around as Java's does
(`Sub32`). `null` is `None`.
Prices and revenue are integer cents.

Files:

| file | contains |
|---|---|
| `java_lang.dfy` | The Java behaviour the code relies on: 32-bit wrap-around, `indexOf`, `split`, `trim`, one-character `replace`, `Long.toString`. |
| `records.dfy` | The product row, the order document, and `Order`, `SalesData` and `PaymentMethod`. |
| `journal.dfy` | Reads of the orders collection: `findOrderById`, the user filter, and the aggregation pipeline. |
| `sales_report.dfy` | The report rows built from the pipeline output. |
| `data_store.dfy` | The `Store` class and `placeOrder` as a function of the state before the call. |
| `product_search.dfy` | The `searchProducts` statement and its parameter list. |
| `payment_conversion.dfy` | The payment-method converters. |
| `utils.dfy` | `parseQueryParams` and `escapeHTML`. |

`Store.PlaceOrder` mutates the class fields. Its postcondition equates the
result and the new state with `PlaceOrderOutcome` applied to the old state. The
properties of placement are the postconditions of that function, plus the
lemmas beside it. The other methods are tied to their specification functions
in the same way: `GetOrdersForUser` to `UserOrders`, `GenerateSalesReport` to
`Report`, `ParseQueryParams` to `QueryParams`, and the converters to
`PaymentDocuments` and `PaymentMethodsOf`.

### Where the code and its design description differ

The model follows the code:

- **Stock reservation.** The description asks for an atomic conditional
  decrement. The code reads the stock, checks it, and writes an absolute value
  in a separate step.
- **Compensation.** The description asks for a retried relative re-increment
  and an integrity alarm. The code makes one absolute write of the stock it
  read, and ignores whether that write succeeded.
- **Non-positive quantities.** The description rejects a quantity that is not
  positive. `placeOrder` accepts one; only its GUI callers refuse it.
  `NegativeQuantityWrapsStock` shows where this leads.
- **Reversed date range.** The description rejects a start date after the end
  date. The code runs the query anyway and returns an empty list
  (`SalesReportEmptyRange`).
- **Same-day report.** The description expects `report(today, today)` to
  include today's orders. The code compares full timestamps against midnight
  of each date. So an order placed after midnight of the end date is outside
  the range (`SoldInRangeAppend`: only orders with
  `start <= order_date <= end` count).
- **Order ids.** The description asks for ids that are unique even within one
  clock tick. The code's id is `"ORD-"` and the millisecond clock. Distinct
  readings give distinct ids (`OrderIdsDistinct`), but equal readings collide.
- **`getOrdersForUser`.** It returns each order under the hex of its MongoDB
  `_id`, not its `order_id`.

## Model

| member | source | states |
|---|---|---|
| JavaLang.Wrap32 | DataStore.java:528 | Java `int` arithmetic: the exact value when it fits in 32 bits, and otherwise a value congruent to it modulo 2^32. |
| JavaLang.Sub32 | DataStore.java:528 | `stock - quantity` equals the true difference when `0 <= quantity <= stock`, or when `quantity <= 0` and the difference fits. |
| JavaLang.IndexOf | Utils.java:21 | `indexOf('=')` is -1 exactly when the character is absent. Otherwise it is a position holding it, with no earlier occurrence. |
| JavaLang.SplitAll | Utils.java:19 | The pieces between separators: at least one piece, and none contains the separator. |
| JavaLang.JoinSplitAll | Utils.java:19 | Joining the pieces back with the separator gives the original string. |
| JavaLang.DropTrailingEmpty | Utils.java:19 | `split` drops trailing empty pieces. The result is a prefix of the pieces, everything dropped is empty, and the last piece kept is non-empty. |
| JavaLang.JavaSplit | Utils.java:19 | No piece of `query.split("&")` contains `&`. |
| JavaLang.TrimStartIndex | DataStore.java:312 | `trim()`'s start index: every character it skips is at most U+0020, and the character it stops at (if any) is not. |
| JavaLang.TrimEndIndex | DataStore.java:312 | `trim()`'s end index, never below the start: every character it cuts off is at most U+0020, and the last one kept (if any) is not. |
| JavaLang.Trim | DataStore.java:312-314 | `trim()` is empty exactly when every character is at most U+0020. Otherwise neither end is such a character. It is never longer than the input. |
| JavaLang.TrimIsInfix | DataStore.java:312-314 | `trim()` is a contiguous piece `s[a..b]` of the input, and every character before `a` and from `b` on is at most U+0020. |
| JavaLang.ReplaceChar | Utils.java:47-51 | `replace` of a character that is absent changes nothing. A non-empty replacement never shortens the string. |
| JavaLang.ReplaceCharConcat | Utils.java:47-51 | One-character `replace` distributes over concatenation. |
| JavaLang.CountCharConcat | DataStore.java:307-324 | The count of a character in a concatenation is the sum of the counts in the parts. |
| JavaLang.DigitChar | DataStore.java:579 | A decimal digit character and its value. |
| JavaLang.DecimalString | DataStore.java:579 | `Long.toString` of a non-negative number is a non-empty string of digits, with no leading `0` unless the number is 0. |
| JavaLang.DecimalValueOfString | DataStore.java:579 | Reading the digits back gives the number, so the decimal form loses nothing. |
| JavaLang.DecimalStringInjective | DataStore.java:579 | Different numbers have different decimal strings. |
| Journal.FoundOrder | DataStore.java:499-507 | Defines the `Order` read from a found document: its `order_id`, user, product, quantity, date and status. |
| Journal.FindOrderById | DataStore.java:486-512 | `find({order_id}).first()` is `null` exactly when no order has the id. Otherwise it is the first such order in journal order, read back with its `order_id`. |
| Journal.FindAppendedOrder | DataStore.java:486-512 | An order appended under an id no earlier order has is the one the lookup finds. |
| Journal.ListedOrder | DataStore.java:633-639 | Defines the `Order` listed for a document: the hex of its `_id`, then user, product, quantity, date and status. |
| Journal.UserOrders | DataStore.java:628-642 | The user's orders are no more than the journal holds, and every one listed belongs to that user. |
| Journal.UserOrdersAppend | DataStore.java:628-642 | The filter distributes over appending to the journal: in journal order, orders appended later are listed after the earlier ones. |
| Journal.UserOrdersComplete | DataStore.java:628-642 | An order is listed exactly when some document of the user produces it, with the `_id` hex as its id. |
| Journal.InDateRange | DataStore.java:700 | Defines the `$match` test: `start <= order_date <= end`, both ends included. |
| Journal.MatchDates | DataStore.java:700 | `$match` keeps exactly the orders with `start <= order_date <= end`. |
| Journal.ProductIdsOf | DataStore.java:701 | The `$group` keys: each product id of the matched orders, once. |
| Journal.QuantitySum | DataStore.java:702 | Defines `$sum` of `quantity` over the documents of one product. |
| Journal.GroupByProduct | DataStore.java:701-702 | There is one group per product id, and its `total_quantity` is the `$sum` of that product's quantities. |
| Journal.SalesPipeline | DataStore.java:699-704 | No two groups have the same product. |
| Journal.SoldInRange | DataStore.java:699-702 | Reference definition: the quantity of one product ordered within the range, summed directly over the journal. `QuantitySumOfMatch` ties the pipeline to it. |
| Journal.QuantitySumOfMatch | DataStore.java:699-704 | Summing over the matched orders equals summing the in-range orders over the whole journal. |
| Journal.QuantitySumConcat | DataStore.java:701-702 | `$sum` over a concatenation is the sum of the parts. |
| Journal.SalesPipelineGroup | DataStore.java:699-704 | Each group is a product ordered in the range, and its total is exactly the quantity of that product sold in the range. |
| Journal.SalesPipelineCovers | DataStore.java:699-704 | Every product ordered in the range has a group. |
| Journal.EmptyRangeHasNoGroups | DataStore.java:699-704 | A start after the end matches nothing, so there are no groups. |
| Journal.NoMatchInEmptyRange | DataStore.java:700 | With the start after the end, `$match` keeps no order. |
| SalesReport.SalesRow | DataStore.java:718-721 | Defines one row: the product id, the catalog name, the summed quantity, and that quantity times the current price. |
| SalesReport.ReportRows | DataStore.java:707-722 | The report never has more rows than the pipeline has groups. |
| SalesReport.ReportRowsSound | DataStore.java:712-721 | Every row comes from a group whose product is in the catalog. It carries that product's name, and the total times its current price. |
| SalesReport.ReportRowsComplete | DataStore.java:712-721 | Every group whose product is in the catalog gives a row. |
| SalesReport.ReportRowsDistinct | DataStore.java:707-722 | Distinct groups give distinct rows. |
| SalesReport.Report | DataStore.java:699-722 | The report is the rows built from the pipeline output, so it has no more rows than there are groups. Its contents are stated by the lemmas below. |
| SalesReport.SalesReportRows | DataStore.java:699-722 | Each row is a catalog product ordered in [start, end]. Its quantity is exactly the quantity sold in the range, and its revenue is that quantity times the current catalog price. |
| SalesReport.SalesReportCoversRange | DataStore.java:699-722 | Every catalog product ordered in the range has a row. |
| SalesReport.SalesReportDistinct | DataStore.java:699-722 | No product has two rows. |
| SalesReport.SalesReportSkipsUnknownProducts | DataStore.java:713-716 | A product missing from the catalog gets no row, whatever was ordered. |
| SalesReport.SalesReportEmptyRange | DataStore.java:699-722 | A start date after the end date gives an empty report. |
| DataStore.FindProduct | DataStore.java:170-188 | `findProductById` is the row when the product exists and the query succeeds, and `null` otherwise. |
| DataStore.StockWriteSucceeds | DataStore.java:557-570 | Defines when `updateProductStock` returns true: the statement runs and `rowsUpdated > 0`, that is, the product exists. |
| DataStore.WithStock | DataStore.java:557-570 | `UPDATE ... SET stock` changes that product's stock and nothing else. |
| DataStore.GenerateOrderId | DataStore.java:577-580 | The id is `"ORD-"` followed by digits only, and those digits read back as the clock value. |
| DataStore.OrderIdsDistinct | DataStore.java:577-580 | Distinct clock readings give distinct order ids. |
| DataStore.NewOrderDoc | DataStore.java:602-608 | Defines the inserted document: id, user, product, quantity, the `new Date()`, status `"Pending"`, and the price read at creation. |
| DataStore.PlaceOrderOutcome | DataStore.java:514-548 | See the detailed list after this table. |
| DataStore.OrderWithinStockIsPlaced | DataStore.java:514-548 | With no faults, an order of 0..stock units is placed, and the stock drops by exactly the quantity. |
| DataStore.PlacedOrderIsFound | DataStore.java:486-548 | After a placement whose id is new, `findOrderById` on that id returns the new pending order. |
| DataStore.PlacedOrderIsListed | DataStore.java:514-548 | After a placement, the user's order list is the old list plus the new pending order, last in journal order. |
| DataStore.PlaceUnitOrders | DataStore.java:514-548 | Defines `n` one-unit placements in sequence, each on the state the previous one left, counting those placed. |
| DataStore.UnitOrdersNeverOversell | DataStore.java:514-548 | See the detailed list after this table. |
| DataStore.NegativeQuantityWrapsStock | DataStore.java:522-528 | The stock check lets a quantity of -1 through. On a stock of 2^31-1, the write then wraps the stock to -2^31. |
| DataStore.SoldInRangeAppend | DataStore.java:606 | An appended order adds its quantity to a product's sales in a range exactly when it is that product's order and its date lies in the range. |
| DataStore.Store.FindProductById | DataStore.java:170-188 | The lookup returns `FindProduct` of the current table. |
| DataStore.Store.UpdateProductStock | DataStore.java:557-570 | It succeeds exactly when the statement runs and the product exists. On success only that product's stock becomes the new value; otherwise nothing changes. |
| DataStore.Store.CreateOrder | DataStore.java:592-620 | It succeeds exactly when the price re-lookup and the insert both succeed. On success one pending order is appended, at the catalog price. The catalog is untouched. |
| DataStore.Store.PlaceOrder | DataStore.java:514-548 | The result and the new state of both databases are exactly `PlaceOrderOutcome` of the state before the call. |
| DataStore.Store.GetOrdersForUser | DataStore.java:628-642 | The loop returns `UserOrders` of the journal. |
| DataStore.Store.GenerateSalesReport | DataStore.java:685-729 | If either date does not parse, the report is empty. Otherwise it is exactly `Report` of the journal and the catalog for the parsed range. |
| ProductSearch.HasKeyword | DataStore.java:312 | Defines the name test: not `null`, and not empty after `trim()`. |
| ProductSearch.LikePattern | DataStore.java:314 | Defines the name parameter: `%`, then the trimmed name, then `%`. |
| ProductSearch.LikePatternWrapsTrimmedName | DataStore.java:314 | The pattern starts and ends with `%` and holds the trimmed name between them. It is just `%%` exactly when the name is all blanks. |
| ProductSearch.BaseHasNoPlaceholder | DataStore.java:303 | The base statement has no `?`. |
| ProductSearch.IdClausePlaceholder | DataStore.java:308 | The id clause has exactly one `?`. |
| ProductSearch.NameClausePlaceholder | DataStore.java:313 | The name clause has exactly one `?`. |
| ProductSearch.PriceLtClausePlaceholder | DataStore.java:318 | The upper-price clause has exactly one `?`. |
| ProductSearch.PriceGtClausePlaceholder | DataStore.java:323 | The lower-price clause has exactly one `?`. |
| ProductSearch.NoCharNoCount | DataStore.java:303 | A string without `?` holds zero placeholders. |
| ProductSearch.OneTrailing | DataStore.java:308-323 | A `?`-free text followed by one `?` holds exactly one placeholder. |
| ProductSearch.CountFive | DataStore.java:303-325 | A statement of the base and four clauses has one `?` per value when the base has none and each clause has one per value it binds. |
| ProductSearch.IdClauseCount | DataStore.java:307-310 | The id clause, given or not, holds one `?` per value it binds. |
| ProductSearch.NameClauseCount | DataStore.java:312-315 | The name clause, given or not, holds one `?` per value it binds. |
| ProductSearch.PriceLtClauseCount | DataStore.java:317-320 | The upper-price clause, given or not, holds one `?` per value it binds. |
| ProductSearch.PriceGtClauseCount | DataStore.java:322-325 | The lower-price clause, given or not, holds one `?` per value it binds. |
| ProductSearch.SearchQuery | DataStore.java:303-327 | Defines the statement text: the base query, then one clause per given criterion, in the order id, name, `price <`, `price >`. |
| ProductSearch.SearchParameters | DataStore.java:304-325 | Defines the values bound, in the same order as their clauses. |
| ProductSearch.PlaceholdersMatchParameters | DataStore.java:303-327 | For every combination of criteria, the number of `?` in the statement equals the number of values bound. |
| ProductSearch.SearchProductsQuery | DataStore.java:301-327 | The statement is the base query plus one clause per given criterion, in the order id, name, `price <`, `price >`. The values come in the same order. |
| ProductSearch.BlankNameIsIgnored | DataStore.java:312-315 | A `null` or all-blank name adds neither a clause nor a value. |
| ProductSearch.StringParameterIsLikePattern | DataStore.java:312-315 | A string value is bound exactly when the name is non-blank, and it is that name's `LIKE` pattern. |
| ProductSearch.NoCriteriaSelectsAll | DataStore.java:303-327 | The statement is the bare base query exactly when no criterion is given. |
| PaymentConversion.GetString | DataStore.java:778-779 | `getString` of a missing key is `null`; of a present key it is the stored value. |
| PaymentConversion.PaymentDocument | DataStore.java:762-763 | The document has exactly the keys `type` and `details`, holding the two fields, `null`s included. |
| PaymentConversion.DocumentPaymentMethod | DataStore.java:778-780 | A present key gives its stored value, `null` included. A missing key gives `null`. Other keys are ignored. |
| PaymentConversion.PaymentDocuments | DataStore.java:759-767 | There is one document per payment method, in order. |
| PaymentConversion.PaymentMethodsOf | DataStore.java:775-783 | There is one payment method per document, in order. |
| PaymentConversion.ConvertPaymentMethods | DataStore.java:759-767 | The loop returns `PaymentDocuments` of the list. |
| PaymentConversion.ConvertDocumentsToPaymentMethods | DataStore.java:775-783 | The loop returns `PaymentMethodsOf` of the documents. |
| PaymentConversion.PaymentRoundTrip | DataStore.java:759-783 | Converting payment methods to documents and back gives the same list: same length and order, each type and details kept. |
| PaymentConversion.DocumentRoundTrip | DataStore.java:759-783 | A document with exactly the two keys is rebuilt exactly. |
| PaymentConversion.DocumentsRoundTrip | DataStore.java:759-783 | A list of such documents survives reading and storing again unchanged. |
| PaymentConversion.ExtraKeysAreDropped | DataStore.java:775-783 | Other keys are lost, and a document without the keys reads as `(null, null)`. |
| Utils.KeyOf | Utils.java:21-29 | A pair is dropped exactly when it has no `=` or starts with `=`. |
| Utils.ValueOf | Utils.java:23-29 | Defines the stored value: the decoded text after the first `=`, or `""` when nothing follows it. A non-empty value only comes from a pair that is kept. |
| Utils.ParamsOf | Utils.java:19-35 | Defines the map after the loop has handled the pairs in order. It has no more entries than there are pairs. |
| Utils.QueryParams | Utils.java:13-37 | Defines the result: an empty map for a `null` or empty query, else `ParamsOf` of `query.split("&")`. |
| Utils.ParamsOfStep | Utils.java:20-35 | One turn of the loop: a skipped pair leaves the map alone, a kept pair sets its key to its value. |
| Utils.ParseQueryParams | Utils.java:13-37 | The loop returns `QueryParams` of the query. |
| Utils.EmptyQueryHasNoParams | Utils.java:15-17 | A `null` or empty query gives an empty map. |
| Utils.ParamKeysComeFromKeptPairs | Utils.java:19-30 | A key is in the map exactly when some kept pair has it as its decoded key. |
| Utils.LastPairWins | Utils.java:19-30 | A repeated key holds the value of its last kept pair. |
| Utils.KeptPairSplitsAtFirstEquals | Utils.java:21-29 | A kept pair is a non-empty, `=`-free key, then `=`, then its value: all that follows the first `=`, or `""` when nothing does. |
| Utils.ParamsOfOnePair | Utils.java:19-30 | A single pair gives at most one entry, keyed and valued as above. |
| Utils.ValueKeepsLaterEquals | Utils.java:23-25 | `a=b=c` parses to `{a: "b=c"}`. |
| Utils.EscapedChar | Utils.java:47-51 | Each of `& < > " '` maps to its entity, and every other character to itself. |
| Utils.ReplaceChain | Utils.java:47-51 | The five `replace` calls, `&` first. The result is never shorter, and a string with none of the five characters comes back unchanged. |
| Utils.EscapeHTML | Utils.java:45-52 | `escapeHTML(null)` is `""`. Otherwise the result is never shorter than the input. |
| Utils.ReplaceChainConcat | Utils.java:47-51 | The replacement chain distributes over concatenation. |
| Utils.ReplaceOne | Utils.java:47-51 | Replacing a character in a one-character string. |
| Utils.ReplaceChainOne | Utils.java:47-51 | On a single character, the chain gives that character's entity. |
| Utils.EscapeHTMLIsPerCharacter | Utils.java:45-52 | `escapeHTML(null)` is `""`. Otherwise the chain equals the per-character mapping, because `&` goes first and no later replacement adds any of the five characters. |
| Utils.EscapeEachHasNoRawMarkup | Utils.java:47-51 | The per-character mapping leaves no `<`, `>`, `"` or `'`, and never shortens. |
| Utils.EscapeHTMLHasNoRawMarkup | Utils.java:47-51 | The output holds no raw `<`, `>`, `"` or `'`, and is never shorter than the input. |
| Utils.EscapeEachKeepsPlainText | Utils.java:47-51 | Without special characters, the mapping is the identity. |
| Utils.EscapeHTMLKeepsPlainText | Utils.java:47-51 | A string with none of `& < > " '` comes back unchanged. |

`DataStore.PlaceOrderOutcome` states, in its postconditions:

- The order is placed exactly when the product is found with enough stock,
  the reservation succeeds, the price re-lookup succeeds, and the insert
  succeeds.
- Only the ordered product's stock can change.
- An unknown product, too little stock, or a failed reservation leaves both
  databases as they were.
- A failed order leaves the journal unchanged.
- On success the stock is `stock - quantity`, and exactly one pending order
  is appended, at the catalog price.
- A failure after the reservation restores the original stock exactly when
  the rollback write succeeds.
- Stock that starts non-negative stays non-negative, unless a negative
  quantity overflows it.

`DataStore.UnitOrdersNeverOversell` states that for `n` one-unit orders in
sequence against stock `s >= 0`:

- exactly `min(n, s)` are placed;
- the stock ends at `s - min(n, s)`;
- one order is appended per placement.

## Left out

- The Swing forms and the HTTP handlers and server (routing, JSON, the thread pool). Their checks on the quantity are visible only through `NegativeQuantityWrapsStock`.
- The JDBC and MongoDB plumbing: connections, the static initialiser, closing the client, the `System.out` logging. The two databases are a map and a sequence.
- Concurrency. Concurrent calls to `placeOrder`, including the race between the stock check and the write, are not modelled; every operation runs alone.
- Dates and the clock. `SimpleDateFormat` parsing is the `parseDate` parameter of `Store.GenerateSalesReport`. `System.currentTimeMillis()` and `new Date()` are the `millis` and `now` parameters of placement. The `_id` the driver assigns is the `objectId` parameter.
- The `URLDecoder.decode` call. It is the `decode` parameter of `Utils.ParseQueryParams`; its `UnsupportedEncodingException` and its `IllegalArgumentException` on a malformed `%` escape are not modelled.
- Floating point. Prices and revenue are integer cents, and the upper and lower price are `real`. The `double` rounding of `totalQuantity * price` is not modelled.
- Journal.FindOrderById: `find()` without a sort returns documents in MongoDB's natural order, which is not promised to be insertion order. The model takes it to be the journal order. So "the first such order" here, "listed after" in `Journal.UserOrdersAppend` and "last" in `DataStore.PlacedOrderIsListed` hold for that order only.
- SalesReport.Report: MongoDB does not specify the order of the `$group` output. The model lists groups in order of first appearance in the journal, so the row order it fixes is one of the orders the database may return.
- Journal.GroupByProduct: `$sum` over 32-bit quantities is a 64-bit or double sum in MongoDB, and `getInteger("total_quantity")` would fail on a `long`. The model sums exactly.
- DataStore.Store.GenerateSalesReport: the catch-all around the loop is not modelled. A failing `findProductById` (an `SQLException` turned into `null`) inside the loop would skip that row; the model takes those lookups to succeed.
- DataStore.Store.CreateOrder: `insertOne` failing after the write has reached the database is not modelled; a failed insert appends nothing.
- ProductSearch.SearchProductsQuery: executing the statement, binding by `instanceof`, and mapping result rows to products are JDBC behaviour and not modelled. `PlaceholdersMatchParameters` states the count of `?` that the method's result satisfies.
- PaymentConversion: both converters throw `NullPointerException` on a `null` list (DataStore.java:761, 777), for example a customer document without `payment_methods`. The model's lists are never `null`.
- PaymentConversion: `getString` on a value that is not a string throws `ClassCastException`. The model's documents hold only strings or `null`.
- `findUserByUsername`, `createUserAndCustomer`, the customer profile and payment-method updates, `createRefillOrder`, `isUserIdInMongoDB`, `searchProductsByName`, `getAllProducts`, `addProduct`, `updateProduct` and `deleteProduct` are thin single-record wrappers around one database call and are not part of this model.
