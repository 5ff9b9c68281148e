/** The store's two databases as in-memory state (the MySQL `products` table and
    the MongoDB `orders` collection) and the operations of `DataStore` that
    read and change them: order placement with its stock reservation and
    compensating rollback, the order lookups and the sales report.

    Each database call that can fail (an `SQLException` in a product lookup or
    a stock write, an exception from `insertOne`) takes a "fails" flag, so that
    every failure branch of the code is reachable. */
module DataStore {
  import opened JavaLang
  import opened Records
  import opened Journal
  import opened SalesReport

  /** Which database calls of one `placeOrder` fail. */
  datatype Faults = Faults(
    productLookup: bool,   // findProductById at the start of placeOrder
    stockWrite: bool,      // updateProductStock reserving the stock
    priceLookup: bool,     // findProductById inside createOrder
    orderInsert: bool,     // insertOne inside createOrder
    rollbackWrite: bool)   // updateProductStock writing the stock back

  const NO_FAULTS: Faults := Faults(false, false, false, false, false)

  /** The status every new order gets. */
  const PENDING: string := "Pending"

  /** findProductById: the row, or `null` when there is none or the query fails. */
  function FindProduct(products: map<int32, Product>, productId: int32, fails: bool): (r: Option<Product>)
    ensures r.Some? <==> !fails && productId in products
    ensures r.Some? ==> r.value == products[productId]
  {
    if !fails && productId in products then Some(products[productId]) else None
  }

  /** updateProductStock succeeds when the statement runs and updates a row. */
  predicate StockWriteSucceeds(products: map<int32, Product>, productId: int32, fails: bool)
  {
    !fails && productId in products
  }

  /** The table after `UPDATE products SET stock = newStock WHERE product_id = productId`. */
  function WithStock(products: map<int32, Product>, productId: int32, newStock: int32): (r: map<int32, Product>)
    requires productId in products
    ensures r.Keys == products.Keys
    ensures r[productId] == products[productId].(stock := newStock)
    ensures forall id :: id in products && id != productId ==> r[id] == products[id]
  {
    products[productId := products[productId].(stock := newStock)]
  }

  /** generateOrderId: `"ORD-"` followed by the clock reading in milliseconds. */
  function GenerateOrderId(millis: nat): (id: string)
    ensures |id| > 4 && id[..4] == "ORD-"
    ensures forall i :: 4 <= i < |id| ==> IsDigit(id[i])
    ensures DecimalValue(id[4..]) == millis
  {
    DecimalValueOfString(millis);
    assert ("ORD-" + DecimalString(millis))[4..] == DecimalString(millis);
    "ORD-" + DecimalString(millis)
  }

  /** Distinct clock readings give distinct order ids. */
  lemma OrderIdsDistinct(a: nat, b: nat)
    requires a != b
    ensures GenerateOrderId(a) != GenerateOrderId(b)
  {
    // Equal ids would have equal digit values after "ORD-".
  }

  /** The document createOrder inserts. */
  function NewOrderDoc(objectId: string, orderId: string, userId: int32, productId: int32,
                       quantity: int32, now: int, price: int): OrderDoc
  {
    OrderDoc(objectId, orderId, userId, productId, quantity, now, PENDING, price)
  }

  /** The result of one placeOrder and the state of both databases after it. */
  datatype Outcome = Outcome(placed: bool, products: map<int32, Product>, orders: seq<OrderDoc>)

  /** placeOrder as a function of the databases before the call. `millis` is the
      clock generateOrderId reads, `now` the `new Date()` createOrder stores and
      `objectId` the `_id` the driver assigns. */
  function PlaceOrderOutcome(products: map<int32, Product>, orders: seq<OrderDoc>,
                             userId: int32, productId: int32, quantity: int32,
                             millis: nat, now: int, objectId: string, f: Faults): (r: Outcome)
    // Placed exactly when the product is found with enough stock and every write succeeds.
    ensures r.placed <==> !f.productLookup && productId in products && products[productId].stock >= quantity
                          && !f.stockWrite && !f.priceLookup && !f.orderInsert
    // Only the stock of the ordered product can change.
    ensures r.products.Keys == products.Keys
    ensures forall id :: id in products && id != productId ==> r.products[id] == products[id]
    ensures productId in products ==> r.products[productId] == products[productId].(stock := r.products[productId].stock)
    // A product not found, a stock too low or a failed reservation leaves both databases as they were.
    ensures f.productLookup || productId !in products || products[productId].stock < quantity || f.stockWrite
            ==> r.products == products && r.orders == orders
    // A failed order leaves the journal as it was.
    ensures !r.placed ==> r.orders == orders
    // A placed order reduces the stock by the quantity and appends exactly one pending order at the catalog price.
    ensures r.placed ==> r.products[productId].stock == Sub32(products[productId].stock, quantity)
    ensures r.placed ==> r.orders == orders + [NewOrderDoc(objectId, GenerateOrderId(millis), userId, productId,
                                                          quantity, now, products[productId].price)]
    // A failure after the reservation writes the original stock back, and the rollback
    // takes effect exactly when that write succeeds.
    ensures !f.productLookup && productId in products && products[productId].stock >= quantity && !f.stockWrite
            && (f.priceLookup || f.orderInsert)
            ==> r.products[productId].stock
                == if f.rollbackWrite then Sub32(products[productId].stock, quantity) else products[productId].stock
    // Stock that starts non-negative stays non-negative, unless a negative quantity overflows it.
    ensures productId in products && products[productId].stock >= 0
            && (quantity >= 0 || products[productId].stock - quantity <= INT_MAX)
            ==> r.products[productId].stock >= 0
  {
    var found := FindProduct(products, productId, f.productLookup);
    if found.None? then Outcome(false, products, orders)
    else if found.value.stock < quantity then Outcome(false, products, orders)
    else if !StockWriteSucceeds(products, productId, f.stockWrite) then Outcome(false, products, orders)
    else
      var reserved := WithStock(products, productId, Sub32(found.value.stock, quantity));
      var orderId := GenerateOrderId(millis);
      var priced := FindProduct(reserved, productId, f.priceLookup);
      if priced.Some? && !f.orderInsert then
        Outcome(true, reserved, orders + [NewOrderDoc(objectId, orderId, userId, productId, quantity, now, priced.value.price)])
      else if StockWriteSucceeds(reserved, productId, f.rollbackWrite) then
        Outcome(false, WithStock(reserved, productId, found.value.stock), orders)
      else
        Outcome(false, reserved, orders)
  }

  /** With no faults, an order for at most the available stock is placed. */
  lemma OrderWithinStockIsPlaced(products: map<int32, Product>, orders: seq<OrderDoc>,
                                 userId: int32, productId: int32, quantity: int32,
                                 millis: nat, now: int, objectId: string)
    requires productId in products && 0 <= quantity <= products[productId].stock
    ensures var r := PlaceOrderOutcome(products, orders, userId, productId, quantity, millis, now, objectId, NO_FAULTS);
      r.placed && r.products[productId].stock == products[productId].stock - quantity
  {
  }

  /** The order a placement appends is what findOrderById then finds, provided no
      earlier order carries the same id. */
  lemma PlacedOrderIsFound(products: map<int32, Product>, orders: seq<OrderDoc>,
                           userId: int32, productId: int32, quantity: int32,
                           millis: nat, now: int, objectId: string, f: Faults)
    requires PlaceOrderOutcome(products, orders, userId, productId, quantity, millis, now, objectId, f).placed
    requires forall i :: 0 <= i < |orders| ==> orders[i].orderId != GenerateOrderId(millis)
    ensures FindOrderById(PlaceOrderOutcome(products, orders, userId, productId, quantity, millis, now, objectId, f).orders,
                          GenerateOrderId(millis))
            == Some(Order(GenerateOrderId(millis), userId, productId, quantity, now, PENDING))
  {
    var d := NewOrderDoc(objectId, GenerateOrderId(millis), userId, productId, quantity, now, products[productId].price);
    FindAppendedOrder(orders, d);
  }

  /** A placed order is listed last among the user's orders, under the `_id` of its document. */
  lemma PlacedOrderIsListed(products: map<int32, Product>, orders: seq<OrderDoc>,
                            userId: int32, productId: int32, quantity: int32,
                            millis: nat, now: int, objectId: string, f: Faults)
    requires PlaceOrderOutcome(products, orders, userId, productId, quantity, millis, now, objectId, f).placed
    ensures UserOrders(PlaceOrderOutcome(products, orders, userId, productId, quantity, millis, now, objectId, f).orders, userId)
            == UserOrders(orders, userId) + [Order(objectId, userId, productId, quantity, now, PENDING)]
  {
    var d := NewOrderDoc(objectId, GenerateOrderId(millis), userId, productId, quantity, now, products[productId].price);
    UserOrdersAppend(orders, [d], userId);
    assert [d][..0] == [];
  }

  /** The number of orders placed in a run, and the databases after it. */
  datatype Run = Run(placedCount: nat, products: map<int32, Product>, orders: seq<OrderDoc>)

  /** `n` orders of one unit each for the same product, one after the other and
      without faults, the i-th at clock reading i. */
  function PlaceUnitOrders(products: map<int32, Product>, orders: seq<OrderDoc>,
                           userId: int32, productId: int32, n: nat, now: int): Run
    decreases n
  {
    if n == 0 then Run(0, products, orders)
    else
      var run := PlaceUnitOrders(products, orders, userId, productId, n - 1, now);
      var r := PlaceOrderOutcome(run.products, run.orders, userId, productId, 1, n, now, "", NO_FAULTS);
      Run(run.placedCount + (if r.placed then 1 else 0), r.products, r.orders)
  }

  function Min(a: int, b: int): int
  {
    if a <= b then a else b
  }

  /** Sequential one-unit orders never oversell: of `n` orders against a stock of
      `s`, exactly `min(n, s)` are placed, each appends one order, and the stock
      ends at `s - min(n, s)`. */
  lemma {:induction false} UnitOrdersNeverOversell(products: map<int32, Product>, orders: seq<OrderDoc>,
                                                   userId: int32, productId: int32, n: nat, now: int)
    requires productId in products && products[productId].stock >= 0
    ensures productId in PlaceUnitOrders(products, orders, userId, productId, n, now).products
    ensures PlaceUnitOrders(products, orders, userId, productId, n, now).placedCount == Min(n, products[productId].stock)
    ensures PlaceUnitOrders(products, orders, userId, productId, n, now).products[productId].stock
            == products[productId].stock - Min(n, products[productId].stock)
    ensures |PlaceUnitOrders(products, orders, userId, productId, n, now).orders|
            == |orders| + PlaceUnitOrders(products, orders, userId, productId, n, now).placedCount
    decreases n
  {
    if n > 0 {
      UnitOrdersNeverOversell(products, orders, userId, productId, n - 1, now);
    }
  }

  /** The code does not reject a negative quantity: ordering -1 of a product whose
      stock is the largest `int` passes the stock check and wraps the stock round to
      the smallest `int`. (Both callers only ever pass a positive quantity.) */
  lemma NegativeQuantityWrapsStock()
    ensures var products := map[1 := Product("p", "", 100, INT_MAX)];
      PlaceOrderOutcome(products, [], 1, 1, -1, 0, 0, "", NO_FAULTS).products[1].stock == INT_MIN
  {
  }

  /** An order appended to the journal adds its quantity to the quantity sold of its
      product in every range holding its date, and nothing to any other. */
  lemma {:induction false} SoldInRangeAppend(orders: seq<OrderDoc>, d: OrderDoc, productId: int32, start: int, end: int)
    ensures SoldInRange(orders + [d], productId, start, end)
            == SoldInRange(orders, productId, start, end)
               + (if d.productId == productId && InDateRange(d, start, end) then d.quantity as int else 0)
    decreases |orders|
  {
    if orders == [] {
      assert [d][1..] == [];
    } else {
      assert (orders + [d])[1..] == orders[1..] + [d];
      SoldInRangeAppend(orders[1..], d, productId, start, end);
    }
  }

  /** The two databases, updated in place by the operations below. */
  class Store {
    var products: map<int32, Product>
    var orders: seq<OrderDoc>

    constructor (products0: map<int32, Product>, orders0: seq<OrderDoc>)
      ensures products == products0 && orders == orders0
    {
      products := products0;
      orders := orders0;
    }

    /** findProductById. */
    method FindProductById(productId: int32, fails: bool) returns (product: Option<Product>)
      ensures product == FindProduct(products, productId, fails)
    {
      if !fails && productId in products {
        product := Some(products[productId]);
      } else {
        product := None;
      }
    }

    /** updateProductStock: writes the absolute value `newStock`; true when a row was updated. */
    method UpdateProductStock(productId: int32, newStock: int32, fails: bool) returns (ok: bool)
      modifies this
      ensures ok == StockWriteSucceeds(old(products), productId, fails)
      ensures products == if ok then WithStock(old(products), productId, newStock) else old(products)
      ensures orders == old(orders)
    {
      ok := StockWriteSucceeds(products, productId, fails);
      if ok {
        products := WithStock(products, productId, newStock);
      }
    }

    /** createOrder: re-reads the product for its price and inserts a pending order. */
    method CreateOrder(orderId: string, userId: int32, productId: int32, quantity: int32,
                       now: int, objectId: string, lookupFails: bool, insertFails: bool) returns (ok: bool)
      modifies this
      ensures ok == (!lookupFails && productId in products && !insertFails)
      ensures products == old(products)
      ensures orders == if ok then old(orders) + [NewOrderDoc(objectId, orderId, userId, productId, quantity, now, products[productId].price)]
                        else old(orders)
    {
      var product := FindProductById(productId, lookupFails);
      if product.None? {
        return false;
      }
      if insertFails {
        return false;
      }
      orders := orders + [NewOrderDoc(objectId, orderId, userId, productId, quantity, now, product.value.price)];
      return true;
    }

    /** placeOrder: look up, check the stock, reserve it, insert the order, and on a
        failed insert write the stock read at the start back. */
    method PlaceOrder(userId: int32, productId: int32, quantity: int32,
                      millis: nat, now: int, objectId: string, f: Faults) returns (placed: bool)
      modifies this
      ensures Outcome(placed, products, orders)
              == PlaceOrderOutcome(old(products), old(orders), userId, productId, quantity, millis, now, objectId, f)
    {
      var product := FindProductById(productId, f.productLookup);
      if product.None? {
        return false;
      }
      if product.value.stock < quantity {
        return false;
      }
      var stockUpdated := UpdateProductStock(productId, Sub32(product.value.stock, quantity), f.stockWrite);
      if !stockUpdated {
        return false;
      }
      var orderId := GenerateOrderId(millis);
      var orderCreated := CreateOrder(orderId, userId, productId, quantity, now, objectId, f.priceLookup, f.orderInsert);
      if !orderCreated {
        var _ := UpdateProductStock(productId, product.value.stock, f.rollbackWrite);
        return false;
      }
      return true;
    }

    /** getOrdersForUser: the user's orders, in journal order, each under its `_id`. */
    method GetOrdersForUser(userId: int32) returns (userOrders: seq<Order>)
      ensures userOrders == UserOrders(orders, userId)
    {
      userOrders := [];
      var i := 0;
      while i < |orders|
        invariant 0 <= i <= |orders|
        invariant userOrders == UserOrders(orders[..i], userId)
      {
        assert orders[..i + 1][..i] == orders[..i];
        if orders[i].userId == userId {
          userOrders := userOrders + [ListedOrder(orders[i])];
        }
        i := i + 1;
      }
      assert orders[..i] == orders;
    }

    /** generateSalesReport: an empty list when either date does not parse, else one
        row per product ordered in the range that is still in the catalog. */
    method GenerateSalesReport(startDateStr: string, endDateStr: string, parseDate: string -> Option<int>)
      returns (salesReport: seq<SalesData>)
      ensures parseDate(startDateStr).None? || parseDate(endDateStr).None? ==> salesReport == []
      ensures parseDate(startDateStr).Some? && parseDate(endDateStr).Some?
              ==> salesReport == Report(orders, products, parseDate(startDateStr).value, parseDate(endDateStr).value)
    {
      salesReport := [];
      var startDate := parseDate(startDateStr);
      var endDate := parseDate(endDateStr);
      if startDate.None? || endDate.None? {
        return;
      }
      var groups := SalesPipeline(orders, startDate.value, endDate.value);
      var i := 0;
      while i < |groups|
        invariant 0 <= i <= |groups|
        invariant salesReport == ReportRows(groups[..i], products)
      {
        assert groups[..i + 1][..i] == groups[..i];
        var product := FindProductById(groups[i].productId, false);
        if product.Some? {
          salesReport := salesReport + [SalesRow(groups[i], product.value)];
        }
        i := i + 1;
      }
      assert groups[..i] == groups;
    }
  }
}
