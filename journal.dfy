/** Reads of the MongoDB `orders` collection, over the journal as a sequence of
    documents in insertion order: the lookups behind `findOrderById` and
    `getOrdersForUser`, and the `$match`/`$group` pipeline of
    `generateSalesReport`. */
module Journal {
  import opened JavaLang
  import opened Records

  // ---------------------------------------------------------------------------
  // findOrderById
  // ---------------------------------------------------------------------------

  /** The Order `findOrderById` builds from a document; its id is `order_id`. */
  function FoundOrder(d: OrderDoc): Order
  {
    Order(d.orderId, d.userId, d.productId, d.quantity, d.orderDate, d.status)
  }

  /** `find({order_id: orderId}).first()`: the first document with that `order_id`,
      taking the order `find()` returns to be the journal's insertion order. */
  function FindOrderById(orders: seq<OrderDoc>, orderId: string): (r: Option<Order>)
    ensures r.None? <==> forall i :: 0 <= i < |orders| ==> orders[i].orderId != orderId
    ensures r.Some? ==> exists i :: 0 <= i < |orders| && orders[i].orderId == orderId && r.value == FoundOrder(orders[i]) &&
                                    forall j :: 0 <= j < i ==> orders[j].orderId != orderId
  {
    if orders == [] then None
    else if orders[0].orderId == orderId then Some(FoundOrder(orders[0]))
    else
      var r := FindOrderById(orders[1..], orderId);
      assert forall i :: 1 <= i < |orders| ==> orders[i] == orders[1..][i - 1];
      r
  }

  /** A document appended under an id no earlier document has is what the lookup finds. */
  lemma FindAppendedOrder(orders: seq<OrderDoc>, d: OrderDoc)
    requires forall i :: 0 <= i < |orders| ==> orders[i].orderId != d.orderId
    ensures FindOrderById(orders + [d], d.orderId) == Some(FoundOrder(d))
  {
    var all := orders + [d];
    assert all[|orders|].orderId == d.orderId;
    var r := FindOrderById(all, d.orderId);
    var i :| 0 <= i < |all| && all[i].orderId == d.orderId && r.value == FoundOrder(all[i]);
    if i < |orders| {
      assert all[i] == orders[i];
    }
  }

  // ---------------------------------------------------------------------------
  // getOrdersForUser
  // ---------------------------------------------------------------------------

  /** The Order `getOrdersForUser` builds from a document; its id is the hex `_id`. */
  function ListedOrder(d: OrderDoc): Order
  {
    Order(d.objectId, d.userId, d.productId, d.quantity, d.orderDate, d.status)
  }

  /** The orders of one user, in journal order (taken to be the order `find()` returns). */
  function UserOrders(orders: seq<OrderDoc>, userId: int32): (r: seq<Order>)
    ensures |r| <= |orders|
    ensures forall k :: 0 <= k < |r| ==> r[k].userId == userId
  {
    if orders == [] then []
    else
      var init := UserOrders(orders[..|orders| - 1], userId);
      var d := orders[|orders| - 1];
      if d.userId == userId then init + [ListedOrder(d)] else init
  }

  /** The user's orders of a journal grown by appending are the old ones followed by the new ones. */
  lemma {:induction false} UserOrdersAppend(a: seq<OrderDoc>, b: seq<OrderDoc>, userId: int32)
    ensures UserOrders(a + b, userId) == UserOrders(a, userId) + UserOrders(b, userId)
    decreases |b|
  {
    if b == [] {
      assert a + b == a;
    } else {
      var b' := b[..|b| - 1];
      UserOrdersAppend(a, b', userId);
      assert (a + b)[..|a + b| - 1] == a + b';
    }
  }

  /** An order is listed exactly when some document of the user gives it. */
  lemma {:induction false} UserOrdersComplete(orders: seq<OrderDoc>, userId: int32, o: Order)
    ensures o in UserOrders(orders, userId) <==> exists d :: d in orders && d.userId == userId && o == ListedOrder(d)
    decreases |orders|
  {
    if orders != [] {
      var init := orders[..|orders| - 1];
      var last := orders[|orders| - 1];
      UserOrdersComplete(init, userId, o);
      assert orders == init + [last];
      if exists d :: d in orders && d.userId == userId && o == ListedOrder(d) {
        var d :| d in orders && d.userId == userId && o == ListedOrder(d);
        if d != last {
          assert d in init;
        }
      }
    }
  }

  // ---------------------------------------------------------------------------
  // The sales-report aggregation pipeline
  // ---------------------------------------------------------------------------

  /** The `$match` stage: `order_date` `$gte` start and `$lte` end, on timestamps. */
  predicate InDateRange(d: OrderDoc, start: int, end: int)
  {
    start <= d.orderDate <= end
  }

  function MatchDates(orders: seq<OrderDoc>, start: int, end: int): (r: seq<OrderDoc>)
    ensures forall d :: d in r <==> d in orders && InDateRange(d, start, end)
  {
    if orders == [] then []
    else (if InDateRange(orders[0], start, end) then [orders[0]] else []) + MatchDates(orders[1..], start, end)
  }

  /** The product ids of the documents, each once, in order of first appearance. */
  function ProductIdsOf(docs: seq<OrderDoc>): (ids: seq<int32>)
    ensures forall i, j :: 0 <= i < j < |ids| ==> ids[i] != ids[j]
    ensures forall p :: p in ids <==> exists d :: d in docs && d.productId == p
  {
    if docs == [] then []
    else
      var init := docs[..|docs| - 1];
      var last := docs[|docs| - 1];
      var ids := ProductIdsOf(init);
      assert docs == init + [last];
      if last.productId in ids then ids else ids + [last.productId]
  }

  /** `$sum` of `quantity` over the documents of one product. */
  function QuantitySum(docs: seq<OrderDoc>, productId: int32): int
  {
    if docs == [] then 0
    else (if docs[0].productId == productId then docs[0].quantity as int else 0) + QuantitySum(docs[1..], productId)
  }

  /** One output document of `$group`: `_id` is the product id, `total_quantity` the sum. */
  datatype Group = Group(productId: int32, totalQuantity: int)

  /** The `$group` stage. MongoDB leaves the order of its output unspecified;
      this model lists groups in order of first appearance. */
  function GroupByProduct(docs: seq<OrderDoc>): (groups: seq<Group>)
    ensures |groups| == |ProductIdsOf(docs)|
    ensures forall k :: 0 <= k < |groups| ==> groups[k] == Group(ProductIdsOf(docs)[k], QuantitySum(docs, ProductIdsOf(docs)[k]))
  {
    var ids := ProductIdsOf(docs);
    seq(|ids|, k requires 0 <= k < |ids| => Group(ids[k], QuantitySum(docs, ids[k])))
  }

  /** No two groups are for the same product. */
  predicate DistinctGroups(groups: seq<Group>)
  {
    forall i, j :: 0 <= i < j < |groups| ==> groups[i].productId != groups[j].productId
  }

  /** The whole pipeline `generateSalesReport` sends to the database. */
  function SalesPipeline(orders: seq<OrderDoc>, start: int, end: int): (groups: seq<Group>)
    ensures DistinctGroups(groups)
  {
    GroupByProduct(MatchDates(orders, start, end))
  }

  /** Reference definition: the quantity of one product ordered between two
      timestamps, both included, summed directly over the journal. */
  function SoldInRange(orders: seq<OrderDoc>, productId: int32, start: int, end: int): int
  {
    if orders == [] then 0
    else
      (if orders[0].productId == productId && InDateRange(orders[0], start, end) then orders[0].quantity as int else 0)
      + SoldInRange(orders[1..], productId, start, end)
  }

  lemma {:induction false} QuantitySumOfMatch(orders: seq<OrderDoc>, productId: int32, start: int, end: int)
    ensures QuantitySum(MatchDates(orders, start, end), productId) == SoldInRange(orders, productId, start, end)
    decreases |orders|
  {
    if orders != [] {
      var head := if InDateRange(orders[0], start, end) then [orders[0]] else [];
      var rest := MatchDates(orders[1..], start, end);
      QuantitySumOfMatch(orders[1..], productId, start, end);
      QuantitySumConcat(head, rest, productId);
      if head != [] {
        assert head[1..] == [];
      }
    }
  }

  lemma {:induction false} QuantitySumConcat(a: seq<OrderDoc>, b: seq<OrderDoc>, productId: int32)
    ensures QuantitySum(a + b, productId) == QuantitySum(a, productId) + QuantitySum(b, productId)
    decreases |a|
  {
    if a == [] {
      assert a + b == b;
    } else {
      assert (a + b)[1..] == a[1..] + b;
      QuantitySumConcat(a[1..], b, productId);
    }
  }

  /** Each group of the pipeline is one product ordered in the range, with the
      quantity sold in the range. */
  lemma SalesPipelineGroup(orders: seq<OrderDoc>, start: int, end: int, k: int)
    requires 0 <= k < |SalesPipeline(orders, start, end)|
    ensures SalesPipeline(orders, start, end)[k].totalQuantity
            == SoldInRange(orders, SalesPipeline(orders, start, end)[k].productId, start, end)
    ensures exists d :: d in orders && InDateRange(d, start, end) && d.productId == SalesPipeline(orders, start, end)[k].productId
  {
    var ids := ProductIdsOf(MatchDates(orders, start, end));
    QuantitySumOfMatch(orders, ids[k], start, end);
    assert ids[k] in ids;
  }

  /** Every product ordered in the range has a group. */
  lemma SalesPipelineCovers(orders: seq<OrderDoc>, start: int, end: int, d: OrderDoc)
    requires d in orders && InDateRange(d, start, end)
    ensures exists k :: 0 <= k < |SalesPipeline(orders, start, end)| && SalesPipeline(orders, start, end)[k].productId == d.productId
  {
    var m := MatchDates(orders, start, end);
    var ids := ProductIdsOf(m);
    assert d in m;
    assert d.productId in ids;
    var k :| 0 <= k < |ids| && ids[k] == d.productId;
    assert SalesPipeline(orders, start, end)[k].productId == d.productId;
  }

  /** A range whose start lies after its end matches no order, so the pipeline yields nothing. */
  lemma EmptyRangeHasNoGroups(orders: seq<OrderDoc>, start: int, end: int)
    requires start > end
    ensures SalesPipeline(orders, start, end) == []
  {
    NoMatchInEmptyRange(orders, start, end);
  }

  lemma {:induction false} NoMatchInEmptyRange(orders: seq<OrderDoc>, start: int, end: int)
    requires start > end
    ensures MatchDates(orders, start, end) == []
    decreases |orders|
  {
    if orders != [] {
      NoMatchInEmptyRange(orders[1..], start, end);
    }
  }
}
