/** The rows `generateSalesReport` builds from the aggregation output: one per
    group whose product is still in the catalog, priced at the catalog's
    current price. */
module SalesReport {
  import opened JavaLang
  import opened Records
  import opened Journal

  /** The row for one group: the product's current name, and revenue as the summed
      quantity times the current catalog price (in cents). */
  function SalesRow(g: Group, p: Product): SalesData
  {
    SalesData(g.productId, p.name, g.totalQuantity, g.totalQuantity * p.price)
  }

  /** The rows for `groups`, in order, skipping groups whose product is not in the catalog. */
  function ReportRows(groups: seq<Group>, products: map<int32, Product>): (rows: seq<SalesData>)
    ensures |rows| <= |groups|
  {
    if groups == [] then []
    else
      var rows := ReportRows(groups[..|groups| - 1], products);
      var last := groups[|groups| - 1];
      if last.productId in products then rows + [SalesRow(last, products[last.productId])] else rows
  }

  /** Every row comes from a group whose product is in the catalog. */
  lemma {:induction false} ReportRowsSound(groups: seq<Group>, products: map<int32, Product>, k: int)
    requires 0 <= k < |ReportRows(groups, products)|
    ensures exists i :: 0 <= i < |groups| && groups[i].productId in products &&
                        ReportRows(groups, products)[k] == SalesRow(groups[i], products[groups[i].productId])
    decreases |groups|
  {
    var init := groups[..|groups| - 1];
    var rows := ReportRows(init, products);
    if k < |rows| {
      ReportRowsSound(init, products, k);
      var i :| 0 <= i < |init| && init[i].productId in products && rows[k] == SalesRow(init[i], products[init[i].productId]);
      assert groups[i] == init[i];
    } else {
      assert ReportRows(groups, products)[k] == SalesRow(groups[|groups| - 1], products[groups[|groups| - 1].productId]);
    }
  }

  /** Every group whose product is in the catalog gives a row. */
  lemma {:induction false} ReportRowsComplete(groups: seq<Group>, products: map<int32, Product>, i: int)
    requires 0 <= i < |groups| && groups[i].productId in products
    ensures SalesRow(groups[i], products[groups[i].productId]) in ReportRows(groups, products)
    decreases |groups|
  {
    var init := groups[..|groups| - 1];
    if i < |init| {
      ReportRowsComplete(init, products, i);
      assert init[i] == groups[i];
    }
  }

  /** No product has two rows. */
  predicate DistinctRows(rows: seq<SalesData>)
  {
    forall i, j :: 0 <= i < j < |rows| ==> rows[i].productId != rows[j].productId
  }

  /** Distinct product ids among the groups stay distinct among the rows. */
  lemma {:induction false} ReportRowsDistinct(groups: seq<Group>, products: map<int32, Product>)
    requires DistinctGroups(groups)
    ensures DistinctRows(ReportRows(groups, products))
    decreases |groups|
  {
    if groups != [] {
      var init := groups[..|groups| - 1];
      var last := groups[|groups| - 1];
      var rows := ReportRows(init, products);
      assert DistinctGroups(init) by {
        forall i, j | 0 <= i < j < |init| ensures init[i].productId != init[j].productId {
          assert init[i] == groups[i] && init[j] == groups[j];
        }
      }
      ReportRowsDistinct(init, products);
      if last.productId in products {
        forall k | 0 <= k < |rows| ensures rows[k].productId != last.productId {
          ReportRowsSound(init, products, k);
          var i :| 0 <= i < |init| && init[i].productId in products && rows[k] == SalesRow(init[i], products[init[i].productId]);
          assert groups[i] == init[i];
        }
        var all := rows + [SalesRow(last, products[last.productId])];
        forall i, j | 0 <= i < j < |all| ensures all[i].productId != all[j].productId {
          if j < |rows| {
            assert all[i] == rows[i] && all[j] == rows[j];
          }
        }
      }
    }
  }

  /** The report `generateSalesReport` returns for the orders between two timestamps. */
  function Report(orders: seq<OrderDoc>, products: map<int32, Product>, start: int, end: int): (rows: seq<SalesData>)
    ensures |rows| <= |SalesPipeline(orders, start, end)|
  {
    ReportRows(SalesPipeline(orders, start, end), products)
  }

  /** Every row of the report is a catalog product ordered in the range, with the
      quantity sold in the range and that quantity times the current price. */
  lemma SalesReportRows(orders: seq<OrderDoc>, products: map<int32, Product>, start: int, end: int, k: int)
    requires 0 <= k < |Report(orders, products, start, end)|
    ensures Report(orders, products, start, end)[k].productId in products
    ensures Report(orders, products, start, end)[k].productName == products[Report(orders, products, start, end)[k].productId].name
    ensures Report(orders, products, start, end)[k].totalQuantitySold
            == SoldInRange(orders, Report(orders, products, start, end)[k].productId, start, end)
    ensures Report(orders, products, start, end)[k].totalSalesAmount
            == Report(orders, products, start, end)[k].totalQuantitySold * products[Report(orders, products, start, end)[k].productId].price
    ensures exists d :: d in orders && InDateRange(d, start, end) && d.productId == Report(orders, products, start, end)[k].productId
  {
    var groups := SalesPipeline(orders, start, end);
    ReportRowsSound(groups, products, k);
    var i :| 0 <= i < |groups| && groups[i].productId in products &&
             ReportRows(groups, products)[k] == SalesRow(groups[i], products[groups[i].productId]);
    SalesPipelineGroup(orders, start, end, i);
  }

  /** Every catalog product ordered in the range has a row. */
  lemma SalesReportCoversRange(orders: seq<OrderDoc>, products: map<int32, Product>, start: int, end: int, d: OrderDoc)
    requires d in orders && InDateRange(d, start, end) && d.productId in products
    ensures exists k :: 0 <= k < |Report(orders, products, start, end)| && Report(orders, products, start, end)[k].productId == d.productId
  {
    var groups := SalesPipeline(orders, start, end);
    var rows := ReportRows(groups, products);
    SalesPipelineCovers(orders, start, end, d);
    var i :| 0 <= i < |groups| && groups[i].productId == d.productId;
    ReportRowsComplete(groups, products, i);
    var k :| 0 <= k < |rows| && rows[k] == SalesRow(groups[i], products[groups[i].productId]);
    assert Report(orders, products, start, end)[k].productId == d.productId;
  }

  /** No product has two rows. */
  lemma SalesReportDistinct(orders: seq<OrderDoc>, products: map<int32, Product>, start: int, end: int)
    ensures DistinctRows(Report(orders, products, start, end))
  {
    ReportRowsDistinct(SalesPipeline(orders, start, end), products);
  }

  /** A product missing from the catalog gets no row, whatever was ordered. */
  lemma SalesReportSkipsUnknownProducts(orders: seq<OrderDoc>, products: map<int32, Product>, start: int, end: int, productId: int32)
    requires productId !in products
    ensures forall k :: 0 <= k < |Report(orders, products, start, end)| ==> Report(orders, products, start, end)[k].productId != productId
  {
    var rows := Report(orders, products, start, end);
    forall k | 0 <= k < |rows| ensures rows[k].productId != productId {
      SalesReportRows(orders, products, start, end, k);
    }
  }

  /** A start after the end gives an empty report. */
  lemma SalesReportEmptyRange(orders: seq<OrderDoc>, products: map<int32, Product>, start: int, end: int)
    requires start > end
    ensures Report(orders, products, start, end) == []
  {
    EmptyRangeHasNoGroups(orders, start, end);
  }
}
