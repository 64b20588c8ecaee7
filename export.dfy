/** `exportTransactionToXlsx`: the two sheets of the workbook, "Orders" and
    "Order Product", as sequences of rows, and the chunked scans that write
    them. */
module Export {
  import opened Wrappers
  import opened Dates
  import opened Tables
  import W = Workflow

  /** A spreadsheet cell: the writer keeps strings as text and integers as numbers. */
  datatype Cell = Text(s: string) | Number(n: int)

  type Row = seq<Cell>

  /** The number of rows each scan fetches per query. */
  const ChunkSize: nat := 5000

  function OrdersHeader(): Row
  {
    [Text("Order Number"), Text("Customer Name"), Text("Order Date"), Text("Grand Total")]
  }

  function OrderProductHeader(): Row
  {
    [Text("Order Number"), Text("Product Name"), Text("Quantity"), Text("Price"), Text("Subtotal")]
  }

  /** The ids of `orders` in the order a scan by primary key meets them. */
  function OrderIds(t: Tables): seq<int>
  {
    KeysAscending(t.orders.Keys, 0, t.nextOrderId)
  }

  /** The line items the join with `orders` keeps: those whose order exists. */
  function JoinedKeys(t: Tables): set<int>
  {
    set k | k in t.items && t.items[k].orderId in t.orders
  }

  /** The ids of the joined line items in the order a scan by
      `order_products.id` meets them. */
  function JoinedIds(t: Tables): seq<int>
  {
    KeysAscending(JoinedKeys(t), 0, t.nextItemId)
  }

  /** `SELECT order_no, customer_name, order_date, grand_total FROM orders`, by id. */
  function OrderQuery(t: Tables): (r: seq<Order>)
    ensures |r| == |OrderIds(t)|
  {
    var ids := OrderIds(t);
    seq(|ids|, i requires 0 <= i < |ids| => t.orders[ids[i]])
  }

  /** `SELECT orders.order_no, order_products.* ... JOIN orders ON orders.id = order_products.order_id`, by line item id. */
  function JoinQuery(t: Tables): (r: seq<(string, LineItem)>)
    ensures |r| == |JoinedIds(t)|
  {
    var ids := JoinedIds(t);
    seq(|ids|, i requires 0 <= i < |ids| => JoinRow(t, ids[i]))
  }

  /** A row of the "Orders" sheet: the date as 'd-m-Y'. */
  function OrderRow(o: Order): Row
  {
    [Text(o.orderNo), Text(o.customerName), Text(FormatDmy(o.orderDate.date)), Number(o.grandTotal)]
  }

  /** A row of the "Order Product" sheet. */
  function ProductRow(r: (string, LineItem)): Row
  {
    [Text(r.0), Text(r.1.productName), Number(r.1.qty), Number(r.1.price), Number(r.1.subtotal)]
  }

  function OrderRows(os: seq<Order>): (r: seq<Row>)
    ensures |r| == |os|
  {
    seq(|os|, i requires 0 <= i < |os| => OrderRow(os[i]))
  }

  function ProductRows(rs: seq<(string, LineItem)>): (r: seq<Row>)
    ensures |r| == |rs|
  {
    seq(|rs|, i requires 0 <= i < |rs| => ProductRow(rs[i]))
  }

  /** The "Orders" sheet: the header, then one row per order. */
  function OrdersSheet(t: Tables): seq<Row>
  {
    [OrdersHeader()] + OrderRows(OrderQuery(t))
  }

  /** The "Order Product" sheet: the header, then one row per joined line item. */
  function OrderProductSheet(t: Tables): seq<Row>
  {
    [OrderProductHeader()] + ProductRows(JoinQuery(t))
  }

  /** `forPage(page, size)` on a query result: at most `size` rows, those
      that follow the first `offset`, and fewer than `size` only when they
      run to the end of the result. */
  function Page<T>(q: seq<T>, offset: nat, size: nat): (r: seq<T>)
    ensures |r| <= size
    ensures offset <= |q| ==> offset + |r| <= |q| && q[..offset] + r == q[..offset + |r|]
    ensures offset >= |q| ==> r == []
    ensures |r| < size ==> offset + |r| >= |q|
  {
    if offset >= |q| then [] else q[offset..if offset + size <= |q| then offset + size else |q|]
  }

  lemma OrderRowsSnoc(os: seq<Order>, o: Order)
    ensures OrderRows(os + [o]) == OrderRows(os) + [OrderRow(o)]
  {
  }

  lemma ProductRowsSnoc(rs: seq<(string, LineItem)>, r: (string, LineItem))
    ensures ProductRows(rs + [r]) == ProductRows(rs) + [ProductRow(r)]
  {
  }

  /** The chunk callback of `writeOrdersSheet`: one row per fetched order. */
  method WriteOrderRows(sheet: seq<Row>, rows: seq<Order>) returns (r: seq<Row>)
    ensures r == sheet + OrderRows(rows)
  {
    r := sheet;
    var i := 0;
    while i < |rows|
      invariant 0 <= i <= |rows|
      invariant r == sheet + OrderRows(rows[..i])
    {
      assert rows[..i + 1] == rows[..i] + [rows[i]];
      OrderRowsSnoc(rows[..i], rows[i]);
      r := r + [OrderRow(rows[i])];
      i := i + 1;
    }
    assert rows[..i] == rows;
  }

  /** The chunk callback of `writeOrderProductSheet`: one row per fetched line item. */
  method WriteProductRows(sheet: seq<Row>, rows: seq<(string, LineItem)>) returns (r: seq<Row>)
    ensures r == sheet + ProductRows(rows)
  {
    r := sheet;
    var i := 0;
    while i < |rows|
      invariant 0 <= i <= |rows|
      invariant r == sheet + ProductRows(rows[..i])
    {
      assert rows[..i + 1] == rows[..i] + [rows[i]];
      ProductRowsSnoc(rows[..i], rows[i]);
      r := r + [ProductRow(rows[i])];
      i := i + 1;
    }
    assert rows[..i] == rows;
  }

  /** Rows written for two consecutive slices are the rows of their concatenation. */
  lemma OrderRowsAppend(a: seq<Order>, b: seq<Order>)
    ensures OrderRows(a + b) == OrderRows(a) + OrderRows(b)
  {
  }

  lemma ProductRowsAppend(a: seq<(string, LineItem)>, b: seq<(string, LineItem)>)
    ensures ProductRows(a + b) == ProductRows(a) + ProductRows(b)
  {
  }

  /** Writing the next page after the rows already written gives the rows of
      the longer prefix. */
  lemma OrderRowsStep(sheet: seq<Row>, q: seq<Order>, done: nat, size: nat)
    requires done <= |q|
    ensures sheet + OrderRows(q[..done]) + OrderRows(Page(q, done, size))
         == sheet + OrderRows(q[..done + |Page(q, done, size)|])
  {
    OrderRowsAppend(q[..done], Page(q, done, size));
  }

  lemma ProductRowsStep(sheet: seq<Row>, q: seq<(string, LineItem)>, done: nat, size: nat)
    requires done <= |q|
    ensures sheet + ProductRows(q[..done]) + ProductRows(Page(q, done, size))
         == sheet + ProductRows(q[..done + |Page(q, done, size)|])
  {
    ProductRowsAppend(q[..done], Page(q, done, size));
  }

  /** Laravel's `chunk` over the orders query: fetch page after page of
      `chunkSize` rows (page `p` starts at offset `(p - 1) * chunkSize`, kept
      here as `offset`) until one comes back short or empty, appending each
      row to `sheet`. The rows written are the same whatever the chunk size. */
  method ChunkOrders(sheet: seq<Row>, query: seq<Order>, chunkSize: nat) returns (r: seq<Row>)
    requires chunkSize > 0
    ensures r == sheet + OrderRows(query)
  {
    r := sheet;
    var offset: nat := 0;
    var done: nat := 0;
    var more := true;
    while more
      invariant done <= |query|
      invariant more ==> done == offset
      invariant !more ==> done == |query|
      invariant r == sheet + OrderRows(query[..done])
      decreases |query| - done
    {
      var rows := Page(query, offset, chunkSize);
      if |rows| == 0 {
        break;
      }
      r := WriteOrderRows(r, rows);
      OrderRowsStep(sheet, query, done, chunkSize);
      done := done + |rows|;
      more := |rows| == chunkSize;
      offset := offset + chunkSize;
    }
    assert query[..done] == query;
  }

  /** The same chunked scan over the join of line items with their orders. */
  method ChunkProducts(sheet: seq<Row>, query: seq<(string, LineItem)>, chunkSize: nat) returns (r: seq<Row>)
    requires chunkSize > 0
    ensures r == sheet + ProductRows(query)
  {
    r := sheet;
    var offset: nat := 0;
    var done: nat := 0;
    var more := true;
    while more
      invariant done <= |query|
      invariant more ==> done == offset
      invariant !more ==> done == |query|
      invariant r == sheet + ProductRows(query[..done])
      decreases |query| - done
    {
      var rows := Page(query, offset, chunkSize);
      if |rows| == 0 {
        break;
      }
      r := WriteProductRows(r, rows);
      ProductRowsStep(sheet, query, done, chunkSize);
      done := done + |rows|;
      more := |rows| == chunkSize;
      offset := offset + chunkSize;
    }
    assert query[..done] == query;
  }

  /** `writeOrdersSheet`: the header, then the chunked scan of the orders. */
  method WriteOrdersSheet(t: Tables, chunkSize: nat) returns (sheet: seq<Row>)
    requires chunkSize > 0
    ensures sheet == OrdersSheet(t)
  {
    sheet := ChunkOrders([OrdersHeader()], OrderQuery(t), chunkSize);
  }

  /** `writeOrderProductSheet`: the header, then the chunked scan of the join. */
  method WriteOrderProductSheet(t: Tables, chunkSize: nat) returns (sheet: seq<Row>)
    requires chunkSize > 0
    ensures sheet == OrderProductSheet(t)
  {
    sheet := ChunkProducts([OrderProductHeader()], JoinQuery(t), chunkSize);
  }

  /** The "Orders" sheet holds the header and one row per order. */
  lemma OrdersSheetSize(t: Tables)
    requires Valid(t)
    ensures |OrdersSheet(t)| == 1 + |t.orders| && OrdersSheet(t)[0] == OrdersHeader()
  {
    KeysAscendingCount(t.orders.Keys, 0, t.nextOrderId);
  }

  /** Every order has its row in the "Orders" sheet. */
  lemma OrdersSheetCovers(t: Tables, k: int)
    requires Valid(t) && k in t.orders
    ensures OrderRow(t.orders[k]) in OrdersSheet(t)[1..]
  {
    var ids := OrderIds(t);
    var i :| 0 <= i < |ids| && ids[i] == k;
    assert OrdersSheet(t)[1..][i] == OrderRows(OrderQuery(t))[i];
  }

  lemma OrderQueryAt(t: Tables, j: int)
    requires 0 <= j < |OrderIds(t)|
    ensures OrderIds(t)[j] in t.orders && OrderQuery(t)[j] == t.orders[OrderIds(t)[j]]
  {
  }

  lemma OrdersSheetAt(t: Tables, i: int)
    requires 1 <= i < |OrdersSheet(t)|
    ensures OrdersSheet(t)[i] == OrderRow(OrderQuery(t)[i - 1])
  {
  }

  /** Every row below the header of the "Orders" sheet is some order's row. */
  lemma OrdersSheetRowIsOrder(t: Tables, i: int)
    requires 1 <= i < |OrdersSheet(t)|
    ensures exists k :: k in t.orders && OrdersSheet(t)[i] == OrderRow(t.orders[k])
  {
    OrdersSheetAt(t, i);
    OrderQueryAt(t, i - 1);
    var k := OrderIds(t)[i - 1];
    assert OrdersSheet(t)[i] == OrderRow(t.orders[k]);
  }

  /** The row the join yields for line item `k`: its order's number and the item. */
  function JoinRow(t: Tables, k: int): (string, LineItem)
    requires k in t.items && t.items[k].orderId in t.orders
  {
    (t.orders[t.items[k].orderId].orderNo, t.items[k])
  }

  /** The "Order Product" sheet holds the header and one row per line item
      whose order exists. */
  lemma OrderProductSheetSize(t: Tables)
    requires Valid(t)
    ensures |OrderProductSheet(t)| == 1 + |JoinedKeys(t)| && OrderProductSheet(t)[0] == OrderProductHeader()
  {
    KeysAscendingCount(JoinedKeys(t), 0, t.nextItemId);
  }

  /** Every line item whose order exists has its row, with that order's number. */
  lemma OrderProductSheetCovers(t: Tables, k: int)
    requires Valid(t) && k in t.items && t.items[k].orderId in t.orders
    ensures ProductRow(JoinRow(t, k)) in OrderProductSheet(t)[1..]
  {
    var ids := JoinedIds(t);
    assert k in JoinedKeys(t);
    var i :| 0 <= i < |ids| && ids[i] == k;
    assert OrderProductSheet(t)[1..][i] == ProductRows(JoinQuery(t))[i];
  }

  /** Every row below the header is the row of a line item whose order
      exists: line items whose order is gone are not exported. */
  lemma OrderProductSheetRowIsJoined(t: Tables, i: int)
    requires 1 <= i < |OrderProductSheet(t)|
    ensures exists k :: k in t.items && t.items[k].orderId in t.orders && OrderProductSheet(t)[i] == ProductRow(JoinRow(t, k))
  {
    var k := JoinedIds(t)[i - 1];
    assert k in JoinedKeys(t);
    assert OrderProductSheet(t)[i] == ProductRow(JoinRow(t, k));
  }

  /** The 'd-m-Y' date column reads back as the order's date. */
  lemma DateColumnReadsBack(o: Order)
    ensures OrderRow(o)[2].Text? && ParseDmy(OrderRow(o)[2].s) == Some(o.orderDate.date)
  {
    ParseFormatDmy(o.orderDate.date);
  }

  /** After a delete the order's line items leave the "Order Product" sheet
      whether or not the schema cascades; with the cascade a store in which
      every line item had its order still has no line item left out. */
  lemma DeleteLeavesJoin(t: Tables, oid: int, cascadeOnDelete: bool)
    requires oid in t.orders
    ensures var (r, _) := W.DeleteDataOrder(t, oid, cascadeOnDelete);
      && JoinedKeys(r) == JoinedKeys(t) - ItemsOf(t, oid)
      && (cascadeOnDelete && JoinedKeys(t) == t.items.Keys ==> JoinedKeys(r) == r.items.Keys)
  {
    var (r, _) := W.DeleteDataOrder(t, oid, cascadeOnDelete);
    forall k | k in JoinedKeys(r) ensures k in JoinedKeys(t) - ItemsOf(t, oid) {
      assert t.items[k] == r.items[k];
    }
  }
}
