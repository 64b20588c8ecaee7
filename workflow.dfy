/** The write operations of `TransactionService` as functions of the tables:
    each repository call is one step, and a step that throws ends the
    operation with the tables as the earlier steps left them (no transaction
    is opened, so nothing is rolled back). */
module Workflow {
  import opened Wrappers
  import opened Dates
  import opened Tables
  import OrderNumber

  /** A product's `id` as the update request carries it: missing or null,
      the empty string, or a row id. */
  datatype ProductId = NoId | EmptyId | Id(n: int)

  /** One element of the request's `products` array. `wellFormed` is false
      when building its row throws: a missing `product_name`, `quantity` or
      `price` key, or a `quantity` or `price` the multiplication rejects. */
  datatype ProductInput = ProductInput(id: ProductId, productName: string, quantity: int, price: int, wellFormed: bool)

  /** Every product can be read. */
  predicate WellFormed(ps: seq<ProductInput>)
  {
    forall j :: 0 <= j < |ps| ==> ps[j].wellFormed
  }

  /** The number of products before the first one that cannot be read. */
  function ReadableCount(ps: seq<ProductInput>): (n: nat)
    ensures n <= |ps|
    ensures forall j :: 0 <= j < n ==> ps[j].wellFormed
    ensures n < |ps| ==> !ps[n].wellFormed
    ensures n == |ps| <==> WellFormed(ps)
    decreases |ps|
  {
    if ps == [] || !ps[0].wellFormed then 0
    else
      var m := ReadableCount(ps[1..]);
      assert forall j :: 1 <= j < |ps| ==> ps[j] == ps[1..][j - 1];
      1 + m
  }

  datatype CreateRequest = CreateRequest(customerName: string, orderDate: DateTime, products: seq<ProductInput>)

  datatype UpdateRequest = UpdateRequest(
    orderId: int, customerName: string, orderDate: DateTime, products: seq<ProductInput>)

  /** The outcome the service reports. */
  datatype Status = Ok | NotFound | Failed

  /** The HTTP status the service answers with: both failures answer 404. */
  function Code(s: Status): (c: int)
    ensures c == 200 <==> s == Ok
    ensures c != 200 ==> c == 404
  {
    match s
    case Ok => 200
    case NotFound => 404
    case Failed => 404
  }

  /** The tables after a run of repository calls, and whether every call succeeded. */
  datatype Step = Step(tables: Tables, ok: bool)

  /** The line item a product creates: `subtotal` is `quantity * price`. */
  function NewItem(oid: int, p: ProductInput): LineItem
  {
    LineItem(oid, p.productName, p.quantity, p.price, p.quantity * p.price)
  }

  /** A line item updated from a product: every field but `order_id` is replaced. */
  function Overwrite(row: LineItem, p: ProductInput): LineItem
  {
    row.(productName := p.productName, qty := p.quantity, price := p.price, subtotal := p.quantity * p.price)
  }

  /** `OrderProductRepository::create`: a new row under the next id. */
  function CreateItem(t: Tables, oid: int, p: ProductInput): Tables
  {
    t.(items := t.items[t.nextItemId := NewItem(oid, p)], nextItemId := t.nextItemId + 1)
  }

  /** The ids `lo`, ..., `lo + n - 1`. */
  function NewIds(lo: int, n: nat): (r: set<int>)
    ensures forall k :: k in r <==> lo <= k < lo + n
  {
    if n == 0 then {} else NewIds(lo, n - 1) + {lo + n - 1}
  }

  /** The rows created at `lo + 1`, ... and the row at `lo` make the rows created at `lo`. */
  lemma NewIdsCons(lo: int, n: nat)
    ensures {lo} + NewIds(lo + 1, n) == NewIds(lo, n + 1)
  {
  }

  /** One `create` per product, in order: the rows the products make. */
  function CreateRows(t: Tables, oid: int, ps: seq<ProductInput>): Tables
    decreases |ps|
  {
    if ps == [] then t else CreateRows(CreateItem(t, oid, ps[0]), oid, ps[1..])
  }

  /** `storeDataProductOrder`: one `create` per product, in order. A product
      that cannot be read throws and ends the loop there. */
  function StoreDataProductOrder(t: Tables, oid: int, ps: seq<ProductInput>): Step
    decreases |ps|
  {
    if ps == [] then Step(t, true)
    else if !ps[0].wellFormed then Step(t, false)
    else StoreDataProductOrder(CreateItem(t, oid, ps[0]), oid, ps[1..])
  }

  /** The loop creates the rows of the products before the first one it
      cannot read, and succeeds exactly when it reads them all. */
  lemma {:induction false} StoreStopsAtMalformed(t: Tables, oid: int, ps: seq<ProductInput>)
    ensures var n := ReadableCount(ps);
      StoreDataProductOrder(t, oid, ps) == Step(CreateRows(t, oid, ps[..n]), n == |ps|)
    decreases |ps|
  {
    var n := ReadableCount(ps);
    if ps == [] || !ps[0].wellFormed {
      assert ps[..n] == [];
    } else {
      StoreStopsAtMalformed(CreateItem(t, oid, ps[0]), oid, ps[1..]);
      assert ps[..n][0] == ps[0] && ps[..n][1..] == ps[1..][..n - 1];
    }
  }

  /** With every product readable the loop creates all their rows. */
  lemma StoreWellFormed(t: Tables, oid: int, ps: seq<ProductInput>)
    requires WellFormed(ps)
    ensures StoreDataProductOrder(t, oid, ps) == Step(CreateRows(t, oid, ps), true)
  {
    StoreStopsAtMalformed(t, oid, ps);
    assert ps[..|ps|] == ps;
  }

  /** The rows at ids `lo`, `lo + 1`, ... are those the products create for `oid`. */
  predicate CreatedRows(items: map<int, LineItem>, lo: int, oid: int, ps: seq<ProductInput>)
    decreases |ps|
  {
    ps == [] || (lo in items && items[lo] == NewItem(oid, ps[0]) && CreatedRows(items, lo + 1, oid, ps[1..]))
  }

  /** Every row of `before` is still in `after`, unchanged. */
  predicate Keeps(after: map<int, LineItem>, before: map<int, LineItem>)
  {
    forall k :: k in before ==> k in after && after[k] == before[k]
  }

  /** The `m`-th product's row sits at id `lo + m`. */
  lemma {:induction false} CreatedRowsAt(items: map<int, LineItem>, lo: int, oid: int, ps: seq<ProductInput>, m: int)
    requires CreatedRows(items, lo, oid, ps) && 0 <= m < |ps|
    ensures lo + m in items && items[lo + m] == NewItem(oid, ps[m])
    decreases |ps|
  {
    if m > 0 {
      CreatedRowsAt(items, lo + 1, oid, ps[1..], m - 1);
      assert ps[1..][m - 1] == ps[m];
    }
  }

  /** Every created row belongs to the order it was created for. */
  lemma CreatedRowsOwned(items: map<int, LineItem>, lo: int, oid: int, ps: seq<ProductInput>)
    requires CreatedRows(items, lo, oid, ps)
    ensures forall k :: lo <= k < lo + |ps| ==> k in items && items[k].orderId == oid
  {
    forall k | lo <= k < lo + |ps| ensures k in items && items[k].orderId == oid {
      CreatedRowsAt(items, lo, oid, ps, k - lo);
    }
  }

  /** Rows created by a prefix and by a suffix of the products join up. */
  lemma {:induction false} CreatedRowsAppend(items: map<int, LineItem>, lo: int, oid: int, ps: seq<ProductInput>, qs: seq<ProductInput>)
    requires CreatedRows(items, lo, oid, ps) && CreatedRows(items, lo + |ps|, oid, qs)
    ensures CreatedRows(items, lo, oid, ps + qs)
    decreases |ps|
  {
    if ps != [] {
      CreatedRowsAppend(items, lo + 1, oid, ps[1..], qs);
      assert (ps + qs)[1..] == ps[1..] + qs;
    } else {
      assert ps + qs == qs;
    }
  }

  /** When rows `lo`, ... are added for the products and the earlier rows keep
      their `order_id`, the order owns its earlier rows and the added ones. */
  lemma ItemsOfGrown(a: Tables, b: Tables, oid: int, lo: int, cs: seq<ProductInput>)
    requires forall k :: k in a.items ==> k < lo
    requires b.items.Keys == a.items.Keys + NewIds(lo, |cs|)
    requires forall k :: k in a.items ==> b.items[k].orderId == a.items[k].orderId
    requires CreatedRows(b.items, lo, oid, cs)
    ensures ItemsOf(b, oid) == ItemsOf(a, oid) + NewIds(lo, |cs|)
  {
    forall k | k in b.items ensures b.items[k].orderId == oid <==> k in ItemsOf(a, oid) + NewIds(lo, |cs|) {
      if k !in a.items {
        CreatedRowsAt(b.items, lo, oid, cs, k - lo);
      }
    }
  }

  /** Storing products for an order that owns no row yet: it owns exactly the new rows. */
  lemma StoreIntoEmpty(t: Tables, oid: int, ps: seq<ProductInput>)
    requires forall k :: k in t.items ==> k < t.nextItemId
    requires ItemsOf(t, oid) == {}
    ensures var r := CreateRows(t, oid, ps);
      && r.orders == t.orders && r.nextItemId == t.nextItemId + |ps|
      && r.items.Keys == t.items.Keys + NewIds(t.nextItemId, |ps|)
      && Keeps(r.items, t.items)
      && CreatedRows(r.items, t.nextItemId, oid, ps)
      && ItemsOf(r, oid) == NewIds(t.nextItemId, |ps|)
  {
    var r := CreateRows(t, oid, ps);
    StoreProductsEffect(t, oid, ps);
    ItemsOfGrown(t, r, oid, t.nextItemId, ps);
  }

  /** What storing `ps` for `oid` from `t` leaves in `r`: the next ids hold
      the new rows in input order, the other rows and the orders stay. */
  predicate Stored(t: Tables, oid: int, ps: seq<ProductInput>, r: Tables)
  {
    && r.orders == t.orders && r.nextOrderId == t.nextOrderId
    && r.nextItemId == t.nextItemId + |ps|
    && r.items.Keys == t.items.Keys + NewIds(t.nextItemId, |ps|)
    && Keeps(r.items, t.items)
    && CreatedRows(r.items, t.nextItemId, oid, ps)
  }

  /** One `create`, then the rest. */
  lemma StoreStep(t: Tables, oid: int, ps: seq<ProductInput>)
    requires forall k :: k in t.items ==> k < t.nextItemId
    requires ps != []
    requires var t1 := CreateItem(t, oid, ps[0]);
      Stored(t1, oid, ps[1..], CreateRows(t1, oid, ps[1..]))
    ensures Stored(t, oid, ps, CreateRows(t, oid, ps))
  {
    var t1 := CreateItem(t, oid, ps[0]);
    var r := CreateRows(t1, oid, ps[1..]);
    assert r == CreateRows(t, oid, ps);
    assert Keeps(t1.items, t.items);
    assert Keeps(r.items, t.items);
    assert r.items[t.nextItemId] == NewItem(oid, ps[0]);
    assert CreatedRows(r.items, t.nextItemId, oid, ps);
    assert t1.items.Keys == t.items.Keys + {t.nextItemId};
    NewIdsCons(t.nextItemId, |ps| - 1);
  }

  /** Each product yields exactly one new line item, in input order, under
      fresh ids, carrying `order_id`, the product's fields and
      `subtotal == qty * price`; nothing else changes. */
  lemma {:induction false} StoreProductsEffect(t: Tables, oid: int, ps: seq<ProductInput>)
    requires forall k :: k in t.items ==> k < t.nextItemId
    ensures var r := CreateRows(t, oid, ps);
      && r.orders == t.orders && r.nextOrderId == t.nextOrderId
      && r.nextItemId == t.nextItemId + |ps|
      && r.items.Keys == t.items.Keys + NewIds(t.nextItemId, |ps|)
      && Keeps(r.items, t.items)
      && CreatedRows(r.items, t.nextItemId, oid, ps)
    decreases |ps|
  {
    if ps != [] {
      StoreProductsEffect(CreateItem(t, oid, ps[0]), oid, ps[1..]);
      StoreStep(t, oid, ps);
    } else {
      assert NewIds(t.nextItemId, 0) == {};
    }
  }

  /** Creating rows for an order that was handed out keeps the store valid. */
  lemma {:induction false} StoreValid(t: Tables, oid: int, ps: seq<ProductInput>)
    requires Valid(t) && oid < t.nextOrderId
    ensures var r := CreateRows(t, oid, ps);
      Valid(r) && r.orders == t.orders && r.nextOrderId == t.nextOrderId
    decreases |ps|
  {
    if ps != [] {
      StoreValid(CreateItem(t, oid, ps[0]), oid, ps[1..]);
    }
  }

  /** The sum of `quantity * price` over the products. */
  function ProductsTotal(ps: seq<ProductInput>): int
  {
    if ps == [] then 0 else ps[0].quantity * ps[0].price + ProductsTotal(ps[1..])
  }

  /** The rows created from `ps` at ids `lo`, ... add up to the products' total. */
  lemma {:induction false} NewRowsSum(items: map<int, LineItem>, oid: int, lo: int, ps: seq<ProductInput>)
    requires CreatedRows(items, lo, oid, ps)
    ensures SumRange(items, oid, lo, lo + |ps|) == ProductsTotal(ps)
    decreases |ps|
  {
    if ps != [] {
      NewRowsSum(items, oid, lo + 1, ps[1..]);
    }
  }

  /** The `order_no` column, in id order. */
  function OrderNumbers(t: Tables): seq<string>
  {
    var ids := KeysAscending(t.orders.Keys, 0, t.nextOrderId);
    seq(|ids|, i requires 0 <= i < |ids| => t.orders[ids[i]].orderNo)
  }

  /** `storeOrder`: a new order with the next invoice number and `grand_total = 0`. */
  function StoreOrder(t: Tables, customerName: string, orderDate: DateTime, today: Date): Tables
  {
    var no := OrderNumber.GenerateOrderNumber(OrderNumbers(t), today);
    t.(orders := t.orders[t.nextOrderId := Order(no, customerName, orderDate, 0)],
       nextOrderId := t.nextOrderId + 1)
  }

  /** `updateGrandTotalOrder`: the order's `grand_total` becomes the sum of its
      line items' subtotals; the update fails when the order is not there. */
  function UpdateGrandTotalOrder(t: Tables, oid: int): (r: Option<Tables>)
    ensures r.Some? <==> oid in t.orders
    ensures r.Some? ==> TotalIsCurrent(r.value, oid)
    ensures r.Some? ==> (
      && r.value.items == t.items && r.value.nextItemId == t.nextItemId
      && r.value.nextOrderId == t.nextOrderId && r.value.orders.Keys == t.orders.Keys
      && (forall k :: k in t.orders && k != oid ==> r.value.orders[k] == t.orders[k])
      && r.value.orders[oid] == t.orders[oid].(grandTotal := r.value.orders[oid].grandTotal))
  {
    if oid in t.orders then
      Some(t.(orders := t.orders[oid := t.orders[oid].(grandTotal := OrderTotal(t, oid))]))
    else None
  }

  /** The order's `grand_total` is the sum of its line items' subtotals. */
  predicate TotalIsCurrent(t: Tables, oid: int)
  {
    oid in t.orders && t.orders[oid].grandTotal == OrderTotal(t, oid)
  }

  /** `generateTransaction`: store the order, its products, then its total.
      The new order's id is the order counter's value. */
  function GenerateTransaction(t: Tables, req: CreateRequest, today: Date): (Tables, Status)
  {
    var oid := t.nextOrderId;
    FinishCreate(StoreOrder(t, req.customerName, req.orderDate, today), oid, req.products)
  }

  /** The steps of `generateTransaction` after `storeOrder`: the products, then the total. */
  function FinishCreate(t1: Tables, oid: int, ps: seq<ProductInput>): (Tables, Status)
  {
    var s := StoreDataProductOrder(t1, oid, ps);
    if !s.ok then (s.tables, Failed)
    else match UpdateGrandTotalOrder(s.tables, oid)
      case Some(t3) => (t3, Ok)
      case None => (s.tables, Failed)
  }

  /** After a create the new order holds the next invoice number and the
      request's fields, its line items are exactly the new rows, its
      `grand_total` is the sum of `quantity * price` over the request, and
      the other orders are untouched. */
  lemma CreatedOrder(t: Tables, req: CreateRequest, today: Date)
    requires Valid(t) && WellFormed(req.products)
    ensures var (r, status) := GenerateTransaction(t, req, today);
      status == Ok && CreatedAs(t, r, OrderNumber.GenerateOrderNumber(OrderNumbers(t), today), req)
  {
    var no := OrderNumber.GenerateOrderNumber(OrderNumbers(t), today);
    var t1 := StoreOrder(t, req.customerName, req.orderDate, today);
    assert t1 == t.(orders := t.orders[t.nextOrderId := Order(no, req.customerName, req.orderDate, 0)],
                    nextOrderId := t.nextOrderId + 1);
    CreatedWith(t, req, no);
  }

  /** What `generateTransaction` leaves behind: the order row numbered `no` at the
      next id with the request's fields and the products' total, one new line item
      per product at the next item ids, and every earlier row untouched. */
  predicate CreatedAs(t: Tables, r: Tables, no: string, req: CreateRequest)
  {
    var oid := t.nextOrderId;
    var n := |req.products|;
    && Valid(r)
    && r.orders.Keys == t.orders.Keys + {oid}
    && (forall k :: k in t.orders ==> r.orders[k] == t.orders[k])
    && r.orders[oid] == Order(no, req.customerName, req.orderDate, ProductsTotal(req.products))
    && TotalIsCurrent(r, oid)
    && ItemsOf(r, oid) == NewIds(t.nextItemId, n)
    && r.items.Keys == t.items.Keys + NewIds(t.nextItemId, n)
    && Keeps(r.items, t.items)
    && CreatedRows(r.items, t.nextItemId, oid, req.products)
  }

  /** `CreatedOrder` for the order row `storeOrder` adds, whatever its number. */
  lemma CreatedWith(t: Tables, req: CreateRequest, no: string)
    requires Valid(t) && WellFormed(req.products)
    ensures var oid := t.nextOrderId;
      var t1 := t.(orders := t.orders[oid := Order(no, req.customerName, req.orderDate, 0)], nextOrderId := oid + 1);
      var (r, status) := FinishCreate(t1, oid, req.products);
      status == Ok && CreatedAs(t, r, no, req)
  {
    var oid := t.nextOrderId;
    var ps := req.products;
    var t1 := t.(orders := t.orders[oid := Order(no, req.customerName, req.orderDate, 0)], nextOrderId := oid + 1);
    assert Valid(t1);
    var t2 := CreateRows(t1, oid, ps);
    StoreWellFormed(t1, oid, ps);
    StoreProductsEffect(t1, oid, ps);
    StoreValid(t1, oid, ps);
    NewOrderTotal(t, t2, oid, ps);
    var r := UpdateGrandTotalOrder(t2, oid).value;
    assert FinishCreate(t1, oid, ps) == (r, Ok);
    assert r.items == t2.items && r.orders.Keys == t2.orders.Keys;
    assert OrderTotal(r, oid) == OrderTotal(t2, oid);
    assert Valid(r);
  }

  /** A product that cannot be read makes the create fail after `storeOrder`,
      and nothing is rolled back: the order stays with `grand_total = 0`,
      owning the rows of the products before the bad one. */
  lemma CreateKeepsPartialOrder(t: Tables, req: CreateRequest, today: Date)
    requires Valid(t) && !WellFormed(req.products)
    ensures var (r, status) := GenerateTransaction(t, req, today);
      status == Failed && PartiallyCreated(t, r, OrderNumber.GenerateOrderNumber(OrderNumbers(t), today), req)
  {
    var no := OrderNumber.GenerateOrderNumber(OrderNumbers(t), today);
    var t1 := StoreOrder(t, req.customerName, req.orderDate, today);
    assert t1 == t.(orders := t.orders[t.nextOrderId := Order(no, req.customerName, req.orderDate, 0)],
                    nextOrderId := t.nextOrderId + 1);
    FailedWith(t, req, no);
  }

  /** What a create that stops at an unreadable product leaves: the order row
      numbered `no` with `grand_total = 0`, and one new line item for each
      product before the bad one; every earlier row is untouched. */
  predicate PartiallyCreated(t: Tables, r: Tables, no: string, req: CreateRequest)
  {
    var oid := t.nextOrderId;
    var n := ReadableCount(req.products);
    && Valid(r)
    && n < |req.products|
    && r.orders == t.orders[oid := Order(no, req.customerName, req.orderDate, 0)]
    && ItemsOf(r, oid) == NewIds(t.nextItemId, n)
    && r.items.Keys == t.items.Keys + NewIds(t.nextItemId, n)
    && Keeps(r.items, t.items)
    && CreatedRows(r.items, t.nextItemId, oid, req.products[..n])
  }

  /** The order id about to be issued owns no line item yet. */
  lemma FreshOrderOwnsNothing(t: Tables, t1: Tables)
    requires Valid(t) && t1.items == t.items
    ensures ItemsOf(t1, t.nextOrderId) == {}
  {
    forall k | k in t1.items ensures t1.items[k].orderId != t.nextOrderId {
      assert t1.items[k] == t.items[k];
    }
  }

  /** `CreateKeepsPartialOrder` for the order row `storeOrder` adds, whatever its number. */
  lemma FailedWith(t: Tables, req: CreateRequest, no: string)
    requires Valid(t) && !WellFormed(req.products)
    ensures var oid := t.nextOrderId;
      var t1 := t.(orders := t.orders[oid := Order(no, req.customerName, req.orderDate, 0)], nextOrderId := oid + 1);
      var (r, status) := FinishCreate(t1, oid, req.products);
      status == Failed && PartiallyCreated(t, r, no, req)
  {
    var oid := t.nextOrderId;
    var ps := req.products;
    var n := ReadableCount(ps);
    var t1 := t.(orders := t.orders[oid := Order(no, req.customerName, req.orderDate, 0)], nextOrderId := oid + 1);
    assert Valid(t1);
    FreshOrderOwnsNothing(t, t1);
    StoreStopsAtMalformed(t1, oid, ps);
    StoreValid(t1, oid, ps[..n]);
    StoreIntoEmpty(t1, oid, ps[..n]);
    assert FinishCreate(t1, oid, ps) == (CreateRows(t1, oid, ps[..n]), Failed);
  }

  /** A fresh order id owns exactly the rows just created, and its sum counts them alone. */
  lemma NewOrderTotal(t: Tables, t2: Tables, oid: int, ps: seq<ProductInput>)
    requires Valid(t) && oid == t.nextOrderId
    requires t2.nextItemId == t.nextItemId + |ps|
    requires t2.items.Keys == t.items.Keys + NewIds(t.nextItemId, |ps|)
    requires Keeps(t2.items, t.items)
    requires CreatedRows(t2.items, t.nextItemId, oid, ps)
    ensures OrderTotal(t2, oid) == ProductsTotal(ps)
    ensures ItemsOf(t2, oid) == NewIds(t.nextItemId, |ps|)
  {
    var next := t.nextItemId;
    SumRangeSplit(t2.items, oid, 0, next, next + |ps|);
    SumRangeNone(t2.items, oid, 0, next);
    NewRowsSum(t2.items, oid, next, ps);
    ItemsOfGrown(t, t2, oid, next, ps);
    assert ItemsOf(t, oid) == {};
  }

  /** `updateDataOrder`: the order's customer and date are replaced; the
      update fails when the order is not there. */
  function UpdateDataOrder(t: Tables, req: UpdateRequest): (r: Option<Tables>)
    ensures r.Some? <==> req.orderId in t.orders
    ensures r.Some? ==> (
      && r.value.items == t.items && r.value.nextItemId == t.nextItemId
      && r.value.nextOrderId == t.nextOrderId && r.value.orders.Keys == t.orders.Keys
      && (forall k :: k in t.orders && k != req.orderId ==> r.value.orders[k] == t.orders[k])
      && r.value.orders[req.orderId].orderNo == t.orders[req.orderId].orderNo
      && r.value.orders[req.orderId].grandTotal == t.orders[req.orderId].grandTotal
      && r.value.orders[req.orderId].customerName == req.customerName
      && r.value.orders[req.orderId].orderDate == req.orderDate)
  {
    if req.orderId in t.orders then
      var o := t.orders[req.orderId];
      Some(t.(orders := t.orders[req.orderId := o.(customerName := req.customerName, orderDate := req.orderDate)]))
    else None
  }

  /** `pluck('id')->filter(...)`: the ids that are neither missing, null nor ''. */
  function IncomingIds(ps: seq<ProductInput>): (r: seq<int>)
    ensures forall k :: k in r <==> exists j :: 0 <= j < |ps| && ps[j].id == Id(k)
  {
    if ps == [] then []
    else
      var rest := IncomingIds(ps[1..]);
      assert forall j :: 1 <= j < |ps| ==> ps[j] == ps[1..][j - 1];
      (if ps[0].id.Id? then [ps[0].id.n] else []) + rest
  }

  /** Whether `id NOT IN (incoming)` holds of row `k`; for an empty list the
      repository's behaviour is not shown, so it is the parameter
      `notInEmptyMatchesAll`. */
  predicate NotIn(k: int, incoming: seq<int>, notInEmptyMatchesAll: bool)
  {
    if incoming == [] then notInEmptyMatchesAll else k !in incoming
  }

  /** The rows the criteria `id NOT IN incoming` and `order_id = oid` select. */
  function ToDelete(t: Tables, oid: int, incoming: seq<int>, notInEmptyMatchesAll: bool): (r: set<int>)
    ensures r <= ItemsOf(t, oid)
  {
    set k | k in t.items && t.items[k].orderId == oid && NotIn(k, incoming, notInEmptyMatchesAll)
  }

  /** One iteration of the update-or-create loop: a product that cannot be
      read throws; a product with an id (even '') updates that row whatever
      order it belongs to, and the update fails when no such row exists (no
      row has the id ''); a product without one creates a row of this order. */
  function UpsertProduct(t: Tables, oid: int, p: ProductInput): Option<Tables>
  {
    if !p.wellFormed then None
    else match p.id
    case NoId => Some(CreateItem(t, oid, p))
    case EmptyId => None
    case Id(k) =>
      if k in t.items then Some(t.(items := t.items[k := Overwrite(t.items[k], p)])) else None
  }

  /** The update-or-create loop, stopping at the first call that fails. */
  function UpsertProducts(t: Tables, oid: int, ps: seq<ProductInput>): Step
    decreases |ps|
  {
    if ps == [] then Step(t, true)
    else match UpsertProduct(t, oid, ps[0])
      case None => Step(t, false)
      case Some(t1) => UpsertProducts(t1, oid, ps[1..])
  }

  /** `updateDataOrderProduct`: with no incoming id every product is created
      first; then the rows of this order that are `NOT IN` the incoming ids are
      deleted one by one; then every product updates or creates its row. */
  function UpdateDataOrderProduct(t: Tables, oid: int, ps: seq<ProductInput>, notInEmptyMatchesAll: bool): Step
  {
    var incoming := IncomingIds(ps);
    var s1 := if incoming == [] then StoreDataProductOrder(t, oid, ps) else Step(t, true);
    if !s1.ok then s1
    else
      var t1 := s1.tables;
      var t2 := t1.(items := t1.items - ToDelete(t1, oid, incoming, notInEmptyMatchesAll));
      UpsertProducts(t2, oid, ps)
  }

  /** `updateOrderTransaction`: order fields, line items, total; the first
      failing step ends it with `Failed` and whatever was written stays. */
  function UpdateOrderTransaction(t: Tables, req: UpdateRequest, notInEmptyMatchesAll: bool): (Tables, Status)
  {
    match UpdateDataOrder(t, req)
    case None => (t, Failed)
    case Some(t1) =>
      var s := UpdateDataOrderProduct(t1, req.orderId, req.products, notInEmptyMatchesAll);
      if !s.ok then (s.tables, Failed)
      else match UpdateGrandTotalOrder(s.tables, req.orderId)
        case None => (s.tables, Failed)
        case Some(t3) => (t3, Ok)
  }

  /** `deleteDataOrder`: remove the order if it is there (200), else 404. The
      code does not touch line items; `cascadeOnDelete` says whether the
      schema removes them. */
  function DeleteDataOrder(t: Tables, oid: int, cascadeOnDelete: bool): (r: (Tables, Status))
    ensures r.1 == Ok <==> oid in t.orders
    ensures r.1 != Ok ==> r.1 == NotFound && r.0 == t
    ensures r.1 == Ok ==> (
      && r.0.orders == t.orders - {oid}
      && r.0.nextOrderId == t.nextOrderId && r.0.nextItemId == t.nextItemId
      && r.0.items == (if cascadeOnDelete then t.items - ItemsOf(t, oid) else t.items))
  {
    if oid in t.orders then
      var items := if cascadeOnDelete then t.items - ItemsOf(t, oid) else t.items;
      (t.(orders := t.orders - {oid}, items := items), Ok)
    else (t, NotFound)
  }
}
