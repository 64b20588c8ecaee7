/** `TransactionService` over an in-memory store: the two tables are fields
    the repository calls update in place, and each service operation is a
    method whose effect is the corresponding function of `Workflow`. */
module Service {
  import opened Wrappers
  import opened Dates
  import Store = Tables
  import W = Workflow
  import Reconcile
  import Export

  class TransactionService {
    var orders: map<int, Store.Order>
    var items: map<int, Store.LineItem>
    var nextOrderId: int
    var nextItemId: int
    /** What `whereNotIn('id', [])` selects in the repository: every row or none. */
    const notInEmptyMatchesAll: bool
    /** Whether the schema deletes an order's line items with it. */
    const cascadeOnDelete: bool

    function Snapshot(): Store.Tables
      reads this
    {
      Store.Tables(orders, items, nextOrderId, nextItemId)
    }

    predicate Valid()
      reads this
    {
      Store.Valid(Snapshot())
    }

    constructor(notInEmptyMatchesAll: bool, cascadeOnDelete: bool)
      ensures Snapshot() == Store.Empty() && Valid()
      ensures this.notInEmptyMatchesAll == notInEmptyMatchesAll && this.cascadeOnDelete == cascadeOnDelete
    {
      orders := map[];
      items := map[];
      nextOrderId := 1;
      nextItemId := 1;
      this.notInEmptyMatchesAll := notInEmptyMatchesAll;
      this.cascadeOnDelete := cascadeOnDelete;
    }

    /** `OrderProductRepository::create`. */
    method CreateProduct(oid: int, p: W.ProductInput)
      modifies this
      ensures Snapshot() == W.CreateItem(old(Snapshot()), oid, p)
    {
      items := items[nextItemId := W.NewItem(oid, p)];
      nextItemId := nextItemId + 1;
    }

    /** `storeOrder`: insert the order under the next id and return that id. */
    method StoreOrder(customerName: string, orderDate: DateTime, today: Date) returns (id: int)
      modifies this
      ensures id == old(nextOrderId)
      ensures Snapshot() == W.StoreOrder(old(Snapshot()), customerName, orderDate, today)
    {
      var no := W.OrderNumber.GenerateOrderNumber(W.OrderNumbers(Snapshot()), today);
      id := nextOrderId;
      orders := orders[id := Store.Order(no, customerName, orderDate, 0)];
      nextOrderId := nextOrderId + 1;
    }

    /** `storeDataProductOrder`: one create per product, in order, ending
        (with `ok` false) at the first product that cannot be read. */
    method StoreDataProductOrder(oid: int, ps: seq<W.ProductInput>) returns (ok: bool)
      modifies this
      ensures W.Step(Snapshot(), ok) == W.StoreDataProductOrder(old(Snapshot()), oid, ps)
    {
      ghost var t := Snapshot();
      ok := true;
      var i := 0;
      while i < |ps| && ok
        invariant 0 <= i <= |ps|
        invariant ok ==> W.StoreDataProductOrder(Snapshot(), oid, ps[i..]) == W.StoreDataProductOrder(t, oid, ps)
        invariant !ok ==> W.Step(Snapshot(), false) == W.StoreDataProductOrder(t, oid, ps)
      {
        assert ps[i..][1..] == ps[i + 1..];
        if ps[i].wellFormed {
          CreateProduct(oid, ps[i]);
        } else {
          ok := false;
        }
        i := i + 1;
      }
      if ok {
        assert ps[i..] == [];
      }
    }

    /** `updateGrandTotalOrder`; the update reports whether the order was found. */
    method UpdateGrandTotalOrder(oid: int) returns (found: bool)
      modifies this
      ensures var r := W.UpdateGrandTotalOrder(old(Snapshot()), oid);
        found == r.Some? && Snapshot() == (if found then r.value else old(Snapshot()))
    {
      if oid in orders {
        orders := orders[oid := orders[oid].(grandTotal := Store.OrderTotal(Snapshot(), oid))];
        found := true;
      } else {
        found := false;
      }
    }

    /** `generateTransaction`, with the HTTP status it answers. */
    method GenerateTransaction(req: W.CreateRequest, today: Date) returns (status: W.Status, code: int)
      modifies this
      ensures (Snapshot(), status) == W.GenerateTransaction(old(Snapshot()), req, today)
      ensures code == W.Code(status)
      ensures old(Valid()) ==> Valid() && (status == W.Ok <==> W.WellFormed(req.products))
    {
      ghost var t := Snapshot();
      var id := StoreOrder(req.customerName, req.orderDate, today);
      var ok := StoreDataProductOrder(id, req.products);
      if !ok {
        status := W.Failed;
      } else {
        var found := UpdateGrandTotalOrder(id);
        status := if found then W.Ok else W.Failed;
      }
      code := W.Code(status);
      if Store.Valid(t) {
        if W.WellFormed(req.products) {
          W.CreatedOrder(t, req, today);
        } else {
          W.CreateKeepsPartialOrder(t, req, today);
        }
      }
    }

    /** `updateDataOrder`; the update reports whether the order was found. */
    method UpdateDataOrder(req: W.UpdateRequest) returns (found: bool)
      modifies this
      ensures var r := W.UpdateDataOrder(old(Snapshot()), req);
        found == r.Some? && Snapshot() == (if found then r.value else old(Snapshot()))
    {
      if req.orderId in orders {
        var o := orders[req.orderId];
        orders := orders[req.orderId := o.(customerName := req.customerName, orderDate := req.orderDate)];
        found := true;
      } else {
        found := false;
      }
    }

    /** `OrderProductRepository::update` by id; it reports whether the row was found. */
    method UpdateProduct(id: W.ProductId, p: W.ProductInput) returns (found: bool)
      modifies this
      ensures found == (id.Id? && id.n in old(items))
      ensures Snapshot() == (if found then old(Snapshot()).(items := old(items)[id.n := W.Overwrite(old(items)[id.n], p)]) else old(Snapshot()))
    {
      if id.Id? && id.n in items {
        items := items[id.n := W.Overwrite(items[id.n], p)];
        found := true;
      } else {
        found := false;
      }
    }

    /** `updateDataOrderProduct`: create-all when no id arrives, delete the
        selected rows one by one, then update or create per product, stopping
        at the first update that finds no row. */
    method UpdateDataOrderProduct(oid: int, ps: seq<W.ProductInput>) returns (ok: bool)
      modifies this
      ensures W.Step(Snapshot(), ok) == W.UpdateDataOrderProduct(old(Snapshot()), oid, ps, notInEmptyMatchesAll)
    {
      var incoming := W.IncomingIds(ps);
      if incoming == [] {
        ok := StoreDataProductOrder(oid, ps);
        if !ok {
          return;
        }
      }
      ghost var t1 := Snapshot();
      var toDelete := W.ToDelete(Snapshot(), oid, incoming, notInEmptyMatchesAll);
      DeleteProducts(toDelete);
      assert W.UpdateDataOrderProduct(old(Snapshot()), oid, ps, notInEmptyMatchesAll)
          == W.UpsertProducts(t1.(items := t1.items - toDelete), oid, ps);
      ok := UpsertProducts(oid, ps);
    }

    /** The delete loop of `updateDataOrderProduct`: one `delete` per selected row. */
    method DeleteProducts(selected: set<int>)
      modifies this
      ensures Snapshot() == old(Snapshot()).(items := old(items) - selected)
    {
      var toDelete := selected;
      while toDelete != {}
        invariant toDelete <= selected
        invariant items == old(items) - (selected - toDelete)
        invariant orders == old(orders) && nextOrderId == old(nextOrderId) && nextItemId == old(nextItemId)
        decreases |toDelete|
      {
        if forall x :: x !in toDelete {
          assert false;  // a non-empty set has an element
        }
        var k :| k in toDelete;
        items := items - {k};
        toDelete := toDelete - {k};
      }
      assert selected - toDelete == selected;
    }

    /** The update-or-create loop of `updateDataOrderProduct`, stopping at the
        first product that cannot be read or whose update finds no row. */
    method UpsertProducts(oid: int, ps: seq<W.ProductInput>) returns (ok: bool)
      modifies this
      ensures W.Step(Snapshot(), ok) == W.UpsertProducts(old(Snapshot()), oid, ps)
    {
      ghost var t := Snapshot();
      ok := true;
      var i := 0;
      while i < |ps| && ok
        invariant 0 <= i <= |ps|
        invariant ok ==> W.UpsertProducts(Snapshot(), oid, ps[i..]) == W.UpsertProducts(t, oid, ps)
        invariant !ok ==> W.Step(Snapshot(), false) == W.UpsertProducts(t, oid, ps)
      {
        assert ps[i..][1..] == ps[i + 1..];
        var p := ps[i];
        if !p.wellFormed {
          ok := false;
        } else if p.id.NoId? {
          CreateProduct(oid, p);
        } else {
          ok := UpdateProduct(p.id, p);
        }
        i := i + 1;
      }
      if ok {
        assert ps[i..] == [];
      }
    }

    /** `updateOrderTransaction`: the first step that fails ends it with 404
        (`Failed`), keeping what was written. */
    method UpdateOrderTransaction(req: W.UpdateRequest) returns (status: W.Status, code: int)
      modifies this
      ensures (Snapshot(), status) == W.UpdateOrderTransaction(old(Snapshot()), req, notInEmptyMatchesAll)
      ensures code == W.Code(status)
      ensures old(Valid()) ==> Valid()
    {
      ghost var t := Snapshot();
      var found := UpdateDataOrder(req);
      if !found {
        return W.Failed, W.Code(W.Failed);
      }
      var ok := UpdateDataOrderProduct(req.orderId, req.products);
      if !ok {
        status := W.Failed;
      } else {
        found := UpdateGrandTotalOrder(req.orderId);
        status := if found then W.Ok else W.Failed;
      }
      code := W.Code(status);
      if Store.Valid(t) {
        Reconcile.UpdatedOrder(t, req, notInEmptyMatchesAll);
      }
    }

    /** `deleteDataOrder`: 200 when the order was there, 404 otherwise. */
    method DeleteDataOrder(oid: int) returns (status: W.Status, code: int)
      modifies this
      ensures (Snapshot(), status) == W.DeleteDataOrder(old(Snapshot()), oid, cascadeOnDelete)
      ensures code == W.Code(status)
      ensures old(Valid()) ==> Valid()
    {
      if oid in orders {
        if cascadeOnDelete {
          items := items - Store.ItemsOf(Snapshot(), oid);
        }
        orders := orders - {oid};
        status := W.Ok;
      } else {
        status := W.NotFound;
      }
      code := W.Code(status);
    }

    /** `exportTransactionToXlsx`: both sheets, each written by a scan in
        chunks of 5000 rows; nothing in the store changes. */
    method ExportTransactionToXlsx() returns (ordersSheet: seq<Export.Row>, productSheet: seq<Export.Row>)
      ensures ordersSheet == Export.OrdersSheet(Snapshot())
      ensures productSheet == Export.OrderProductSheet(Snapshot())
    {
      ordersSheet := Export.WriteOrdersSheet(Snapshot(), Export.ChunkSize);
      productSheet := Export.WriteOrderProductSheet(Snapshot(), Export.ChunkSize);
    }
  }
}
