/** What `updateDataOrderProduct` does to the line items of an order, as
    written: which rows survive, which are created (twice, when no product
    carries an id), which are overwritten (by id, whatever order they belong
    to), and when the update-or-create loop fails. */
module Reconcile {
  import opened Wrappers
  import opened Dates
  import opened Tables
  import opened Workflow

  /** The products without an id, in input order: each creates a row. */
  function Creations(ps: seq<ProductInput>): (r: seq<ProductInput>)
    ensures |r| <= |ps|
    ensures (forall j :: 0 <= j < |ps| ==> ps[j].id == NoId) ==> r == ps
    decreases |ps|
  {
    if ps == [] then []
    else (if ps[0].id == NoId then [ps[0]] else []) + Creations(ps[1..])
  }

  /** No product carries the id ''. */
  predicate NoEmptyId(ps: seq<ProductInput>)
  {
    forall j :: 0 <= j < |ps| ==> ps[j].id != EmptyId
  }

  /** Every id a product carries names a row of `items`. */
  predicate IdsExist(items: map<int, LineItem>, ps: seq<ProductInput>)
  {
    forall j :: 0 <= j < |ps| && ps[j].id.Id? ==> ps[j].id.n in items
  }

  /** Every id a product carries lies below the counter: it was handed out once. */
  predicate IdsIssued(t: Tables, ps: seq<ProductInput>)
  {
    forall j :: 0 <= j < |ps| && ps[j].id.Id? ==> ps[j].id.n < t.nextItemId
  }

  /** Every line item id lies below the line item counter. */
  predicate KeysBelow(t: Tables)
  {
    forall k :: k in t.items ==> k < t.nextItemId
  }

  /** Row `k` after the loop: each product carrying id `k` overwrites it in turn. */
  function FinalRow(row: LineItem, ps: seq<ProductInput>, k: int): (r: LineItem)
    ensures r.orderId == row.orderId
    decreases |ps|
  {
    if ps == [] then row
    else FinalRow(if ps[0].id == Id(k) then Overwrite(row, ps[0]) else row, ps[1..], k)
  }

  /** A row that no product names keeps its contents. */
  lemma {:induction false} FinalRowUntouched(row: LineItem, ps: seq<ProductInput>, k: int)
    requires forall j :: 0 <= j < |ps| ==> ps[j].id != Id(k)
    ensures FinalRow(row, ps, k) == row
    decreases |ps|
  {
    if ps != [] {
      assert forall j :: 0 <= j < |ps| - 1 ==> ps[1..][j] == ps[j + 1];
      FinalRowUntouched(row, ps[1..], k);
    }
  }

  /** The last product naming a row decides its contents; `order_id` stays. */
  lemma {:induction false} FinalRowLast(row: LineItem, ps: seq<ProductInput>, k: int, j: int)
    requires 0 <= j < |ps| && ps[j].id == Id(k)
    requires forall i :: j < i < |ps| ==> ps[i].id != Id(k)
    ensures FinalRow(row, ps, k) == Overwrite(row, ps[j])
    decreases |ps|
  {
    var tail := ps[1..];
    assert forall i :: 0 <= i < |tail| ==> tail[i] == ps[i + 1];
    var row' := if ps[0].id == Id(k) then Overwrite(row, ps[0]) else row;
    if j == 0 {
      FinalRowUntouched(row', tail, k);
    } else {
      FinalRowLast(row', tail, k, j - 1);
    }
  }

  /** Keeping every row keeps the created rows. */
  lemma {:induction false} CreatedRowsKept(a: map<int, LineItem>, b: map<int, LineItem>, lo: int, oid: int, ps: seq<ProductInput>)
    requires CreatedRows(a, lo, oid, ps) && Keeps(b, a)
    ensures CreatedRows(b, lo, oid, ps)
    decreases |ps|
  {
    if ps != [] {
      CreatedRowsKept(a, b, lo + 1, oid, ps[1..]);
    }
  }

  /** One product without an id: the loop creates its row and goes on. */
  lemma UpsertCreateStep(t: Tables, oid: int, ps: seq<ProductInput>)
    requires KeysBelow(t) && WellFormed(ps) && NoEmptyId(ps) && IdsExist(t.items, ps)
    requires ps != [] && ps[0].id == NoId
    ensures var t1 := CreateItem(t, oid, ps[0]);
      && UpsertProducts(t, oid, ps) == UpsertProducts(t1, oid, ps[1..])
      && KeysBelow(t1) && WellFormed(ps[1..]) && NoEmptyId(ps[1..]) && IdsExist(t1.items, ps[1..])
      && (forall j :: 0 <= j < |ps| ==> ps[j].id != Id(t.nextItemId))
      && Creations(ps) == [ps[0]] + Creations(ps[1..])
      && Creations(ps)[0] == ps[0] && Creations(ps)[1..] == Creations(ps[1..])
  {
    assert forall i :: 0 <= i < |ps| - 1 ==> ps[1..][i] == ps[i + 1];
    var rest := Creations(ps[1..]);
    assert ([ps[0]] + rest)[1..] == rest;
  }

  /** One product with an id: the loop overwrites that row and goes on. */
  lemma UpsertOverwriteStep(t: Tables, oid: int, ps: seq<ProductInput>)
    requires KeysBelow(t) && WellFormed(ps) && NoEmptyId(ps) && IdsExist(t.items, ps)
    requires ps != [] && ps[0].id.Id?
    ensures var k := ps[0].id.n;
      var t1 := t.(items := t.items[k := Overwrite(t.items[k], ps[0])]);
      && k in t.items
      && UpsertProducts(t, oid, ps) == UpsertProducts(t1, oid, ps[1..])
      && KeysBelow(t1) && WellFormed(ps[1..]) && NoEmptyId(ps[1..]) && IdsExist(t1.items, ps[1..])
      && t1.items.Keys == t.items.Keys
      && Creations(ps) == Creations(ps[1..])
  {
    assert forall i :: 0 <= i < |ps| - 1 ==> ps[1..][i] == ps[i + 1];
  }

  /** What a successful loop over `ps` from `t` leaves: each id-less product
      adds one row of this order under the next ids, each row of `t` ends as
      the products naming it left it, and nothing else changes. */
  predicate Upserted(t: Tables, oid: int, ps: seq<ProductInput>, s: Step)
  {
    var n := |Creations(ps)|;
    && s.ok
    && s.tables.orders == t.orders && s.tables.nextOrderId == t.nextOrderId
    && s.tables.nextItemId == t.nextItemId + n
    && s.tables.items.Keys == t.items.Keys + NewIds(t.nextItemId, n)
    && (forall k :: k in t.items ==> s.tables.items[k] == FinalRow(t.items[k], ps, k))
    && CreatedRows(s.tables.items, t.nextItemId, oid, Creations(ps))
  }

  lemma UpsertCreateCase(t: Tables, oid: int, ps: seq<ProductInput>)
    requires KeysBelow(t) && WellFormed(ps) && NoEmptyId(ps) && IdsExist(t.items, ps)
    requires ps != [] && ps[0].id == NoId
    requires var t1 := CreateItem(t, oid, ps[0]);
      Upserted(t1, oid, ps[1..], UpsertProducts(t1, oid, ps[1..]))
    ensures Upserted(t, oid, ps, UpsertProducts(t, oid, ps))
  {
    var next := t.nextItemId;
    UpsertCreateStep(t, oid, ps);
    var t1 := CreateItem(t, oid, ps[0]);
    var s := UpsertProducts(t1, oid, ps[1..]);
    NewIdsCons(next, |Creations(ps[1..])|);
    FinalRowUntouched(t1.items[next], ps[1..], next);
    var cs := Creations(ps);
    assert CreatedRows(s.tables.items, next, oid, cs);
    assert s.tables.items.Keys == t.items.Keys + NewIds(next, |cs|);
    forall k | k in t.items ensures s.tables.items[k] == FinalRow(t.items[k], ps, k) {
      assert t1.items[k] == t.items[k];
      assert FinalRow(t.items[k], ps, k) == FinalRow(t1.items[k], ps[1..], k);
    }
  }

  lemma UpsertOverwriteCase(t: Tables, oid: int, ps: seq<ProductInput>)
    requires KeysBelow(t) && WellFormed(ps) && NoEmptyId(ps) && IdsExist(t.items, ps)
    requires ps != [] && ps[0].id.Id?
    requires var k := ps[0].id.n;
      var t1 := t.(items := t.items[k := Overwrite(t.items[k], ps[0])]);
      Upserted(t1, oid, ps[1..], UpsertProducts(t1, oid, ps[1..]))
    ensures Upserted(t, oid, ps, UpsertProducts(t, oid, ps))
  {
    UpsertOverwriteStep(t, oid, ps);
    var k := ps[0].id.n;
    var t1 := t.(items := t.items[k := Overwrite(t.items[k], ps[0])]);
    var s := UpsertProducts(t1, oid, ps[1..]);
    forall k' | k' in t.items ensures s.tables.items[k'] == FinalRow(t.items[k'], ps, k') {
      assert FinalRow(t.items[k'], ps, k') == FinalRow(t1.items[k'], ps[1..], k');
    }
  }

  /** When every product can be read, none carries '' and every id names an
      existing row, the loop succeeds with the outcome `Upserted` describes. */
  lemma {:induction false} UpsertEffect(t: Tables, oid: int, ps: seq<ProductInput>)
    requires KeysBelow(t) && WellFormed(ps) && NoEmptyId(ps) && IdsExist(t.items, ps)
    ensures Upserted(t, oid, ps, UpsertProducts(t, oid, ps))
    decreases |ps|
  {
    if ps == [] {
    } else if ps[0].id == NoId {
      UpsertCreateStep(t, oid, ps);
      UpsertEffect(CreateItem(t, oid, ps[0]), oid, ps[1..]);
      UpsertCreateCase(t, oid, ps);
    } else {
      UpsertOverwriteStep(t, oid, ps);
      var k := ps[0].id.n;
      UpsertEffect(t.(items := t.items[k := Overwrite(t.items[k], ps[0])]), oid, ps[1..]);
      UpsertOverwriteCase(t, oid, ps);
    }
  }

  /** A product that cannot be read, or carries '', or carries an id that was
      handed out and is gone makes the loop fail, whatever came before it. */
  lemma {:induction false} UpsertFails(t: Tables, oid: int, ps: seq<ProductInput>, j: int)
    requires KeysBelow(t) && 0 <= j < |ps|
    requires !ps[j].wellFormed || ps[j].id == EmptyId || (ps[j].id.Id? && ps[j].id.n !in t.items && ps[j].id.n < t.nextItemId)
    ensures !UpsertProducts(t, oid, ps).ok
    decreases |ps|
  {
    match UpsertProduct(t, oid, ps[0])
    case None =>
    case Some(t1) =>
      assert ps[1..][j - 1] == ps[j];
      UpsertFails(t1, oid, ps[1..], j - 1);
  }

  /** For ids that were handed out, the loop succeeds exactly when every
      product can be read, none carries '' and every id names an existing row. */
  lemma UpsertSucceedsIff(t: Tables, oid: int, ps: seq<ProductInput>)
    requires KeysBelow(t) && IdsIssued(t, ps)
    ensures UpsertProducts(t, oid, ps).ok <==> WellFormed(ps) && NoEmptyId(ps) && IdsExist(t.items, ps)
  {
    if WellFormed(ps) && NoEmptyId(ps) && IdsExist(t.items, ps) {
      UpsertEffect(t, oid, ps);
    } else {
      var j :| 0 <= j < |ps| && (!ps[j].wellFormed || ps[j].id == EmptyId || (ps[j].id.Id? && ps[j].id.n !in t.items));
      UpsertFails(t, oid, ps, j);
    }
  }

  /** With no ids at all the loop is `storeDataProductOrder` once more,
      stopping where it stops. */
  lemma {:induction false} UpsertAllNoId(t: Tables, oid: int, ps: seq<ProductInput>)
    requires forall j :: 0 <= j < |ps| ==> ps[j].id == NoId
    ensures UpsertProducts(t, oid, ps) == StoreDataProductOrder(t, oid, ps)
    decreases |ps|
  {
    if ps != [] && ps[0].wellFormed {
      assert forall i :: 0 <= i < |ps| - 1 ==> ps[1..][i] == ps[i + 1];
      UpsertAllNoId(CreateItem(t, oid, ps[0]), oid, ps[1..]);
    }
  }

  /** The loop, whether it succeeds or stops, keeps the store valid and the
      orders table as it was. */
  lemma {:induction false} UpsertValid(t: Tables, oid: int, ps: seq<ProductInput>)
    requires Valid(t) && oid < t.nextOrderId
    ensures var s := UpsertProducts(t, oid, ps);
      Valid(s.tables) && s.tables.orders == t.orders && s.tables.nextOrderId == t.nextOrderId
    decreases |ps|
  {
    if ps != [] {
      match UpsertProduct(t, oid, ps[0])
      case None =>
      case Some(t1) =>
        assert Valid(t1);
        UpsertValid(t1, oid, ps[1..]);
    }
  }

  /** Products without any id leave the incoming list empty. */
  lemma NoIdsIncoming(ps: seq<ProductInput>)
    requires forall j :: 0 <= j < |ps| ==> !ps[j].id.Id?
    ensures IncomingIds(ps) == []
  {
  }

  /** The rows an update deletes when ids arrive: this order's rows whose id
      is not among them. Once an id arrives, the `NOT IN` of the deletion
      query selects exactly these, whatever `NOT IN ()` would select. */
  function Dropped(t: Tables, oid: int, ps: seq<ProductInput>): (r: set<int>)
    ensures forall k :: k in r <==> k in t.items && t.items[k].orderId == oid && k !in IncomingIds(ps)
    ensures IncomingIds(ps) != [] ==>
      ToDelete(t, oid, IncomingIds(ps), true) == r && ToDelete(t, oid, IncomingIds(ps), false) == r
  {
    set k | k in t.items && t.items[k].orderId == oid && k !in IncomingIds(ps)
  }

  /** After a successful loop the rows of `t` keep their `order_id`, so the
      order owns its rows from before and the rows the loop created. */
  lemma UpsertedItems(t: Tables, oid: int, ps: seq<ProductInput>, s: Step)
    requires KeysBelow(t) && Upserted(t, oid, ps, s)
    ensures ItemsOf(s.tables, oid) == ItemsOf(t, oid) + NewIds(t.nextItemId, |Creations(ps)|)
  {
    forall k | k in t.items ensures s.tables.items[k].orderId == t.items[k].orderId {
      assert s.tables.items[k] == FinalRow(t.items[k], ps, k);
    }
    ItemsOfGrown(t, s.tables, oid, t.nextItemId, Creations(ps));
  }

  /** Deleting rows takes them from every order's rows. */
  lemma ItemsOfRemoved(t: Tables, gone: set<int>, oid: int)
    ensures ItemsOf(t.(items := t.items - gone), oid) == ItemsOf(t, oid) - gone
  {
  }

  /** When products arrive with ids, none of them '' and all naming existing
      rows: the rows of this order whose ids did not arrive are deleted, rows
      of other orders are never deleted, every named row (of any order) is
      overwritten by its last naming product, and the id-less products are
      created once under the next ids. */
  lemma ReconcileWithIds(t: Tables, oid: int, ps: seq<ProductInput>, notInEmptyMatchesAll: bool)
    requires KeysBelow(t)
    requires IncomingIds(ps) != []
    requires WellFormed(ps) && NoEmptyId(ps) && IdsExist(t.items, ps)
    ensures var s := UpdateDataOrderProduct(t, oid, ps, notInEmptyMatchesAll);
      var dropped := Dropped(t, oid, ps);
      var n := |Creations(ps)|;
      && s.ok
      && s.tables.orders == t.orders && s.tables.nextItemId == t.nextItemId + n
      && s.tables.items.Keys == (t.items.Keys - dropped) + NewIds(t.nextItemId, n)
      && ItemsOf(s.tables, oid) == (ItemsOf(t, oid) - dropped) + NewIds(t.nextItemId, n)
      && (forall k :: k in t.items && t.items[k].orderId != oid ==> k in s.tables.items)
      && (forall k :: k in t.items && k !in dropped ==> s.tables.items[k] == FinalRow(t.items[k], ps, k))
      && CreatedRows(s.tables.items, t.nextItemId, oid, Creations(ps))
  {
    var incoming := IncomingIds(ps);
    var dropped := Dropped(t, oid, ps);
    assert ToDelete(t, oid, incoming, notInEmptyMatchesAll) == dropped;
    var t2 := t.(items := t.items - dropped);
    forall j | 0 <= j < |ps| && ps[j].id.Id? ensures ps[j].id.n in t2.items {
      assert ps[j].id.n in incoming;
    }
    UpsertEffect(t2, oid, ps);
    var s := UpsertProducts(t2, oid, ps);
    assert s == UpdateDataOrderProduct(t, oid, ps, notInEmptyMatchesAll);
    UpsertedItems(t2, oid, ps, s);
    ItemsOfRemoved(t, dropped, oid);
  }

  /** Storing the products and then deleting every row of the order leaves
      exactly the other orders' rows. */
  lemma StoreThenClear(t: Tables, oid: int, ps: seq<ProductInput>)
    requires KeysBelow(t)
    ensures var t1 := CreateRows(t, oid, ps);
      var t2 := t1.(items := t1.items - ToDelete(t1, oid, [], true));
      && t2.orders == t.orders && t2.nextItemId == t.nextItemId + |ps|
      && t2.items == map k | k in t.items && t.items[k].orderId != oid :: t.items[k]
  {
    var t1 := CreateRows(t, oid, ps);
    StoreProductsEffect(t, oid, ps);
    var gone := ToDelete(t1, oid, [], true);
    var t2 := t1.(items := t1.items - gone);
    forall k | k in t1.items && k !in t.items ensures k in gone {
      CreatedRowsAt(t1.items, t.nextItemId, oid, ps, k - t.nextItemId);
    }
    var m := map k | k in t.items && t.items[k].orderId != oid :: t.items[k];
    assert t2.items.Keys == m.Keys;
  }

  /** No ids and `NOT IN ()` matching every row: all of this order's rows go,
      the copies created first among them, and the loop creates every product
      again: only the second copies remain. */
  lemma ReconcileWithoutIdsMatchAll(t: Tables, oid: int, ps: seq<ProductInput>)
    requires KeysBelow(t) && WellFormed(ps)
    requires forall j :: 0 <= j < |ps| ==> ps[j].id == NoId
    ensures var s := UpdateDataOrderProduct(t, oid, ps, true);
      var n := |ps|;
      && s.ok
      && s.tables.orders == t.orders && s.tables.nextItemId == t.nextItemId + 2 * n
      && s.tables.items.Keys == (t.items.Keys - ItemsOf(t, oid)) + NewIds(t.nextItemId + n, n)
      && ItemsOf(s.tables, oid) == NewIds(t.nextItemId + n, n)
      && Keeps(s.tables.items, map k | k in t.items && t.items[k].orderId != oid :: t.items[k])
      && CreatedRows(s.tables.items, t.nextItemId + n, oid, ps)
  {
    NoIdsIncoming(ps);
    var n := |ps|;
    StoreWellFormed(t, oid, ps);
    var t1 := CreateRows(t, oid, ps);
    var t2 := t1.(items := t1.items - ToDelete(t1, oid, [], true));
    StoreThenClear(t, oid, ps);
    var kept := map k | k in t.items && t.items[k].orderId != oid :: t.items[k];
    assert t2.items == kept;
    assert ItemsOf(t2, oid) == {};
    assert t2.items.Keys == t.items.Keys - ItemsOf(t, oid);
    UpsertAllNoId(t2, oid, ps);
    StoreWellFormed(t2, oid, ps);
    StoreIntoEmpty(t2, oid, ps);
    var s := UpdateDataOrderProduct(t, oid, ps, true);
    assert s == Step(CreateRows(t2, oid, ps), true);
  }

  /** Storing the same products twice: every product gets two rows, the old
      rows stay. */
  lemma StoreTwice(t: Tables, oid: int, ps: seq<ProductInput>)
    requires KeysBelow(t)
    ensures var r := CreateRows(CreateRows(t, oid, ps), oid, ps);
      var n := |ps|;
      && r.orders == t.orders && r.nextItemId == t.nextItemId + 2 * n
      && r.items.Keys == t.items.Keys + NewIds(t.nextItemId, 2 * n)
      && Keeps(r.items, t.items)
      && CreatedRows(r.items, t.nextItemId, oid, ps + ps)
  {
    var n := |ps|;
    var next := t.nextItemId;
    var t1 := CreateRows(t, oid, ps);
    StoreProductsEffect(t, oid, ps);
    var r := CreateRows(t1, oid, ps);
    StoreProductsEffect(t1, oid, ps);
    CreatedRowsKept(t1.items, r.items, next, oid, ps);
    CreatedRowsAppend(r.items, next, oid, ps, ps);
    forall k | k in t.items ensures k in r.items && r.items[k] == t.items[k] {
      assert t1.items[k] == t.items[k];
    }
  }

  /** No ids and `NOT IN ()` matching no row: nothing is deleted and every
      product is created twice, once before the delete and once by the loop. */
  lemma ReconcileWithoutIdsMatchNone(t: Tables, oid: int, ps: seq<ProductInput>)
    requires KeysBelow(t) && WellFormed(ps)
    requires forall j :: 0 <= j < |ps| ==> ps[j].id == NoId
    ensures var s := UpdateDataOrderProduct(t, oid, ps, false);
      var n := |ps|;
      && s.ok
      && s.tables.orders == t.orders && s.tables.nextItemId == t.nextItemId + 2 * n
      && s.tables.items.Keys == t.items.Keys + NewIds(t.nextItemId, 2 * n)
      && ItemsOf(s.tables, oid) == ItemsOf(t, oid) + NewIds(t.nextItemId, 2 * n)
      && Keeps(s.tables.items, t.items)
      && CreatedRows(s.tables.items, t.nextItemId, oid, ps + ps)
  {
    NoIdsIncoming(ps);
    var n := |ps|;
    var next := t.nextItemId;
    StoreWellFormed(t, oid, ps);
    var t1 := CreateRows(t, oid, ps);
    assert ToDelete(t1, oid, [], false) == {};
    assert t1.(items := t1.items - {}) == t1;
    UpsertAllNoId(t1, oid, ps);
    StoreWellFormed(t1, oid, ps);
    var s := UpdateDataOrderProduct(t, oid, ps, false);
    assert s == Step(CreateRows(t1, oid, ps), true);
    StoreTwice(t, oid, ps);
    forall k | k in s.tables.items ensures s.tables.items[k].orderId == oid <==> k in ItemsOf(t, oid) + NewIds(next, 2 * n) {
      if k !in t.items {
        CreatedRowsAt(s.tables.items, next, oid, ps + ps, k - next);
      }
    }
  }

  /** For ids that were handed out, `updateDataOrderProduct` succeeds exactly
      when every product can be read, none carries '' and every id names an
      existing row. */
  lemma ProductsSucceedIff(t: Tables, oid: int, ps: seq<ProductInput>, notInEmptyMatchesAll: bool)
    requires KeysBelow(t) && IdsIssued(t, ps)
    ensures UpdateDataOrderProduct(t, oid, ps, notInEmptyMatchesAll).ok <==> WellFormed(ps) && NoEmptyId(ps) && IdsExist(t.items, ps)
  {
    var incoming := IncomingIds(ps);
    if incoming != [] {
      var t2 := t.(items := t.items - ToDelete(t, oid, incoming, notInEmptyMatchesAll));
      forall j | 0 <= j < |ps| && ps[j].id.Id? ensures ps[j].id.n in t2.items <==> ps[j].id.n in t.items {
        assert ps[j].id.n in incoming;
      }
      UpsertSucceedsIff(t2, oid, ps);
    } else if WellFormed(ps) {
      StoreWellFormed(t, oid, ps);
      var t1 := CreateRows(t, oid, ps);
      StoreProductsEffect(t, oid, ps);
      var t2 := t1.(items := t1.items - ToDelete(t1, oid, incoming, notInEmptyMatchesAll));
      UpsertSucceedsIff(t2, oid, ps);
    } else {
      StoreStopsAtMalformed(t, oid, ps);
    }
  }

  /** `updateDataOrderProduct` for an order that was handed out keeps the
      store valid and the orders table as it was, whether it succeeds or not. */
  lemma ProductStepValid(t: Tables, oid: int, ps: seq<ProductInput>, notInEmptyMatchesAll: bool)
    requires Valid(t) && oid < t.nextOrderId
    ensures var s := UpdateDataOrderProduct(t, oid, ps, notInEmptyMatchesAll);
      Valid(s.tables) && s.tables.orders == t.orders && s.tables.nextOrderId == t.nextOrderId
  {
    var incoming := IncomingIds(ps);
    var n := ReadableCount(ps);
    StoreStopsAtMalformed(t, oid, ps);
    StoreValid(t, oid, ps[..n]);
    var s1 := if incoming == [] then StoreDataProductOrder(t, oid, ps) else Step(t, true);
    assert Valid(s1.tables) && s1.tables.orders == t.orders && s1.tables.nextOrderId == t.nextOrderId;
    if s1.ok {
      var t1 := s1.tables;
      var t2 := t1.(items := t1.items - ToDelete(t1, oid, incoming, notInEmptyMatchesAll));
      assert Valid(t2);
      UpsertValid(t2, oid, ps);
    }
  }

  /** `updateOrderTransaction`: an absent order fails with nothing written;
      otherwise the customer and date are replaced whatever follows, the other
      orders keep their rows, the store stays valid, success leaves the total
      current, and (for ids that were handed out) it succeeds exactly when
      every product can be read, none carries '' and every id names an
      existing row. A failure after
      the order update keeps that update and the old total. */
  lemma UpdatedOrder(t: Tables, req: UpdateRequest, notInEmptyMatchesAll: bool)
    requires Valid(t)
    ensures var (r, status) := UpdateOrderTransaction(t, req, notInEmptyMatchesAll);
      var oid := req.orderId;
      var ps := req.products;
      && Valid(r) && status != NotFound
      && (oid !in t.orders ==> r == t && status == Failed)
      && r.orders.Keys == t.orders.Keys
      && (forall k :: k in t.orders && k != oid ==> r.orders[k] == t.orders[k])
      && (oid in t.orders ==> (
           && r.orders[oid].customerName == req.customerName
           && r.orders[oid].orderDate == req.orderDate
           && r.orders[oid].orderNo == t.orders[oid].orderNo))
      && (status == Ok ==> TotalIsCurrent(r, oid))
      && (oid in t.orders && status == Failed ==> r.orders[oid].grandTotal == t.orders[oid].grandTotal)
      && (oid in t.orders && IdsIssued(t, ps) ==> (status == Ok <==> WellFormed(ps) && NoEmptyId(ps) && IdsExist(t.items, ps)))
  {
    var oid := req.orderId;
    if oid in t.orders {
      var t1 := UpdateDataOrder(t, req).value;
      assert Valid(t1);
      ProductStepValid(t1, oid, req.products, notInEmptyMatchesAll);
      if IdsIssued(t, req.products) {
        ProductsSucceedIff(t1, oid, req.products, notInEmptyMatchesAll);
      }
    }
  }

  /** The update by id is not limited to the order being edited: a product
      naming a row of another order overwrites that row, which keeps its
      `order_id`, while the other order's `grand_total` is left as it was. */
  lemma ForeignRowOverwritten(t: Tables, req: UpdateRequest, notInEmptyMatchesAll: bool, j: int)
    requires Valid(t) && req.orderId in t.orders
    requires WellFormed(req.products) && NoEmptyId(req.products) && IdsExist(t.items, req.products)
    requires 0 <= j < |req.products| && req.products[j].id.Id?
    requires var k := req.products[j].id.n; t.items[k].orderId != req.orderId
    requires forall i :: j < i < |req.products| ==> req.products[i].id != req.products[j].id
    ensures var (r, status) := UpdateOrderTransaction(t, req, notInEmptyMatchesAll);
      var k := req.products[j].id.n;
      var b := t.items[k].orderId;
      && status == Ok
      && k in r.items && r.items[k] == Overwrite(t.items[k], req.products[j])
      && r.items[k].orderId == b
      && (b in t.orders ==> b in r.orders && r.orders[b] == t.orders[b])
  {
    var oid := req.orderId;
    var ps := req.products;
    var k := ps[j].id.n;
    var t1 := UpdateDataOrder(t, req).value;
    assert ps[j].id.n in IncomingIds(ps);
    ProductStepValid(t1, oid, ps, notInEmptyMatchesAll);
    ReconcileWithIds(t1, oid, ps, notInEmptyMatchesAll);
    FinalRowLast(t.items[k], ps, k, j);
  }

  /** Deleting an order keeps every other order's total current: with the
      cascade its rows go and no other order's sum changes; without it nothing
      in `order_products` changes at all. */
  lemma DeleteKeepsOtherTotals(t: Tables, oid: int, cascadeOnDelete: bool, b: int)
    requires b != oid && TotalIsCurrent(t, b)
    ensures var (r, _) := DeleteDataOrder(t, oid, cascadeOnDelete);
      TotalIsCurrent(r, b)
  {
    var (r, status) := DeleteDataOrder(t, oid, cascadeOnDelete);
    if status == Ok {
      SumRangeFrame(t.items, r.items, b, 0, t.nextItemId);
    }
  }

  /** After a delete the store is still valid; with the cascade the order has
      no line items left, without it they stay behind pointing at an order
      that is gone. */
  lemma DeleteEffect(t: Tables, oid: int, cascadeOnDelete: bool)
    requires Valid(t) && oid in t.orders
    ensures var (r, _) := DeleteDataOrder(t, oid, cascadeOnDelete);
      && Valid(r) && oid !in r.orders
      && (cascadeOnDelete ==> ItemsOf(r, oid) == {} && (forall k :: k in t.items && k !in ItemsOf(t, oid) ==> k in r.items))
      && (!cascadeOnDelete ==> ItemsOf(r, oid) == ItemsOf(t, oid))
  {
  }

  /** The unscoped update breaks another order's total: when a product of
      this request names line item `k` of another order `b` (and no other row
      of `b`), and its new subtotal differs, `b`'s `grand_total`, current
      before, no longer matches its line items after a successful update. */
  lemma ForeignUpdateLeavesStaleTotal(t: Tables, req: UpdateRequest, notInEmptyMatchesAll: bool, j: int)
    requires Valid(t) && req.orderId in t.orders
    requires WellFormed(req.products) && NoEmptyId(req.products) && IdsExist(t.items, req.products)
    requires 0 <= j < |req.products| && req.products[j].id.Id?
    requires var k := req.products[j].id.n;
      var b := t.items[k].orderId;
      && b != req.orderId && TotalIsCurrent(t, b)
      && (forall i :: j < i < |req.products| ==> req.products[i].id != req.products[j].id)
      && (forall i :: 0 <= i < |req.products| && req.products[i].id.Id? && req.products[i].id.n != k ==>
            t.items[req.products[i].id.n].orderId != b)
      && req.products[j].quantity * req.products[j].price != t.items[k].subtotal
    ensures var (r, status) := UpdateOrderTransaction(t, req, notInEmptyMatchesAll);
      status == Ok && !TotalIsCurrent(r, t.items[req.products[j].id.n].orderId)
  {
    var oid := req.orderId;
    var ps := req.products;
    var k := ps[j].id.n;
    var b := t.items[k].orderId;
    var t1 := UpdateDataOrder(t, req).value;
    assert t1.items == t.items && t1.nextItemId == t.nextItemId && Valid(t1);
    ForeignRowOverwritten(t, req, notInEmptyMatchesAll, j);
    ForeignReconcileChangesSum(t1, oid, ps, notInEmptyMatchesAll, j);
    var s := UpdateDataOrderProduct(t1, oid, ps, notInEmptyMatchesAll);
    var r := UpdateGrandTotalOrder(s.tables, oid).value;
    assert r.items == s.tables.items && r.nextItemId == s.tables.nextItemId;
  }

  /** The reconcile itself: it changes the sum of `b`'s line items. */
  lemma ForeignReconcileChangesSum(t: Tables, oid: int, ps: seq<ProductInput>, notInEmptyMatchesAll: bool, j: int)
    requires Valid(t) && WellFormed(ps) && NoEmptyId(ps) && IdsExist(t.items, ps)
    requires 0 <= j < |ps| && ps[j].id.Id?
    requires var k := ps[j].id.n;
      var b := t.items[k].orderId;
      && b != oid
      && (forall i :: j < i < |ps| ==> ps[i].id != ps[j].id)
      && (forall i :: 0 <= i < |ps| && ps[i].id.Id? && ps[i].id.n != k ==> t.items[ps[i].id.n].orderId != b)
      && ps[j].quantity * ps[j].price != t.items[k].subtotal
    ensures var s := UpdateDataOrderProduct(t, oid, ps, notInEmptyMatchesAll);
      var b := t.items[ps[j].id.n].orderId;
      s.ok && SumRange(s.tables.items, b, 0, s.tables.nextItemId) != SumRange(t.items, b, 0, t.nextItemId)
  {
    var k := ps[j].id.n;
    var b := t.items[k].orderId;
    assert k in IncomingIds(ps);
    ReconcileWithIds(t, oid, ps, notInEmptyMatchesAll);
    var s := UpdateDataOrderProduct(t, oid, ps, notInEmptyMatchesAll);
    assert k !in Dropped(t, oid, ps);
    FinalRowLast(t.items[k], ps, k, j);
    OtherRowsKept(t.items, s.tables.items, oid, ps, Dropped(t, oid, ps), b, k, t.nextItemId);
    StaleSum(t.items, s.tables.items, b, k, t.nextItemId, s.tables.nextItemId);
  }

  /** The reconcile of `oid`'s rows keeps the rows of another order `b` that
      no product names, and the rows it creates belong to `oid`. */
  lemma OtherRowsKept(a: map<int, LineItem>, c: map<int, LineItem>, oid: int, ps: seq<ProductInput>,
                      dropped: set<int>, b: int, k: int, next: int)
    requires b != oid && forall k' :: k' in a ==> k' < next
    requires forall k' :: k' in dropped ==> k' in a && a[k'].orderId == oid
    requires c.Keys == (a.Keys - dropped) + NewIds(next, |Creations(ps)|)
    requires forall k' :: k' in a && k' !in dropped ==> c[k'] == FinalRow(a[k'], ps, k')
    requires CreatedRows(c, next, oid, Creations(ps))
    requires forall i :: 0 <= i < |ps| && ps[i].id.Id? && ps[i].id.n != k ==> ps[i].id.n in a && a[ps[i].id.n].orderId != b
    ensures forall k' :: 0 <= k' < next && k' != k ==> (k' in a && a[k'].orderId == b <==> k' in c && c[k'].orderId == b)
    ensures forall k' :: 0 <= k' < next && k' != k && k' in a && a[k'].orderId == b ==> a[k'].subtotal == c[k'].subtotal
    ensures forall k' :: next <= k' < next + |Creations(ps)| && k' in c ==> c[k'].orderId != b
  {
    forall k' | 0 <= k' < next && k' != k && k' in a && a[k'].orderId == b
      ensures c[k'] == a[k']
    {
      forall i | 0 <= i < |ps| ensures ps[i].id != Id(k') {
      }
      FinalRowUntouched(a[k'], ps, k');
    }
    CreatedRowsOwned(c, next, oid, Creations(ps));
  }

  /** Changing one row of `b` below `next`, keeping its other rows there and
      adding none from `next` up to `hi`, changes `b`'s sum. */
  lemma StaleSum(a: map<int, LineItem>, c: map<int, LineItem>, b: int, k: int, next: int, hi: int)
    requires 0 <= k < next <= hi
    requires k in a && k in c && a[k].orderId == b && c[k].orderId == b && a[k].subtotal != c[k].subtotal
    requires forall k' :: 0 <= k' < next && k' != k ==> (k' in a && a[k'].orderId == b <==> k' in c && c[k'].orderId == b)
    requires forall k' :: 0 <= k' < next && k' != k && k' in a && a[k'].orderId == b ==> a[k'].subtotal == c[k'].subtotal
    requires forall k' :: next <= k' < hi && k' in c ==> c[k'].orderId != b
    ensures SumRange(c, b, 0, hi) != SumRange(a, b, 0, next)
  {
    SumRangeChange(a, c, b, 0, next, k);
    SumRangeSplit(c, b, 0, next, hi);
    SumRangeNone(c, b, next, hi);
  }
}
