/** The two row tables the service works on, `orders` and `order_products`,
    as one value: each table is a map from row id to row, with the next id
    its auto-increment counter will hand out. */
module Tables {
  import opened Dates

  /** A row of `orders`; its id is the key the table holds it under. Money is
      an integer number of minor units. */
  datatype Order = Order(orderNo: string, customerName: string, orderDate: DateTime, grandTotal: int)

  /** A row of `order_products`, with the fields `OrderProduct` declares fillable. */
  datatype LineItem = LineItem(orderId: int, productName: string, qty: int, price: int, subtotal: int)

  datatype Tables = Tables(
    orders: map<int, Order>,
    items: map<int, LineItem>,
    nextOrderId: int,
    nextItemId: int)

  /** The tables as a store keeps them: every id below its counter, counters
      starting at 1, and every line item pointing at an order id that was
      handed out (the order itself may be gone: deleting an order does not
      remove its line items unless the schema cascades). */
  predicate Valid(t: Tables)
  {
    && 1 <= t.nextOrderId && 1 <= t.nextItemId
    && (forall k :: k in t.orders ==> 1 <= k < t.nextOrderId)
    && (forall k :: k in t.items ==> 1 <= k < t.nextItemId)
    && (forall k :: k in t.items ==> t.items[k].orderId < t.nextOrderId)
  }

  function Empty(): (t: Tables)
    ensures Valid(t) && t.orders == map[] && t.items == map[]
  {
    Tables(map[], map[], 1, 1)
  }

  /** The ids of the line items of order `oid`. */
  function ItemsOf(t: Tables, oid: int): set<int>
  {
    set k | k in t.items && t.items[k].orderId == oid
  }

  /** `SUM(subtotal) ... WHERE order_id = oid` over the line items whose ids
      lie in [lo, hi); the empty sum is 0, as Laravel's `sum` returns. */
  function SumRange(items: map<int, LineItem>, oid: int, lo: int, hi: int): int
    decreases hi - lo
  {
    if lo >= hi then 0
    else
      var here := if lo in items && items[lo].orderId == oid then items[lo].subtotal else 0;
      here + SumRange(items, oid, lo + 1, hi)
  }

  /** The sum of the subtotals of all line items of `oid`: in a valid store
      every id lies below the counter. */
  function OrderTotal(t: Tables, oid: int): int
  {
    SumRange(t.items, oid, 0, t.nextItemId)
  }

  lemma {:induction false} SumRangeSplit(items: map<int, LineItem>, oid: int, lo: int, mid: int, hi: int)
    requires lo <= mid <= hi
    ensures SumRange(items, oid, lo, hi) == SumRange(items, oid, lo, mid) + SumRange(items, oid, mid, hi)
    decreases mid - lo
  {
    if lo < mid {
      SumRangeSplit(items, oid, lo + 1, mid, hi);
    }
  }

  /** The sum over [lo, hi) depends only on the rows of `oid` in that range. */
  lemma {:induction false} SumRangeFrame(a: map<int, LineItem>, b: map<int, LineItem>, oid: int, lo: int, hi: int)
    requires forall k :: lo <= k < hi ==> (k in a && a[k].orderId == oid <==> k in b && b[k].orderId == oid)
    requires forall k :: lo <= k < hi && k in a && a[k].orderId == oid ==> a[k].subtotal == b[k].subtotal
    ensures SumRange(a, oid, lo, hi) == SumRange(b, oid, lo, hi)
    decreases hi - lo
  {
    if lo < hi {
      SumRangeFrame(a, b, oid, lo + 1, hi);
    }
  }

  /** Changing the subtotal of one row of `oid` changes the sum by the difference. */
  lemma SumRangeChange(a: map<int, LineItem>, b: map<int, LineItem>, oid: int, lo: int, hi: int, k: int)
    requires lo <= k < hi
    requires k in a && k in b && a[k].orderId == oid && b[k].orderId == oid
    requires forall j :: lo <= j < hi && j != k ==> (j in a && a[j].orderId == oid <==> j in b && b[j].orderId == oid)
    requires forall j :: lo <= j < hi && j != k && j in a && a[j].orderId == oid ==> a[j].subtotal == b[j].subtotal
    ensures SumRange(b, oid, lo, hi) == SumRange(a, oid, lo, hi) - a[k].subtotal + b[k].subtotal
  {
    SumRangeSplit(a, oid, lo, k, hi);
    SumRangeSplit(b, oid, lo, k, hi);
    SumRangeFrame(a, b, oid, lo, k);
    SumRangeFrame(a, b, oid, k + 1, hi);
  }

  /** No row of `oid` in the range: the sum is 0. */
  lemma {:induction false} SumRangeNone(items: map<int, LineItem>, oid: int, lo: int, hi: int)
    requires forall k :: lo <= k < hi && k in items ==> items[k].orderId != oid
    ensures SumRange(items, oid, lo, hi) == 0
    decreases hi - lo
  {
    if lo < hi {
      SumRangeNone(items, oid, lo + 1, hi);
    }
  }

  /** The keys of `ks` in [lo, hi), ascending: the order of a scan by primary key. */
  function KeysAscending(ks: set<int>, lo: int, hi: int): (r: seq<int>)
    decreases hi - lo
    ensures forall i :: 0 <= i < |r| ==> r[i] in ks && lo <= r[i] < hi
    ensures forall k :: k in ks && lo <= k < hi ==> k in r
    ensures forall i, j :: 0 <= i < j < |r| ==> r[i] < r[j]
  {
    if lo >= hi then []
    else
      var rest := KeysAscending(ks, lo + 1, hi);
      PrependKey(ks, lo, hi, rest);
      (if lo in ks then [lo] else []) + rest
  }

  /** The scan of [lo, hi) is the scan of (lo, hi) with `lo` in front when it is a key. */
  lemma PrependKey(ks: set<int>, lo: int, hi: int, rest: seq<int>)
    requires lo < hi
    requires forall i :: 0 <= i < |rest| ==> rest[i] in ks && lo + 1 <= rest[i] < hi
    requires forall k :: k in ks && lo + 1 <= k < hi ==> k in rest
    requires forall i, j :: 0 <= i < j < |rest| ==> rest[i] < rest[j]
    ensures var r := (if lo in ks then [lo] else []) + rest;
      && (forall i :: 0 <= i < |r| ==> r[i] in ks && lo <= r[i] < hi)
      && (forall k :: k in ks && lo <= k < hi ==> k in r)
      && (forall i, j :: 0 <= i < j < |r| ==> r[i] < r[j])
  {
    if lo in ks {
      var r := [lo] + rest;
      assert forall i :: 1 <= i < |r| ==> r[i] == rest[i - 1];
      assert lo in r;
    } else {
      assert [] + rest == rest;
    }
  }

  /** A scan over a range that holds every key meets each key once. */
  lemma {:induction false} KeysAscendingCount(ks: set<int>, lo: int, hi: int)
    requires forall k :: k in ks ==> lo <= k < hi
    ensures |KeysAscending(ks, lo, hi)| == |ks|
    decreases hi - lo
  {
    if lo < hi {
      var rest := ks - {lo};
      KeysAscendingCount(rest, lo + 1, hi);
      KeysAscendingFrame(ks, rest, lo + 1, hi);
      CountStep(ks, lo, hi);
    }
  }

  lemma CountStep(ks: set<int>, lo: int, hi: int)
    requires lo < hi
    ensures |KeysAscending(ks, lo, hi)| == (if lo in ks then 1 else 0) + |KeysAscending(ks, lo + 1, hi)|
    ensures |ks| == (if lo in ks then 1 else 0) + |ks - {lo}|
  {
  }

  lemma {:induction false} KeysAscendingFrame(a: set<int>, b: set<int>, lo: int, hi: int)
    requires forall k :: lo <= k < hi ==> (k in a <==> k in b)
    ensures KeysAscending(a, lo, hi) == KeysAscending(b, lo, hi)
    decreases hi - lo
  {
    if lo < hi {
      KeysAscendingFrame(a, b, lo + 1, hi);
    }
  }
}
