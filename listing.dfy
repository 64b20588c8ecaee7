/** `getDataOrders`: the criteria a listing request puts on `orders` and the
    set of orders they select, before pagination. */
module Listing {
  import opened Wrappers
  import opened Text
  import opened SqlLike
  import opened Dates
  import opened Tables

  /** PHP's `empty()` on a request value: a missing key, '' and '0' are empty. */
  predicate PhpEmpty(v: Option<string>)
  {
    v.None? || v.value == "" || v.value == "0"
  }

  /** A criterion on `order_date`, compared against its 'Y-m-d H:i:s' text. */
  datatype Criterion = DateLike(pattern: string) | DateBetween(lo: string, hi: string)

  /** The date criterion of a request whose period bounds are `from` and `to`;
      `fromAt` and `toAt` are the instants Carbon parses them to (parsing is
      not modelled, so they are inputs). No criterion when both bounds are
      empty; `LIKE '%start%'` when both render alike; `BETWEEN` otherwise. */
  function DateCriterion(from: Option<string>, to: Option<string>, fromAt: DateTime, toAt: DateTime): (r: Option<Criterion>)
    ensures r.None? <==> PhpEmpty(from) && PhpEmpty(to)
    ensures r.Some? && fromAt == toAt ==> r.value == DateLike("%" + FormatYmdHis(fromAt) + "%")
    ensures r.Some? && fromAt != toAt ==> r.value == DateBetween(FormatYmdHis(fromAt), FormatYmdHis(toAt))
  {
    if !PhpEmpty(from) || !PhpEmpty(to) then
      var start := FormatYmdHis(fromAt);
      var end := FormatYmdHis(toAt);
      if start == end then
        FormatYmdHisInjective(fromAt, toAt);
        Some(DateLike("%" + start + "%"))
      else
        Some(DateBetween(start, end))
    else None
  }

  /** Whether an order meets a date criterion. */
  predicate Satisfies(o: Order, c: Criterion)
  {
    var s := FormatYmdHis(o.orderDate);
    match c
    case DateLike(p) => Like(s, p)
    case DateBetween(lo, hi) => LexLe(lo, s) && LexLe(s, hi)
  }

  /** The ids of the orders a listing selects: the date criterion, if any,
      and `order_no LIKE '%search%'`. */
  function Selected(t: Tables, search: string, c: Option<Criterion>): (r: set<int>)
    ensures r <= t.orders.Keys
  {
    set k | k in t.orders && (c.None? || Satisfies(t.orders[k], c.value)) && Like(t.orders[k].orderNo, "%" + search + "%")
  }

  /** `getDataOrders` up to pagination. */
  function GetDataOrders(t: Tables, search: string, from: Option<string>, to: Option<string>, fromAt: DateTime, toAt: DateTime): set<int>
  {
    Selected(t, search, DateCriterion(from, to, fromAt, toAt))
  }

  /** A 'Y-m-d H:i:s' text holds no `LIKE` wildcard. */
  lemma TimestampNoWildcards(t: DateTime)
    ensures NoWildcards(FormatYmdHis(t))
  {
    var s := FormatYmdHis(t);
    forall i | 0 <= i < |s| ensures s[i] != '%' && s[i] != '_' && s[i] != '\\' {
      assert IsDigit(s[i]) || s[i] == '-' || s[i] == ' ' || s[i] == ':';
    }
  }

  /** Containment between two texts of one length is equality. */
  lemma ContainsSameLength(s: string, t: string)
    requires |s| == |t|
    ensures Contains(s, t) <==> s == t
  {
    if s == t {
      assert IsPrefix(t, s[0..]);
    }
  }

  /** Without a period, a search text free of wildcards selects exactly the
      orders whose number contains it. */
  lemma NoPeriodSelectsBySearch(t: Tables, search: string, from: Option<string>, to: Option<string>, fromAt: DateTime, toAt: DateTime)
    requires PhpEmpty(from) && PhpEmpty(to) && NoWildcards(search)
    ensures forall k :: k in GetDataOrders(t, search, from, to, fromAt, toAt) <==>
      k in t.orders && Contains(t.orders[k].orderNo, search)
  {
    forall k | k in t.orders
      ensures Like(t.orders[k].orderNo, "%" + search + "%") <==> Contains(t.orders[k].orderNo, search)
    {
      LikeContains(t.orders[k].orderNo, search);
    }
  }

  /** When both bounds name one instant, the `LIKE` criterion selects the
      orders dated exactly at that instant. */
  lemma SameInstantSelectsThatInstant(t: Tables, search: string, from: Option<string>, to: Option<string>, at: DateTime)
    requires !PhpEmpty(from) || !PhpEmpty(to)
    ensures forall k :: k in GetDataOrders(t, search, from, to, at, at) <==>
      k in t.orders && t.orders[k].orderDate == at && Like(t.orders[k].orderNo, "%" + search + "%")
  {
    TimestampNoWildcards(at);
    forall k | k in t.orders
      ensures Satisfies(t.orders[k], DateLike("%" + FormatYmdHis(at) + "%")) <==> t.orders[k].orderDate == at
    {
      var s := FormatYmdHis(t.orders[k].orderDate);
      LikeContains(s, FormatYmdHis(at));
      ContainsSameLength(s, FormatYmdHis(at));
      if s == FormatYmdHis(at) {
        FormatYmdHisInjective(t.orders[k].orderDate, at);
      }
    }
  }

  /** When the bounds differ, `BETWEEN` selects the orders dated from the
      first instant to the second, both included, in time order. */
  lemma RangeSelectsChronologically(t: Tables, search: string, from: Option<string>, to: Option<string>, fromAt: DateTime, toAt: DateTime)
    requires !PhpEmpty(from) || !PhpEmpty(to)
    requires fromAt != toAt
    ensures forall k :: k in GetDataOrders(t, search, from, to, fromAt, toAt) <==>
      && k in t.orders
      && NotAfter(fromAt, t.orders[k].orderDate) && NotAfter(t.orders[k].orderDate, toAt)
      && Like(t.orders[k].orderNo, "%" + search + "%")
  {
    forall k | k in t.orders
      ensures Satisfies(t.orders[k], DateBetween(FormatYmdHis(fromAt), FormatYmdHis(toAt))) <==>
        NotAfter(fromAt, t.orders[k].orderDate) && NotAfter(t.orders[k].orderDate, toAt)
    {
      FormatYmdHisOrder(fromAt, t.orders[k].orderDate);
      FormatYmdHisOrder(t.orders[k].orderDate, toAt);
    }
  }

  /** Whatever the period, every selected order's number contains a search
      text that is free of wildcards. */
  lemma SelectedContainsSearch(t: Tables, search: string, c: Option<Criterion>, k: int)
    requires NoWildcards(search) && k in Selected(t, search, c)
    ensures Contains(t.orders[k].orderNo, search)
  {
    LikeContains(t.orders[k].orderNo, search);
  }
}
