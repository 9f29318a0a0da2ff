/**
  The rider's in-memory order list and the four updaters that the real-time
  channel applies to it. Each takes the previous list and returns a new one;
  nothing is changed in place.
 */
module OrderHandlers {
  import opened Seqs
  import JsMap

  /** A JSON value, as the push channel carries it. */
  datatype Json =
    | JNull
    | JBool(b: bool)
    | JNumber(n: real)
    | JString(str: string)
    | JArray(items: seq<Json>)
    | JObject(fields: map<string, Json>)

  /**
    An order as the push channel delivers it: its `_id`, its `status`, and the
    rest of the record's properties (tracking id, customer, amounts, dates),
    which the handlers only carry along.
   */
  datatype Order = Order(id: string, status: string, rest: map<string, Json>)

  /** The `_id`s of a list of orders, in list order. */
  function Ids(os: seq<Order>): seq<string> {
    seq(|os|, i requires 0 <= i < |os| => os[i].id)
  }

  lemma IdsAppend(a: seq<Order>, b: seq<Order>)
    ensures Ids(a + b) == Ids(a) + Ids(b)
  {
  }

  // ---------------------------------------------------------------- newOrder

  /** `handleNewOrder`: `[...prevOrders, newOrder]`, with no check for an order with the same `_id`. */
  function HandleNewOrder(prev: seq<Order>, newOrder: Order): (r: seq<Order>)
    ensures |r| == |prev| + 1
    ensures r[..|prev|] == prev && r[|prev|] == newOrder
  {
    prev + [newOrder]
  }

  /**
    A new order adds one more record under its `_id`, so a list without
    duplicate ids keeps that property exactly when the id was not there yet.
   */
  lemma NewOrderNoDuplicateCheck(prev: seq<Order>, newOrder: Order)
    ensures multiset(Ids(HandleNewOrder(prev, newOrder)))[newOrder.id] == multiset(Ids(prev))[newOrder.id] + 1
    ensures Distinct(Ids(prev)) ==> (Distinct(Ids(HandleNewOrder(prev, newOrder))) <==> newOrder.id !in Ids(prev))
  {
    var r := HandleNewOrder(prev, newOrder);
    assert Ids(r) == Ids(prev) + [newOrder.id];
    if newOrder.id in Ids(prev) {
      var k := IndexOf(Ids(prev), newOrder.id);
      assert Ids(r)[k] == Ids(r)[|prev|];
    }
  }

  // ------------------------------------------------------------ orderUpdated

  /**
    `handleOrderUpdated`: `prevOrders.map(order => order._id === orderId ?
    { ...order, status } : order)`.
   */
  function HandleOrderUpdated(prev: seq<Order>, orderId: string, status: string): (r: seq<Order>)
    ensures |r| == |prev|
    ensures forall i :: 0 <= i < |prev| ==>
              r[i].id == prev[i].id && r[i].rest == prev[i].rest &&
              r[i].status == (if prev[i].id == orderId then status else prev[i].status)
  {
    if prev == [] then []
    else
      var head := if prev[0].id == orderId then prev[0].(status := status) else prev[0];
      [head] + HandleOrderUpdated(prev[1..], orderId, status)
  }

  /** An update for an `_id` that is not in the list changes nothing. */
  lemma {:induction false} OrderUpdatedAbsentIsIdentity(prev: seq<Order>, orderId: string, status: string)
    requires orderId !in Ids(prev)
    ensures HandleOrderUpdated(prev, orderId, status) == prev
  {
    var r := HandleOrderUpdated(prev, orderId, status);
    forall i | 0 <= i < |prev| ensures r[i] == prev[i] {
      assert Ids(prev)[i] == prev[i].id;
    }
  }

  /** Two updates of the same order: the later status wins (and repeating one is harmless). */
  lemma OrderUpdatedLastWriteWins(prev: seq<Order>, orderId: string, s1: string, s2: string)
    ensures HandleOrderUpdated(HandleOrderUpdated(prev, orderId, s1), orderId, s2) == HandleOrderUpdated(prev, orderId, s2)
  {
  }

  /** Updates of two different orders can be applied in either order. */
  lemma OrderUpdatedCommute(prev: seq<Order>, a: string, s: string, b: string, t: string)
    requires a != b
    ensures HandleOrderUpdated(HandleOrderUpdated(prev, a, s), b, t) ==
            HandleOrderUpdated(HandleOrderUpdated(prev, b, t), a, s)
  {
  }

  // ------------------------------------------------------------ orderDeleted

  /** `handleOrderDeleted`: `prevOrders.filter(order => order._id !== orderId)`. */
  function HandleOrderDeleted(prev: seq<Order>, orderId: string): (r: seq<Order>)
    ensures |r| <= |prev|
    ensures forall i :: 0 <= i < |r| ==> r[i] in prev && r[i].id != orderId
  {
    if prev == [] then []
    else if prev[0].id == orderId then HandleOrderDeleted(prev[1..], orderId)
    else [prev[0]] + HandleOrderDeleted(prev[1..], orderId)
  }

  /** No order with `_id == orderId` survives. */
  lemma {:induction false} OrderDeletedRemovesId(prev: seq<Order>, orderId: string)
    ensures orderId !in Ids(HandleOrderDeleted(prev, orderId))
  {
    if prev != [] {
      var tail := HandleOrderDeleted(prev[1..], orderId);
      OrderDeletedRemovesId(prev[1..], orderId);
      if prev[0].id != orderId {
        assert Ids([prev[0]] + tail) == [prev[0].id] + Ids(tail);
      }
    }
  }

  /** Every other order stays exactly as many times as it was there. */
  lemma {:induction false} OrderDeletedKeepsOthers(prev: seq<Order>, orderId: string)
    ensures forall o :: multiset(HandleOrderDeleted(prev, orderId))[o] ==
                        if o.id == orderId then 0 else multiset(prev)[o]
  {
    if prev != [] {
      var tail := HandleOrderDeleted(prev[1..], orderId);
      OrderDeletedKeepsOthers(prev[1..], orderId);
      assert prev == [prev[0]] + prev[1..];
      assert multiset(prev) == multiset{prev[0]} + multiset(prev[1..]);
      if prev[0].id != orderId {
        assert multiset([prev[0]] + tail) == multiset{prev[0]} + multiset(tail);
      }
    }
  }

  /** The surviving orders keep their relative order. */
  lemma {:induction false} OrderDeletedKeepsOrder(prev: seq<Order>, orderId: string)
    ensures IsSubsequence(HandleOrderDeleted(prev, orderId), prev)
  {
    if prev != [] {
      var tail := HandleOrderDeleted(prev[1..], orderId);
      OrderDeletedKeepsOrder(prev[1..], orderId);
      if prev[0].id == orderId {
        SubsequenceDropHead(tail, prev);
      } else {
        assert ([prev[0]] + tail)[1..] == tail;
      }
    }
  }

  lemma SubsequenceDropHead(a: seq<Order>, b: seq<Order>)
    requires b != [] && IsSubsequence(a, b[1..])
    ensures IsSubsequence(a, b)
  {
  }

  /**
    The two lemmas above determine the filter: a sub-sequence of `prev` that
    keeps every order with another `_id` as often as `prev` has it, and none
    with `orderId`, is `HandleOrderDeleted(prev, orderId)`.
   */
  lemma {:induction false} OrderDeletedUnique(prev: seq<Order>, orderId: string, r: seq<Order>)
    requires IsSubsequence(r, prev)
    requires forall o :: multiset(r)[o] == if o.id == orderId then 0 else multiset(prev)[o]
    ensures r == HandleOrderDeleted(prev, orderId)
    decreases |prev|
  {
    if prev != [] {
      var p, rest := prev[0], prev[1..];
      assert prev == [p] + rest;
      assert multiset(prev) == multiset{p} + multiset(rest);
      SubsequenceMultiset(r, rest);
      if p.id == orderId {
        assert p !in r;
        assert IsSubsequence(r, rest);
        OrderDeletedUnique(rest, orderId, r);
      } else {
        assert multiset(r)[p] == multiset(rest)[p] + 1;
        assert !IsSubsequence(r, rest);
        assert r != [] && r[0] == p && IsSubsequence(r[1..], rest);
        assert r == [p] + r[1..];
        assert multiset(r) == multiset{p} + multiset(r[1..]);
        OrderDeletedUnique(rest, orderId, r[1..]);
      }
    } else {
      assert r == [];
    }
  }

  /** Deleting an `_id` that is not in the list changes nothing (a second delivery of the same `orderDeleted`, say). */
  lemma {:induction false} OrderDeletedAbsentIsIdentity(prev: seq<Order>, orderId: string)
    requires orderId !in Ids(prev)
    ensures HandleOrderDeleted(prev, orderId) == prev
  {
    if prev != [] {
      assert Ids(prev) == [prev[0].id] + Ids(prev[1..]);
      OrderDeletedAbsentIsIdentity(prev[1..], orderId);
    }
  }

  /** Deleting twice is deleting once. */
  lemma OrderDeletedIdempotent(prev: seq<Order>, orderId: string)
    ensures HandleOrderDeleted(HandleOrderDeleted(prev, orderId), orderId) == HandleOrderDeleted(prev, orderId)
  {
    OrderDeletedRemovesId(prev, orderId);
    OrderDeletedAbsentIsIdentity(HandleOrderDeleted(prev, orderId), orderId);
  }

  /** The filter distributes over concatenation. */
  lemma {:induction false} OrderDeletedAppend(a: seq<Order>, b: seq<Order>, orderId: string)
    ensures HandleOrderDeleted(a + b, orderId) == HandleOrderDeleted(a, orderId) + HandleOrderDeleted(b, orderId)
  {
    if a != [] {
      assert (a + b)[1..] == a[1..] + b;
      OrderDeletedAppend(a[1..], b, orderId);
    } else {
      assert a + b == b;
    }
  }

  /** Deleting a just-added order gives what deleting that id before the add would have. */
  lemma OrderDeletedUndoesNewOrder(prev: seq<Order>, newOrder: Order)
    ensures HandleOrderDeleted(HandleNewOrder(prev, newOrder), newOrder.id) == HandleOrderDeleted(prev, newOrder.id)
  {
    OrderDeletedAppend(prev, [newOrder], newOrder.id);
    assert HandleOrderDeleted([newOrder], newOrder.id) == [];
  }

  /** A status update of an order that is then deleted leaves no trace. */
  lemma {:induction false} OrderDeletedAfterUpdate(prev: seq<Order>, orderId: string, status: string)
    ensures HandleOrderDeleted(HandleOrderUpdated(prev, orderId, status), orderId) == HandleOrderDeleted(prev, orderId)
  {
    if prev != [] {
      var u := HandleOrderUpdated(prev, orderId, status);
      assert u[1..] == HandleOrderUpdated(prev[1..], orderId, status);
      assert u[0].id == prev[0].id;
      OrderDeletedAfterUpdate(prev[1..], orderId, status);
      if prev[0].id != orderId {
        assert u[0] == prev[0];
      }
    }
  }

  // ----------------------------------------------------- ordersStatusChanged

  /** `[...].map(order => [order._id, order])`: the entries handed to `new Map`. */
  function KeyedById(os: seq<Order>): (r: seq<(string, Order)>)
    ensures JsMap.Keys(r) == Ids(os) && JsMap.Values(r) == os
  {
    seq(|os|, i requires 0 <= i < |os| => (os[i].id, os[i]))
  }

  /**
    `handleOrdersStatusChanged`: `Array.from(new Map([...prevOrders,
    ...orders].map(order => [order._id, order])).values())`.
   */
  function HandleOrdersStatusChanged(prev: seq<Order>, orders: seq<Order>): (r: seq<Order>)
    ensures |r| <= |prev| + |orders|
  {
    JsMap.Values(JsMap.FromEntries(KeyedById(prev + orders)))
  }

  /**
    `s` is the keyed union of the list `all`: every `_id` of `all` once, in the
    order of first occurrence in `all`, each with the record of its last
    occurrence in `all`.
   */
  ghost predicate IsMergeOf(s: seq<Order>, all: seq<Order>) {
    && (forall j :: 0 <= j < |all| ==> all[j].id in Ids(s))
    && InFirstOccurrenceOrder(Ids(s), Ids(all))
    && forall i :: 0 <= i < |s| ==> s[i].id in Ids(all) && s[i] == all[LastIndexOf(Ids(all), s[i].id)]
  }

  /**
    What `ordersStatusChanged` leaves: no `_id` twice; exactly the ids of the
    previous and the incoming orders; ids in the order they first appear in
    `prev ++ orders`; and for each id the last record of it there, so incoming
    orders override earlier ones.
   */
  lemma OrdersStatusChangedSpec(prev: seq<Order>, orders: seq<Order>)
    ensures Distinct(Ids(HandleOrdersStatusChanged(prev, orders)))
    ensures forall id :: id in Ids(HandleOrdersStatusChanged(prev, orders)) <==> id in Ids(prev) || id in Ids(orders)
    ensures InFirstOccurrenceOrder(Ids(HandleOrdersStatusChanged(prev, orders)), Ids(prev + orders))
    ensures forall i :: 0 <= i < |HandleOrdersStatusChanged(prev, orders)| ==>
              HandleOrdersStatusChanged(prev, orders)[i].id in Ids(prev + orders) &&
              HandleOrdersStatusChanged(prev, orders)[i] ==
                (prev + orders)[LastIndexOf(Ids(prev + orders), HandleOrdersStatusChanged(prev, orders)[i].id)]
    ensures IsMergeOf(HandleOrdersStatusChanged(prev, orders), prev + orders)
  {
    var all := prev + orders;
    var m := JsMap.FromEntries(KeyedById(all));
    JsMap.FromEntriesSpec(KeyedById(all));
    ValuesOfMapOf(all, m);
    FirstOccurrenceOrderDistinct(Ids(JsMap.Values(m)), Ids(all));
    MergeOfIds(JsMap.Values(m), prev, orders);
  }

  /** The values of the map built from `all` keyed by `_id` are the keyed union of `all`. */
  lemma ValuesOfMapOf(all: seq<Order>, m: seq<(string, Order)>)
    requires JsMap.MapOf(m, KeyedById(all))
    ensures IsMergeOf(JsMap.Values(m), all)
  {
    var es, s := KeyedById(all), JsMap.Values(m);
    forall i | 0 <= i < |m| ensures m[i].0 == s[i].id && m[i].1 == all[LastIndexOf(Ids(all), s[i].id)] {
      var j := LastIndexOf(JsMap.Keys(es), m[i].0);
      assert m[i] == es[j] == (all[j].id, all[j]);
    }
    assert JsMap.Keys(m) == Ids(s);
    forall j | 0 <= j < |all| ensures all[j].id in Ids(s) {
      assert es[j].0 == all[j].id;
    }
  }

  /** The keyed union of `prev ++ orders` holds exactly the ids of `prev` and of `orders`. */
  lemma MergeOfIds(s: seq<Order>, prev: seq<Order>, orders: seq<Order>)
    requires IsMergeOf(s, prev + orders)
    ensures forall id :: id in Ids(s) <==> id in Ids(prev) || id in Ids(orders)
  {
    IdsAppend(prev, orders);
    forall id ensures id in Ids(s) <==> id in Ids(prev + orders) {
      if id in Ids(prev + orders) {
        var j := IndexOf(Ids(prev + orders), id);
        assert (prev + orders)[j].id == id;
      }
    }
  }

  /** Two lists that are both the keyed union of `all` are the same list. */
  lemma MergeOfUnique(s: seq<Order>, t: seq<Order>, all: seq<Order>)
    requires IsMergeOf(s, all) && IsMergeOf(t, all)
    ensures s == t
  {
    forall x ensures x in Ids(s) <==> x in Ids(t) {
      if x in Ids(all) {
        var j := IndexOf(Ids(all), x);
        assert all[j].id == x;
      }
    }
    FirstOccurrenceOrderUnique(Ids(s), Ids(t), Ids(all));
    forall i | 0 <= i < |s| ensures s[i] == t[i] {
      assert Ids(s)[i] == Ids(t)[i];
    }
  }

  /** Applying the same `ordersStatusChanged` twice is the same as once. */
  lemma OrdersStatusChangedIdempotent(prev: seq<Order>, orders: seq<Order>)
    ensures HandleOrdersStatusChanged(HandleOrdersStatusChanged(prev, orders), orders) ==
            HandleOrdersStatusChanged(prev, orders)
  {
    var m := HandleOrdersStatusChanged(prev, orders);
    OrdersStatusChangedSpec(prev, orders);
    RemergeCovers(m, prev, orders);
    RemergeOrder(m, prev, orders);
    RemergeValues(m, prev, orders);
    OrdersStatusChangedSpec(m, orders);
    MergeOfUnique(HandleOrdersStatusChanged(m, orders), m, m + orders);
  }

  // The keyed union `m` of `prev ++ orders` is also the keyed union of `m ++ orders`,
  // shown clause by clause of IsMergeOf.

  lemma RemergeCovers(m: seq<Order>, prev: seq<Order>, orders: seq<Order>)
    requires IsMergeOf(m, prev + orders)
    ensures forall j :: 0 <= j < |m + orders| ==> (m + orders)[j].id in Ids(m)
  {
    forall j | 0 <= j < |m + orders| ensures (m + orders)[j].id in Ids(m) {
      if j >= |m| {
        assert (m + orders)[j] == (prev + orders)[|prev| + j - |m|];
      } else {
        assert (m + orders)[j].id == Ids(m)[j];
      }
    }
  }

  lemma RemergeOrder(m: seq<Order>, prev: seq<Order>, orders: seq<Order>)
    requires IsMergeOf(m, prev + orders)
    ensures InFirstOccurrenceOrder(Ids(m), Ids(m + orders))
  {
    IdsAppend(m, orders);
    forall i | 0 <= i < |m|
      ensures m[i].id in Ids(m + orders) && IndexOf(Ids(m + orders), m[i].id) == i
    {
      assert Ids(m)[i] == m[i].id;
      IndexOfAppend(Ids(m), Ids(orders), m[i].id);
      IndexOfDistinct(Ids(m), i);
    }
  }

  lemma RemergeValues(m: seq<Order>, prev: seq<Order>, orders: seq<Order>)
    requires IsMergeOf(m, prev + orders)
    ensures forall i :: 0 <= i < |m| ==>
              m[i].id in Ids(m + orders) && m[i] == (m + orders)[LastIndexOf(Ids(m + orders), m[i].id)]
  {
    FirstOccurrenceOrderDistinct(Ids(m), Ids(prev + orders));
    forall i | 0 <= i < |m|
      ensures m[i].id in Ids(m + orders) && m[i] == (m + orders)[LastIndexOf(Ids(m + orders), m[i].id)]
    {
      RemergeValueAt(m, prev, orders, i);
    }
  }

  lemma RemergeValueAt(m: seq<Order>, prev: seq<Order>, orders: seq<Order>, i: int)
    requires 0 <= i < |m| && Distinct(Ids(m))
    requires m[i].id in Ids(prev + orders) && m[i] == (prev + orders)[LastIndexOf(Ids(prev + orders), m[i].id)]
    ensures m[i].id in Ids(m + orders) && m[i] == (m + orders)[LastIndexOf(Ids(m + orders), m[i].id)]
  {
    IdsAppend(m, orders);
    IdsAppend(prev, orders);
    var id := m[i].id;
    assert Ids(m)[i] == id;
    if id in Ids(orders) {
      LastIndexOfAppend(Ids(m), Ids(orders), id);
      LastIndexOfAppend(Ids(prev), Ids(orders), id);
    } else {
      LastIndexOfAppendOld(Ids(m), Ids(orders), id);
      IndexOfDistinct(Ids(m), i);
    }
  }

  /** A list without duplicate ids is, by itself, its own keyed union. */
  lemma DistinctIsMergeOfItself(all: seq<Order>)
    requires Distinct(Ids(all))
    ensures IsMergeOf(all, all)
  {
    forall i | 0 <= i < |all|
      ensures all[i].id in Ids(all)
      ensures IndexOf(Ids(all), all[i].id) == i && LastIndexOf(Ids(all), all[i].id) == i
    {
      assert Ids(all)[i] == all[i].id;
      IndexOfDistinct(Ids(all), i);
    }
  }

  /**
    The merge returns `prev ++ orders` unchanged exactly when no `_id` occurs
    twice in it; in particular an event with no orders leaves a duplicate-free
    list as it is, and one whose orders are all new appends them in order.
   */
  lemma OrdersStatusChangedIsConcatIffDistinct(prev: seq<Order>, orders: seq<Order>)
    ensures HandleOrdersStatusChanged(prev, orders) == prev + orders <==> Distinct(Ids(prev + orders))
  {
    OrdersStatusChangedSpec(prev, orders);
    if Distinct(Ids(prev + orders)) {
      DistinctIsMergeOfItself(prev + orders);
      MergeOfUnique(HandleOrdersStatusChanged(prev, orders), prev + orders, prev + orders);
    }
  }

  /**
    Each record in the result whose `_id` came in with the event is the last
    incoming record with that id; every other record is the last one `prev`
    held under its id. With duplicate-free incoming orders, every incoming
    order is in the result.
   */
  lemma OrdersStatusChangedIncomingWins(prev: seq<Order>, orders: seq<Order>)
    ensures forall i :: 0 <= i < |HandleOrdersStatusChanged(prev, orders)| ==>
              var o := HandleOrdersStatusChanged(prev, orders)[i];
              if o.id in Ids(orders) then o == orders[LastIndexOf(Ids(orders), o.id)]
              else o.id in Ids(prev) && o == prev[LastIndexOf(Ids(prev), o.id)]
    ensures Distinct(Ids(orders)) ==> forall o :: o in orders ==> o in HandleOrdersStatusChanged(prev, orders)
  {
    OrdersStatusChangedSpec(prev, orders);
    MergeOfIncomingWins(HandleOrdersStatusChanged(prev, orders), prev, orders);
  }

  lemma MergeOfIncomingWins(r: seq<Order>, prev: seq<Order>, orders: seq<Order>)
    requires IsMergeOf(r, prev + orders)
    ensures forall i :: 0 <= i < |r| ==>
              if r[i].id in Ids(orders) then r[i] == orders[LastIndexOf(Ids(orders), r[i].id)]
              else r[i].id in Ids(prev) && r[i] == prev[LastIndexOf(Ids(prev), r[i].id)]
    ensures Distinct(Ids(orders)) ==> forall o :: o in orders ==> o in r
  {
    forall i | 0 <= i < |r|
      ensures if r[i].id in Ids(orders) then r[i] == orders[LastIndexOf(Ids(orders), r[i].id)]
              else r[i].id in Ids(prev) && r[i] == prev[LastIndexOf(Ids(prev), r[i].id)]
    {
      LastRecordSplit(r[i], prev, orders);
    }
    if Distinct(Ids(orders)) {
      forall o | o in orders ensures o in r {
        var j :| 0 <= j < |orders| && orders[j] == o;
        assert (prev + orders)[|prev| + j] == o;
        var i := IndexOf(Ids(r), o.id);
        assert r[i].id == o.id;
        LastRecordSplit(r[i], prev, orders);
        assert Ids(orders)[j] == o.id;
        IndexOfDistinct(Ids(orders), j);
      }
    }
  }

  /** The last record of an id in `prev ++ orders` is the last incoming one if the id came in, else the last in `prev`. */
  lemma LastRecordSplit(o: Order, prev: seq<Order>, orders: seq<Order>)
    requires o.id in Ids(prev + orders) && o == (prev + orders)[LastIndexOf(Ids(prev + orders), o.id)]
    ensures if o.id in Ids(orders) then o == orders[LastIndexOf(Ids(orders), o.id)]
            else o.id in Ids(prev) && o == prev[LastIndexOf(Ids(prev), o.id)]
  {
    IdsAppend(prev, orders);
    if o.id in Ids(orders) {
      LastIndexOfAppend(Ids(prev), Ids(orders), o.id);
    } else {
      LastIndexOfAppendOld(Ids(prev), Ids(orders), o.id);
    }
  }
}
