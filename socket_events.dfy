/**
  The events the real-time channel delivers and the handler each one is
  registered to. Every handler is passed to React's `setOrders` as an updater,
  so a stream of events acts on the order list one after another, in delivery
  order, each on the list the previous one produced.
 */
module SocketEvents {
  import opened OrderHandlers

  /** A push event with the payload its handler reads. */
  datatype Event =
    | NewOrder(order: Order)
    | OrderUpdated(orderId: string, status: string)
    | OrdersStatusChanged(orders: seq<Order>)
    | OrderDeleted(orderId: string)

  /** The channel event name each handler is registered under. */
  function EventName(e: Event): (name: string)
    ensures name == "newOrder" <==> e.NewOrder?
    ensures name == "orderUpdated" <==> e.OrderUpdated?
    ensures name == "ordersStatusChanged" <==> e.OrdersStatusChanged?
    ensures name == "orderDeleted" <==> e.OrderDeleted?
  {
    match e
    case NewOrder(_) => "newOrder"
    case OrderUpdated(_, _) => "orderUpdated"
    case OrdersStatusChanged(_) => "ordersStatusChanged"
    case OrderDeleted(_) => "orderDeleted"
  }

  /** Two events under the same name are of the same kind. */
  lemma EventNameIdentifiesHandler(e1: Event, e2: Event)
    requires EventName(e1) == EventName(e2)
    ensures e1.NewOrder? <==> e2.NewOrder?
    ensures e1.OrderUpdated? <==> e2.OrderUpdated?
    ensures e1.OrdersStatusChanged? <==> e2.OrdersStatusChanged?
    ensures e1.OrderDeleted? <==> e2.OrderDeleted?
  {
  }

  /** The list after the handler registered for `e` has run on `prev`. */
  function Apply(prev: seq<Order>, e: Event): seq<Order> {
    match e
    case NewOrder(o) => HandleNewOrder(prev, o)
    case OrderUpdated(id, status) => HandleOrderUpdated(prev, id, status)
    case OrdersStatusChanged(orders) => HandleOrdersStatusChanged(prev, orders)
    case OrderDeleted(id) => HandleOrderDeleted(prev, id)
  }

  /** An event under each channel name runs the handler registered for that name, on its payload. */
  lemma DispatchByName(prev: seq<Order>, e: Event)
    ensures EventName(e) == "newOrder" ==> Apply(prev, e) == HandleNewOrder(prev, e.order)
    ensures EventName(e) == "orderUpdated" ==> Apply(prev, e) == HandleOrderUpdated(prev, e.orderId, e.status)
    ensures EventName(e) == "ordersStatusChanged" ==> Apply(prev, e) == HandleOrdersStatusChanged(prev, e.orders)
    ensures EventName(e) == "orderDeleted" ==> Apply(prev, e) == HandleOrderDeleted(prev, e.orderId)
  {
  }

  /** The list after the events `es` have been handled in delivery order. */
  function ApplyAll(prev: seq<Order>, es: seq<Event>): seq<Order>
    decreases |es|
  {
    if es == [] then prev else ApplyAll(Apply(prev, es[0]), es[1..])
  }

  /** Handling a stream in two parts is handling it at once. */
  lemma {:induction false} ApplyAllAppend(prev: seq<Order>, es1: seq<Event>, es2: seq<Event>)
    ensures ApplyAll(prev, es1 + es2) == ApplyAll(ApplyAll(prev, es1), es2)
    decreases |es1|
  {
    if es1 == [] {
      assert es1 + es2 == es2;
    } else {
      assert (es1 + es2)[0] == es1[0];
      assert (es1 + es2)[1..] == es1[1..] + es2;
      ApplyAllAppend(Apply(prev, es1[0]), es1[1..], es2);
    }
  }

  /** Two events handled one after the other. */
  lemma ApplyAllPair(prev: seq<Order>, e1: Event, e2: Event)
    ensures ApplyAll(prev, [e1, e2]) == Apply(Apply(prev, e1), e2)
  {
    var es := [e1, e2];
    assert es[0] == e1 && es[1..] == [e2];
    assert ApplyAll(prev, es) == ApplyAll(Apply(prev, e1), [e2]);
    assert [e2][0] == e2 && [e2][1..] == [];
    assert ApplyAll(Apply(prev, e1), [e2]) == ApplyAll(Apply(Apply(prev, e1), e2), []);
  }

  /**
    A duplicated delivery of an event is harmless exactly for the events other
    than `newOrder`: a redelivered new order is appended a second time.
   */
  lemma RedeliveryHarmlessIffNotNewOrder(prev: seq<Order>, e: Event)
    ensures ApplyAll(prev, [e, e]) == Apply(prev, e) <==> !e.NewOrder?
  {
    ApplyAllPair(prev, e, e);
    match e
    case NewOrder(o) =>
      assert |Apply(Apply(prev, e), e)| == |prev| + 2;
    case OrderUpdated(id, status) =>
      OrderUpdatedLastWriteWins(prev, id, status, status);
    case OrdersStatusChanged(orders) =>
      OrdersStatusChangedIdempotent(prev, orders);
    case OrderDeleted(id) =>
      OrderDeletedIdempotent(prev, id);
  }

  /** The stream a screen sees when every event reaches two registrations of its handler, one after the other. */
  function Doubled(es: seq<Event>): (d: seq<Event>)
    ensures |d| == 2 * |es|
    ensures forall i :: 0 <= i < |es| ==> d[2 * i] == es[i] && d[2 * i + 1] == es[i]
    decreases |es|
  {
    if es == [] then [] else [es[0], es[0]] + Doubled(es[1..])
  }

  /**
    Handling every event twice in a row gives the same list as handling it once,
    as long as no event is a `newOrder`; a `newOrder` handled twice appends twice.
   */
  lemma {:induction false} DoubledStreamHarmlessWithoutNewOrder(prev: seq<Order>, es: seq<Event>)
    requires forall i :: 0 <= i < |es| ==> !es[i].NewOrder?
    ensures ApplyAll(prev, Doubled(es)) == ApplyAll(prev, es)
    decreases |es|
  {
    if es != [] {
      var d := Doubled(es);
      assert d == [es[0], es[0]] + Doubled(es[1..]);
      ApplyAllAppend(prev, [es[0], es[0]], Doubled(es[1..]));
      RedeliveryHarmlessIffNotNewOrder(prev, es[0]);
      DoubledStreamHarmlessWithoutNewOrder(Apply(prev, es[0]), es[1..]);
    }
  }

  /** Of two `orderUpdated` events for the same order, the later one decides its status. */
  lemma UpdatesLastWriteWins(prev: seq<Order>, id: string, s1: string, s2: string)
    ensures ApplyAll(prev, [OrderUpdated(id, s1), OrderUpdated(id, s2)]) == Apply(prev, OrderUpdated(id, s2))
  {
    ApplyAllPair(prev, OrderUpdated(id, s1), OrderUpdated(id, s2));
    OrderUpdatedLastWriteWins(prev, id, s1, s2);
  }

  /** A new order that is deleted straight after leaves a list that did not hold its id as it was. */
  lemma NewOrderThenDeletedIsNoOp(prev: seq<Order>, o: Order)
    requires o.id !in Ids(prev)
    ensures ApplyAll(prev, [NewOrder(o), OrderDeleted(o.id)]) == prev
  {
    ApplyAllPair(prev, NewOrder(o), OrderDeleted(o.id));
    OrderDeletedUndoesNewOrder(prev, o);
    OrderDeletedAbsentIsIdentity(prev, o.id);
  }

  /** An `orderDeleted` removes the order whatever status updates for it came before. */
  lemma UpdateThenDeleteIsDelete(prev: seq<Order>, id: string, status: string)
    ensures ApplyAll(prev, [OrderUpdated(id, status), OrderDeleted(id)]) == Apply(prev, OrderDeleted(id))
  {
    ApplyAllPair(prev, OrderUpdated(id, status), OrderDeleted(id));
    OrderDeletedAfterUpdate(prev, id, status);
  }
}
