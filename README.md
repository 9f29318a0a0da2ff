# CourierApp order-list merge handlers, in Dafny

The courier rider app keeps the rider's orders as a list in React state. A
real-time channel pushes four kinds of events, and for each one a handler
passes an updater to `setOrders`. The updater takes the previous order list
and returns a new one:

- `newOrder` appends the pushed order;
- `orderUpdated` sets the `status` of every order whose `_id` is `orderId`;
- `ordersStatusChanged` builds a JavaScript `Map` from `[...prevOrders, ...orders]`,
  keyed by `_id`, and reads its values back;
- `orderDeleted` filters out the orders whose `_id` is `orderId`.

These handlers live in `utils/socket.js`, which is commented out in the
repository as it stands. Two screens register live copies of three of them on
their own socket connection, with the same bodies as utils/socket.js:11-21 and
32-37:

- app/(tabs)/Pending.jsx registers `orderUpdated` (lines 44-52), `orderDeleted`
  (lines 55-60) and `newOrder` (lines 63-65);
- app/(tabs)/Delivered.jsx registers `orderUpdated` (lines 47-55) and
  `orderDeleted` (lines 60-64).

So `HandleNewOrder`, `HandleOrderUpdated` and `HandleOrderDeleted` also
describe the live code. `ordersStatusChanged` and the four-way registration
appear in utils/socket.js alone.

Layout:

- `seqs.dfy` (module `Seqs`): first and last position of a value in a sequence,
  duplicate-freedom, sub-sequences, "in first-occurrence order", and the fact that
  this order fixes a sequence once its elements are known.
- `js_map.dfy` (module `JsMap`): the ECMAScript `Map` as a list of entries in
  insertion order. It covers `Map.prototype.set` (section 24.1.3.9 of ECMA-262),
  the `new Map(entries)` constructor (section 24.1.1.1) and `values()`. It states
  what the constructed map holds.
- `order_handlers.dfy` (module `OrderHandlers`): the `Order` record and the four
  handlers as functions over `seq<Order>`, with their lemmas.
- `socket_events.dfy` (module `SocketEvents`): the event datatype, the event
  names of the `socket.on` registrations, and applying a stream of events one
  updater after another.

`handleOrdersStatusChanged` is modelled through the `Map` mechanism itself. It
is also characterised without it, by `IsMergeOf`: every `_id` once, in
first-occurrence order, each with its last record. `MergeOfUnique` shows that
this characterisation fixes the list. Idempotence and the "unchanged
concatenation" result follow from it.

A collection that never held two orders with the same id, or an "upsert" that
inserted an unknown order on `orderUpdated`, would behave differently. The code
does neither, and the model follows the code:

- `handleNewOrder` appends without a duplicate check (`NewOrderNoDuplicateCheck`);
- `orderUpdated` for an unknown id changes nothing (`OrderUpdatedAbsentIsIdentity`).

The project verifies with

    dafny verify --resource-limit 2000000 --verification-time-limit 0 --warn-contradictory-assumptions seqs.dfy js_map.dfy order_handlers.dfy socket_events.dfy

## Model

| member | source | states |
|---|---|---|
| `OrderHandlers.HandleNewOrder` | utils/socket.js:11-13 | the new list is one longer, starts with the previous list unchanged, and ends with the pushed order |
| `OrderHandlers.NewOrderNoDuplicateCheck` | utils/socket.js:11-13 | the pushed order's `_id` occurs once more than before; a duplicate-free list stays duplicate-free exactly when that id was absent |
| `OrderHandlers.HandleOrderUpdated` | utils/socket.js:15-21 | same length and same `_id`s in the same order; an order with `_id == orderId` gets the new status, every other order keeps its status; all other fields are unchanged |
| `OrderHandlers.OrderUpdatedAbsentIsIdentity` | utils/socket.js:17-19 | an update whose `orderId` matches no order returns the list unchanged |
| `OrderHandlers.OrderUpdatedLastWriteWins` | utils/socket.js:15-21 | two updates of the same id leave the later status (repeating one update is harmless) |
| `OrderHandlers.OrderUpdatedCommute` | utils/socket.js:15-21 | updates of two different ids give the same list in either order |
| `OrderHandlers.HandleOrderDeleted` | utils/socket.js:32-37 | the result is no longer than the list, and every order in it was in the list and has another `_id`; `OrderDeletedRemovesId`, `OrderDeletedKeepsOthers` and `OrderDeletedKeepsOrder` state its properties, and `OrderDeletedUnique` shows that the last two determine it |
| `OrderHandlers.OrderDeletedRemovesId` | utils/socket.js:34-36 | no order with `_id == orderId` remains |
| `OrderHandlers.OrderDeletedKeepsOthers` | utils/socket.js:34-36 | every order with another `_id` remains exactly as many times as before; orders with that id remain zero times |
| `OrderHandlers.OrderDeletedKeepsOrder` | utils/socket.js:34-36 | the remaining orders are a sub-sequence of the previous list, so their relative order is kept |
| `OrderHandlers.OrderDeletedUnique` | utils/socket.js:34-36 | any sub-sequence of the list that keeps each order with another `_id` as many times as the list has it, and no order with `orderId`, equals the filtered list |
| `OrderHandlers.OrderDeletedAbsentIsIdentity` | utils/socket.js:32-37 | deleting an id that no order has returns the list unchanged |
| `OrderHandlers.OrderDeletedIdempotent` | utils/socket.js:32-37 | deleting the same id twice equals deleting it once |
| `OrderHandlers.OrderDeletedAppend` | utils/socket.js:34-36 | the filter of a concatenation is the concatenation of the filters |
| `OrderHandlers.OrderDeletedUndoesNewOrder` | utils/socket.js:11-37 | deleting the id of a just-appended order equals deleting that id from the list before the append |
| `OrderHandlers.OrderDeletedAfterUpdate` | utils/socket.js:15-37 | a status update followed by a delete of the same id equals the delete alone |
| `OrderHandlers.KeyedById` | utils/socket.js:26 | the entries handed to `new Map` have the orders' `_id`s as keys and the orders themselves as values, in list order |
| `JsMap.Set` | utils/socket.js:25-27 | an existing key keeps its position and its first entry gets the new value; other entries are untouched; a new key is appended with its value |
| `JsMap.FromEntries` | utils/socket.js:25-27 | `new Map(entries)` as `set` on each entry in turn: the map never has more entries than were given; `FromEntriesSpec` states what it holds |
| `JsMap.FromEntriesSpec` | utils/socket.js:25-27 | the constructed map holds each key of the entries exactly once, in first-occurrence order, with the value of the last entry for that key |
| `JsMap.Values` | utils/socket.js:28 | the values of the map's entries in entry order; no contract of its own, `OrdersStatusChangedSpec` states what it yields here |
| `OrderHandlers.HandleOrdersStatusChanged` | utils/socket.js:23-30 | the merge through the `Map` itself: never more records than the previous and the incoming orders together; `OrdersStatusChangedSpec` and the lemmas below state what it returns |
| `OrderHandlers.OrdersStatusChangedSpec` | utils/socket.js:23-30 | no `_id` twice; the ids are exactly those of the previous and the incoming orders; they come in first-occurrence order of `prev ++ orders`; each record is the last one with its id in `prev ++ orders` |
| `OrderHandlers.MergeOfUnique` | utils/socket.js:25-28 | two lists that both satisfy that characterisation for the same input are equal |
| `OrderHandlers.OrdersStatusChangedIdempotent` | utils/socket.js:23-30 | merging the same incoming orders a second time changes nothing |
| `OrderHandlers.OrdersStatusChangedIsConcatIffDistinct` | utils/socket.js:23-30 | the result is `prev ++ orders` itself exactly when no `_id` occurs twice in it |
| `OrderHandlers.OrdersStatusChangedIncomingWins` | utils/socket.js:25-28 | a record whose id came in is the last incoming record with that id; any other record is the last one `prev` held with its id; with duplicate-free incoming orders, each incoming order is in the result |
| `SocketEvents.EventName` | utils/socket.js:40-43 | the channel name is `newOrder` exactly for a new order, `orderUpdated` exactly for a status update, `ordersStatusChanged` exactly for a batch of orders, `orderDeleted` exactly for a deletion |
| `SocketEvents.EventNameIdentifiesHandler` | utils/socket.js:40-43 | events under the same name are of the same kind, so each name reaches one handler |
| `SocketEvents.Apply` | utils/socket.js:40-43 | runs the handler registered for the event; `DispatchByName` states which handler each channel name reaches |
| `SocketEvents.DispatchByName` | utils/socket.js:40-43 | an event under `newOrder` runs `handleNewOrder`, under `orderUpdated` runs `handleOrderUpdated`, under `ordersStatusChanged` runs `handleOrdersStatusChanged`, under `orderDeleted` runs `handleOrderDeleted`, each on the event's payload |
| `SocketEvents.ApplyAll` | utils/socket.js:11-43 | the updaters of a stream of events run one after another in delivery order; `ApplyAllAppend` and the event lemmas below state its properties |
| `SocketEvents.ApplyAllAppend` | utils/socket.js:40-43 | handling a stream of events in two parts equals handling it at once |
| `SocketEvents.RedeliveryHarmlessIffNotNewOrder` | utils/socket.js:11-43 | delivering an event twice equals delivering it once exactly when it is not `newOrder` |
| `SocketEvents.DoubledStreamHarmlessWithoutNewOrder` | utils/socket.js:11-43 | when each event of a stream is handled twice in a row, as on a screen whose effect ran twice and whose first handlers were never unsubscribed (app/(tabs)/Pending.jsx:32-77, see "## Left out"), the list is the same as with single delivery, as long as no event is a `newOrder` |
| `SocketEvents.UpdatesLastWriteWins` | utils/socket.js:15-21 | of two `orderUpdated` events for one order, the later one decides the status |
| `SocketEvents.NewOrderThenDeletedIsNoOp` | utils/socket.js:11-37 | a `newOrder` for an id the list did not have, followed by `orderDeleted` of that id, gives back the original list |
| `SocketEvents.UpdateThenDeleteIsDelete` | utils/socket.js:15-37 | `orderUpdated` then `orderDeleted` of the same id equals the delete alone |

## Left out

- The socket connection (utils/socket.js:5-9, 45-57) is not modelled. This covers `io(...)`, the `connect` log, reading the rider id from AsyncStorage for `joinRoom`, and `socket.off`/`disconnect`. It is network and asynchronous plumbing.
- The `console.log` in `handleOrderDeleted` (utils/socket.js:33) is I/O and is not modelled.
- The commented `useEffect` snippet (utils/socket.js:61-67) is not modelled. It is React lifecycle wiring.
- React's `setOrders` queue is modelled as applying the updaters one after another in delivery order (`SocketEvents.ApplyAll`). Render batching and the order in which the network delivers events are not modelled.
- JavaScript values are narrowed: `_id`, `orderId` and `status` are strings. Missing or `undefined` fields and non-string ids are not modelled. So are the cases where SameValueZero differs from equality (`NaN`, `+0`/`-0`).
- The order's other properties are a `rest` map from property names to JSON values, which the handlers carry unchanged. JSON numbers are `real`s: the handlers never read them, so double-precision rounding is not modelled. That object spread copies only own enumerable properties is not modelled.
- The screens' socket wiring is not modelled beyond one consequence. app/(tabs)/Pending.jsx:32-77 and app/(tabs)/Delivered.jsx:35-75 open a connection with the rider id as a query parameter and emit `joinRoom`. They build a cleanup closure (`socket.off`, `disconnect`; Pending.jsx:67-73, Delivered.jsx:66-71), but it is returned from the async `initializeSocket`, and the `useEffect` callback (Pending.jsx:76, Delivered.jsx:74) returns nothing. So React never runs it: a screen never unsubscribes or disconnects. When React runs the effect a second time for the same screen, as it does in development under React's strict mode, the screen holds two connections, and each event runs its updater twice on the same order list. `RedeliveryHarmlessIffNotNewOrder` and `DoubledStreamHarmlessWithoutNewOrder` state the effect: harmless for `orderUpdated` and `orderDeleted`, a duplicate append for `newOrder`. The model covers the doubled stream only with each event's two deliveries back to back; other interleavings of the two connections are not modelled. The commented utils/socket.js:51-57 returns its cleanup the way React expects. The `console.log` at app/(tabs)/Pending.jsx:56 is I/O.
- The rest of the screens under app/(tabs), app/RiderLogin.jsx, components/WelcomeCard.jsx and utils/axiosInstance.js are not part of this model. They hold UI, HTTP calls and AsyncStorage access.
- A full-refresh replace, filtered views and optimistic local status updates do not appear in utils/socket.js, so they are not modelled.
- The `riderBalanceUpdated` event has no handler in utils/socket.js and is not modelled.
