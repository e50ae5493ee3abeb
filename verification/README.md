# Order relay server: a Dafny model

This project models the order-relay server of a small stock-trading demo
(`server/index.js`). Three pieces of that server are modelled:

- **The `clients` registry.** It maps a user id to a WebSocket connection. An `identify` message writes to it with `clients.set`. A closing connection is removed by scanning the entries in insertion order and deleting the first entry that holds it.
- **The `POST /order` admission check.** An order with a falsy `userId`, `symbol`, `quantity` or `price` gets a 400 answer. Any other order is published unchanged on `order-events` and then gets a 200 answer.
- **The `execution-reports` subscriber.** It reads the report's `userId` and looks up that id's connection. It sends the report, unchanged, only when a connection is found and its `readyState` is OPEN.

Files:

- `js_values.dfy`: JavaScript values as `JSON.parse` produces them, plus `undefined`. It defines ToBoolean (`Truthy`), property reads, the key equality of `Map`, and when converting a value to a string throws (`StringifyThrows`).
- `registry.dfy`: the registry, including the class `ConnectionRegistry` whose methods are the `message` and `close` handlers.
- `order_endpoint.dfy`: the order route, as the sequence of effects it performs (publish, then respond).
- `report_relay.dfy`: the routing decision for one report and the subscriber callback.

A JavaScript `Map` iterates in insertion order, and `set` on a key that is already present keeps that key's position. The registry is therefore an ordered `seq<Entry>`, so "the first entry holding this connection" is well defined.

Map keys are compared by SameValueZero. Every key passed to `set` or `get` comes from a freshly parsed message. A parsed array or object is a new reference, so it is never identical to a stored key. The model therefore compares keys by value only (`SameKey`), and `SameKeyIsSameValueZero` and `FindIsSameValueZero` prove that this agrees with SameValueZero over heap cells for such fresh keys. The `delete` in the close handler passes the stored key itself; the model deletes that entry by its position. Three consequences are modelled:

- An `identify` whose `userId` is an object appends an entry that no later lookup can reach.
- A report whose `userId` is an object is never delivered.
- An `identify` without a `userId` registers the key `undefined`. A report without a `userId` then reaches that connection.

The handlers log ids through template literals (`${userId}`), and that conversion to a string can throw a TypeError. A parsed object whose own properties include `toString` cannot be converted: that `toString` is not a function, and the inherited `valueOf` returns the object itself. An array cannot be converted when one of its elements cannot. The model records where these throws happen:

- An `identify` throws after `clients.set`, so the entry stays registered.
- A close throws after `clients.delete`, so the entry is already gone.
- An undeliverable report throws in the warning branch.

Each handler runs to completion before the next event is processed. Each handler is therefore one atomic step on the registry. A connection's `readyState` is an input: the set `open` of connections that are OPEN.

Two behaviours one might expect of such a relay do not hold in the code. The model follows the code:

- One might expect the order route to attach a server timestamp to the published order. The code publishes the request body verbatim, with no timestamp (`OrderEndpoint.AcceptedOrderPublishedVerbatim`).
- One might expect that when a connection has been overwritten under an id and then closes, the id is deregistered. In the code the overwrite replaces the stored handle, so the old connection's close finds nothing to delete and the id keeps its new connection (`Registry.ReidentifyThenCloseOldKeepsNew`).

## Model

| member | source | states |
|---|---|---|
| `JsValues.Truthy` | server/index.js:58 | the values the `!` field check treats as missing are exactly `undefined`, `null`, `false`, `0` and `""` |
| `JsValues.SameKeyIsSameValueZero` | server/index.js:37 | the value-level key test `SameKey` agrees with SameValueZero on values in memory (primitives by value, arrays and objects by heap cell) whenever an array or object probe lives in a cell the stored key does not |
| `JsValues.StringifyThrowsOnlyOnReferences` | server/index.js:38 | only arrays and objects can fail to convert to a string (`StringifyThrows`) |
| `JsValues.StringifyThrowsExamples` | server/index.js:38 | `{toString: 0}` and an array holding such an object fail to convert to a string, and `{valueOf: 0}` does not |
| `Registry.Find` | server/index.js:27 | a key finds the first entry whose key is SameValueZero-identical to it, or nothing when no entry matches |
| `Registry.FindIsSameValueZero` | server/index.js:78 | with each stored key in its own heap cell and a freshly parsed probe, `clients.get` finds the first entry whose key is SameValueZero to the probe, and finds nothing exactly when no key is |
| `Registry.Lookup` | server/index.js:78 | `clients.get` answers nothing exactly when no entry's key matches; with unique keys it answers the socket of the matching entry |
| `Registry.Assign` | server/index.js:37 | `clients.set` grows the map by at most one entry, and afterwards some entry holds the given socket |
| `Registry.RemoveFirstOf` | server/index.js:43-48 | the close loop removes at most one entry |
| `Registry.AssignEffect` | server/index.js:37 | `clients.set` keeps keys unique; it overwrites the socket of the matching entry in its original position and leaves every other entry unchanged, or it appends a new entry when no key matches |
| `Registry.AssignKeepsKeys` | server/index.js:37 | `clients.set` changes no stored key, changes no entry whose key differs, and appends only `(key, socket)` |
| `Registry.AssignLookup` | server/index.js:36-38 | after `set(key, socket)` the key finds `socket` and every other key finds what it found before |
| `Registry.RemoveFirstOfAt` | server/index.js:43-48 | the close loop's result is the old entries with only the first entry holding the connection deleted |
| `Registry.RemoveFirstOfAbsent` | server/index.js:43-45 | closing a connection that no entry holds (it never identified, or it was overwritten) changes nothing |
| `Registry.RemovesAtMostOne` | server/index.js:43-48 | a close removes exactly one entry when some entry holds the connection, and none otherwise |
| `Registry.RemovePreservesUniqueKeys` | server/index.js:43-48 | the close keeps the registry's keys unique |
| `Registry.CloseKeepsOtherMappings` | server/index.js:43-45 | a key that found another connection still finds it after the close, so closing a stale connection keeps the id's current mapping |
| `Registry.CloseForgetsRemovedId` | server/index.js:43-47 | after the close, the id whose entry was deleted finds nothing |
| `Registry.CloseLeavesStaleEntry` | server/index.js:43-48 | when one connection identified under two ids, a close removes only the first entry; the later id still finds the closed connection |
| `Registry.ReidentifyThenCloseOldKeepsNew` | server/index.js:36-48 | the sequence identify from `a`, identify the same id from `b`, close `a` leaves the id mapped to `b` |
| `Registry.ConnectionRegistry.constructor` | server/index.js:27 | the registry starts empty |
| `Registry.ConnectionRegistry.Set` | server/index.js:37 | the new entries are `Assign` of the old ones, and keys stay unique |
| `Registry.ConnectionRegistry.Get` | server/index.js:78 | answers nothing exactly when no key matches, otherwise the matching entry's socket |
| `Registry.ConnectionRegistry.OnMessage` | server/index.js:33-40 | a `null` message throws and changes nothing; an `identify` message sets `data.userId` to the sending connection, and then throws exactly when that id cannot be converted to a string; any other message neither throws nor changes the registry |
| `Registry.ConnectionRegistry.OnClose` | server/index.js:42-50 | the in-order scan with `break` leaves exactly `RemoveFirstOf` of the old entries, and keys stay unique; it throws exactly when the deleted entry's id cannot be converted to a string |
| `OrderEndpoint.HandleOrder` | server/index.js:55-68 | the route performs at most one publish, always of the body itself on `order-events`, followed by exactly one response |
| `OrderEndpoint.OrderAnsweredOnce` | server/index.js:58-67 | every order gets exactly one response, as the last effect: 400 exactly when a required field is falsy, 200 exactly when none is |
| `OrderEndpoint.RejectedOrderNotPublished` | server/index.js:58-60 | a rejected order only gets the 400 `Missing fields` answer and publishes nothing on any channel |
| `OrderEndpoint.AcceptedOrderPublishedVerbatim` | server/index.js:62-67 | an accepted order is published once, unchanged, on `order-events` only, and the 200 answer comes after the publish |
| `OrderEndpoint.FalsyFieldRejected` | server/index.js:58-60 | a quantity or price of 0, a missing price, or an empty user id or symbol is rejected with 400 |
| `ReportRelay.Route` | server/index.js:74-85 | a delivered report goes to an open socket with its payload unchanged |
| `ReportRelay.RouteTargetsRegisteredOpenSocket` | server/index.js:74-85 | a report throws exactly when it is `null` or its `userId` cannot be converted to a string; it is delivered exactly when an entry matches its `userId` and that entry's socket is open; it then goes to that socket only, with the payload unchanged |
| `ReportRelay.ReportReachesLatestIdentify` | server/index.js:78-80 | a report goes to the connection that most recently identified under its `userId` if that connection is open, and otherwise nothing is sent; an earlier connection never receives it |
| `ReportRelay.NonPrimitiveIdNeverDelivered` | server/index.js:78-84 | a report whose `userId` is an object or array is never delivered; the warning then throws exactly when that id cannot be converted to a string |
| `ReportRelay.OnReport` | server/index.js:71-86 | the subscriber callback's outcome on the live registry is the routing decision `Route` |

## Left out

- Express routing, `cors`, `bodyParser`, and HTTP server start-up on port 4000: framework plumbing with no decisions in it.
- The Redis clients: their connection, `publish` and `subscribe`. A publish is an effect in the route's output. The subscription is the callback applied to one report.
- A rejected `redis.publish`: the broker is assumed to accept every publish. The route's behaviour when a publish fails is not modelled.
- `JSON.parse` and `JSON.stringify`: messages are already-parsed values, and numbers are finite reals. `JSON.parse` turns an out-of-range literal such as `1e400` into an infinity, which `JSON.stringify` writes back as `null`. So "published verbatim" (`AcceptedOrderPublishedVerbatim`) and "payload unchanged" (`Route`, `RouteTargetsRegisteredOpenSocket`) hold on the wire only for finite numbers.
- Malformed JSON on a socket or on the report channel: the parse error is not caught in the source, and its effect is not modelled.
- What happens to the process after an uncaught TypeError: the model records only that the handler throws (`OnMessage`, `OnClose`, `Route`), and which registry changes came before the throw.
- Changes in socket readiness, and the transport's `send`: readiness is the input set `open`, and a send is the `Delivered` outcome.
- The `connection` event itself: a connection is only an identity (`Conn`).
- Concurrency and interleaving of handlers, and the output of `console` logging. Only the conversion of ids to strings inside log messages is modelled, because it can throw.
- Request bodies other than objects and arrays (`RequestBody`): this assumes body-parser 1.x, whose JSON parser in strict mode rejects top-level primitives before the route runs, and sets `req.body` to `{}` when it skips a request (no JSON content type, or no body). No package manifest fixes the version. Under body-parser 2.x a skipped request reaches the route with `req.body` undefined, and reading `order.userId` throws a TypeError; that case is not modelled.
- `client/src/App.jsx`: user-interface state and I/O, including its `Number(...)` conversions. Numbers are modelled as reals, and JSON cannot carry NaN.
- Property reads see only an object's own properties. None of the property names read here (`type`, `userId`, `symbol`, `quantity`, `price`) is inherited by plain objects, arrays or primitives.
