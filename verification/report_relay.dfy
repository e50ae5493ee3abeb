/**
 The subscriber callback on the execution-report channel: read the report's
 `userId`, look up the connection registered for it, and send the report to
 that connection only if it exists and is open.
 */
module ReportRelay {
  import opened JsValues
  import opened Registry

  /** What one report does: reach one connection, reach none, or throw. */
  datatype Delivery =
    | Delivered(socket: Conn, payload: Value)
    | NoSocket                  // the warning branch: nothing is sent
    | TypeError                 // destructuring `null`, or logging an id that cannot become a string

  /**
   The routing decision over a snapshot of the registry; `open` is the set of
   connections whose `readyState` is OPEN at that moment.
   */
  function Route(report: Value, clients: seq<Entry>, open: set<Conn>): (d: Delivery)
    ensures d.Delivered? ==> d.payload == report && d.socket in open
  {
    if IsNullish(report) then TypeError
    else
      var userId := Property(report, "userId");
      var userSocket := Lookup(clients, userId);
      if userSocket.Some? && userSocket.value in open then Delivered(userSocket.value, report)
      else if StringifyThrows(userId) then TypeError
      else NoSocket
  }

  /**
   A report reaches at most one connection: the one registered under its
   `userId`, only when that connection is open, and unchanged.
   */
  lemma RouteTargetsRegisteredOpenSocket(report: Value, clients: seq<Entry>, open: set<Conn>)
    requires UniqueKeys(clients)
    ensures Route(report, clients, open).TypeError? <==>
      IsNullish(report) || StringifyThrows(Property(report, "userId"))
    ensures Route(report, clients, open).Delivered? <==>
      !IsNullish(report) &&
      exists i :: 0 <= i < |clients| && SameKey(clients[i].userId, Property(report, "userId"))
                  && clients[i].socket in open
    ensures Route(report, clients, open).Delivered? ==>
      Route(report, clients, open).payload == report &&
      forall i :: 0 <= i < |clients| && SameKey(clients[i].userId, Property(report, "userId")) ==>
        Route(report, clients, open).socket == clients[i].socket
  {
    if !IsNullish(report) {
      StringifyThrowsOnlyOnReferences(Property(report, "userId"));
    }
  }

  /**
   A report for an id goes to the connection that identified under it most
   recently, never to an earlier one; if that connection is not open,
   nothing is sent.
   */
  lemma ReportReachesLatestIdentify(clients: seq<Entry>, report: Value, ws: Conn, open: set<Conn>)
    requires !IsNullish(report) && IsPrimitive(Property(report, "userId"))
    ensures Route(report, Assign(clients, Property(report, "userId"), ws), open) ==
            if ws in open then Delivered(ws, report) else NoSocket
  {
    AssignLookup(clients, Property(report, "userId"), ws, Property(report, "userId"));
    StringifyThrowsOnlyOnReferences(Property(report, "userId"));
  }

  /**
   A report whose `userId` is an object or array never reaches anyone: the
   parsed value is a new reference that no `Map` key is identical to. The
   warning that follows throws when the id cannot become a string.
   */
  lemma NonPrimitiveIdNeverDelivered(report: Value, clients: seq<Entry>, open: set<Conn>)
    requires !IsNullish(report) && !IsPrimitive(Property(report, "userId"))
    ensures !Route(report, clients, open).Delivered?
    ensures Route(report, clients, open) ==
            if StringifyThrows(Property(report, "userId")) then TypeError else NoSocket
  {
  }

  /** The callback subscribed to the `execution-reports` channel, reading the live registry. */
  method OnReport(registry: Registry.ConnectionRegistry, report: Value, open: set<Conn>) returns (d: Delivery)
    requires registry.Valid()
    ensures d == Route(report, registry.entries, open)
  {
    if IsNullish(report) {
      return TypeError;
    }
    var userId := Property(report, "userId");
    var userSocket := registry.Get(userId);
    if userSocket.Some? && userSocket.value in open {
      d := Delivered(userSocket.value, report);
    } else if StringifyThrows(userId) {
      d := TypeError;
    } else {
      d := NoSocket;
    }
  }
}
