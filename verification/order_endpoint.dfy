/**
 The `POST /order` route: check that the four required fields are truthy,
 publish the unmodified body on the order channel, then answer 200; answer
 400 without publishing when a field is missing.
 */
module OrderEndpoint {
  import opened JsValues

  const ORDER_CHANNEL: string := "order-events"

  /** The fields whose falsiness makes the route answer 400. */
  const RequiredFields: seq<string> := ["userId", "symbol", "quantity", "price"]

  /**
   body-parser 1.x hands the route only objects and arrays: in strict mode its
   JSON parser rejects top-level primitives, and a request it skips gets `{}`.
   */
  type RequestBody = v: Value | v.Obj? || v.Arr? witness Obj(map[])

  /** What the route does, in the order it does it. */
  datatype Effect =
    | Publish(channel: string, message: Value)
    | Respond(status: nat, body: Value)

  const MissingFieldsReply: Value := Obj(map["error" := Str("Missing fields")])
  const SubmittedReply: Value := Obj(map["message" := Str("Order submitted")])

  /** The route handler, as the sequence of effects it performs. */
  function HandleOrder(order: RequestBody): (effects: seq<Effect>)
    ensures 0 < |effects| <= 2 && effects[|effects| - 1].Respond?
    ensures forall i :: 0 <= i < |effects| - 1 ==> effects[i] == Publish(ORDER_CHANNEL, order)
  {
    if !Truthy(Property(order, "userId")) || !Truthy(Property(order, "symbol"))
       || !Truthy(Property(order, "quantity")) || !Truthy(Property(order, "price"))
    then [Respond(400, MissingFieldsReply)]
    else [Publish(ORDER_CHANNEL, order), Respond(200, SubmittedReply)]
  }

  /** Some required field is absent or falsy. */
  ghost predicate MissingField(order: RequestBody) {
    exists k :: k in RequiredFields && !Truthy(Property(order, k))
  }

  /** The messages an effect sequence publishes on `channel`, in order. */
  function PublishedOn(effects: seq<Effect>, channel: string): seq<Value> {
    if effects == [] then []
    else (if effects[0].Publish? && effects[0].channel == channel then [effects[0].message] else [])
         + PublishedOn(effects[1..], channel)
  }

  /** The responses among the effects, in order. */
  function Responses(effects: seq<Effect>): seq<Effect> {
    if effects == [] then []
    else (if effects[0].Respond? then [effects[0]] else []) + Responses(effects[1..])
  }

  /**
   Every request gets exactly one response, as the last effect; it is 400
   exactly when a required field is missing and 200 otherwise.
   */
  lemma OrderAnsweredOnce(order: RequestBody)
    ensures var e := HandleOrder(order);
      |e| > 0 && Responses(e) == [e[|e| - 1]] &&
      (e[|e| - 1].status == 400 <==> MissingField(order)) &&
      (e[|e| - 1].status == 200 <==> !MissingField(order))
  {
    var e := HandleOrder(order);
    if MissingField(order) {
      var k :| k in RequiredFields && !Truthy(Property(order, k));
      assert Responses(e[1..]) == [];
    } else {
      assert Truthy(Property(order, RequiredFields[0]));
      assert Truthy(Property(order, RequiredFields[1]));
      assert Truthy(Property(order, RequiredFields[2]));
      assert Truthy(Property(order, RequiredFields[3]));
      assert Responses(e[1..][1..]) == [];
    }
  }

  /** A rejected order publishes nothing, on any channel. */
  lemma RejectedOrderNotPublished(order: RequestBody, channel: string)
    requires MissingField(order)
    ensures HandleOrder(order) == [Respond(400, MissingFieldsReply)]
    ensures PublishedOn(HandleOrder(order), channel) == []
  {
    var k :| k in RequiredFields && !Truthy(Property(order, k));
    assert PublishedOn(HandleOrder(order)[1..], channel) == [];
  }

  /**
   An accepted order is published once, verbatim (extra fields such as
   `side` included, no timestamp added), on the order channel only, and the
   200 answer comes after the publish.
   */
  lemma AcceptedOrderPublishedVerbatim(order: RequestBody, channel: string)
    requires !MissingField(order)
    ensures HandleOrder(order) == [Publish(ORDER_CHANNEL, order), Respond(200, SubmittedReply)]
    ensures PublishedOn(HandleOrder(order), channel) == if channel == ORDER_CHANNEL then [order] else []
  {
    assert Truthy(Property(order, RequiredFields[0]));
    assert Truthy(Property(order, RequiredFields[1]));
    assert Truthy(Property(order, RequiredFields[2]));
    assert Truthy(Property(order, RequiredFields[3]));
    var e := HandleOrder(order);
    assert PublishedOn(e[1..][1..], channel) == [];
  }

  /** Zero quantity or price and an empty user id or symbol are all rejected. */
  lemma FalsyFieldRejected(order: RequestBody)
    requires Property(order, "quantity") == Num(0.0) || Property(order, "price") == Num(0.0)
          || Property(order, "userId") == Str("") || Property(order, "symbol") == Str("")
          || Property(order, "price") == Undefined
    ensures MissingField(order)
    ensures HandleOrder(order) == [Respond(400, MissingFieldsReply)]
  {
    if Property(order, "quantity") == Num(0.0) {
      assert RequiredFields[2] == "quantity";
    } else if Property(order, "price") == Num(0.0) || Property(order, "price") == Undefined {
      assert RequiredFields[3] == "price";
    } else if Property(order, "userId") == Str("") {
      assert RequiredFields[0] == "userId";
    } else {
      assert RequiredFields[1] == "symbol";
    }
  }
}
