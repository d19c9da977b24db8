/**
 * The bridge's shared state as an object: the id counter and the pending table
 * are fields that its methods change in place. Each method is specified by the
 * Correlation function for its step, so the lemmas there apply to the object.
 */
module FrontBridge {
  import opened Wrappers
  import opened Json
  import opened Protocol
  import opened Correlation

  class FrontInvokeState {
    var nextId: nat
    var pending: map<nat, Waiter>
    /** The ids taken from the counter whose call has not registered yet. */
    ghost var reserved: set<nat>
    /** Every id ever registered, with its waiter. */
    ghost var registered: map<nat, Waiter>
    /** Every reply handed to a waiter, in order. */
    ghost var log: seq<Delivery>

    ghost function Model(): Table
      reads this
    {
      Table(nextId, pending, reserved, registered, log)
    }

    ghost predicate Valid()
      reads this
    {
      Inv(Model())
    }

    /** The counter starts at 1 and the table is empty. */
    constructor ()
      ensures Model() == Init()
      ensures Valid()
    {
      nextId := 1;
      pending := map[];
      reserved := {};
      registered := map[];
      log := [];
      InitInv();
    }

    /** Takes the next request id: returns the counter's value and moves it on by one. */
    method AllocateId() returns (id: nat)
      modifies this
      ensures id == old(nextId)
      ensures Model() == Allocated(old(Model()))
      ensures old(Valid()) ==> Valid()
    {
      id := nextId;
      nextId := nextId + 1;
      reserved := reserved + {id};
    }

    /**
     * Registers a waiter under `id`, replacing whatever was there. Under an id that
     * was taken from the counter and not yet registered, with a new waiter, the
     * invariant is kept.
     */
    method AddPending(id: nat, w: Waiter)
      modifies this
      ensures Model() == Inserted(old(Model()), id, w)
      ensures (old(Valid()) && id in old(reserved) && w !in old(registered).Values) ==> Valid()
    {
      ghost var before := Model();
      pending := pending[id := w];
      reserved := reserved - {id};
      registered := registered[id := w];
      if Inv(before) && id in before.reserved && w !in before.registered.Values {
        InsertedKeepsInv(before, id, w);
      }
    }

    /**
     * Hands a reply to the waiter pending under its id, removing the entry first;
     * a reply whose id is not pending changes nothing.
     */
    method Resolve(resp: Response)
      modifies this
      ensures Model() == Resolved(old(Model()), resp)
      ensures old(Valid()) ==> Valid()
    {
      var sender := if resp.id in pending then Some(pending[resp.id]) else None;
      pending := pending - {resp.id};
      match sender
      case Some(tx) =>
        log := log + [Delivery(resp.id, tx, resp)];
      case None =>
    }

    /**
     * The start of a call, up to handing the request to the transport: take an id,
     * register a new waiter under it, then build the request from the serialized
     * payload (`None` when serialization failed) and emit it (`emitted` says whether
     * the transport accepted it). On either failure the entry stays registered.
     */
    method BeginInvoke(methodName: string, serialized: Option<Value>, emitted: bool)
      returns (id: nat, w: Waiter, r: Result<Request, Error>)
      modifies this
      ensures fresh(w)
      ensures id == old(nextId)
      ensures Model() == Inserted(Allocated(old(Model())), id, w)
      ensures old(Valid()) ==> Valid()
      ensures id in pending && pending[id] == w
      ensures r == if serialized.None? then Failure(SerializePayload)
                   else if !emitted then Failure(EmitRequest)
                   else Success(NewRequest(id, methodName, serialized.value))
    {
      id := AllocateId();
      w := new Waiter();
      AddPending(id, w);

      if serialized.None? {
        return id, w, Failure(SerializePayload);
      }
      var request := NewRequest(id, methodName, serialized.value);
      if !emitted {
        return id, w, Failure(EmitRequest);
      }
      r := Success(request);
    }

    /** An inbound event body: a reply that decodes is resolved; anything else is dropped. */
    method OnResponse(body: Value)
      modifies this
      ensures Model() == match DecodeResponse(body)
                         case Some(resp) => Resolved(old(Model()), resp)
                         case None => old(Model())
      ensures old(Valid()) ==> Valid()
    {
      var decoded := DecodeResponse(body);
      match decoded
      case Some(resp) => Resolve(resp);
      case None =>
    }
  }

  /**
   * Two calls whose replies arrive in the opposite order, the first of them twice:
   * each caller ends with its own reply, and neither the repeated reply nor a body
   * without an id changes anything.
   */
  method TwoCallsScenario(data: Value)
  {
    var s := new FrontInvokeState();
    var id1, w1, r1 := s.BeginInvoke("ping", Some(Null), true);
    var id2, w2, r2 := s.BeginInvoke("load", Some(Obj(map["x" := Number(1)])), true);
    assert id1 == 1 && id2 == 2 && w1 != w2;
    assert r1 == Success(Request(1, "ping", None));
    EncodedRequestRoundTrip(1, "ping", Null);

    // The second call is answered first.
    var loaded := Response(2, true, Some(data), None);
    var notFound := Response(1, false, None, Some("not found"));
    ghost var t0 := s.Model();
    CallerReceivesItsReply(t0, loaded, "load");
    s.Resolve(loaded);
    ghost var t1 := s.Model();
    CallerReceivesItsReply(t1, notFound, "ping");
    s.Resolve(notFound);
    ghost var t2 := s.Model();
    assert ReplyFor(t2.log, w1) == Some(notFound);
    assert ReplyFor(t2.log, w2) == Some(loaded);

    // The same reply again, then a body without an id.
    LateReplyIsInert(t2, notFound, |t2.log| - 1);
    s.Resolve(notFound);
    s.OnResponse(Obj(map["success" := Bool(true)]));
    assert s.Model() == t2 && s.pending == map[];

    FailureNamesMethodAndCause("ping", notFound);
    assert Contains(Describe(Await("ping", ReplyFor(t2.log, w1)).error), "not found");
  }
}
