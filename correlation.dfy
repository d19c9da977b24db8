/**
 * The correlation bookkeeping as values: a counter of request ids and a table
 * of waiting calls, with one function per step and the invariant the steps keep.
 * FrontBridge.FrontInvokeState is the imperative object these functions specify.
 */
module Correlation {
  import opened Wrappers
  import opened Protocol

  /** The completion handle of one waiting call (the sending half of a one-shot channel). */
  class Waiter {
    constructor () {}
  }

  /** One reply handed to one waiter under one id. */
  datatype Delivery = Delivery(id: nat, waiter: Waiter, reply: Response)

  /**
   * The state: the next id and the pending table, and three records that exist
   * only for stating properties: the ids taken from the counter whose call has not
   * registered yet, every id ever registered with its waiter, and every delivery
   * made, in order.
   */
  datatype Table = Table(
    nextId: nat,
    pending: map<nat, Waiter>,
    reserved: set<nat>,
    registered: map<nat, Waiter>,
    log: seq<Delivery>)

  /** A fresh state: the counter at 1, nothing pending, nothing delivered. */
  function Init(): Table {
    Table(1, map[], {}, map[], [])
  }

  /** Taking an id: the caller gets `t.nextId` and the counter moves one on. */
  function Allocated(t: Table): Table {
    t.(nextId := t.nextId + 1, reserved := t.reserved + {t.nextId})
  }

  /** Registering a waiter under an id (a map insert). */
  function Inserted(t: Table, id: nat, w: Waiter): Table {
    t.(pending := t.pending[id := w], reserved := t.reserved - {id}, registered := t.registered[id := w])
  }

  /** A reply: remove its id from the table, then hand it to the waiter that was there, if any. */
  function Resolved(t: Table, resp: Response): Table {
    if resp.id in t.pending then
      t.(pending := t.pending - {resp.id},
         log := t.log + [Delivery(resp.id, t.pending[resp.id], resp)])
    else t
  }

  /**
   * The three things that happen to the table, each atomically: a call takes an id,
   * a call registers its waiter under the id it took, or a reply arrives. The steps
   * of concurrent calls and replies interleave in any order.
   */
  datatype Event = Allocate | Register(id: nat, waiter: Waiter) | Reply(reply: Response)

  function Step(t: Table, e: Event): Table {
    match e
    case Allocate => Allocated(t)
    case Register(id, w) => Inserted(t, id, w)
    case Reply(r) => Resolved(t, r)
  }

  function Run(t: Table, es: seq<Event>): Table
    decreases |es|
  {
    if es == [] then t else Run(Step(t, es[0]), es[1..])
  }

  /** A call registers under the id it took and not yet registered, with a new handle. */
  predicate StepOk(t: Table, e: Event) {
    e.Register? ==> e.id in t.reserved && e.waiter !in t.registered.Values
  }

  predicate RunOk(t: Table, es: seq<Event>)
    decreases |es|
  {
    es == [] || (StepOk(t, es[0]) && RunOk(Step(t, es[0]), es[1..]))
  }

  /** The ids handed out by the calls of a run, in order. */
  function AllocatedIds(t: Table, es: seq<Event>): seq<nat>
    decreases |es|
  {
    if es == [] then []
    else (if es[0].Allocate? then [t.nextId] else []) + AllocatedIds(Step(t, es[0]), es[1..])
  }

  /** The first reply handed to `w`, if any. */
  function ReplyFor(log: seq<Delivery>, w: Waiter): Option<Response>
    decreases |log|
  {
    if log == [] then None
    else if log[0].waiter == w then Some(log[0].reply)
    else ReplyFor(log[1..], w)
  }

  /**
   * The invariant: every id taken is below the counter, and a taken id is either
   * still reserved by its call or registered, never both; a pending entry is the
   * waiter registered under its id; every delivery went to the waiter registered
   * under its id, carries a reply with that id, and its id is no longer pending;
   * no id is delivered twice; no waiter is registered under two ids.
   */
  ghost predicate Inv(t: Table) {
    && 1 <= t.nextId
    && (forall id :: id in t.reserved ==> 1 <= id < t.nextId && id !in t.registered)
    && (forall id :: id in t.registered ==> 1 <= id < t.nextId)
    && (forall id :: id in t.pending ==> id in t.registered && t.registered[id] == t.pending[id])
    && (forall i :: 0 <= i < |t.log| ==>
          && t.log[i].id in t.registered
          && t.registered[t.log[i].id] == t.log[i].waiter
          && t.log[i].reply.id == t.log[i].id
          && t.log[i].id !in t.pending)
    && (forall i, j :: 0 <= i < j < |t.log| ==> t.log[i].id != t.log[j].id)
    && (forall a, b :: a in t.registered && b in t.registered && a != b ==> t.registered[a] != t.registered[b])
  }

  // ---------------------------------------------------------------------
  // The invariant holds initially and every step keeps it
  // ---------------------------------------------------------------------

  lemma InitInv()
    ensures Inv(Init())
    ensures Init().nextId == 1 && Init().pending == map[] && Init().log == []
    ensures Init().reserved == {}
  {
  }

  /**
   * The id the counter hands out is in no entry, reserved, pending or delivered;
   * and once taken, it stays unregistered until its own call registers it, so
   * registering under it overwrites nothing.
   */
  lemma FreshIdUnused(t: Table)
    requires Inv(t)
    ensures t.nextId !in t.reserved && t.nextId !in t.pending && t.nextId !in t.registered
    ensures forall i :: 0 <= i < |t.log| ==> t.log[i].id != t.nextId
    ensures forall id :: id in t.reserved ==> id !in t.pending && forall i :: 0 <= i < |t.log| ==> t.log[i].id != id
  {
  }

  lemma AllocatedKeepsInv(t: Table)
    requires Inv(t)
    ensures Inv(Allocated(t))
  {
  }

  lemma InsertedKeepsInv(t: Table, id: nat, w: Waiter)
    requires Inv(t)
    requires id in t.reserved
    requires w !in t.registered.Values
    ensures Inv(Inserted(t, id, w))
  {
  }

  lemma ResolvedKeepsInv(t: Table, resp: Response)
    requires Inv(t)
    ensures Inv(Resolved(t, resp))
  {
  }

  lemma StepKeepsInv(t: Table, e: Event)
    requires Inv(t) && StepOk(t, e)
    ensures Inv(Step(t, e))
  {
    match e
    case Allocate =>
      AllocatedKeepsInv(t);
    case Register(id, w) =>
      InsertedKeepsInv(t, id, w);
    case Reply(r) =>
      ResolvedKeepsInv(t, r);
  }

  lemma {:induction false} RunKeepsInv(t: Table, es: seq<Event>)
    requires Inv(t) && RunOk(t, es)
    ensures Inv(Run(t, es))
    decreases |es|
  {
    if es != [] {
      StepKeepsInv(t, es[0]);
      RunKeepsInv(Step(t, es[0]), es[1..]);
    }
  }

  // ---------------------------------------------------------------------
  // Ids
  // ---------------------------------------------------------------------

  predicate Increasing(ids: seq<nat>) {
    forall i, j :: 0 <= i < j < |ids| ==> ids[i] < ids[j]
  }

  predicate Within(ids: seq<nat>, lo: nat, hi: nat) {
    forall i :: 0 <= i < |ids| ==> lo <= ids[i] < hi
  }

  lemma PrependId(x: nat, rest: seq<nat>, hi: nat)
    requires x < hi && Within(rest, x + 1, hi) && Increasing(rest)
    ensures Within([x] + rest, x, hi) && Increasing([x] + rest)
  {
  }

  /**
   * The ids handed out during a run start at the counter, rise strictly (so never
   * repeat) and stay below the counter after the run.
   */
  lemma {:induction false} AllocatedIdsIncrease(t: Table, es: seq<Event>)
    ensures Within(AllocatedIds(t, es), t.nextId, Run(t, es).nextId)
    ensures Increasing(AllocatedIds(t, es))
    ensures t.nextId <= Run(t, es).nextId
    decreases |es|
  {
    if es != [] {
      var t1 := Step(t, es[0]);
      var rest := AllocatedIds(t1, es[1..]);
      AllocatedIdsIncrease(t1, es[1..]);
      assert Run(t, es) == Run(t1, es[1..]);
      if es[0].Allocate? {
        assert t1.nextId == t.nextId + 1;
        assert AllocatedIds(t, es) == [t.nextId] + rest;
        PrependId(t.nextId, rest, Run(t, es).nextId);
      } else {
        assert t1.nextId == t.nextId;
        assert AllocatedIds(t, es) == rest;
      }
    }
  }

  /** From a fresh state the first id taken is 1. */
  lemma FirstIdIsOne(es: seq<Event>)
    ensures AllocatedIds(Init(), [Allocate] + es)[0] == 1
  {
    assert ([Allocate] + es)[1..] == es;
  }

  // ---------------------------------------------------------------------
  // Registering and resolving
  // ---------------------------------------------------------------------

  /** After an insert the table maps `id` to `w` and every other entry is as before. */
  lemma InsertedUpdatesOnlyId(t: Table, id: nat, w: Waiter)
    ensures var t' := Inserted(t, id, w);
      && id in t'.pending && t'.pending[id] == w
      && t'.pending.Keys == t.pending.Keys + {id}
      && (forall k :: k in t.pending && k != id ==> t'.pending[k] == t.pending[k])
      && t'.nextId == t.nextId && t'.log == t.log
      && t'.reserved == t.reserved - {id}
  {
  }

  /**
   * A reply whose id is pending removes exactly that key and makes exactly one
   * delivery, to that key's waiter; every other entry is as before.
   */
  lemma ResolvePendingDeliversOnce(t: Table, resp: Response)
    requires resp.id in t.pending
    ensures var t' := Resolved(t, resp);
      && t'.pending.Keys == t.pending.Keys - {resp.id}
      && (forall k :: k in t'.pending ==> t'.pending[k] == t.pending[k])
      && t'.log == t.log + [Delivery(resp.id, t.pending[resp.id], resp)]
      && t'.nextId == t.nextId && t'.reserved == t.reserved && t'.registered == t.registered
  {
  }

  /** A reply whose id is not pending changes nothing and delivers nothing. */
  lemma ResolveAbsentIsInert(t: Table, resp: Response)
    requires resp.id !in t.pending
    ensures Resolved(t, resp) == t
  {
  }

  /** A second reply with the same id as one already resolved is a no-op. */
  lemma DuplicateReplyIsInert(t: Table, first: Response, second: Response)
    requires first.id == second.id
    ensures Resolved(Resolved(t, first), second) == Resolved(t, first)
  {
  }

  /** A reply whose id was delivered earlier, at any point in the past, is a no-op. */
  lemma LateReplyIsInert(t: Table, resp: Response, i: nat)
    requires Inv(t)
    requires i < |t.log| && t.log[i].id == resp.id
    ensures Resolved(t, resp) == t
  {
  }

  // ---------------------------------------------------------------------
  // Exactly-once delivery to the right caller
  // ---------------------------------------------------------------------

  /** No waiter receives two replies. */
  lemma AtMostOneReplyPerWaiter(t: Table)
    requires Inv(t)
    ensures forall i, j :: 0 <= i < j < |t.log| ==> t.log[i].waiter != t.log[j].waiter
  {
  }

  /** A reply handed to the waiter registered under `id` carries `id`. */
  lemma ReplyMatchesRegistration(t: Table, id: nat, i: nat)
    requires Inv(t)
    requires id in t.registered && i < |t.log| && t.log[i].waiter == t.registered[id]
    ensures t.log[i].reply.id == id
  {
  }

  lemma {:induction false} ReplyForAbsent(log: seq<Delivery>, w: Waiter)
    requires forall i :: 0 <= i < |log| ==> log[i].waiter != w
    ensures ReplyFor(log, w) == None
    decreases |log|
  {
    if log != [] {
      ReplyForAbsent(log[1..], w);
    }
  }

  lemma {:induction false} ReplyForAppend(log: seq<Delivery>, d: Delivery, w: Waiter)
    ensures ReplyFor(log + [d], w) ==
      if ReplyFor(log, w).Some? then ReplyFor(log, w)
      else if d.waiter == w then Some(d.reply)
      else None
    decreases |log|
  {
    if log == [] {
      assert log + [d] == [d];
    } else {
      assert (log + [d])[1..] == log[1..] + [d];
      ReplyForAppend(log[1..], d, w);
    }
  }

  /**
   * The waiter pending under a reply's id has received nothing yet; once the reply
   * is resolved it has received exactly that reply, its call ends with the reply's
   * interpretation, and what every other waiter has received is unchanged.
   */
  lemma CallerReceivesItsReply(t: Table, resp: Response, methodName: string)
    requires Inv(t)
    requires resp.id in t.pending
    ensures var w := t.pending[resp.id];
      var t' := Resolved(t, resp);
      && ReplyFor(t.log, w) == None
      && ReplyFor(t'.log, w) == Some(resp)
      && Await(methodName, ReplyFor(t'.log, w)) == Interpret(methodName, resp)
      && (forall other: Waiter :: other != w ==> ReplyFor(t'.log, other) == ReplyFor(t.log, other))
  {
    var w := t.pending[resp.id];
    var d := Delivery(resp.id, w, resp);
    forall i | 0 <= i < |t.log|
      ensures t.log[i].waiter != w
    {
      assert t.log[i].id != resp.id;
    }
    ReplyForAbsent(t.log, w);
    ReplyForAppend(t.log, d, w);
    forall other: Waiter | other != w
      ensures ReplyFor(t.log + [d], other) == ReplyFor(t.log, other)
    {
      ReplyForAppend(t.log, d, other);
    }
  }
}
