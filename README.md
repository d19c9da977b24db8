# FrontBridge correlation core in Dafny

The FrontBridge module lets backend code call a method in the frontend and wait for a
typed answer. The only channel between the two is a pair of broadcast events:
`request` going out, `response` coming back. The bridge pairs each reply with its
call. It keeps a counter of request ids and a table from id to the waiting call's
completion handle (a *waiter*):

- a call takes the next id, registers a new waiter under it, builds the request and
  emits it;
- a reply removes its id from the table first and hands the reply to the waiter that was
  there, if there was one;
- the waiting call turns the reply into its result.

This project models that bookkeeping and proves its correlation guarantees. Each id is
handed out once, in increasing order. There is at most one waiter per id. Each reply
reaches at most one waiter, and a waiter only ever gets the reply carrying its own id.
Duplicate and late replies change nothing.

Modules:

- `Wrappers`: `Option` and `Result`.
- `Json`: JSON values as an abstract tree whose numbers are integers.
- `Protocol`: the `FrontInvokeRequest` / `FrontInvokeResponse` shapes and their wire
  forms. It also maps a delivered reply, or a closed handle, to the caller's result,
  and holds the error texts the caller sees.
- `Correlation`: the counter and the pending table as a value (`Table`), with
  one function per step (`Allocated`, `Inserted`, `Resolved`, `Step`, `Run`),
  the invariant `Inv` and the lemmas. Delivery through the one-shot channel
  (`tx.send`) is recorded in a history `log` of `Delivery(id, waiter, reply)`. A second
  history, `registered`, remembers every id ever registered with its waiter. Both
  exist only to state properties.
- `FrontBridge`: `FrontInvokeState`, a class whose `nextId` and `pending` fields its
  methods change in place (the histories are ghost fields). Each method's
  postcondition gives its new state as the matching `Correlation` function of
  the old state, so the lemmas about those functions apply to the object.
  `TwoCallsScenario` is a client that makes two calls and answers them out of order,
  one of them twice. It shows that each caller gets its own reply.

`invoke_frontend` registers the waiter (src/lib.rs:110) before it serializes the
payload (src/lib.rs:112). So a serialization failure, like an emission failure,
leaves an orphaned entry in the table. `BeginInvoke` keeps that order and says that
the entry stays in both failure cases.

Taking an id (src/lib.rs:108) and registering the waiter (src/lib.rs:110) are two
separate steps of a call. Other calls and replies may run between them. In
`Correlation` they are two events, `Allocate` and `Register(id, w)`. A run is any
interleaving of the events of many calls and replies. The ghost set `reserved` holds
the ids that have been taken but not yet registered.

## Model

| member | source | states |
|---|---|---|
| `Protocol.NewRequestShape` | src/lib.rs:113-117 | The request carries the allocated id and the method name. Its payload is absent exactly when the serialized payload is null, and otherwise holds that value. |
| `Protocol.EncodedRequestRoundTrip` | src/lib.rs:19-25 | The wire object has `id` and `method`. It has a `payload` key exactly when the payload is not null. A reader that treats a missing key as null recovers the payload. |
| `Protocol.DecodeResponse` | src/lib.rs:27-35 | A body decodes if and only if it has the fields by name as an object, or by position as an array of two to four elements. `id` must be a 64-bit unsigned number and `success` a boolean, and `error` must be missing, null or a string. The decoded fields are taken from the body, and a missing or null `data`/`error` becomes `None`. |
| `Protocol.DecodeEncodeResponse` | src/lib.rs:27-35 | A reply with a 64-bit id whose `data` is not `Some(Null)` decodes back to itself from its object wire form with absent fields left out. No decoded reply has `data == Some(Null)`. |
| `Protocol.MissingIdIsMalformed` | src/lib.rs:27-35 | An object body without a valid `id` decodes to nothing. |
| `Protocol.ArrayFormMatchesObjectForm` | src/lib.rs:27-35 | A four-element array body decodes exactly as the object with the same fields by name. |
| `Protocol.ArrayLengthOutOfRange` | src/lib.rs:27-35 | An array body with fewer than two or more than four elements decodes to nothing. |
| `Protocol.SuccessYieldsData` | src/lib.rs:127-129 | A successful reply gives its `data`, or null when it has none. |
| `Protocol.FailureNamesMethodAndCause` | src/lib.rs:130-134 | A failed reply gives an error. The error's text contains the method name and the reply's `error`, or "unknown error" when the reply has none. |
| `Protocol.DroppedNamesMethod` | src/lib.rs:123-125 | A handle that closes without a reply gives an error whose text names the method. |
| `Correlation.InitInv` | src/lib.rs:43-48 | The fresh state has counter 1, an empty table and no deliveries, and satisfies the invariant. |
| `Correlation.FreshIdUnused` | src/lib.rs:108-110 | Under the invariant, the id the counter hands out is not reserved, pending, registered or delivered. A reserved id is neither pending nor delivered. So registering under it overwrites nothing. |
| `Correlation.AllocatedKeepsInv` | src/lib.rs:108 | Taking an id keeps the invariant. |
| `Correlation.InsertedKeepsInv` | src/lib.rs:79-84 | Inserting a new waiter under a reserved id (taken from the counter, not yet registered) keeps the invariant. |
| `Correlation.ResolvedKeepsInv` | src/lib.rs:63-77 | Resolving any reply keeps the invariant. |
| `Correlation.StepKeepsInv` | src/lib.rs:106-110 | Each event keeps the invariant: taking an id, registering a new waiter under a reserved id, and a reply. |
| `Correlation.RunKeepsInv` | src/lib.rs:63-110 | Every interleaving of id allocations, registrations and replies from an invariant state ends in an invariant state. |
| `Correlation.AllocatedIdsIncrease` | src/lib.rs:108 | The ids a run hands out are at least the starting counter and below the final counter. They strictly increase, so none repeats. |
| `Correlation.FirstIdIsOne` | src/lib.rs:45 | From a fresh state the first id handed out is 1. |
| `Correlation.InsertedUpdatesOnlyId` | src/lib.rs:79-84 | After an insert the table maps `id` to the new waiter. Every other key and value is unchanged, and `id` is no longer reserved. |
| `Correlation.ResolvePendingDeliversOnce` | src/lib.rs:63-70 | A reply whose id is pending removes exactly that key and makes one delivery, to that key's waiter. All other entries stay. |
| `Correlation.ResolveAbsentIsInert` | src/lib.rs:69-76 | A reply whose id is not pending leaves the state unchanged and delivers nothing. |
| `Correlation.DuplicateReplyIsInert` | src/lib.rs:63-76 | A second reply with an id already resolved changes nothing. |
| `Correlation.LateReplyIsInert` | src/lib.rs:63-76 | Under the invariant, a reply for any id already delivered changes nothing. |
| `Correlation.AtMostOneReplyPerWaiter` | src/lib.rs:63-70 | Under the invariant, no waiter appears in two deliveries. |
| `Correlation.ReplyMatchesRegistration` | src/lib.rs:63-70 | Under the invariant, a reply given to the waiter registered under `id` carries `id`. |
| `Correlation.CallerReceivesItsReply` | src/lib.rs:63-70 | When a reply's id is pending, its waiter had received nothing before and receives exactly that reply. Its call ends with that reply's interpretation. No other waiter's received reply changes. |
| `FrontBridge.FrontInvokeState.constructor` | src/lib.rs:43-48 | The new object is the fresh state and satisfies the invariant. |
| `FrontBridge.FrontInvokeState.AllocateId` | src/lib.rs:108 | Returns the old counter value and adds one to the counter. Nothing else changes, and the invariant is kept. |
| `FrontBridge.FrontInvokeState.AddPending` | src/lib.rs:79-84 | The new state is the old one with `id` mapped to the waiter. The invariant is kept for a fresh id and a new waiter. |
| `FrontBridge.FrontInvokeState.Resolve` | src/lib.rs:63-77 | The new state is `Resolved` of the old: remove the entry, then deliver to its waiter, or do nothing. The invariant is kept. |
| `FrontBridge.FrontInvokeState.BeginInvoke` | src/lib.rs:106-121 | Takes the next id and registers a newly allocated waiter under it (the new state is `Inserted(Allocated(old))`), keeping the invariant. It returns the built request, or the serialization or emission error with the entry left registered. |
| `FrontBridge.FrontInvokeState.OnResponse` | src/lib.rs:53-58 | A body that decodes is resolved. A body that does not decode leaves the state unchanged. |
| `Protocol.NewRequest` | src/lib.rs:113-117 | No contract of its own. `NewRequestShape` states what it builds. |
| `Protocol.EncodeRequest` | src/lib.rs:19-25 | No contract of its own. `EncodedRequestRoundTrip` states the wire object and the skipped `payload` key. |
| `Protocol.Interpret` | src/lib.rs:127-134 | No contract of its own. `SuccessYieldsData` and `FailureNamesMethodAndCause` state both branches. |
| `Protocol.Await` | src/lib.rs:123-125 | No contract of its own. `DroppedNamesMethod` states the closed-handle case, and `CallerReceivesItsReply` the delivered case. |
| `Protocol.Describe` | src/lib.rs:112-134 | No contract of its own. `FailureNamesMethodAndCause` and `DroppedNamesMethod` state what the texts contain. |
| `Correlation.Init` | src/lib.rs:43-48 | No contract of its own. `InitInv` states the fresh state. |
| `Correlation.Allocated` | src/lib.rs:108 | No contract of its own. `AllocatedKeepsInv`, `FreshIdUnused` and `AllocatedIdsIncrease` state it. `FrontInvokeState.AllocateId` is specified by it. |
| `Correlation.Inserted` | src/lib.rs:79-84 | No contract of its own. `InsertedUpdatesOnlyId` and `InsertedKeepsInv` state it. `FrontInvokeState.AddPending` is specified by it. |
| `Correlation.Resolved` | src/lib.rs:63-77 | No contract of its own. `ResolvePendingDeliversOnce`, `ResolveAbsentIsInert`, `DuplicateReplyIsInert` and `ResolvedKeepsInv` state it. `FrontInvokeState.Resolve` is specified by it. |

## Left out

- Event transport: the Tauri `emit`, `listen_any` and `AppHandle` calls and the event-name constants (src/lib.rs:13, 16-17, 50-61, 119-121). These are I/O into a library that is not part of this model. Whether emission succeeded is a parameter of `BeginInvoke`. `OnResponse` models only what the listener does with one event body.
- The process-wide `OnceCell` singleton and the one-time listener attachment (src/lib.rs:87-95). This is initialization under concurrency.
- Concurrency: `Mutex` locking and its poison panics, the memory ordering of `AtomicU64`, and `async`/`await` suspension. Each counter or table operation is taken as atomic. In `Correlation`, the allocations, registrations and replies of many calls interleave as a sequence of `Event`s.
- `FrontBridge.FrontInvokeState.BeginInvoke`: the object's methods run one at a time, so BeginInvoke takes its id and registers without another call in between. The interleavings the source allows between lines 108 and 110 are covered only at the level of `Correlation.Run`.
- The one-shot channel's receiving side. The caller's wait is the pure function `Await` applied to the reply delivered to its waiter (`ReplyFor`). `None` stands for a handle closed without a value. No step of the model closes a handle.
- JSON text parsing and printing, and floating-point numbers. Reply decoding is modelled on an already parsed value. A parse failure is a body that does not decode. Object key order and duplicate keys are not represented.
- The typed conversions `to_value` of the generic payload and `from_value` of the generic result (src/lib.rs:112, 129, 'deserialize frontend response'). The model takes values in and out as JSON. `to_value` becomes the parameter `serialized`, with `None` for a failure.
- Logging (src/lib.rs:57, 72-75).
- The counter's 64-bit wrap-around. `nextId` is unbounded. Only decoding checks that an inbound id fits 64 bits.
- `Protocol.Describe` gives the top-level text only. anyhow's chain of context messages is not modelled.
- `FrontBridge.FrontInvokeState.AddPending`: when `id` is already present, the replaced handle is dropped in the source, and its caller then fails as "dropped without response". The model only overwrites the entry. The invariant shows this never happens on the call path, because `FreshIdUnused` holds there.
