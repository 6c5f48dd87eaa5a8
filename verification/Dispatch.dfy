/**
 The request hand-off of src/core/client/dispatch.rs: a queue of envelopes, each
 holding a request and a one-shot callback, between a sender and a connection
 task that may stop at any time. Destructors are explicit: a value that goes out
 of scope runs its handler first and then drops its fields.
 */
module Dispatch {
  import opened Wrappers
  import opened Sequences

  type Request = nat

  /** What a promise is resolved with; a failure may hand the request back. */
  datatype Answer = Response | Failed(message: Option<Request>)

  /** `Broken`: the sending half was dropped without a value, which makes the awaiting caller panic. */
  datatype Promise = Waiting | Answered(answer: Answer) | Broken

  /** `Callback::Retry`; `tx` names the promise, and is taken out by a send. */
  datatype Callback = Callback(tx: Option<nat>)

  datatype Message = Message(request: Request, callback: Callback)

  datatype Envelope = Envelope(slot: Option<Message>)

  /** The promises whose receiving half is still there. */
  type Promises = map<nat, Promise>

  // ----- One-shot channels, callbacks and envelopes -----

  function SendOn(ps: Promises, id: nat, a: Answer): Promises {
    if id in ps then ps[id := Answered(a)] else ps
  }

  function DropSender(ps: Promises, id: nat): Promises {
    if id in ps then ps[id := Broken] else ps
  }

  /** The fields of a callback going away. */
  function DropFields(cb: Callback, ps: Promises): Promises {
    if cb.tx.Some? then DropSender(ps, cb.tx.value) else ps
  }

  /** `Drop for Callback`, then its fields. */
  function DropCallback(cb: Callback, ps: Promises): Promises {
    var (cb', ps') := if cb.tx.Some? then (Callback(None), SendOn(ps, cb.tx.value, Failed(None))) else (cb, ps);
    DropFields(cb', ps')
  }

  /** `Callback::send`, which takes the sender out and then lets the callback go. */
  function SendCallback(cb: Callback, ps: Promises, a: Answer): Promises
    requires cb.tx.Some?
  {
    DropCallback(Callback(None), SendOn(ps, cb.tx.value, a))
  }

  /** `Drop for Envelope`, then its fields. */
  function DropEnvelope(e: Envelope, ps: Promises): Promises
    requires e.slot.Some? ==> e.slot.value.callback.tx.Some?
  {
    if e.slot.Some? then SendCallback(e.slot.value.callback, ps, Failed(Some(e.slot.value.request))) else ps
  }

  // ----- The channel -----

  /** The `want` signal from the receiver to the sender. */
  datatype Signal = Idle | Wanting | Closed

  /** What the connection task holds: a callback, and the request until it is written out. */
  datatype Held = Held(callback: Callback, request: Option<Request>)

  /** `gap`: the receiver has found the queue empty and has not signalled yet. */
  datatype Channel = Channel(
    queue: seq<Envelope>,
    signal: Signal,
    buffered: bool,
    bounded: bool,
    open: bool,
    gap: bool,
    held: map<nat, Held>,
    promises: Promises,
    callers: set<Request>,
    gone: set<Request>,
    nextPromise: nat,
    nextRequest: nat)

  const NEW := Channel([], Idle, false, true, true, false, map[], map[], {}, {}, 0, 0)

  datatype Event =
    | NewRequest
    | TrySend(request: Request)
    | Unbound
    | Recv
    | FindEmpty
    | Want
    | Close
    | DropReceiver
    | WriteOut(id: nat)
    | Reply(id: nat)
    | Fail(id: nat)
    | DropHeld(id: nat)
    | Await(id: nat)
    | DropPromise(id: nat)

  /** `can_send`, before it notes the send. */
  predicate CanSend(c: Channel) {
    c.bounded ==> c.signal.Wanting? || !c.buffered
  }

  predicate HasCallback(e: Envelope) {
    e.slot.Some? && e.slot.value.callback.tx.Some?
  }

  function Id(e: Envelope): nat
    requires HasCallback(e)
  {
    e.slot.value.callback.tx.value
  }

  predicate AllHaveCallbacks(queue: seq<Envelope>) {
    forall i :: 0 <= i < |queue| ==> HasCallback(queue[i])
  }

  /** The promises that a queue can answer, in order. */
  function Ids(queue: seq<Envelope>): (ids: seq<nat>)
    requires AllHaveCallbacks(queue)
    ensures |ids| == |queue| && forall i :: 0 <= i < |queue| ==> ids[i] == Id(queue[i])
  {
    if queue == [] then [] else [Id(queue[0])] + Ids(queue[1..])
  }

  ghost predicate Enabled(c: Channel, e: Event) {
    match e
    case NewRequest => true
    case TrySend(r) => r in c.callers
    case Unbound => c.bounded
    case Recv => c.queue != [] && !c.gap && HasCallback(c.queue[0])
    case FindEmpty => c.queue == [] && c.open && !c.gap
    case Want => c.gap
    case Close => !c.gap
    case DropReceiver => !c.gap && AllHaveCallbacks(c.queue)
    case WriteOut(id) => id in c.held && c.held[id].request.Some?
    case Reply(id) => id in c.held && c.held[id].callback.tx.Some?
    case Fail(id) => id in c.held && c.held[id].callback.tx.Some?
    case DropHeld(id) => id in c.held
    case Await(id) => id in c.promises && !c.promises[id].Waiting?
    case DropPromise(id) => id in c.promises
  }

  function Lost(a: Promise): set<Request> {
    if a.Answered? && a.answer.Failed? && a.answer.message.Some? then {a.answer.message.value} else {}
  }

  function Kept(h: Held): set<Request> {
    if h.request.Some? then {h.request.value} else {}
  }

  /** `Sender::try_send` and `UnboundedSender::try_send`; a refused request goes back to its caller. */
  function Send(c: Channel, r: Request): Channel {
    if !CanSend(c) then c
    else
      var d := c.(signal := if c.bounded && c.signal.Wanting? then Idle else c.signal,
                  buffered := c.buffered || c.bounded);
      if !c.open then d
      else
        d.(queue := c.queue + [Envelope(Some(Message(r, Callback(Some(c.nextPromise)))))],
           promises := c.promises[c.nextPromise := Waiting],
           callers := c.callers - {r},
           nextPromise := c.nextPromise + 1)
  }

  /** The requests of envelopes that nobody is waiting for any more. */
  function Unclaimed(queue: seq<Envelope>, ps: Promises): set<Request> {
    if queue == [] then {}
    else
      var e := queue[0];
      Unclaimed(queue[1..], ps)
      + if HasCallback(e) && Id(e) !in ps then {e.slot.value.request} else {}
  }

  /** Dropping a queue drops its envelopes in order. */
  function DropQueue(queue: seq<Envelope>, ps: Promises): Promises
    requires AllHaveCallbacks(queue)
  {
    if queue == [] then ps else DropQueue(queue[1..], DropEnvelope(queue[0], ps))
  }

  /** A request whose answer nobody awaits is lost with it. */
  function LostWith(c: Channel, id: nat, lost: set<Request>): set<Request> {
    if id in c.promises then {} else lost
  }

  ghost function Apply(c: Channel, e: Event): Channel
    requires Enabled(c, e)
  {
    match e
    case NewRequest => c.(callers := c.callers + {c.nextRequest}, nextRequest := c.nextRequest + 1)
    case TrySend(r) => Send(c, r)
    case Unbound => c.(bounded := false)
    case Recv =>
      var m := c.queue[0].slot.value;
      c.(queue := c.queue[1..], held := c.held[m.callback.tx.value := Held(m.callback, Some(m.request))])
    case FindEmpty => c.(gap := true)
    case Want => c.(gap := false, signal := Wanting)
    case Close => c.(signal := Closed, open := false)
    case DropReceiver =>
      c.(signal := Closed, open := false, queue := [], promises := DropQueue(c.queue, c.promises),
         gone := c.gone + Unclaimed(c.queue, c.promises))
    case WriteOut(id) => c.(held := c.held[id := c.held[id].(request := None)], gone := c.gone + Kept(c.held[id]))
    case Reply(id) =>
      c.(held := c.held - {id}, promises := SendCallback(c.held[id].callback, c.promises, Response),
         gone := c.gone + Kept(c.held[id]))
    case Fail(id) =>
      c.(held := c.held - {id}, promises := SendCallback(c.held[id].callback, c.promises, Failed(c.held[id].request)),
         gone := c.gone + LostWith(c, id, Kept(c.held[id])))
    case DropHeld(id) =>
      c.(held := c.held - {id}, promises := DropCallback(c.held[id].callback, c.promises),
         gone := c.gone + Kept(c.held[id]))
    case Await(id) => c.(promises := c.promises - {id}, callers := c.callers + Lost(c.promises[id]))
    case DropPromise(id) => c.(promises := c.promises - {id}, gone := c.gone + Lost(c.promises[id]))
  }

  // ----- Every promise is answered -----

  /** A promise is waiting exactly while one live callback can answer it. */
  ghost predicate PromisesInv(c: Channel) {
    && AllHaveCallbacks(c.queue)
    && (forall id :: id in Ids(c.queue) ==> id < c.nextPromise && id !in c.held)
    && NoRepeats(Ids(c.queue))
    && (forall id :: id in c.held ==> id < c.nextPromise && c.held[id].callback == Callback(Some(id)))
    && (forall id :: id in c.promises ==>
          && id < c.nextPromise && !c.promises[id].Broken?
          && (c.promises[id].Waiting? <==> id in c.held || id in Ids(c.queue)))
  }

  lemma DropEnvelopeIs(e: Envelope, ps: Promises)
    requires HasCallback(e)
    ensures DropEnvelope(e, ps) == SendOn(ps, Id(e), Failed(Some(e.slot.value.request)))
    ensures DropEnvelope(e, ps).Keys == ps.Keys
  {
  }

  lemma {:induction false} DropQueueKeys(queue: seq<Envelope>, ps: Promises)
    requires AllHaveCallbacks(queue)
    ensures DropQueue(queue, ps).Keys == ps.Keys
  {
    if queue == [] {
    } else {
      DropEnvelopeIs(queue[0], ps);
      DropQueueKeys(queue[1..], DropEnvelope(queue[0], ps));
    }
  }

  /** A promise with no envelope in the queue is left as it is. */
  lemma {:induction false} DropQueueSpares(queue: seq<Envelope>, ps: Promises, id: nat)
    requires AllHaveCallbacks(queue) && id in ps && forall i :: 0 <= i < |queue| ==> Id(queue[i]) != id
    ensures id in DropQueue(queue, ps) && DropQueue(queue, ps)[id] == ps[id]
  {
    if queue == [] {
    } else {
      DropEnvelopeIs(queue[0], ps);
      DropQueueSpares(queue[1..], DropEnvelope(queue[0], ps), id);
    }
  }

  /** The answer that hands a queued request back. */
  function HandedBack(e: Envelope): Promise
    requires HasCallback(e)
  {
    Answered(Failed(Some(e.slot.value.request)))
  }

  /** An envelope with a promise of its own answers it. */
  lemma {:induction false} DropQueueReturns(queue: seq<Envelope>, ps: Promises, i: nat)
    requires AllHaveCallbacks(queue) && i < |queue| && Id(queue[i]) in ps
    requires forall j :: i < j < |queue| ==> Id(queue[j]) != Id(queue[i])
    ensures var id := Id(queue[i]);
            id in DropQueue(queue, ps) && DropQueue(queue, ps)[id] == HandedBack(queue[i])
  {
    var ps' := DropEnvelope(queue[0], ps);
    DropEnvelopeIs(queue[0], ps);
    if i == 0 {
      DropQueueSpares(queue[1..], ps', Id(queue[0]));
    } else {
      DropQueueReturns(queue[1..], ps', i - 1);
    }
  }

  /** Dropping the receiver answers every queued promise with its own request, and no other. */
  lemma {:induction false} DropQueueAnswers(queue: seq<Envelope>, ps: Promises)
    requires AllHaveCallbacks(queue) && NoRepeats(Ids(queue))
    ensures var qs := DropQueue(queue, ps);
            && qs.Keys == ps.Keys
            && (forall i :: 0 <= i < |queue| && Ids(queue)[i] in ps ==> qs[Ids(queue)[i]] == HandedBack(queue[i]))
            && (forall id :: id in ps && id !in Ids(queue) ==> qs[id] == ps[id])
  {
    var ids, qs := Ids(queue), DropQueue(queue, ps);
    DropQueueKeys(queue, ps);
    forall i | 0 <= i < |queue| && ids[i] in ps ensures qs[ids[i]] == HandedBack(queue[i]) {
      forall j | i < j < |queue| ensures Id(queue[j]) != Id(queue[i]) { assert ids[j] != ids[i]; }
      DropQueueReturns(queue, ps, i);
    }
    forall id | id in ps && id !in ids ensures qs[id] == ps[id] {
      forall i | 0 <= i < |queue| ensures Id(queue[i]) != id { assert ids[i] in ids; }
      DropQueueSpares(queue, ps, id);
    }
  }

  lemma SendKeepsPromises(c: Channel, r: Request)
    requires PromisesInv(c)
    ensures PromisesInv(Send(c, r))
  {
    var d := Send(c, r);
    if d.queue != c.queue {
      assert Ids(d.queue) == Ids(c.queue) + [c.nextPromise];
      forall i | 0 <= i < |c.queue| ensures Ids(c.queue)[i] != c.nextPromise { assert Ids(c.queue)[i] in Ids(c.queue); }
    }
  }

  lemma RecvKeepsPromises(c: Channel)
    requires PromisesInv(c) && Enabled(c, Recv)
    ensures PromisesInv(Apply(c, Recv))
  {
    assert Ids(c.queue) == [Id(c.queue[0])] + Ids(c.queue[1..]);
  }

  lemma DropReceiverKeepsPromises(c: Channel)
    requires PromisesInv(c) && Enabled(c, DropReceiver)
    ensures PromisesInv(Apply(c, DropReceiver))
  {
    DropQueueAnswers(c.queue, c.promises);
    var d := Apply(c, DropReceiver);
    forall id | id in c.promises
      ensures !d.promises[id].Broken? && (d.promises[id].Waiting? <==> id in c.held)
    {
      if id in Ids(c.queue) {
        var i :| 0 <= i < |c.queue| && Ids(c.queue)[i] == id;
      }
    }
  }

  /** The connection task answers with a callback that it holds. */
  lemma AnswerKeepsPromises(c: Channel, id: nat, a: Answer)
    requires PromisesInv(c) && id in c.held
    ensures PromisesInv(c.(held := c.held - {id}, promises := SendOn(c.promises, id, a)))
  {
  }

  lemma HeldKeepsPromises(c: Channel, e: Event)
    requires PromisesInv(c) && Enabled(c, e) && (e.Reply? || e.Fail? || e.DropHeld?)
    ensures PromisesInv(Apply(c, e))
  {
    var a := if e.Reply? then Response else Failed(if e.Fail? then c.held[e.id].request else None);
    var d := c.(held := c.held - {e.id}, promises := SendOn(c.promises, e.id, a));
    AnswerKeepsPromises(c, e.id, a);
    assert Apply(c, e) == d.(gone := Apply(c, e).gone);
  }

  lemma TakeKeepsPromises(c: Channel, e: Event)
    requires PromisesInv(c) && Enabled(c, e) && (e.Await? || e.DropPromise?)
    ensures PromisesInv(Apply(c, e))
  {
  }

  lemma PromisesStep(c: Channel, e: Event)
    requires PromisesInv(c) && Enabled(c, e)
    ensures PromisesInv(Apply(c, e))
  {
    match e
    case TrySend(r) => SendKeepsPromises(c, r);
    case Recv => RecvKeepsPromises(c);
    case DropReceiver => DropReceiverKeepsPromises(c);
    case Reply(_) => HeldKeepsPromises(c, e);
    case Fail(_) => HeldKeepsPromises(c, e);
    case DropHeld(_) => HeldKeepsPromises(c, e);
    case Await(_) => TakeKeepsPromises(c, e);
    case DropPromise(_) => TakeKeepsPromises(c, e);
    case _ =>
  }

  ghost predicate IsRun(c: Channel, run: seq<Event>)
    decreases |run|
  {
    run == [] || (Enabled(c, run[0]) && IsRun(Apply(c, run[0]), run[1..]))
  }

  ghost function After(c: Channel, run: seq<Event>): Channel
    requires IsRun(c, run)
    decreases |run|
  {
    if run == [] then c else After(Apply(c, run[0]), run[1..])
  }

  lemma {:induction false} RunKeepsPromises(c: Channel, run: seq<Event>)
    requires PromisesInv(c) && IsRun(c, run)
    ensures PromisesInv(After(c, run))
    decreases |run|
  {
    if run == [] {
    } else {
      PromisesStep(c, run[0]);
      RunKeepsPromises(Apply(c, run[0]), run[1..]);
    }
  }

  /** In every run: awaiting a promise never finds its sender gone, and a promise that no callback
      can answer any more has been answered. */
  lemma EveryPromiseIsAnswered(run: seq<Event>, id: nat)
    requires IsRun(NEW, run) && id in After(NEW, run).promises
    ensures var c := After(NEW, run);
            && !c.promises[id].Broken?
            && AllHaveCallbacks(c.queue)
            && (id !in c.held && id !in Ids(c.queue) <==> c.promises[id].Answered?)
            && (forall h :: h in c.held ==> c.held[h].callback.tx == Some(h))
  {
    assert Ids(NEW.queue) == [];
    RunKeepsPromises(NEW, run);
  }

  lemma AnswerStep(c: Channel, e: Event, id: nat)
    requires PromisesInv(c) && Enabled(c, e) && id < c.nextPromise && id in Apply(c, e).promises
    ensures id in c.promises && (c.promises[id].Answered? ==> Apply(c, e).promises[id] == c.promises[id])
  {
    if e.DropReceiver? {
      DropQueueAnswers(c.queue, c.promises);
    }
  }

  /** An answer is final: later events can only take it away together with its receiver. */
  lemma {:induction false} AnswerIsFinal(c: Channel, run: seq<Event>, id: nat)
    requires PromisesInv(c) && IsRun(c, run) && id < c.nextPromise && id in After(c, run).promises
    ensures id in c.promises && (c.promises[id].Answered? ==> After(c, run).promises[id] == c.promises[id])
    decreases |run|
  {
    if run == [] {
    } else {
      PromisesStep(c, run[0]);
      AnswerIsFinal(Apply(c, run[0]), run[1..], id);
      AnswerStep(c, run[0], id);
    }
  }

  lemma Before(c: Channel, e: Event, d: Channel, run: seq<Event>)
    requires Enabled(c, e) && Apply(c, e) == d && IsRun(d, run)
    ensures IsRun(c, [e] + run) && After(c, [e] + run) == After(d, run)
  {
    assert ([e] + run)[1..] == run;
  }

  lemma {:induction false} RunsJoin(c: Channel, run: seq<Event>, more: seq<Event>)
    requires IsRun(c, run) && IsRun(After(c, run), more)
    ensures IsRun(c, run + more) && After(c, run + more) == After(After(c, run), more)
    decreases |run|
  {
    if run == [] {
      assert run + more == more;
    } else {
      RunsJoin(Apply(c, run[0]), run[1..], more);
      assert (run + more)[1..] == run[1..] + more;
    }
  }

  function Letter(r: Request, id: nat): Envelope {
    Envelope(Some(Message(r, Callback(Some(id)))))
  }
}
