/**
 What a promise of the hand-off is answered with, in every run, and that a request
 which comes back is the one that was sent with that promise.
 */
module DispatchAnswers {
  import opened Wrappers
  import opened Dispatch

  /** A callback that is dropped unused answers with an error and without a request. */
  lemma DroppedCallbackFails(id: nat, ps: Promises)
    ensures DropCallback(Callback(Some(id)), ps) == if id in ps then ps[id := Answered(Failed(None))] else ps
    ensures DropCallback(Callback(None), ps) == ps
  {
  }

  /** The event that answers a promise, and the answer: a reply is a response; a failure hands back the request if
      it is still in hand; a dropped callback hands back nothing; a dropped receiver hands back what is queued. */
  ghost predicate Decides(c: Channel, e: Event, id: nat, a: Answer)
    requires Enabled(c, e)
  {
    match e
    case Reply(x) => x == id && a == Response
    case Fail(x) => x == id && a == Failed(c.held[id].request)
    case DropHeld(x) => x == id && a == Failed(None)
    case DropReceiver => a.Failed? && a.message.Some? && Letter(a.message.value, id) in c.queue
    case _ => false
  }

  ghost predicate Decided(c: Channel, run: seq<Event>, id: nat, a: Answer)
    requires IsRun(c, run)
    decreases |run|
  {
    run != [] && (Decides(c, run[0], id, a) || Decided(Apply(c, run[0]), run[1..], id, a))
  }

  /** Some callback can still answer the promise. */
  ghost predicate Answerable(c: Channel, id: nat)
    requires AllHaveCallbacks(c.queue)
  {
    id in c.held || id in Ids(c.queue)
  }

  lemma QueuedLetter(c: Channel, r: Request, id: nat)
    requires PromisesInv(c) && Letter(r, id) in c.queue
    ensures id in Ids(c.queue) && id < c.nextPromise
    ensures forall q: Request :: Letter(q, id) in c.queue ==> q == r
  {
    var i :| 0 <= i < |c.queue| && c.queue[i] == Letter(r, id);
    assert Ids(c.queue)[i] == id;
    forall q: Request | Letter(q, id) in c.queue ensures q == r {
      var j :| 0 <= j < |c.queue| && c.queue[j] == Letter(q, id);
      assert Ids(c.queue)[j] == id;
    }
  }

  /** Only a promise that can still be answered is answered. */
  lemma DecidesOnlyAnswerable(c: Channel, e: Event, id: nat, a: Answer)
    requires PromisesInv(c) && Enabled(c, e) && Decides(c, e, id, a)
    ensures Answerable(c, id) && id < c.nextPromise
  {
    if e.DropReceiver? {
      QueuedLetter(c, a.message.value, id);
    }
  }

  /** A promise with a queued callback had one before, or is the one just made. */
  lemma QueuedBefore(c: Channel, e: Event, id: nat)
    requires AllHaveCallbacks(c.queue) && Enabled(c, e)
    requires AllHaveCallbacks(Apply(c, e).queue) && id in Ids(Apply(c, e).queue)
    ensures id in Ids(c.queue) || id == c.nextPromise
  {
    var d := Apply(c, e);
    var i :| 0 <= i < |d.queue| && Ids(d.queue)[i] == id;
    var j := if e.Recv? then i + 1 else i;
    if j < |c.queue| {
      assert d.queue[i] == c.queue[j] && Ids(c.queue)[j] == Id(c.queue[j]);
    }
  }

  lemma UnanswerableStep(c: Channel, e: Event, id: nat)
    requires PromisesInv(c) && Enabled(c, e) && id < c.nextPromise && !Answerable(c, id)
    requires PromisesInv(Apply(c, e))
    ensures id < Apply(c, e).nextPromise && !Answerable(Apply(c, e), id)
  {
    if id in Ids(Apply(c, e).queue) {
      QueuedBefore(c, e, id);
    }
    if e.Recv? {
      assert Ids(c.queue)[0] == Id(c.queue[0]) && Ids(c.queue)[0] in Ids(c.queue);
    }
  }

  lemma {:induction false} UnanswerableUndecided(c: Channel, run: seq<Event>, id: nat, a: Answer)
    requires PromisesInv(c) && IsRun(c, run) && id < c.nextPromise && !Answerable(c, id)
    ensures !Decided(c, run, id, a)
    decreases |run|
  {
    if run == [] {
    } else {
      PromisesStep(c, run[0]);
      UnanswerableStep(c, run[0], id);
      UnanswerableUndecided(Apply(c, run[0]), run[1..], id, a);
      if Decides(c, run[0], id, a) {
        DecidesOnlyAnswerable(c, run[0], id, a);
      }
    }
  }

  lemma DroppedReceiverAnswer(c: Channel, id: nat, a: Answer)
    requires PromisesInv(c) && Enabled(c, DropReceiver) && id in c.promises && c.promises[id].Waiting?
    ensures var d := Apply(c, DropReceiver);
            id in d.promises && (d.promises[id] == Answered(a) <==> Decides(c, DropReceiver, id, a))
  {
    DropQueueAnswers(c.queue, c.promises);
    forall q: Request | Letter(q, id) in c.queue ensures id in Ids(c.queue) { QueuedLetter(c, q, id); }
    if id in Ids(c.queue) {
      var i :| 0 <= i < |c.queue| && Ids(c.queue)[i] == id;
      var r := c.queue[i].slot.value.request;
      assert c.queue[i] == Letter(r, id);
      QueuedLetter(c, r, id);
    }
  }

  lemma AnswerStepIff(c: Channel, e: Event, id: nat, a: Answer)
    requires PromisesInv(c) && Enabled(c, e) && id in c.promises && c.promises[id].Waiting?
    requires id in Apply(c, e).promises
    ensures Apply(c, e).promises[id] == Answered(a) <==> Decides(c, e, id, a)
  {
    if e.DropReceiver? {
      DroppedReceiverAnswer(c, id, a);
    }
  }

  /** One event, for a promise that is waiting or still to be made. */
  lemma EventAnswersIff(c: Channel, e: Event, id: nat, a: Answer)
    requires PromisesInv(c) && Enabled(c, e)
    requires id < c.nextPromise ==> id in c.promises && c.promises[id].Waiting?
    requires id < Apply(c, e).nextPromise ==> id in Apply(c, e).promises
    ensures Decides(c, e, id, a) <==> id in Apply(c, e).promises && Apply(c, e).promises[id] == Answered(a)
  {
    if Decides(c, e, id, a) {
      DecidesOnlyAnswerable(c, e, id, a);
    }
    NumbersGrow(c, e);
    if id < c.nextPromise {
      AnswerStepIff(c, e, id, a);
    } else {
      NewPromiseWaits(c, e, id);
    }
  }

  lemma NumbersGrow(c: Channel, e: Event)
    requires Enabled(c, e)
    ensures c.nextPromise <= Apply(c, e).nextPromise
  {
  }

  lemma NewPromiseWaits(c: Channel, e: Event, id: nat)
    requires PromisesInv(c) && Enabled(c, e) && id >= c.nextPromise
    ensures id in Apply(c, e).promises ==> Apply(c, e).promises[id].Waiting?
  {
    if e.DropReceiver? {
      DropQueueKeys(c.queue, c.promises);
    }
  }

  lemma {:induction false} AnswerIffDecided(c: Channel, run: seq<Event>, id: nat, a: Answer)
    requires PromisesInv(c) && IsRun(c, run) && id in After(c, run).promises
    requires id < c.nextPromise ==> id in c.promises && c.promises[id].Waiting?
    ensures After(c, run).promises[id] == Answered(a) <==> Decided(c, run, id, a)
    decreases |run|
  {
    RunKeepsPromises(c, run);
    if run == [] {
    } else {
      var d := Apply(c, run[0]);
      PromisesStep(c, run[0]);
      if id < d.nextPromise {
        AnswerIsFinal(d, run[1..], id);
      }
      EventAnswersIff(c, run[0], id, a);
      if id < d.nextPromise && d.promises[id].Answered? {
        UnanswerableUndecided(d, run[1..], id, a);
      } else {
        AnswerIffDecided(d, run[1..], id, a);
      }
    }
  }

  /** In every run, a promise that is still there has been answered with `a` exactly when an event of the run gave
      that answer: `Response` only by a reply, an error with a request only when that request had not been written
      out, an error without one only otherwise. */
  lemma AnswerIsWhatHappened(run: seq<Event>, id: nat, a: Answer)
    requires IsRun(NEW, run) && id in After(NEW, run).promises
    ensures After(NEW, run).promises[id] == Answered(a) <==> Decided(NEW, run, id, a)
    ensures After(NEW, run).promises[id] == Answered(Response) <==> Reply(id) in run
  {
    assert Ids(NEW.queue) == [];
    AnswerIffDecided(NEW, run, id, a);
    AnswerIffDecided(NEW, run, id, Response);
    RepliedIs(NEW, run, id);
  }

  lemma {:induction false} RepliedIs(c: Channel, run: seq<Event>, id: nat)
    requires IsRun(c, run)
    ensures Decided(c, run, id, Response) <==> Reply(id) in run
    decreases |run|
  {
    if run == [] {
    } else {
      RepliedIs(Apply(c, run[0]), run[1..], id);
      assert run == [run[0]] + run[1..];
    }
  }

  /** Awaiting an answer that hands a request back gives it to the caller, and nothing else does. */
  lemma AwaitGivesBack(c: Channel, id: nat)
    requires Enabled(c, Await(id))
    ensures var d := Apply(c, Await(id));
            && id !in d.promises && d.promises == c.promises - {id}
            && (forall r: Request :: r in d.callers <==> r in c.callers || c.promises[id] == Answered(Failed(Some(r))))
            && d == c.(promises := d.promises, callers := d.callers)
  {
  }

  // ----- A promise hands back its own request -----

  /** A send of `r` was accepted with the promise `id`. */
  ghost predicate SentWith(c: Channel, run: seq<Event>, id: nat, r: Request)
    requires IsRun(c, run)
    decreases |run|
  {
    run != [] && ((run[0] == TrySend(r) && CanSend(c) && c.open && c.nextPromise == id)
                  || SentWith(Apply(c, run[0]), run[1..], id, r))
  }

  /** `of` says which request each promise is for, wherever that request is. */
  ghost predicate Owns(c: Channel, of: map<nat, Request>) {
    && (forall r: Request, id: nat :: Letter(r, id) in c.queue ==> id in of && of[id] == r)
    && (forall id :: id in c.held && c.held[id].request.Some? ==> id in of && of[id] == c.held[id].request.value)
    && (forall id :: id in c.promises && Lost(c.promises[id]) != {} ==> id in of && Lost(c.promises[id]) == {of[id]})
    && (forall id :: id in of ==> id < c.nextPromise)
  }

  lemma DropReceiverKeepsOwners(c: Channel, of: map<nat, Request>)
    requires PromisesInv(c) && Owns(c, of) && Enabled(c, DropReceiver)
    ensures Owns(Apply(c, DropReceiver), of)
  {
    var d := Apply(c, DropReceiver);
    DropQueueAnswers(c.queue, c.promises);
    forall id | id in d.promises && Lost(d.promises[id]) != {}
      ensures id in of && Lost(d.promises[id]) == {of[id]}
    {
      if id in Ids(c.queue) {
        var i :| 0 <= i < |c.queue| && Ids(c.queue)[i] == id;
        assert c.queue[i] == Letter(c.queue[i].slot.value.request, id);
      }
    }
  }

  lemma SendKeepsOwners(c: Channel, r: Request, of: map<nat, Request>)
    requires PromisesInv(c) && Owns(c, of) && CanSend(c) && c.open
    ensures Owns(Send(c, r), of[c.nextPromise := r])
  {
    var d := Send(c, r);
    forall q: Request, id: nat | Letter(q, id) in d.queue ensures if id == c.nextPromise then q == r else of[id] == q {
      assert Letter(q, id) in c.queue ==> id in of && id < c.nextPromise;
    }
  }

  lemma AnswerKeepsOwners(c: Channel, id: nat, a: Answer, of: map<nat, Request>)
    requires Owns(c, of) && id in c.held && (a.Failed? && a.message.Some? ==> a.message == c.held[id].request)
    ensures Owns(c.(held := c.held - {id}, promises := SendOn(c.promises, id, a)), of)
  {
  }

  lemma HeldKeepsOwners(c: Channel, e: Event, of: map<nat, Request>)
    requires PromisesInv(c) && Owns(c, of) && Enabled(c, e) && (e.Reply? || e.Fail? || e.DropHeld?)
    ensures Owns(Apply(c, e), of)
  {
    var a := if e.Reply? then Response else Failed(if e.Fail? then c.held[e.id].request else None);
    var d := c.(held := c.held - {e.id}, promises := SendOn(c.promises, e.id, a));
    AnswerKeepsOwners(c, e.id, a, of);
    assert Apply(c, e) == d.(gone := Apply(c, e).gone);
  }

  lemma WriteKeepsOwners(c: Channel, id: nat, of: map<nat, Request>)
    requires Owns(c, of) && Enabled(c, WriteOut(id))
    ensures Owns(Apply(c, WriteOut(id)), of)
  {
  }

  lemma TakeKeepsOwners(c: Channel, e: Event, of: map<nat, Request>)
    requires Owns(c, of) && Enabled(c, e) && (e.Await? || e.DropPromise?)
    ensures Owns(Apply(c, e), of)
  {
  }

  lemma RecvKeepsOwners(c: Channel, of: map<nat, Request>)
    requires Owns(c, of) && Enabled(c, Recv)
    ensures Owns(Apply(c, Recv), of)
  {
    assert c.queue[0] == Letter(c.queue[0].slot.value.request, Id(c.queue[0]));
    assert forall q :: q in c.queue[1..] ==> q in c.queue;
  }

  lemma OwnersStep(c: Channel, e: Event, of: map<nat, Request>) returns (of': map<nat, Request>)
    requires PromisesInv(c) && Owns(c, of) && Enabled(c, e)
    ensures Owns(Apply(c, e), of')
    ensures of' == if e.TrySend? && CanSend(c) && c.open then of[c.nextPromise := e.request] else of
  {
    of' := if e.TrySend? && CanSend(c) && c.open then of[c.nextPromise := e.request] else of;
    match e
    case DropReceiver => DropReceiverKeepsOwners(c, of);
    case Recv => RecvKeepsOwners(c, of);
    case TrySend(r) => if CanSend(c) && c.open { SendKeepsOwners(c, r, of); }
    case Reply(_) => HeldKeepsOwners(c, e, of);
    case Fail(_) => HeldKeepsOwners(c, e, of);
    case DropHeld(_) => HeldKeepsOwners(c, e, of);
    case WriteOut(id) => WriteKeepsOwners(c, id, of);
    case Await(_) => TakeKeepsOwners(c, e, of);
    case DropPromise(_) => TakeKeepsOwners(c, e, of);
    case _ =>
  }

  lemma {:induction false} RunOwns(c: Channel, run: seq<Event>, of: map<nat, Request>) returns (of': map<nat, Request>)
    requires PromisesInv(c) && Owns(c, of) && IsRun(c, run)
    ensures Owns(After(c, run), of')
    ensures forall id :: id in of' ==> (id in of && of[id] == of'[id]) || SentWith(c, run, id, of'[id])
    decreases |run|
  {
    if run == [] {
      of' := of;
    } else {
      PromisesStep(c, run[0]);
      of' := OwnersStep(c, run[0], of);
      of' := RunOwns(Apply(c, run[0]), run[1..], of');
    }
  }

  /** In every run, the request that an answer hands back is the one that was sent with that promise. */
  lemma OwnRequestComesBack(run: seq<Event>, id: nat, r: Request)
    requires IsRun(NEW, run) && id in After(NEW, run).promises
    requires After(NEW, run).promises[id] == Answered(Failed(Some(r)))
    ensures SentWith(NEW, run, id, r)
  {
    assert Ids(NEW.queue) == [];
    var of := RunOwns(NEW, run, map[]);
    assert r in Lost(After(NEW, run).promises[id]);
  }
}
