/**
 Which requests the hand-off accepts, and in which order they are received.
 */
module DispatchOrder {
  import opened Wrappers
  import opened Dispatch

  /** A send is accepted exactly while the receiver is open and the sender is unbounded, is wanted or has sent nothing
      yet. It then queues the request last, with a new promise, and uses the want up; a refusal returns the request. */
  lemma SendIsExact(c: Channel, r: Request)
    requires Enabled(c, TrySend(r))
    ensures var d := Apply(c, TrySend(r));
            var accepted := c.open && (!c.bounded || c.signal == Wanting || !c.buffered);
            && (if accepted then
                  && d.queue == c.queue + [Letter(r, c.nextPromise)] && r !in d.callers
                  && d.promises == c.promises[c.nextPromise := Waiting] && d.nextPromise == c.nextPromise + 1
                else d.queue == c.queue && r in d.callers && d.promises == c.promises)
            && (c.bounded && (c.signal == Wanting || !c.buffered) ==> d.buffered && d.signal != Wanting)
            && (c.bounded && c.signal != Wanting && c.buffered ==> d == c)
            && d.held == c.held && d.open == c.open && d.gap == c.gap && d.gone == c.gone
  {
  }

  /** Once unbounded, a sender stays so, and then nothing but a closed receiver refuses a request. */
  lemma {:induction false} UnboundedStaysSo(c: Channel, run: seq<Event>)
    requires IsRun(c, run) && (!c.bounded || (run != [] && run[0].Unbound?))
    ensures !After(c, run).bounded && CanSend(After(c, run))
    decreases |run|
  {
    if run == [] {
    } else {
      UnboundedStaysSo(Apply(c, run[0]), run[1..]);
    }
  }

  /** A promise that is dropped takes its answer with it, and a request in that answer is gone. */
  lemma DroppedPromiseTakesAnswer(c: Channel, id: nat)
    requires Enabled(c, DropPromise(id))
    ensures var d := Apply(c, DropPromise(id));
            && d.promises == c.promises - {id} && d.callers == c.callers
            && (forall r: Request :: r in d.gone <==> r in c.gone || c.promises[id] == Answered(Failed(Some(r))))
  {
  }

  /** Queued requests are in the order in which they were sent. */
  ghost predicate InOrder(c: Channel) {
    && AllHaveCallbacks(c.queue)
    && (forall i, j :: 0 <= i < j < |c.queue| ==> Id(c.queue[i]) < Id(c.queue[j]))
    && (forall i :: 0 <= i < |c.queue| ==> Id(c.queue[i]) < c.nextPromise)
  }

  lemma OrderStep(c: Channel, e: Event)
    requires InOrder(c) && Enabled(c, e)
    ensures InOrder(Apply(c, e))
  {
  }

  lemma {:induction false} RunKeepsOrder(c: Channel, run: seq<Event>)
    requires InOrder(c) && IsRun(c, run)
    ensures InOrder(After(c, run))
    decreases |run|
  {
    if run == [] {
    } else {
      OrderStep(c, run[0]);
      RunKeepsOrder(Apply(c, run[0]), run[1..]);
    }
  }

  /** From `c` to `d` the request `r` with its callback `id` has gone from the queue to the connection task, as the one
      sent first among those queued, and nothing else has. */
  ghost predicate Received(c: Channel, d: Channel, r: Request, id: nat) {
    && Letter(r, id) in c.queue && id in d.held && d.held[id] == Held(Callback(Some(id)), Some(r))
    && d.held - {id} == c.held - {id}
    && (forall q: Request, x: nat :: Letter(q, x) in c.queue ==> id <= x)
    && (forall q: Request, x: nat :: Letter(q, x) in d.queue <==> Letter(q, x) in c.queue && x != id)
  }

  lemma FirstIsOldest(queue: seq<Envelope>, r: Request, id: nat)
    requires queue != [] && queue[0] == Letter(r, id) && AllHaveCallbacks(queue)
    requires forall i, j :: 0 <= i < j < |queue| ==> Id(queue[i]) < Id(queue[j])
    ensures forall q: Request, x: nat :: Letter(q, x) in queue ==> id <= x
    ensures forall q: Request, x: nat :: Letter(q, x) in queue[1..] <==> Letter(q, x) in queue && x != id
  {
    forall q: Request, x: nat | Letter(q, x) in queue ensures id <= x && (x != id ==> Letter(q, x) in queue[1..]) {
      var i :| 0 <= i < |queue| && queue[i] == Letter(q, x);
      assert i > 0 ==> queue[1..][i - 1] == Letter(q, x);
    }
    forall q: Request, x: nat | Letter(q, x) in queue[1..] ensures Letter(q, x) in queue && x != id {
      var i :| 0 <= i < |queue[1..]| && queue[1..][i] == Letter(q, x);
      assert queue[i + 1] == Letter(q, x);
    }
  }

  lemma RecvTakesFirst(c: Channel)
    requires InOrder(c) && Enabled(c, Recv)
    ensures Received(c, Apply(c, Recv), c.queue[0].slot.value.request, Id(c.queue[0]))
  {
    FirstIsOldest(c.queue, c.queue[0].slot.value.request, Id(c.queue[0]));
  }

  /** In every run, what the receiver takes is the request sent first among those queued, with its own callback. */
  lemma OldestIsReceived(run: seq<Event>)
    requires IsRun(NEW, run) && Enabled(After(NEW, run), Recv)
    ensures var c := After(NEW, run);
            InOrder(c) && exists r: Request, id: nat :: Received(c, Apply(c, Recv), r, id)
  {
    RunKeepsOrder(NEW, run);
    RecvTakesFirst(After(NEW, run));
  }

  /** Once the receiver is closed, by itself or by being dropped, nothing is accepted any more. */
  lemma {:induction false} ClosedStaysClosed(c: Channel, run: seq<Event>)
    requires IsRun(c, run) && (!c.open || (run != [] && (run[0].Close? || run[0].DropReceiver?)))
    ensures !After(c, run).open && After(c, run).nextPromise == c.nextPromise
    decreases |run|
  {
    if run == [] {
    } else {
      ClosedStaysClosed(Apply(c, run[0]), run[1..]);
    }
  }
}
