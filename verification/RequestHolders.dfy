/**
 Where a request is while it is handed over: with its caller, in the queue, with
 the connection task, in an answer, or gone. It is always in exactly one place.
 */
module RequestHolders {
  import opened Wrappers
  import opened Dispatch

  datatype Holder = Caller | Queued(id: nat) | InHand(id: nat) | InAnswer(id: nat) | Gone

  ghost predicate At(c: Channel, r: Request, h: Holder) {
    match h
    case Caller => r in c.callers
    case Queued(id) => Letter(r, id) in c.queue
    case InHand(id) => id in c.held && c.held[id].request == Some(r)
    case InAnswer(id) => id in c.promises && c.promises[id] == Answered(Failed(Some(r)))
    case Gone => r in c.gone
  }

  /** `at` says where each request made so far is, and it is nowhere else. */
  ghost predicate Tracks(c: Channel, at: map<Request, Holder>) {
    && (forall r: Request :: r in at <==> r < c.nextRequest)
    && (forall r: Request, h :: At(c, r, h) <==> r in at && at[r] == h)
  }

  lemma {:induction false} UnclaimedIs(queue: seq<Envelope>, ps: Promises)
    requires AllHaveCallbacks(queue)
    ensures forall r: Request :: r in Unclaimed(queue, ps) <==> exists id: nat :: Letter(r, id) in queue && id !in ps
  {
    if queue == [] {
    } else {
      UnclaimedIs(queue[1..], ps);
      var m := queue[0].slot.value;
      assert queue[0] == Letter(m.request, Id(queue[0])) && queue == [queue[0]] + queue[1..];
      forall r: Request | r in Unclaimed(queue, ps) ensures exists id: nat :: Letter(r, id) in queue && id !in ps {
        if r in Unclaimed(queue[1..], ps) {
          var id: nat :| Letter(r, id) in queue[1..] && id !in ps;
          assert Letter(r, id) in queue;
        }
      }
    }
  }

  function Move(at: map<Request, Holder>, rs: set<Request>, to: Holder): map<Request, Holder> {
    map r | r in at :: if r in rs then to else at[r]
  }

  /** A step that takes the requests `rs` from one holder to another and leaves all the others. */
  lemma MoveTracks(c: Channel, d: Channel, at: map<Request, Holder>, rs: set<Request>, from: Holder, to: Holder)
    requires Tracks(c, at) && d.nextRequest == c.nextRequest && from != to
    requires forall r :: r in rs ==> At(c, r, from)
    requires forall r: Request :: At(d, r, from) <==> At(c, r, from) && r !in rs
    requires forall r: Request :: At(d, r, to) <==> At(c, r, to) || r in rs
    requires forall r: Request, h :: h != from && h != to ==> (At(d, r, h) <==> At(c, r, h))
    ensures Tracks(d, Move(at, rs, to))
  {
  }

  /** What dropping the queue does to each letter in it. */
  lemma LettersAnswered(c: Channel)
    requires PromisesInv(c) && Enabled(c, DropReceiver)
    ensures var d := Apply(c, DropReceiver);
            && (forall r: Request, id: nat :: Letter(r, id) in c.queue && id in c.promises ==> At(d, r, InAnswer(id)))
            && (forall r: Request, id: nat :: At(d, r, InAnswer(id)) ==>
                                                At(c, r, InAnswer(id)) || Letter(r, id) in c.queue)
            && (forall r: Request, id: nat :: At(c, r, InAnswer(id)) ==> At(d, r, InAnswer(id)))
            && d.promises.Keys == c.promises.Keys
  {
    DropQueueAnswers(c.queue, c.promises);
    var d := Apply(c, DropReceiver);
    forall r: Request, id: nat | Letter(r, id) in c.queue && id in c.promises ensures At(d, r, InAnswer(id)) {
      var i :| 0 <= i < |c.queue| && c.queue[i] == Letter(r, id);
      assert Ids(c.queue)[i] == id;
    }
    forall r: Request, id: nat | At(d, r, InAnswer(id)) ensures At(c, r, InAnswer(id)) || Letter(r, id) in c.queue {
      if id in Ids(c.queue) {
        var i :| 0 <= i < |c.queue| && Ids(c.queue)[i] == id;
        assert c.queue[i] == Letter(r, id);
      }
    }
  }

  /** The unclaimed requests are those queued for a promise that is gone. */
  lemma UnclaimedAre(c: Channel, at: map<Request, Holder>)
    requires AllHaveCallbacks(c.queue) && Tracks(c, at)
    ensures forall r: Request ::
              r in Unclaimed(c.queue, c.promises) <==> r in at && at[r].Queued? && at[r].id !in c.promises
  {
    UnclaimedIs(c.queue, c.promises);
    forall r: Request
      ensures r in Unclaimed(c.queue, c.promises) <==> r in at && at[r].Queued? && at[r].id !in c.promises
    {
      if r in Unclaimed(c.queue, c.promises) {
        var id: nat :| Letter(r, id) in c.queue && id !in c.promises;
        assert At(c, r, Queued(id));
      }
      if r in at && at[r].Queued? && at[r].id !in c.promises {
        assert At(c, r, at[r]);
      }
    }
  }

  lemma DropReceiverMoves(c: Channel, at: map<Request, Holder>) returns (at': map<Request, Holder>)
    requires PromisesInv(c) && Tracks(c, at) && Enabled(c, DropReceiver)
    ensures Tracks(Apply(c, DropReceiver), at')
  {
    var d := Apply(c, DropReceiver);
    at' := map r | r in at :: if !at[r].Queued? then at[r]
                              else if at[r].id in c.promises then InAnswer(at[r].id) else Gone;
    LettersAnswered(c);
    UnclaimedAre(c, at);
    forall r: Request, h ensures At(d, r, h) <==> r in at' && at'[r] == h {
      assert At(c, r, h) <==> r in at && at[r] == h;
      match h
      case InAnswer(id) => assert At(c, r, Queued(id)) <==> r in at && at[r] == Queued(id);
      case _ =>
    }
  }

  lemma RecvMoves(c: Channel, at: map<Request, Holder>) returns (at': map<Request, Holder>)
    requires PromisesInv(c) && Tracks(c, at) && Enabled(c, Recv)
    ensures Tracks(Apply(c, Recv), at')
  {
    var d := Apply(c, Recv);
    var r0, id0 := c.queue[0].slot.value.request, Id(c.queue[0]);
    assert c.queue == [Letter(r0, id0)] + d.queue;
    assert At(c, r0, Queued(id0)) && id0 in Ids(c.queue);
    forall i | 0 <= i < |d.queue| ensures Id(d.queue[i]) != id0 {
      assert Ids(c.queue)[i + 1] != Ids(c.queue)[0];
    }
    at' := Move(at, {r0}, InHand(id0));
    MoveTracks(c, d, at, {r0}, Queued(id0), InHand(id0));
  }

  /** Whether this answer brings the request of a held callback back to somebody. */
  predicate BringsBack(c: Channel, id: nat, a: Answer) {
    a.Failed? && a.message.Some? && id in c.promises
  }

  /** The connection task lets go of a callback with some answer, and with it of its request. */
  function LetGo(c: Channel, id: nat, a: Answer): Channel
    requires id in c.held
  {
    c.(held := c.held - {id}, promises := SendOn(c.promises, id, a),
       gone := c.gone + if BringsBack(c, id, a) then {} else Kept(c.held[id]))
  }

  lemma LetGoMoves(c: Channel, id: nat, a: Answer, at: map<Request, Holder>)
    requires PromisesInv(c) && Tracks(c, at) && id in c.held
    requires a.Failed? && a.message.Some? ==> a.message == c.held[id].request
    ensures Tracks(LetGo(c, id, a), Move(at, Kept(c.held[id]), if BringsBack(c, id, a) then InAnswer(id) else Gone))
  {
    var d, to := LetGo(c, id, a), if BringsBack(c, id, a) then InAnswer(id) else Gone;
    assert id in c.promises ==> c.promises[id].Waiting?;
    forall r: Request
      ensures !At(c, r, InAnswer(id))
      ensures At(d, r, InAnswer(id)) <==> to == InAnswer(id) && r in Kept(c.held[id])
    {
    }
    MoveTracks(c, d, at, Kept(c.held[id]), InHand(id), to);
  }

  lemma ReleaseMoves(c: Channel, e: Event, a: Answer, at: map<Request, Holder>) returns (at': map<Request, Holder>)
    requires PromisesInv(c) && Tracks(c, at) && Enabled(c, e) && (e.Reply? || e.DropHeld? || e.Fail?)
    requires a == if e.Reply? then Response else if e.DropHeld? then Failed(None) else Failed(c.held[e.id].request)
    ensures Tracks(Apply(c, e), at')
  {
    assert Apply(c, e) == LetGo(c, e.id, a);
    LetGoMoves(c, e.id, a, at);
    at' := Move(at, Kept(c.held[e.id]), if BringsBack(c, e.id, a) then InAnswer(e.id) else Gone);
  }

  lemma SendMoves(c: Channel, r: Request, at: map<Request, Holder>) returns (at': map<Request, Holder>)
    requires PromisesInv(c) && Tracks(c, at) && Enabled(c, TrySend(r))
    ensures Tracks(Send(c, r), at')
  {
    var d := Send(c, r);
    at' := at;
    if d.queue != c.queue {
      at' := Move(at, {r}, Queued(c.nextPromise));
      assert d.queue == c.queue + [Letter(r, c.nextPromise)];
      forall i | 0 <= i < |c.queue| ensures Id(c.queue[i]) < c.nextPromise {
        assert Ids(c.queue)[i] in Ids(c.queue);
      }
      MoveTracks(c, d, at, {r}, Caller, Queued(c.nextPromise));
    } else {
      assert forall q: Request, h :: At(d, q, h) <==> At(c, q, h);
    }
  }

  lemma NewRequestTracks(c: Channel, at: map<Request, Holder>)
    requires Tracks(c, at)
    ensures Tracks(Apply(c, NewRequest), at[c.nextRequest := Caller])
  {
    var d := Apply(c, NewRequest);
    assert forall h :: !At(c, c.nextRequest, h);
    assert forall r: Request, h :: r != c.nextRequest || h != Caller ==> (At(d, r, h) <==> At(c, r, h));
  }

  /** Writing a request out, and the two ends of an answered promise. */
  lemma TakeMoves(c: Channel, e: Event, at: map<Request, Holder>) returns (at': map<Request, Holder>)
    requires Tracks(c, at) && Enabled(c, e) && (e.WriteOut? || e.Await? || e.DropPromise?)
    ensures Tracks(Apply(c, e), at')
  {
    var rs := if e.WriteOut? then Kept(c.held[e.id]) else Lost(c.promises[e.id]);
    var from := if e.WriteOut? then InHand(e.id) else InAnswer(e.id);
    var to := if e.Await? then Caller else Gone;
    at' := Move(at, rs, to);
    MoveTracks(c, Apply(c, e), at, rs, from, to);
  }

  lemma HoldersStep(c: Channel, e: Event, at: map<Request, Holder>) returns (at': map<Request, Holder>)
    requires PromisesInv(c) && Tracks(c, at) && Enabled(c, e)
    ensures Tracks(Apply(c, e), at')
  {
    match e
    case NewRequest => NewRequestTracks(c, at); at' := at[c.nextRequest := Caller];
    case TrySend(r) => at' := SendMoves(c, r, at);
    case Recv => at' := RecvMoves(c, at);
    case DropReceiver => at' := DropReceiverMoves(c, at);
    case WriteOut(_) => at' := TakeMoves(c, e, at);
    case Await(_) => at' := TakeMoves(c, e, at);
    case DropPromise(_) => at' := TakeMoves(c, e, at);
    case Reply(id) => at' := ReleaseMoves(c, e, Response, at);
    case DropHeld(id) => at' := ReleaseMoves(c, e, Failed(None), at);
    case Fail(id) => at' := ReleaseMoves(c, e, Failed(c.held[id].request), at);
    case _ =>
      at' := at;
      var d := Apply(c, e);
      assert forall r: Request, h :: At(d, r, h) <==> At(c, r, h);
  }

  lemma {:induction false} RunTracks(c: Channel, run: seq<Event>, at: map<Request, Holder>)
    returns (at': map<Request, Holder>)
    requires PromisesInv(c) && Tracks(c, at) && IsRun(c, run)
    ensures Tracks(After(c, run), at')
    decreases |run|
  {
    if run == [] {
      at' := at;
    } else {
      PromisesStep(c, run[0]);
      at' := HoldersStep(c, run[0], at);
      at' := RunTracks(Apply(c, run[0]), run[1..], at');
    }
  }

  /** In every run, each request is in exactly one place: it is never lost unnoticed and never doubled. */
  lemma RequestHasOneHolder(run: seq<Event>, r: Request)
    requires IsRun(NEW, run) && r < After(NEW, run).nextRequest
    ensures exists h :: At(After(NEW, run), r, h) && forall g :: At(After(NEW, run), r, g) ==> g == h
  {
    assert Ids(NEW.queue) == [];
    var at := RunTracks(NEW, run, map[]);
    assert At(After(NEW, run), r, at[r]);
  }

  lemma {:induction false} GoneForGood(c: Channel, run: seq<Event>, r: Request)
    requires IsRun(c, run) && r in c.gone
    ensures r in After(c, run).gone
    decreases |run|
  {
    if run == [] {
    } else {
      GoneForGood(Apply(c, run[0]), run[1..], r);
    }
  }

  /** A request that has been written to a connection is never again with a caller, in the queue,
      in the hands of a connection task or in an answer: nobody can send it a second time. */
  lemma WrittenOutNeverReturns(run: seq<Event>, id: nat, more: seq<Event>, h: Holder)
    requires IsRun(NEW, run) && Enabled(After(NEW, run), WriteOut(id))
    requires IsRun(Apply(After(NEW, run), WriteOut(id)), more)
    ensures var c := After(NEW, run);
            At(After(Apply(c, WriteOut(id)), more), c.held[id].request.value, h) <==> h == Gone
  {
    var c := After(NEW, run);
    var r, d := c.held[id].request.value, Apply(c, WriteOut(id));
    assert Ids(NEW.queue) == [];
    Before(c, WriteOut(id), d, more);
    RunsJoin(NEW, run, [WriteOut(id)] + more);
    var at := RunTracks(NEW, run + ([WriteOut(id)] + more), map[]);
    GoneForGood(d, more, r);
    assert At(After(d, more), r, Gone);
  }
}
