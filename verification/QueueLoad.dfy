/**
 How many requests a bounded sender can have queued or wanted, and exactly when
 there is more than one.
 */
module QueueLoad {
  import opened Dispatch

  function Load(c: Channel): nat {
    |c.queue| + (if c.signal.Wanting? then 1 else 0)
  }

  /** Runs of a bounded sender. */
  ghost predicate Bounded(run: seq<Event>) {
    forall i :: 0 <= i < |run| ==> !run[i].Unbound?
  }

  /** A send is accepted after the receiver has found the queue empty and before it says so. */
  ghost predicate AcceptedInGap(c: Channel, run: seq<Event>)
    requires IsRun(c, run)
    decreases |run|
  {
    run != [] && ((run[0].TrySend? && c.gap && CanSend(c) && c.open) || AcceptedInGap(Apply(c, run[0]), run[1..]))
  }

  /** At some point of the run more than one request is queued or wanted. */
  ghost predicate ReachesTwo(c: Channel, run: seq<Event>)
    requires IsRun(c, run)
    decreases |run|
  {
    Load(c) >= 2 || (run != [] && ReachesTwo(Apply(c, run[0]), run[1..]))
  }

  lemma {:induction false} GapDecides(c: Channel, run: seq<Event>)
    requires IsRun(c, run) && Bounded(run)
    requires c.bounded && Load(c) <= 1 && (!c.buffered ==> c.queue == [])
    ensures ReachesTwo(c, run) || (After(c, run).gap && After(c, run).queue != []) <==>
            AcceptedInGap(c, run) || (c.gap && c.queue != [])
    decreases |run|
  {
    if run == [] {
    } else {
      var d := Apply(c, run[0]);
      if Load(d) <= 1 {
        GapDecides(d, run[1..]);
      }
    }
  }

  /** Exactly when a bounded sender gets past one request: when a send is accepted in the gap. Its effect
      shows once the receiver raises the signal, so it is still to come in a run that stops inside the gap. */
  lemma TwoQueuedIffAcceptedInGap(run: seq<Event>)
    requires IsRun(NEW, run) && Bounded(run)
    ensures AcceptedInGap(NEW, run) <==> ReachesTwo(NEW, run) || (After(NEW, run).gap && After(NEW, run).queue != [])
    ensures !After(NEW, run).gap ==> (ReachesTwo(NEW, run) <==> AcceptedInGap(NEW, run))
  {
    GapDecides(NEW, run);
  }

  lemma {:induction false} EndOfRun(c: Channel, run: seq<Event>)
    requires IsRun(c, run) && !ReachesTwo(c, run)
    ensures Load(After(c, run)) <= 1
    decreases |run|
  {
    if run == [] {
    } else {
      EndOfRun(Apply(c, run[0]), run[1..]);
    }
  }

  /** So unless a send is accepted in the gap, a bounded sender never has a second request queued. */
  lemma OneRequestQueued(run: seq<Event>)
    requires IsRun(NEW, run) && Bounded(run) && !AcceptedInGap(NEW, run)
    ensures !ReachesTwo(NEW, run) && |After(NEW, run).queue| <= 1
  {
    TwoQueuedIffAcceptedInGap(run);
    EndOfRun(NEW, run);
  }

  lemma {:induction false} LoadAtMostTwo(c: Channel, run: seq<Event>)
    requires IsRun(c, run) && Bounded(run)
    requires c.bounded && Load(c) + (if c.gap then 1 else 0) <= 2 && (!c.buffered ==> c.queue == [])
    ensures Load(After(c, run)) <= 2
    decreases |run|
  {
    if run == [] {
    } else {
      LoadAtMostTwo(Apply(c, run[0]), run[1..]);
    }
  }

  /** It is two steps, and then two requests is the most there can be. */
  lemma TwoRequestsQueuedAtMost(run: seq<Event>)
    requires IsRun(NEW, run) && Bounded(run)
    ensures |After(NEW, run).queue| <= 2
  {
    LoadAtMostTwo(NEW, run);
  }

  /** And two is reached: a request sent in the gap is followed by a signal that lets a second one in. */
  lemma TwoRequestsQueued()
    ensures exists run: seq<Event> :: IsRun(NEW, run) && Bounded(run) && |After(NEW, run).queue| == 2
  {
    var c1 := Apply(NEW, NewRequest);
    var c2 := Apply(c1, NewRequest);
    var c3 := Apply(c2, FindEmpty);
    var c4 := Apply(c3, TrySend(0));
    var c5 := Apply(c4, Want);
    var c6 := Apply(c5, TrySend(1));
    Before(c5, TrySend(1), c6, []);
    Before(c4, Want, c5, [TrySend(1)] + []);
    Before(c3, TrySend(0), c4, [Want] + ([TrySend(1)] + []));
    Before(c2, FindEmpty, c3, [TrySend(0)] + ([Want] + ([TrySend(1)] + [])));
    Before(c1, NewRequest, c2, [FindEmpty] + ([TrySend(0)] + ([Want] + ([TrySend(1)] + []))));
    var run := [NewRequest] + ([FindEmpty] + ([TrySend(0)] + ([Want] + ([TrySend(1)] + []))));
    Before(NEW, NewRequest, c1, run);
    assert Bounded([NewRequest] + run);
  }
}
