/**
 The watch channel of src/core/common/watch.rs as interleaved atomic steps:
 sending swaps the value and then wakes, loading registers a waker and then
 reads. No change goes unnoticed.
 */
module Watch {

  const CLOSED := 0

  /** Where the receiving task is: it registers, then loads, then acts on the value or parks on it. */
  datatype Task = Running | Registered | Loaded(last: nat) | Parked(last: nat)

  /** Where the sender is: after a swap that changed the value it still has to wake. */
  datatype Sender = Ready | MustWake(closing: bool) | Gone

  /** `armed`: the waker is registered. `woken`: the receiver has been told to run again. */
  datatype State = State(value: nat, armed: bool, woken: bool, task: Task, sender: Sender)

  datatype Event = Register | Load | Park | GoOn | Resume | Swap(value: nat) | Close | Wake

  predicate Enabled(s: State, e: Event) {
    match e
    case Register => s.task.Running?
    case Load => s.task.Registered?
    case Park => s.task.Loaded?
    case GoOn => s.task.Loaded?
    case Resume => s.task.Parked? && s.woken
    case Swap(_) => s.sender.Ready?
    case Close => s.sender.Ready?
    case Wake => s.sender.MustWake?
  }

  /** The swap of `Sender::send`; dropping the sender sends the reserved value. */
  function SwapIn(s: State, value: nat, closing: bool): State {
    s.(value := value,
       sender := if s.value != value then MustWake(closing) else if closing then Gone else Ready)
  }

  function Apply(s: State, e: Event): State
    requires Enabled(s, e)
  {
    match e
    case Register => s.(armed := true, task := Registered)
    case Load => s.(task := Loaded(s.value))
    case Park => s.(task := Parked(s.task.last))
    case GoOn => s.(task := Running)
    case Resume => s.(task := Running, woken := false)
    case Swap(value) => SwapIn(s, value, false)
    case Close => SwapIn(s, CLOSED, true)
    case Wake =>
      s.(armed := false, woken := s.woken || s.armed, sender := if s.sender.closing then Gone else Ready)
  }

  ghost predicate IsRun(s: State, run: seq<Event>)
    decreases |run|
  {
    run == [] || (Enabled(s, run[0]) && IsRun(Apply(s, run[0]), run[1..]))
  }

  ghost function After(s: State, run: seq<Event>): State
    requires IsRun(s, run)
    decreases |run|
  {
    if run == [] then s else After(Apply(s, run[0]), run[1..])
  }

  function Start(initial: nat): State {
    State(initial, false, false, Running, Ready)
  }

  ghost predicate Inv(s: State) {
    && (!s.task.Running? ==> s.armed || s.woken)
    && ((s.task.Loaded? || s.task.Parked?) && s.task.last != s.value ==> s.woken || s.sender.MustWake?)
    && (s.sender.Gone? || s.sender == MustWake(true) ==> s.value == CLOSED)
  }

  lemma {:induction false} RunKeepsInv(s: State, run: seq<Event>)
    requires Inv(s) && IsRun(s, run)
    ensures Inv(After(s, run))
    decreases |run|
  {
    if run == [] {
    } else {
      RunKeepsInv(Apply(s, run[0]), run[1..]);
    }
  }

  /** In every run, a parked task whose value is out of date has been woken or is about to be;
      and once the sender is gone, a task that has not seen the close has been woken. */
  lemma NoWakeupIsLost(initial: nat, run: seq<Event>)
    requires IsRun(Start(initial), run)
    ensures var s := After(Start(initial), run);
            && (s.task.Parked? && s.task.last != s.value ==> s.woken || s.sender.MustWake?)
            && (s.task.Parked? && s.sender.Gone? && s.task.last != CLOSED ==> Enabled(s, Resume))
            && (s.task.Parked? && s.sender.Ready? && !s.woken ==> s.task.last == s.value)
  {
    RunKeepsInv(Start(initial), run);
  }

  /** The value sent last: that of the last send, or the reserved one after a close. */
  function LastSent(initial: nat, run: seq<Event>): nat {
    if run == [] then initial
    else
      match run[|run| - 1]
      case Swap(value) => value
      case Close => CLOSED
      case _ => LastSent(initial, run[..|run| - 1])
  }

  lemma {:induction false} LastSentAhead(initial: nat, e: Event, run: seq<Event>)
    ensures LastSent(initial, [e] + run) ==
            LastSent(match e case Swap(value) => value case Close => CLOSED case _ => initial, run)
  {
    if run == [] {
      assert ([e] + run)[..0] == [];
    } else {
      LastSentAhead(initial, e, run[..|run| - 1]);
      assert ([e] + run)[..|run|] == [e] + run[..|run| - 1];
    }
  }

  lemma {:induction false} ValueIsLastSent(s: State, run: seq<Event>)
    requires IsRun(s, run)
    ensures After(s, run).value == LastSent(s.value, run)
    decreases |run|
  {
    if run == [] {
    } else {
      ValueIsLastSent(Apply(s, run[0]), run[1..]);
      LastSentAhead(s.value, run[0], run[1..]);
      assert run == [run[0]] + run[1..];
    }
  }

  /** In every run a load sees the value sent last, and sends nothing itself. */
  lemma LoadSeesLastSent(initial: nat, run: seq<Event>)
    requires IsRun(Start(initial), run) && Enabled(After(Start(initial), run), Load)
    ensures var s := After(Start(initial), run);
            Apply(s, Load) == s.(task := Loaded(LastSent(initial, run)))
  {
    ValueIsLastSent(Start(initial), run);
  }

  /** A send wakes the receiver exactly if it changes the value and the receiver has registered. */
  lemma WakesIffChanged(s: State, value: nat)
    requires s.sender.Ready? && !s.woken
    ensures var t := Apply(s, Swap(value));
            && (t.sender.MustWake? <==> value != s.value)
            && (t.sender.MustWake? ==> (Apply(t, Wake).woken <==> s.armed) && Apply(t, Wake).sender.Ready?)
            && !t.woken && t.armed == s.armed && t.task == s.task
  {
  }

  /** The shared cell, as each side uses it. */
  class Shared {
    var value: nat
    var armed: bool
    var woken: bool

    constructor (initial: nat)
      ensures value == initial && !armed && !woken
    {
      value, armed, woken := initial, false, false;
    }

    ghost predicate Is(s: State)
      reads this
    {
      s.value == value && s.armed == armed && s.woken == woken
    }

    /** `Sender::send`, when nothing comes in between. */
    method Send(v: nat, ghost s: State)
      requires Is(s) && s.sender.Ready?
      modifies this
      ensures var t := SwapIn(s, v, false); Is(if t.sender.MustWake? then Apply(t, Wake) else t)
    {
      var previous := value;
      value := v;
      if previous != v {
        woken := woken || armed;
        armed := false;
      }
    }

    /** `Receiver::load`, when nothing comes in between. */
    method Load(ghost s: State) returns (v: nat)
      requires Is(s) && s.task.Running?
      modifies this`armed
      ensures Is(Apply(Apply(s, Register), Event.Load)) && Apply(Apply(s, Register), Event.Load).task == Loaded(v)
    {
      armed := true;
      v := value;
    }
  }
}
