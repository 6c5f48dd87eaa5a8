/**
 The objects of src/core/client/dispatch.rs, with the slots that `take` empties
 in place. Each method does to its object what the step in `Dispatch` says.
 */
module DispatchObjects {
  import opened Wrappers
  import opened Dispatch

  /** The one-shot channels, seen from their receiving halves. */
  class Oneshots {
    var cells: Promises

    constructor ()
      ensures cells == map[]
    {
      cells := map[];
    }

    method Send(id: nat, a: Answer)
      modifies this
      ensures cells == SendOn(old(cells), id, a)
    {
      if id in cells {
        cells := cells[id := Answered(a)];
      }
    }
  }

  class CallbackSlot {
    var tx: Option<nat>

    constructor (id: nat)
      ensures tx == Some(id)
    {
      tx := Some(id);
    }

    /** `Drop for Callback`: an unused sender is used for a last answer, so none is ever just dropped. */
    method Drop(shots: Oneshots)
      modifies this, shots
      ensures tx.None? && shots.cells == DropCallback(Callback(old(tx)), old(shots.cells))
    {
      if tx.Some? {
        var id := tx.value;
        tx := None;
        shots.Send(id, Failed(None));
      }
    }

    /** `Callback::send`. */
    method Send(shots: Oneshots, a: Answer)
      requires tx.Some?
      modifies this, shots
      ensures tx.None? && shots.cells == SendCallback(Callback(old(tx)), old(shots.cells), a)
    {
      var id := tx.value;
      tx := None;
      shots.Send(id, a);
      Drop(shots);
    }
  }

  datatype When = Ready | Error(message: Option<Request>) | NotYet

  /** `SendWhen`: waits for a response future and answers the callback it keeps. */
  class SendWhen {
    var callback: CallbackSlot?

    constructor (callback: CallbackSlot)
      ensures this.callback == callback
    {
      this.callback := callback;
    }

    /** Either it is done and its promise has its answer, or nothing has changed and the promise is awaited. */
    method Poll(shots: Oneshots, when: When) returns (done: bool)
      requires callback != null && callback.tx.Some?
      modifies this, callback, shots
      ensures done == (!when.NotYet? || old(callback.tx.value) !in old(shots.cells))
      ensures shots.cells == match when
                             case Ready => SendOn(old(shots.cells), old(callback.tx.value), Response)
                             case Error(m) => SendOn(old(shots.cells), old(callback.tx.value), Failed(m))
                             case NotYet => old(shots.cells)
      ensures if done then callback == null && old(callback).tx.None?
              else callback == old(callback) && callback.tx == old(callback.tx)
    {
      var cb := callback;
      callback := null;
      match when
      case Ready =>
        cb.Send(shots, Response);
        done := true;
      case Error(message) =>
        cb.Send(shots, Failed(message));
        done := true;
      case NotYet =>
        if cb.tx.value in shots.cells {
          callback := cb;
          done := false;
        } else {
          cb.Drop(shots);
          done := true;
        }
    }
  }

  /** The queue with its `want` signal: `Sender`, `UnboundedSender` and `Receiver` share it. */
  class Link {
    var queue: seq<Envelope>
    var signal: Signal
    var buffered: bool
    var bounded: bool
    var open: bool
    var nextPromise: nat

    constructor ()
      ensures queue == [] && signal == Idle && !buffered && bounded && open && nextPromise == 0
    {
      queue, signal, buffered, bounded, open, nextPromise := [], Idle, false, true, true, 0;
    }

    /** The part of a channel that the link and its promises hold. */
    ghost predicate Holds(c: Channel, shots: Oneshots)
      reads this, shots
    {
      && c.queue == queue && c.signal == signal && c.buffered == buffered && c.bounded == bounded
      && c.open == open && c.nextPromise == nextPromise && c.promises == shots.cells
    }

    /** `can_send`. */
    method CanSend() returns (ok: bool)
      requires bounded
      modifies this`signal, this`buffered
      ensures ok == (old(signal).Wanting? || !old(buffered))
      ensures signal == (if old(signal).Wanting? then Idle else old(signal))
      ensures buffered == (old(buffered) || ok)
    {
      var given := signal.Wanting?;
      if given {
        signal := Idle;
      }
      ok := given || !buffered;
      if ok {
        buffered := true;
      }
    }

    /** `try_send` of both senders: the promise, or nothing when the request goes back. */
    method TrySend(request: Request, shots: Oneshots, ghost c: Channel) returns (promise: Option<nat>)
      requires Holds(c, shots)
      modifies this, shots
      ensures Holds(Send(c, request), shots)
      ensures promise == if Dispatch.CanSend(c) && c.open then Some(c.nextPromise) else None
    {
      if bounded {
        var ok := CanSend();
        if !ok {
          return None;
        }
      }
      if !open {
        return None;
      }
      promise := Some(nextPromise);
      shots.cells := shots.cells[nextPromise := Waiting];
      queue := queue + [Envelope(Some(Message(request, Callback(promise))))];
      nextPromise := nextPromise + 1;
    }

    /** `poll_recv`: the next message, or the signal that one is wanted. */
    method PollRecv(shots: Oneshots, ghost c: Channel) returns (m: Option<Message>)
      requires Holds(c, shots) && AllHaveCallbacks(queue) && !c.gap
      modifies this`queue, this`signal
      ensures m == (if c.queue != [] then c.queue[0].slot else None)
      ensures Holds(if c.queue != [] then Apply(c, Recv)
                    else if c.open then Apply(Apply(c, FindEmpty), Want)
                    else c, shots)
    {
      if queue != [] {
        m := queue[0].slot;
        queue := queue[1..];
      } else {
        m := None;
        if open {
          signal := Wanting;
        }
      }
    }

    /** `Receiver::close`. */
    method Close(shots: Oneshots, ghost c: Channel)
      requires Holds(c, shots) && !c.gap
      modifies this`signal, this`open
      ensures Holds(Apply(c, Event.Close), shots)
    {
      signal := Closed;
      open := false;
    }

    /** `Drop for Receiver`: the queue goes, envelope by envelope, and each hands its request back. */
    method DropReceiver(shots: Oneshots, ghost c: Channel)
      requires Holds(c, shots) && AllHaveCallbacks(queue) && !c.gap
      modifies this, shots
      ensures Holds(Apply(c, Event.DropReceiver), shots)
    {
      signal := Closed;
      open := false;
      while queue != []
        invariant AllHaveCallbacks(queue) && signal == Closed && !open
        invariant buffered == old(buffered) && bounded == old(bounded) && nextPromise == old(nextPromise)
        invariant DropQueue(queue, shots.cells) == DropQueue(old(queue), old(shots.cells))
        decreases |queue|
      {
        var m := queue[0].slot.value;
        var cb := new CallbackSlot(m.callback.tx.value);
        queue := queue[1..];
        cb.Send(shots, Failed(Some(m.request)));
      }
    }
  }
}
