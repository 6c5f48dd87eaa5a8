/**
 Every run of the connection pool: checkouts, waiters, connection attempts and
 checked-out connections interleave, one critical section at a time, with
 receivers that may be dropped at any moment without taking the lock.
 */
module PoolRun {
  import opened Wrappers
  import opened Sequences
  import opened PoolState

  datatype Delivery = Pending | Ready(conn: Conn) | Canceled

  /** The receiving half held by a `Checkout`; a receiver that is gone from the world has been dropped. */
  datatype Receiver = Receiver(key: Key, registered: bool, state: Delivery)

  /** A `connect_to` future: `locked` tells whether its `Connecting` refers to the pool. */
  datatype Attempt = Attempt(key: Key, verH2: bool, locked: bool, h2: Option<bool>)

  /** A checked-out connection; `hasPool` tells whether dropping it may put it back. */
  datatype Pooled = Pooled(key: Key, conn: Conn, hasPool: bool)

  /** Receivers, attempts, checked-out values and connections take their numbers from `next`. */
  datatype World = World(
    pool: Pool,
    rx: map<Waiter, Receiver>,
    attempts: map<nat, Attempt>,
    live: map<nat, Pooled>,
    clock: nat,
    next: nat)

  const START := World(EMPTY, map[], map[], map[], 0, 0)

  datatype Event =
    | StartConnect(key: Key, verH2: bool)
    | Established(t: nat, alpnH2: bool)
    | FinishConnect(t: nat, fate: Waiter -> Fate, now: nat)
    | AbortConnect(t: nat)
    | PollCheckout(key: Key, scan: Scan)
    | FirstPoll(r: Waiter)
    | PollWaiter(r: Waiter, open: bool)
    | DropReceiver(r: Waiter)
    | Clean(key: Key)
    | DropPooled(p: nat, open: bool, fate: Waiter -> Fate, now: nat)
    | SweepIdle(opens: (Key, nat) -> bool, now: nat)

  /** A delivery needs a receiver. */
  ghost predicate Fits(w: World, key: Key, fate: Waiter -> Fate) {
    forall v :: v in QueueOf(w.pool, key) && fate(v).Delivered? ==> v in w.rx
  }

  ghost predicate Enabled(w: World, cfg: Config, e: Event) {
    match e
    case StartConnect(_, _) => true
    case Established(t, _) => t in w.attempts && w.attempts[t].h2.None?
    case FinishConnect(t, fate, now) =>
      t in w.attempts && w.attempts[t].h2.Some? && w.clock <= now && Fits(w, w.attempts[t].key, fate)
    case AbortConnect(t) => t in w.attempts
    case PollCheckout(_, scan) => ClockRuns(scan, w.clock)
    case FirstPoll(r) => r in w.rx && !w.rx[r].registered
    case PollWaiter(r, _) => r in w.rx && w.rx[r].registered
    case DropReceiver(r) => r in w.rx
    case Clean(_) => true
    case DropPooled(p, _, fate, now) => p in w.live && w.clock <= now && Fits(w, w.live[p].key, fate)
    case SweepIdle(_, now) => cfg.timeout.Some? && w.clock <= now
  }

  /** The channels after `put` has served a queue; those it found closed have no receiver any more. */
  function Deliver(rx: map<Waiter, Receiver>, s: Served, conn: Conn): map<Waiter, Receiver> {
    map r | r in rx && r !in s.lost :: if r in s.got then rx[r].(state := Ready(conn)) else rx[r]
  }

  /** Dropping the senders of a queue. */
  function Cancel(rx: map<Waiter, Receiver>, queue: seq<Waiter>): map<Waiter, Receiver> {
    map r | r in rx :: if r in queue then rx[r].(state := Canceled) else rx[r]
  }

  /** `PoolInner::connected` together with the senders it drops. */
  function Release(w: World, key: Key): World {
    w.(pool := Connected(w.pool, key), rx := Cancel(w.rx, QueueOf(w.pool, key)))
  }

  function PutBack(w: World, cfg: Config, key: Key, conn: Conn, fate: Waiter -> Fate, now: nat): World {
    w.(pool := Put(w.pool, cfg, key, conn, fate, now),
       rx := Deliver(w.rx, PutServes(w.pool, key, conn, fate), conn),
       clock := now)
  }

  /** `Drop for Connecting`. */
  function DropAttempt(w: World, t: nat): World
    requires t in w.attempts
  {
    var w' := w.(attempts := w.attempts - {t});
    if w.attempts[t].locked then Release(w', w.attempts[t].key) else w'
  }

  /** `Pool::pooled`, with the `Connecting` dropped at its end. */
  function Finish(w: World, cfg: Config, t: nat, shared: bool, fate: Waiter -> Fate, now: nat): World
    requires t in w.attempts
  {
    var key := w.attempts[t].key;
    var conn := Conn(w.next, shared);
    var done :=
      if shared then Release(PutBack(w.(attempts := w.attempts - {t}), cfg, key, conn, fate, now), key)
      else DropAttempt(w, t);
    done.(live := done.live[w.next + 1 := Pooled(key, conn, !shared)], clock := now, next := w.next + 2)
  }

  function CheckoutStep(w: World, cfg: Config, key: Key, scan: Scan): World {
    var (found, pool) := Checkout(w.pool, cfg, key, w.next, scan);
    var w' := w.(pool := pool, clock := scan.end, next := w.next + 1);
    if found.Some? then w'.(live := w.live[w.next := Pooled(key, found.value.conn, !found.value.conn.shared)])
    else w'.(rx := w.rx[w.next := Receiver(key, false, Pending)])
  }

  ghost function Apply(w: World, cfg: Config, e: Event): World
    requires Enabled(w, cfg, e)
  {
    match e
    case StartConnect(key, verH2) =>
      if verH2 && key in w.pool.connecting then w
      else w.(attempts := w.attempts[w.next := Attempt(key, verH2, verH2, None)],
              pool := if verH2 then w.pool.(connecting := w.pool.connecting + {key}) else w.pool,
              next := w.next + 1)
    case Established(t, alpnH2) =>
      var a := w.attempts[t];
      if alpnH2 && !a.verH2 then
        if a.key in w.pool.connecting then w.(attempts := w.attempts - {t})
        else w.(attempts := w.attempts[t := a.(locked := true, h2 := Some(true))],
                pool := w.pool.(connecting := w.pool.connecting + {a.key}))
      else w.(attempts := w.attempts[t := a.(h2 := Some(a.verH2 || alpnH2))])
    case FinishConnect(t, fate, now) => Finish(w, cfg, t, w.attempts[t].h2.value, fate, now)
    case AbortConnect(t) => DropAttempt(w, t)
    case PollCheckout(key, scan) => CheckoutStep(w, cfg, key, scan)
    case FirstPoll(r) =>
      if w.rx[r].state.Pending? then w.(rx := w.rx[r := w.rx[r].(registered := true)]) else w.(rx := w.rx - {r})
    case PollWaiter(r, open) =>
      var c := w.rx[r];
      if c.state.Pending? then w
      else if c.state.Ready? && open then
        w.(rx := w.rx - {r},
           live := w.live[w.next := Pooled(c.key, c.state.conn, !c.state.conn.shared)],
           next := w.next + 1)
      else w.(rx := w.rx - {r})
    case DropReceiver(r) => w.(rx := w.rx - {r})
    case Clean(key) => w.(pool := CleanWaiters(w.pool, key, r => r !in w.rx))
    case DropPooled(p, open, fate, now) =>
      var v := w.live[p];
      var w' := w.(live := w.live - {p}, clock := now);
      if open && v.hasPool then PutBack(w', cfg, v.key, v.conn, fate, now) else w'
    case SweepIdle(opens, now) =>
      w.(pool := Sweep(w.pool, cfg.timeout, w.pool.lru, opens, now), clock := now)
  }

  // ----- The invariant -----

  ghost predicate AttemptInv(a: Attempt) {
    && (a.verH2 ==> a.locked)
    && a.locked == if a.h2.Some? then a.h2.value else a.verH2
  }

  ghost predicate Holder(attempts: map<nat, Attempt>, t: nat, key: Key) {
    t in attempts && attempts[t].locked && attempts[t].key == key
  }

  /** The lock set names exactly the live lock-holding attempts, one for each key. */
  ghost predicate Locks(attempts: map<nat, Attempt>, connecting: set<Key>, next: nat) {
    && (forall t :: t in attempts ==> t < next && AttemptInv(attempts[t]))
    && (forall k :: k in connecting <==> exists t :: Holder(attempts, t, k))
    && (forall t, u, k :: Holder(attempts, t, k) && Holder(attempts, u, k) ==> t == u)
  }

  ghost predicate LocksInv(w: World) {
    Locks(w.attempts, w.pool.connecting, w.next)
  }

  ghost predicate Queued(waiters: map<Key, seq<Waiter>>, key: Key, r: Waiter) {
    key in waiters && r in waiters[key]
  }

  /** A receiver is pending exactly while its sender is queued, and no sender is queued twice. */
  ghost predicate Channels(rx: map<Waiter, Receiver>, waiters: map<Key, seq<Waiter>>, next: nat) {
    && (forall r :: r in rx ==> r < next && (rx[r].state.Pending? <==> Queued(waiters, rx[r].key, r)))
    && (forall k: Key, r: Waiter :: Queued(waiters, k, r) ==> r < next && (r in rx ==> rx[r].key == k))
    && (forall k :: k in waiters ==> NoRepeats(waiters[k]))
  }

  ghost predicate WaitersInv(w: World) {
    Channels(w.rx, w.pool.waiters, w.next)
  }

  datatype Place = IdleUnder(key: Key) | InChannel(r: Waiter) | InPooled(p: nat)

  ghost predicate Listed(list: seq<Idle>, c: Conn) {
    exists i :: 0 <= i < |list| && list[i].conn == c
  }

  ghost predicate Has(p: Pool, key: Key, c: Conn) {
    key in p.idle && Listed(p.idle[key], c)
  }

  ghost predicate AllDistinct(p: Pool) {
    forall k :: k in p.idle ==> Distinct(p.idle[k])
  }

  ghost predicate At(w: World, c: Conn, place: Place) {
    match place
    case IdleUnder(k) => Has(w.pool, k, c)
    case InChannel(r) => r in w.rx && w.rx[r].state == Ready(c)
    case InPooled(p) => p in w.live && w.live[p].conn == c
  }

  /** A unique connection is in at most one place. */
  ghost predicate PlacesInv(w: World) {
    && (forall c: Conn, a, b :: !c.shared && At(w, c, a) && At(w, c, b) ==> a == b)
    && (forall c: Conn, a :: At(w, c, a) ==> c.id < w.next)
    && AllDistinct(w.pool)
    && (forall p :: p in w.live ==> p < w.next && (w.live[p].hasPool <==> !w.live[p].conn.shared))
  }

  ghost predicate WorldInv(w: World, cfg: Config) {
    Inv(w.pool, cfg, w.clock) && LocksInv(w) && WaitersInv(w) && PlacesInv(w)
  }

  // ----- Each step keeps it: the pool itself -----

  lemma PoolStep(w: World, cfg: Config, e: Event)
    requires cfg.Enabled() && WorldInv(w, cfg) && Enabled(w, cfg, e)
    ensures Inv(Apply(w, cfg, e).pool, cfg, Apply(w, cfg, e).clock)
  {
    match e
    case FinishConnect(t, fate, now) =>
      InvLater(w.pool, cfg, w.clock, now);
      PutKeepsInv(w.pool, cfg, w.attempts[t].key, Conn(w.next, true), fate, now);
    case PollCheckout(key, scan) => CheckoutKeepsInv(w.pool, cfg, key, w.next, scan, w.clock);
    case DropPooled(p, open, fate, now) =>
      InvLater(w.pool, cfg, w.clock, now);
      PutKeepsInv(w.pool, cfg, w.live[p].key, w.live[p].conn, fate, now);
    case SweepIdle(opens, now) =>
      InvLater(w.pool, cfg, w.clock, now);
      SweepKeepsInv(w.pool, cfg, w.pool.lru, opens, now);
    case _ =>
  }

  // ----- The locks -----

  lemma PutTouches(p: Pool, cfg: Config, key: Key, conn: Conn, fate: Waiter -> Fate, now: nat)
    requires key in p.waiters ==> p.waiters[key] != []
    ensures var q := Put(p, cfg, key, conn, fate, now);
            && q.connecting == p.connecting
            && q.waiters == SetQueue(p, key, PutServes(p, key, conn, fate).left).waiters
  {
    if conn.shared && key in p.idle && key in p.waiters {
      assert p.waiters[key := p.waiters[key]] == p.waiters;
    } else if key !in p.waiters {
      assert p.waiters - {key} == p.waiters;
    }
  }

  lemma CheckoutTouches(p: Pool, cfg: Config, key: Key, w: Waiter, scan: Scan)
    ensures var (found, q) := Checkout(p, cfg, key, w, scan);
            && q.connecting == p.connecting
            && q.waiters == if found.Some? then p.waiters else p.waiters[key := QueueOf(p, key) + [w]]
  {
  }

  lemma SetKeepsLocks(attempts: map<nat, Attempt>, connecting: set<Key>, next: nat, t: nat, a: Attempt, next': nat)
    requires Locks(attempts, connecting, next) && AttemptInv(a) && t < next' && next <= next'
    requires if t in attempts && attempts[t].locked then a.locked && a.key == attempts[t].key
             else a.locked ==> a.key !in connecting
    ensures Locks(attempts[t := a], if a.locked then connecting + {a.key} else connecting, next')
  {
    var after := attempts[t := a];
    assert a.locked ==> Holder(after, t, a.key);
    forall u, k | Holder(after, u, k)
      ensures if u == t then a.locked && k == a.key else Holder(attempts, u, k) && k in connecting
    {
      assert u != t ==> Holder(attempts, u, k);
    }
    forall u, k | Holder(attempts, u, k) ensures Holder(after, u, k) {}
    if t in attempts && attempts[t].locked {
      assert Holder(attempts, t, a.key);
    }
  }

  lemma RemoveKeepsLocks(attempts: map<nat, Attempt>, connecting: set<Key>, next: nat, t: nat)
    requires Locks(attempts, connecting, next) && t in attempts
    ensures Locks(attempts - {t}, if attempts[t].locked then connecting - {attempts[t].key} else connecting, next)
  {
    var after := attempts - {t};
    forall k, u ensures Holder(after, u, k) <==> u != t && Holder(attempts, u, k) {}
    forall k | k in connecting && !Holder(attempts, t, k) ensures exists u :: Holder(after, u, k) {
      var u :| Holder(attempts, u, k);
      assert Holder(after, u, k);
    }
    assert attempts[t].locked ==> Holder(attempts, t, attempts[t].key);
  }

  lemma ConnectKeepsLocks(w: World, cfg: Config, e: Event)
    requires (e.StartConnect? || e.Established?) && LocksInv(w) && Enabled(w, cfg, e)
    ensures LocksInv(Apply(w, cfg, e))
  {
    var w' := Apply(w, cfg, e);
    var t := if e.StartConnect? then w.next else e.t;
    if t in w'.attempts {
      var a := w'.attempts[t];
      if e.Established? && w.attempts[t].locked {
        assert Holder(w.attempts, t, a.key);
        assert w.pool.connecting + {a.key} == w.pool.connecting;
      }
      SetKeepsLocks(w.attempts, w.pool.connecting, w.next, t, a, w'.next);
    } else if e.Established? {
      RemoveKeepsLocks(w.attempts, w.pool.connecting, w.next, t);
    }
  }

  lemma FinishKeepsLocks(w: World, cfg: Config, t: nat, fate: Waiter -> Fate, now: nat)
    requires Inv(w.pool, cfg, w.clock) && LocksInv(w) && t in w.attempts && w.attempts[t].h2.Some?
    ensures var a, w' := w.attempts[t], Finish(w, cfg, t, w.attempts[t].h2.value, fate, now);
            && LocksInv(w') && w'.attempts == w.attempts - {t}
            && (a.h2.value ==> a.key in w.pool.connecting)
            && w'.pool.connecting == w.pool.connecting - (if a.h2.value then {a.key} else {})
  {
    assert w.attempts[t].locked ==> Holder(w.attempts, t, w.attempts[t].key);
    RemoveKeepsLocks(w.attempts, w.pool.connecting, w.next, t);
    PutTouches(w.pool, cfg, w.attempts[t].key, Conn(w.next, true), fate, now);
  }

  lemma LocksStep(w: World, cfg: Config, e: Event)
    requires cfg.Enabled() && WorldInv(w, cfg) && Enabled(w, cfg, e)
    ensures LocksInv(Apply(w, cfg, e))
  {
    match e
    case StartConnect(_, _) => ConnectKeepsLocks(w, cfg, e);
    case Established(_, _) => ConnectKeepsLocks(w, cfg, e);
    case FinishConnect(t, fate, now) => FinishKeepsLocks(w, cfg, t, fate, now);
    case AbortConnect(t) => RemoveKeepsLocks(w.attempts, w.pool.connecting, w.next, t);
    case PollCheckout(key, scan) =>
      CheckoutTouches(w.pool, cfg, key, w.next, scan);
    case DropPooled(p, open, fate, now) =>
      PutTouches(w.pool, cfg, w.live[p].key, w.live[p].conn, fate, now);
    case SweepIdle(opens, now) =>
      InvLater(w.pool, cfg, w.clock, now);
      SweepKeepsInv(w.pool, cfg, w.pool.lru, opens, now);
    case _ =>
  }


  // ----- The waiters -----

  lemma DeliverKeepsChannels(rx: map<Waiter, Receiver>, waiters: map<Key, seq<Waiter>>, next: nat,
                             key: Key, s: Served, conn: Conn, after: map<Key, seq<Waiter>>)
    requires Channels(rx, waiters, next)
    requires forall r: Waiter :: Queued(waiters, key, r) <==> r in s.left || r in s.got || r in s.lost
    requires forall r: Waiter :: r in s.left ==> r !in s.got && r !in s.lost
    requires forall k: Key, r: Waiter ::
               Queued(after, k, r) <==> if k == key then r in s.left else Queued(waiters, k, r)
    requires forall k :: k in after ==> NoRepeats(after[k])
    ensures Channels(Deliver(rx, s, conn), after, next)
  {
    var rx' := Deliver(rx, s, conn);
    forall r | r in rx'
      ensures r < next && (rx'[r].state.Pending? <==> Queued(after, rx'[r].key, r))
    {
      assert r in s.got ==> Queued(waiters, key, r);
    }
  }

  lemma PutKeepsChannels(w: World, cfg: Config, key: Key, conn: Conn, fate: Waiter -> Fate, now: nat)
    requires Inv(w.pool, cfg, w.clock) && WaitersInv(w)
    ensures WaitersInv(PutBack(w, cfg, key, conn, fate, now))
  {
    PutTouches(w.pool, cfg, key, conn, fate, now);
    assert NoRepeats(QueueOf(w.pool, key));
    ServePartitions(QueueOf(w.pool, key), conn.shared, fate);
    var s := PutServes(w.pool, key, conn, fate);
    var after := Put(w.pool, cfg, key, conn, fate, now).waiters;
    assert forall r: Waiter :: Queued(w.pool.waiters, key, r) <==> r in QueueOf(w.pool, key);
    forall k: Key, r: Waiter
      ensures Queued(after, k, r) <==> if k == key then r in s.left else Queued(w.pool.waiters, k, r)
    {
    }
    DeliverKeepsChannels(w.rx, w.pool.waiters, w.next, key, s, conn, after);
  }

  lemma ReleaseKeepsChannels(w: World, key: Key)
    requires WaitersInv(w)
    ensures WaitersInv(Release(w, key))
  {
    var after := Connected(w.pool, key).waiters;
    forall k: Key, r: Waiter ensures Queued(after, k, r) <==> k != key && Queued(w.pool.waiters, k, r) {}
    assert forall r: Waiter :: r in QueueOf(w.pool, key) <==> Queued(w.pool.waiters, key, r);
  }

  lemma FinishKeepsChannels(w: World, cfg: Config, t: nat, shared: bool, fate: Waiter -> Fate, now: nat)
    requires Inv(w.pool, cfg, w.clock) && WaitersInv(w) && t in w.attempts
    ensures WaitersInv(Finish(w, cfg, t, shared, fate, now))
  {
    var key, conn := w.attempts[t].key, Conn(w.next, shared);
    var w' := w.(attempts := w.attempts - {t});
    PutKeepsChannels(w', cfg, key, conn, fate, now);
    ReleaseKeepsChannels(PutBack(w', cfg, key, conn, fate, now), key);
    ReleaseKeepsChannels(w', key);
  }

  lemma EnqueueKeepsChannels(rx: map<Waiter, Receiver>, waiters: map<Key, seq<Waiter>>, next: nat,
                             key: Key, queue: seq<Waiter>)
    requires Channels(rx, waiters, next) && queue == if key in waiters then waiters[key] else []
    ensures Channels(rx[next := Receiver(key, false, Pending)], waiters[key := queue + [next]], next + 1)
  {
    var after := waiters[key := queue + [next]];
    forall k: Key, r: Waiter
      ensures Queued(after, k, r) <==> Queued(waiters, k, r) || (k == key && r == next)
    {
    }
    forall i | 0 <= i < |queue| ensures queue[i] != next { assert Queued(waiters, key, queue[i]); }
  }

  lemma CheckoutKeepsChannels(w: World, cfg: Config, key: Key, scan: Scan)
    requires WaitersInv(w)
    ensures WaitersInv(CheckoutStep(w, cfg, key, scan))
  {
    CheckoutTouches(w.pool, cfg, key, w.next, scan);
    EnqueueKeepsChannels(w.rx, w.pool.waiters, w.next, key, QueueOf(w.pool, key));
  }

  lemma {:induction false} StillOpenKeeps(queue: seq<Waiter>, closed: Waiter -> bool)
    requires NoRepeats(queue)
    ensures NoRepeats(StillOpen(queue, closed))
  {
    if queue == [] {
    } else {
      StillOpenKeeps(queue[1..], closed);
      StillOpenMembers(queue[1..], closed);
      var rest := StillOpen(queue[1..], closed);
      forall i | 0 <= i < |rest| ensures rest[i] != queue[0] { assert rest[i] in queue[1..]; }
    }
  }

  lemma CleanKeepsChannels(w: World, key: Key)
    requires WaitersInv(w)
    ensures WaitersInv(w.(pool := CleanWaiters(w.pool, key, r => r !in w.rx)))
  {
    if key in w.pool.waiters {
      var closed := r => r !in w.rx;
      StillOpenKeeps(w.pool.waiters[key], closed);
      StillOpenMembers(w.pool.waiters[key], closed);
      var after := CleanWaiters(w.pool, key, closed).waiters;
      forall k: Key, r: Waiter
        ensures Queued(after, k, r) <==> Queued(w.pool.waiters, k, r) && (k == key ==> r in w.rx)
      {
      }
    }
  }

  lemma WaitersStep(w: World, cfg: Config, e: Event)
    requires cfg.Enabled() && WorldInv(w, cfg) && Enabled(w, cfg, e)
    ensures WaitersInv(Apply(w, cfg, e))
  {
    match e
    case FinishConnect(t, fate, now) => FinishKeepsChannels(w, cfg, t, w.attempts[t].h2.value, fate, now);
    case AbortConnect(t) => ReleaseKeepsChannels(w.(attempts := w.attempts - {t}), w.attempts[t].key);
    case PollCheckout(key, scan) => CheckoutKeepsChannels(w, cfg, key, scan);
    case Clean(key) => CleanKeepsChannels(w, key);
    case DropPooled(p, open, fate, now) =>
      var w' := w.(live := w.live - {p}, clock := now);
      InvLater(w.pool, cfg, w.clock, now);
      PutKeepsChannels(w', cfg, w.live[p].key, w.live[p].conn, fate, now);
    case SweepIdle(opens, now) =>
      InvLater(w.pool, cfg, w.clock, now);
      SweepKeepsInv(w.pool, cfg, w.pool.lru, opens, now);
    case _ =>
  }

  // ----- The places of a connection -----

  /** A step that takes nothing but `c` anywhere new, and `c` only to `to`, keeps connections apart. */
  lemma MoveKeepsPlaces(w: World, w': World, c: Conn, to: Place)
    requires PlacesInv(w) && w.next <= w'.next && c.id < w'.next
    requires forall x: Conn, a :: At(w', x, a) ==> At(w, x, a) || (x == c && (c.shared || a == to))
    requires !c.shared ==> forall a :: At(w', c, a) ==> a == to
    requires AllDistinct(w'.pool)
    requires forall p :: p in w'.live ==> p < w'.next && (w'.live[p].hasPool <==> !w'.live[p].conn.shared)
    ensures PlacesInv(w')
  {
  }

  lemma FewerKeepsPlaces(w: World, w': World)
    requires PlacesInv(w) && w'.pool.idle == w.pool.idle && w.next <= w'.next
    requires forall p :: p in w'.live ==> p in w.live && w'.live[p] == w.live[p]
    requires forall r :: r in w'.rx && w'.rx[r].state.Ready? ==> r in w.rx && w'.rx[r].state == w.rx[r].state
    ensures PlacesInv(w')
  {
    assert forall x: Conn, a :: At(w', x, a) ==> At(w, x, a);
  }

  lemma AppendLists(list: seq<Idle>, conn: Conn, now: nat)
    requires Distinct(list) && (!conn.shared ==> !Listed(list, conn))
    ensures Distinct(list + [Idle(now, conn)])
    ensures forall c: Conn :: Listed(list + [Idle(now, conn)], c) ==> Listed(list, c) || c == conn
  {
    var more := list + [Idle(now, conn)];
    forall c: Conn | Listed(more, c) && c != conn ensures Listed(list, c) {
      var i :| 0 <= i < |more| && more[i].conn == c;
      assert list[i].conn == c;
    }
    forall i | 0 <= i < |list| && list[i].conn == conn ensures conn.shared { assert Listed(list, conn); }
  }

  lemma PushLists(p: Pool, cfg: Config, key: Key, conn: Conn, now: nat)
    requires cfg.Enabled() && Inv(p, cfg, now) && AllDistinct(p)
    requires !conn.shared ==> !Has(p, key, conn)
    ensures var q := PushIdle(p, cfg, key, conn, now);
            && (forall k: Key, c: Conn :: Has(q, k, c) ==> Has(p, k, c) || (k == key && c == conn))
            && AllDistinct(q)
  {
    EnterKeepsLists(p, cfg, key);
    var e, q := Enter(p, cfg, key), PushIdle(p, cfg, key, conn, now);
    var list := e.idle[key];
    assert forall c: Conn :: Listed(list, c) ==> Has(p, key, c);
    AppendLists(list, conn, now);
    forall k: Key, c: Conn | Has(q, k, c) ensures Has(p, k, c) || (k == key && c == conn) {
      assert k != key ==> q.idle[k] == p.idle[k];
    }
  }

  lemma PutLists(p: Pool, cfg: Config, key: Key, conn: Conn, fate: Waiter -> Fate, now: nat)
    requires cfg.Enabled() && Inv(p, cfg, now) && AllDistinct(p)
    requires !conn.shared ==> !Has(p, key, conn)
    ensures var q := Put(p, cfg, key, conn, fate, now);
            && (forall k: Key, c: Conn ::
                  Has(q, k, c) ==> Has(p, k, c) || (k == key && c == conn && PutServes(p, key, conn, fate).kept))
            && AllDistinct(q)
  {
    if !(conn.shared && key in p.idle) {
      var s := Serve(QueueOf(p, key), conn.shared, fate);
      ServeSendsOnce(QueueOf(p, key), conn.shared, fate);
      var q := SetQueue(p, key, s.left);
      assert Inv(q, cfg, now) && AllDistinct(q);
      assert forall k: Key, c: Conn :: Has(q, k, c) ==> Has(p, k, c);
      assert !conn.shared ==> !Has(q, key, conn);
      if s.kept {
        PushLists(q, cfg, key, conn, now);
      }
    }
  }

  lemma {:induction false} PopLists(list: seq<Idle>, timeout: Option<nat>, scan: Scan)
    requires Distinct(list)
    ensures var (found, rest) := Pop(list, timeout, scan);
            && Distinct(rest)
            && (forall c: Conn :: Listed(rest, c) ==> Listed(list, c))
            && (found.Some? ==>
                  var c := found.value.conn; Listed(list, c) && (Listed(rest, c) ==> c.shared))
  {
    if list == [] {
    } else {
      var last := |list| - 1;
      if Usable(list, timeout, scan, last) {
        var rest := TakeLast(list, scan.end);
        forall i | 0 <= i < |rest| ensures rest[i].conn == list[i].conn {}
      } else {
        PopLists(list[..last], timeout, scan);
        forall c: Conn | Listed(list[..last], c) ensures Listed(list, c) {
          var i :| 0 <= i < last && list[..last][i].conn == c;
          assert list[i].conn == c;
        }
      }
    }
  }

  lemma SweepKeyLists(p: Pool, timeout: Option<nat>, key: Key, open: nat -> bool, now: nat)
    requires AllDistinct(p)
    ensures var q := SweepKey(p, timeout, key, open, now);
            AllDistinct(q) && forall k: Key, c: Conn :: Has(q, k, c) ==> Has(p, k, c)
  {
    if key in p.idle {
      var list, kept := p.idle[key], Retain(p.idle[key], timeout, open, now);
      RetainKeeps(list, timeout, open, now);
      forall c: Conn | Listed(kept, c) ensures Listed(list, c) {
        var i :| 0 <= i < |kept| && kept[i].conn == c;
        assert kept[i] in list;
      }
    }
  }

  lemma {:induction false} SweepLists(p: Pool, timeout: Option<nat>, keys: seq<Key>, open: (Key, nat) -> bool, now: nat)
    requires AllDistinct(p)
    ensures var q := Sweep(p, timeout, keys, open, now);
            AllDistinct(q) && forall k: Key, c: Conn :: Has(q, k, c) ==> Has(p, k, c)
  {
    if keys == [] {
    } else {
      var k := keys[|keys| - 1];
      SweepLists(p, timeout, keys[..|keys| - 1], open, now);
      SweepKeyLists(Sweep(p, timeout, keys[..|keys| - 1], open, now), timeout, k, (i: nat) => open(k, i), now);
    }
  }

  lemma PutBackKeepsPlaces(w: World, cfg: Config, p: nat, fate: Waiter -> Fate, now: nat)
    requires cfg.Enabled() && WorldInv(w, cfg) && w.clock <= now && p in w.live && w.live[p].hasPool
    ensures PlacesInv(PutBack(w.(live := w.live - {p}, clock := now), cfg, w.live[p].key, w.live[p].conn, fate, now))
  {
    var key, c := w.live[p].key, w.live[p].conn;
    var w' := PutBack(w.(live := w.live - {p}, clock := now), cfg, key, c, fate, now);
    assert At(w, c, InPooled(p));
    assert !At(w, c, IdleUnder(key));
    InvLater(w.pool, cfg, w.clock, now);
    PutLists(w.pool, cfg, key, c, fate, now);
    ServeSendsOnce(QueueOf(w.pool, key), c.shared, fate);
    var s := PutServes(w.pool, key, c, fate);
    var to := if s.kept then IdleUnder(key) else InChannel(s.got[0]);
    assert forall r :: r in s.got ==> !s.kept && r == s.got[0];
    forall x: Conn, a | At(w', x, a)
      ensures (At(w, x, a) && x != c) || (x == c && a == to)
    {
      assert a != InPooled(p);
      assert a.InChannel? && a.r !in s.got ==> At(w, x, a);
      assert a.IdleUnder? && Has(w.pool, a.key, x) ==> At(w, x, a);
      assert a.InPooled? ==> At(w, x, a);
    }
    MoveKeepsPlaces(w, w', c, to);
  }

  lemma FinishKeepsPlaces(w: World, cfg: Config, t: nat, fate: Waiter -> Fate, now: nat)
    requires cfg.Enabled() && WorldInv(w, cfg) && w.clock <= now && t in w.attempts && w.attempts[t].h2.Some?
    ensures PlacesInv(Finish(w, cfg, t, w.attempts[t].h2.value, fate, now))
  {
    var shared := w.attempts[t].h2.value;
    var key, c := w.attempts[t].key, Conn(w.next, shared);
    var w' := Finish(w, cfg, t, shared, fate, now);
    if shared {
      InvLater(w.pool, cfg, w.clock, now);
      PutLists(w.pool, cfg, key, c, fate, now);
    }
    assert forall a :: !At(w, c, a);
    forall x: Conn, a | At(w', x, a)
      ensures At(w, x, a) || (x == c && (c.shared || a == InPooled(w.next + 1)))
    {
    }
    MoveKeepsPlaces(w, w', c, InPooled(w.next + 1));
  }

  lemma CheckoutLists(p: Pool, cfg: Config, key: Key, r: Waiter, scan: Scan)
    requires AllDistinct(p)
    ensures var (found, q) := Checkout(p, cfg, key, r, scan);
            && AllDistinct(q)
            && (forall k: Key, c: Conn :: Has(q, k, c) ==> Has(p, k, c))
            && (found.Some? ==>
                  var c := found.value.conn; Has(p, key, c) && (Has(q, key, c) ==> c.shared))
  {
    if key in p.idle {
      PopLists(p.idle[key], cfg.timeout, scan);
    }
  }

  lemma CheckoutKeepsPlaces(w: World, cfg: Config, key: Key, scan: Scan)
    requires PlacesInv(w)
    ensures PlacesInv(CheckoutStep(w, cfg, key, scan))
  {
    var w' := CheckoutStep(w, cfg, key, scan);
    var found := Checkout(w.pool, cfg, key, w.next, scan).0;
    CheckoutLists(w.pool, cfg, key, w.next, scan);
    var c := if found.Some? then found.value.conn else Conn(w.next, true);
    assert found.Some? ==> At(w, c, IdleUnder(key));
    forall x: Conn, a | At(w', x, a)
      ensures At(w, x, a) || (found.Some? && x == c && a == InPooled(w.next))
    {
    }
    MoveKeepsPlaces(w, w', c, InPooled(w.next));
  }

  lemma PollWaiterKeepsPlaces(w: World, cfg: Config, r: Waiter, open: bool)
    requires WorldInv(w, cfg) && Enabled(w, cfg, PollWaiter(r, open))
    ensures PlacesInv(Apply(w, cfg, PollWaiter(r, open)))
  {
    var w' := Apply(w, cfg, PollWaiter(r, open));
    var c := if w.rx[r].state.Ready? then w.rx[r].state.conn else Conn(0, true);
    if w.rx[r].state.Ready? && open {
      assert At(w, c, InChannel(r));
      MoveKeepsPlaces(w, w', c, InPooled(w.next));
    } else {
      FewerKeepsPlaces(w, w');
    }
  }

  lemma SweepKeepsPlaces(w: World, cfg: Config, opens: (Key, nat) -> bool, now: nat)
    requires PlacesInv(w)
    ensures PlacesInv(w.(pool := Sweep(w.pool, cfg.timeout, w.pool.lru, opens, now), clock := now))
  {
    SweepLists(w.pool, cfg.timeout, w.pool.lru, opens, now);
    var w' := w.(pool := Sweep(w.pool, cfg.timeout, w.pool.lru, opens, now), clock := now);
    assert forall x: Conn, a :: At(w', x, a) ==> At(w, x, a);
  }

  /** The events that move no connection. */
  lemma StillKeepsPlaces(w: World, cfg: Config, e: Event)
    requires PlacesInv(w) && Enabled(w, cfg, e)
    requires !(e.FinishConnect? || e.PollCheckout? || e.PollWaiter? || e.SweepIdle? || e.DropPooled?)
    ensures PlacesInv(Apply(w, cfg, e))
  {
    FewerKeepsPlaces(w, Apply(w, cfg, e));
  }

  lemma PlacesStep(w: World, cfg: Config, e: Event)
    requires cfg.Enabled() && WorldInv(w, cfg) && Enabled(w, cfg, e)
    ensures PlacesInv(Apply(w, cfg, e))
  {
    match e
    case FinishConnect(t, fate, now) => FinishKeepsPlaces(w, cfg, t, fate, now);
    case PollCheckout(key, scan) => CheckoutKeepsPlaces(w, cfg, key, scan);
    case PollWaiter(r, open) => PollWaiterKeepsPlaces(w, cfg, r, open);
    case SweepIdle(opens, now) => SweepKeepsPlaces(w, cfg, opens, now);
    case DropPooled(p, open, fate, now) =>
      if open && w.live[p].hasPool {
        PutBackKeepsPlaces(w, cfg, p, fate, now);
      } else {
        FewerKeepsPlaces(w, Apply(w, cfg, e));
      }
    case _ => StillKeepsPlaces(w, cfg, e);
  }

  // ----- Whole runs -----

  ghost predicate IsRun(w: World, cfg: Config, run: seq<Event>)
    decreases |run|
  {
    run == [] || (Enabled(w, cfg, run[0]) && IsRun(Apply(w, cfg, run[0]), cfg, run[1..]))
  }

  ghost function After(w: World, cfg: Config, run: seq<Event>): World
    requires IsRun(w, cfg, run)
    decreases |run|
  {
    if run == [] then w else After(Apply(w, cfg, run[0]), cfg, run[1..])
  }

  lemma StepKeepsInv(w: World, cfg: Config, e: Event)
    requires cfg.Enabled() && WorldInv(w, cfg) && Enabled(w, cfg, e)
    ensures WorldInv(Apply(w, cfg, e), cfg)
  {
    PoolStep(w, cfg, e);
    LocksStep(w, cfg, e);
    WaitersStep(w, cfg, e);
    PlacesStep(w, cfg, e);
  }

  lemma {:induction false} RunKeepsInv(w: World, cfg: Config, run: seq<Event>)
    requires cfg.Enabled() && WorldInv(w, cfg) && IsRun(w, cfg, run)
    ensures WorldInv(After(w, cfg, run), cfg)
    decreases |run|
  {
    if run == [] {
    } else {
      StepKeepsInv(w, cfg, run[0]);
      RunKeepsInv(Apply(w, cfg, run[0]), cfg, run[1..]);
    }
  }

  lemma Reached(cfg: Config, run: seq<Event>)
    requires cfg.Enabled() && IsRun(START, cfg, run)
    ensures WorldInv(After(START, cfg, run), cfg)
  {
    assert WorldInv(START, cfg);
    RunKeepsInv(START, cfg, run);
  }

  // ----- What the runs promise -----

  /** Whenever the lock is free: no key is both idle and waited for, and the lists are as the source hopes. */
  lemma IdleOrWaitedForNeverBoth(cfg: Config, run: seq<Event>)
    requires cfg.Enabled() && IsRun(START, cfg, run)
    ensures var p := After(START, cfg, run).pool;
            && p.idle.Keys !! p.waiters.Keys
            && (forall k :: k in p.waiters ==> p.waiters[k] != [])
            && (forall k :: k in p.idle ==> 0 < |p.idle[k]| <= cfg.maxIdle && Sorted(p.idle[k]) && OneShared(p.idle[k]))
            && (cfg.maxKeys.Some? ==> |p.idle| <= cfg.maxKeys.value)
  {
    Reached(cfg, run);
    var p := After(START, cfg, run).pool;
    ListsCount(p.lru, p.idle.Keys);
  }

  lemma {:induction false} ListsCount(lru: seq<Key>, keys: set<Key>)
    requires Lists(lru, keys)
    ensures |lru| == |keys|
  {
    if lru == [] {
      assert forall k :: k !in keys;
    } else {
      assert lru[0] in lru && lru == [lru[0]] + lru[1..];
      ListsCount(lru[1..], keys - {lru[0]});
    }
  }

  /** The exact spot of a connection: a slot of an idle list, a channel, or a checked-out value. */
  datatype Spot = Slot(key: Key, index: nat) | Sent(r: Waiter) | CheckedOut(p: nat)

  ghost predicate IsAt(w: World, c: Conn, spot: Spot) {
    match spot
    case Slot(k, i) => k in w.pool.idle && i < |w.pool.idle[k]| && w.pool.idle[k][i].conn == c
    case Sent(r) => r in w.rx && w.rx[r].state == Ready(c)
    case CheckedOut(p) => p in w.live && w.live[p].conn == c
  }

  /** An HTTP/1 connection is never in two spots at once. */
  lemma UniqueConnectionHasOneSpot(cfg: Config, run: seq<Event>, c: Conn, a: Spot, b: Spot)
    requires cfg.Enabled() && IsRun(START, cfg, run) && !c.shared
    requires IsAt(After(START, cfg, run), c, a) && IsAt(After(START, cfg, run), c, b)
    ensures a == b
  {
    Reached(cfg, run);
    var w := After(START, cfg, run);
    var pa := match a case Slot(k, _) => IdleUnder(k) case Sent(r) => InChannel(r) case CheckedOut(p) => InPooled(p);
    var pb := match b case Slot(k, _) => IdleUnder(k) case Sent(r) => InChannel(r) case CheckedOut(p) => InPooled(p);
    assert At(w, c, pa) && At(w, c, pb);
  }

  /** The assertions about the lock: each key has one holder, a shared connection arrives with its lock held,
      a unique one without, and `alpn_h2` is never asked of a holder. */
  lemma LockAssertionsHold(cfg: Config, run: seq<Event>, t: nat)
    requires cfg.Enabled() && IsRun(START, cfg, run) && t in After(START, cfg, run).attempts
    ensures var w := After(START, cfg, run);
            var a := w.attempts[t];
            && (a.locked ==> a.key in w.pool.connecting && forall u :: Holder(w.attempts, u, a.key) ==> u == t)
            && (a.h2.Some? ==> (a.h2.value <==> a.locked))
            && (a.h2.None? && !a.verH2 ==> !a.locked)
  {
    Reached(cfg, run);
    var w := After(START, cfg, run);
    assert w.attempts[t].locked ==> Holder(w.attempts, t, w.attempts[t].key);
  }

  /** A shared connection that comes up reaches every waiter of its key that is still there, and cancels none. */
  lemma SharedConnectCancelsNobody(cfg: Config, run: seq<Event>, t: nat, fate: Waiter -> Fate, now: nat, r: Waiter)
    requires cfg.Enabled() && IsRun(START, cfg, run)
    requires var w := After(START, cfg, run);
             && Enabled(w, cfg, FinishConnect(t, fate, now)) && w.attempts[t].h2 == Some(true)
             && r in w.rx && w.rx[r].key == w.attempts[t].key && w.rx[r].state.Pending?
    ensures var w := After(START, cfg, run);
            var w' := Apply(w, cfg, FinishConnect(t, fate, now));
            && (r in w'.rx <==> fate(r).Delivered?)
            && (r in w'.rx ==> w'.rx[r].state == Ready(Conn(w.next, true)))
            && (forall p :: p in w'.rx && w'.rx[p].state.Canceled? ==> w.rx[p].state.Canceled?)
  {
    Reached(cfg, run);
    var w := After(START, cfg, run);
    var key, c := w.attempts[t].key, Conn(w.next, true);
    assert Queued(w.pool.waiters, key, r);
    EveryOpenWaiterServed(QueueOf(w.pool, key), fate);
    InvLater(w.pool, cfg, w.clock, now);
    EarlyReturnStrandsNobody(w.pool, cfg, key, c, fate, now);
  }

  /** A connection put back in any run goes to the oldest waiter of its key that is still there. */
  lemma PutBackServesOldest(cfg: Config, run: seq<Event>, p: nat, fate: Waiter -> Fate, now: nat, n: nat)
    requires cfg.Enabled() && IsRun(START, cfg, run)
    requires var w := After(START, cfg, run);
             && Enabled(w, cfg, DropPooled(p, true, fate, now)) && !w.live[p].conn.shared
             && FirstThere(QueueOf(w.pool, w.live[p].key), fate, n)
    ensures var w := After(START, cfg, run);
            var w' := Apply(w, cfg, DropPooled(p, true, fate, now));
            var queue := QueueOf(w.pool, w.live[p].key);
            && queue[n] in w'.rx && w'.rx[queue[n]].state == Ready(w.live[p].conn)
            && QueueOf(w'.pool, w.live[p].key) == queue[n + 1..]
            && (forall r :: r in w.rx && r != queue[n] && r !in queue[..n] ==> r in w'.rx && w'.rx[r] == w.rx[r])
  {
    Reached(cfg, run);
    var w := After(START, cfg, run);
    var key, c := w.live[p].key, w.live[p].conn;
    var queue := QueueOf(w.pool, key);
    OldestOpenWaiterFirst(queue, fate, n);
    PutTouches(w.pool, cfg, key, c, fate, now);
    assert NoRepeats(queue) && queue[n] in queue && w.live[p].hasPool;
  }

  /** In every run, giving an idle list up at its first expired entry is the same as scanning it all. */
  lemma GivingUpIsSafeInRuns(cfg: Config, run: seq<Event>, key: Key, scan: Scan)
    requires cfg.Enabled() && IsRun(START, cfg, run)
    requires key in After(START, cfg, run).pool.idle && ClockRuns(scan, After(START, cfg, run).clock)
    ensures var list := After(START, cfg, run).pool.idle[key];
            PopGivingUp(list, cfg.timeout, scan) == Pop(list, cfg.timeout, scan)
  {
    Reached(cfg, run);
    var w := After(START, cfg, run);
    GivingUpIsSafe(w.pool.idle[key], cfg.timeout, scan, w.clock);
  }

  // ----- What each event does, in every run -----

  /** A connect is refused exactly when it is for HTTP/2 and another attempt holds the lock of the key. Otherwise
      there is one new attempt, with the lock exactly if it is for HTTP/2. */
  lemma ConnectRefusedIff(cfg: Config, run: seq<Event>, key: Key, verH2: bool)
    requires cfg.Enabled() && IsRun(START, cfg, run)
    ensures var w := After(START, cfg, run);
            var w' := Apply(w, cfg, StartConnect(key, verH2));
            if verH2 && exists t :: Holder(w.attempts, t, key) then w' == w
            else
              && w'.attempts - {w.next} == w.attempts && w.next in w'.attempts
              && w'.attempts[w.next] == Attempt(key, verH2, verH2, None)
              && w'.pool == w.pool.(connecting := w.pool.connecting + if verH2 then {key} else {})
              && w'.rx == w.rx && w'.live == w.live
  {
    Reached(cfg, run);
  }

  /** A connection that turns out to be HTTP/2 unasked is given up exactly when another attempt holds the lock by
      then. Otherwise it goes on, with the lock exactly if it is HTTP/2, asked for or not. */
  lemma EstablishedIs(cfg: Config, run: seq<Event>, t: nat, alpnH2: bool)
    requires cfg.Enabled() && IsRun(START, cfg, run) && Enabled(After(START, cfg, run), cfg, Established(t, alpnH2))
    ensures var w := After(START, cfg, run);
            var w' := Apply(w, cfg, Established(t, alpnH2));
            var a := w.attempts[t];
            && w'.attempts - {t} == w.attempts - {t}
            && (t !in w'.attempts <==> alpnH2 && !a.verH2 && exists u :: Holder(w.attempts, u, a.key))
            && (t in w'.attempts ==>
                  w'.attempts[t] == Attempt(a.key, a.verH2, a.verH2 || alpnH2, Some(a.verH2 || alpnH2)))
            && w'.pool.idle == w.pool.idle && w'.pool.waiters == w.pool.waiters && w'.rx == w.rx && w'.live == w.live
  {
    Reached(cfg, run);
    var w := After(START, cfg, run);
    assert AttemptInv(w.attempts[t]);
  }

  /** A finished connect hands a new connection to its caller, shared exactly if it is HTTP/2. */
  lemma FinishHandsOver(cfg: Config, run: seq<Event>, t: nat, fate: Waiter -> Fate, now: nat)
    requires cfg.Enabled() && IsRun(START, cfg, run)
    requires Enabled(After(START, cfg, run), cfg, FinishConnect(t, fate, now))
    ensures var w := After(START, cfg, run);
            var w' := Apply(w, cfg, FinishConnect(t, fate, now));
            var key, shared := w.attempts[t].key, w.attempts[t].h2.value;
            && w'.live - {w.next + 1} == w.live && w.next + 1 in w'.live
            && w'.live[w.next + 1] == Pooled(key, Conn(w.next, shared), !shared)
            && (forall place :: !At(w, Conn(w.next, shared), place))
            && (if shared && key !in w.pool.idle then
                  key in w'.pool.idle && w'.pool.idle[key] == [Idle(now, Conn(w.next, true))]
                else w'.pool.idle == w.pool.idle)
  {
    Reached(cfg, run);
    var w := After(START, cfg, run);
    assert w.next + 1 !in w.live;
    NewIsNowhere(w, w.attempts[t].h2.value);
    InvLater(w.pool, cfg, w.clock, now);
    SharedIsKept(w.pool, cfg, w.attempts[t].key, Conn(w.next, true), fate, now);
  }

  lemma NewIsNowhere(w: World, shared: bool)
    requires PlacesInv(w)
    ensures forall place :: !At(w, Conn(w.next, shared), place)
  {
  }

  lemma SharedIsKept(p: Pool, cfg: Config, key: Key, c: Conn, fate: Waiter -> Fate, now: nat)
    requires cfg.Enabled() && Inv(p, cfg, now) && c.shared
    ensures var q := Put(p, cfg, key, c, fate, now);
            if key in p.idle then q.idle == p.idle else key in q.idle && q.idle[key] == [Idle(now, c)]
  {
    if key !in p.idle {
      PutLosesNothing(p, cfg, key, c, fate, now);
      PushIsExact(p, cfg, key, c, now);
    }
  }

  /** A checkout that finds something, in every run: its caller gets the best entry of the idle list, the older
      entries stay under the key, and nobody else notices. */
  lemma CheckoutHandsOver(cfg: Config, run: seq<Event>, key: Key, scan: Scan, i: nat)
    requires cfg.Enabled() && IsRun(START, cfg, run) && Enabled(After(START, cfg, run), cfg, PollCheckout(key, scan))
    requires var p := After(START, cfg, run).pool; key in p.idle && Best(p.idle[key], cfg.timeout, scan, i)
    ensures var w := After(START, cfg, run);
            var w' := Apply(w, cfg, PollCheckout(key, scan));
            var entry, left := w.pool.idle[key][i], LeftOf(w.pool.idle[key], i, scan.end);
            && w'.live - {w.next} == w.live && w.next in w'.live
            && w'.live[w.next] == Pooled(key, entry.conn, !entry.conn.shared)
            && w'.pool.idle - {key} == w.pool.idle - {key}
            && (key in w'.pool.idle <==> left != []) && (key in w'.pool.idle ==> w'.pool.idle[key] == left)
            && w'.pool.waiters == w.pool.waiters && w'.rx == w.rx && w'.attempts == w.attempts
  {
    Reached(cfg, run);
    var w := After(START, cfg, run);
    assert key in w.pool.lru && w.next !in w.live;
    var n: nat :| n < |w.pool.lru| && w.pool.lru[n] == key;
    CheckoutTakesBest(w.pool, cfg, key, w.next, scan, i, n);
  }

  /** One that finds nothing leaves a receiver that is pending, with its sender last in the queue. */
  lemma CheckoutWaits(cfg: Config, run: seq<Event>, key: Key, scan: Scan)
    requires cfg.Enabled() && IsRun(START, cfg, run) && Enabled(After(START, cfg, run), cfg, PollCheckout(key, scan))
    requires var p := After(START, cfg, run).pool;
             key in p.idle ==> forall i: nat :: !Best(p.idle[key], cfg.timeout, scan, i)
    ensures var w := After(START, cfg, run);
            var w' := Apply(w, cfg, PollCheckout(key, scan));
            && w'.rx - {w.next} == w.rx && w.next in w'.rx && w'.rx[w.next] == Receiver(key, false, Pending)
            && QueueOf(w'.pool, key) == QueueOf(w.pool, key) + [w.next]
            && w'.pool.idle == w.pool.idle - {key} && w'.live == w.live && w'.attempts == w.attempts
  {
    Reached(cfg, run);
    var w := After(START, cfg, run);
    assert w.next !in w.rx;
    CheckoutFindsNothing(w.pool, cfg, key, w.next, scan);
  }

  /** A waiter that polls gets what was sent to it if that is still open, and in any case waits no longer. */
  lemma WaiterHandsOver(cfg: Config, run: seq<Event>, r: Waiter, open: bool)
    requires cfg.Enabled() && IsRun(START, cfg, run) && Enabled(After(START, cfg, run), cfg, PollWaiter(r, open))
    ensures var w := After(START, cfg, run);
            var w' := Apply(w, cfg, PollWaiter(r, open));
            && w'.pool == w.pool && w'.attempts == w.attempts && w.next !in w.live
            && (w.rx[r].state.Pending? ==> w' == w)
            && (!w.rx[r].state.Pending? ==> w'.rx == w.rx - {r})
            && (if w.rx[r].state.Ready? && open then
                  var c := w.rx[r].state.conn;
                  && w'.live - {w.next} == w.live && w.next in w'.live
                  && w'.live[w.next] == Pooled(w.rx[r].key, c, !c.shared)
                else w'.live == w.live)
  {
    Reached(cfg, run);
  }

  /** The first poll registers a receiver that is pending. One that is not fails the assertion, and with it goes the
      receiver and whatever was sent to it. */
  lemma FirstPollIs(cfg: Config, run: seq<Event>, r: Waiter)
    requires cfg.Enabled() && IsRun(START, cfg, run) && Enabled(After(START, cfg, run), cfg, FirstPoll(r))
    ensures var w := After(START, cfg, run);
            var w' := Apply(w, cfg, FirstPoll(r));
            && w'.rx - {r} == w.rx - {r} && w'.pool == w.pool && w'.live == w.live && w'.attempts == w.attempts
            && (r in w'.rx <==> r in QueueOf(w.pool, w.rx[r].key))
            && (r in w'.rx ==> w'.rx[r] == w.rx[r].(registered := true))
  {
    Reached(cfg, run);
  }

  /** Nobody is ever handed a connection that is closed, stale or somebody else's: it is new, or it was the best
      entry of the idle list of its key, or it was sent to that waiter and is open. */
  lemma HandedOverIsGood(cfg: Config, run: seq<Event>, e: Event, p: nat)
    requires cfg.Enabled() && IsRun(START, cfg, run) && Enabled(After(START, cfg, run), cfg, e)
    requires p !in After(START, cfg, run).live && p in Apply(After(START, cfg, run), cfg, e).live
    ensures var w := After(START, cfg, run);
            var v := Apply(w, cfg, e).live[p];
            match e
            case FinishConnect(t, _, _) => v.key == w.attempts[t].key && forall place :: !At(w, v.conn, place)
            case PollCheckout(key, scan) => v.key == key && WasBest(w.pool, cfg, key, scan, v.conn)
            case PollWaiter(r, open) => v.key == w.rx[r].key && open && w.rx[r].state == Ready(v.conn)
            case _ => false
  {
    match e
    case FinishConnect(t, fate, now) => FinishHandsOver(cfg, run, t, fate, now);
    case PollCheckout(key, scan) => CheckedOutWasBest(cfg, run, key, scan, p);
    case PollWaiter(r, open) => WaiterHandsOver(cfg, run, r, open);
    case _ =>
  }

  ghost predicate WasBest(p: Pool, cfg: Config, key: Key, scan: Scan, c: Conn) {
    && key in p.idle
    && exists i: nat :: Best(p.idle[key], cfg.timeout, scan, i) && c == p.idle[key][i].conn
  }

  lemma CheckedOutWasBest(cfg: Config, run: seq<Event>, key: Key, scan: Scan, p: nat)
    requires cfg.Enabled() && IsRun(START, cfg, run) && Enabled(After(START, cfg, run), cfg, PollCheckout(key, scan))
    requires p !in After(START, cfg, run).live && p in Apply(After(START, cfg, run), cfg, PollCheckout(key, scan)).live
    ensures var w := After(START, cfg, run);
            var v := Apply(w, cfg, PollCheckout(key, scan)).live[p];
            v.key == key && WasBest(w.pool, cfg, key, scan, v.conn)
  {
    var w := After(START, cfg, run);
    if key in w.pool.idle && exists i: nat :: Best(w.pool.idle[key], cfg.timeout, scan, i) {
      var i: nat :| Best(w.pool.idle[key], cfg.timeout, scan, i);
      CheckoutHandsOver(cfg, run, key, scan, i);
    } else {
      CheckoutWaits(cfg, run, key, scan);
    }
  }

  /** A connection put back when no waiter of its key is there becomes the newest idle one, if there is room;
      a closed one, and a copy of a shared one, just goes. */
  lemma PutBackIdles(cfg: Config, run: seq<Event>, p: nat, open: bool, fate: Waiter -> Fate, now: nat)
    requires cfg.Enabled() && IsRun(START, cfg, run)
    requires Enabled(After(START, cfg, run), cfg, DropPooled(p, open, fate, now))
    requires var w := After(START, cfg, run); forall r :: r in QueueOf(w.pool, w.live[p].key) ==> !fate(r).Delivered?
    ensures var w := After(START, cfg, run);
            var w' := Apply(w, cfg, DropPooled(p, open, fate, now));
            var key, c := w.live[p].key, w.live[p].conn;
            var list := if key in w.pool.idle then w.pool.idle[key] else [];
            && w'.live == w.live - {p}
            && (if open && !c.shared then
                  && key in w'.pool.idle
                  && w'.pool.idle[key] == (if |list| < cfg.maxIdle then list + [Idle(now, c)] else list)
                else w'.pool == w.pool && w'.rx == w.rx)
  {
    Reached(cfg, run);
    var w := After(START, cfg, run);
    var key, c := w.live[p].key, w.live[p].conn;
    if open && !c.shared {
      InvLater(w.pool, cfg, w.clock, now);
      PutLosesNothing(w.pool, cfg, key, c, fate, now);
      PushIsExact(w.pool, cfg, key, c, now);
    }
  }

  /** After a sweep, in every run, each idle list holds exactly the entries that are open and in time. */
  lemma SweepKeepsExactlyFresh(cfg: Config, run: seq<Event>, opens: (Key, nat) -> bool, now: nat, k: Key, entry: Idle)
    requires cfg.Enabled() && IsRun(START, cfg, run) && Enabled(After(START, cfg, run), cfg, SweepIdle(opens, now))
    ensures var w := After(START, cfg, run);
            var w' := Apply(w, cfg, SweepIdle(opens, now));
            && (k in w'.pool.idle && entry in w'.pool.idle[k] <==>
                k in w.pool.idle
                && exists i: nat :: i < |w.pool.idle[k]| && w.pool.idle[k][i] == entry
                                    && Fresh(w.pool.idle[k], cfg.timeout, (j: nat) => opens(k, j), now, i))
            && w'.pool.waiters == w.pool.waiters && w'.rx == w.rx && w'.live == w.live
  {
    Reached(cfg, run);
    var w := After(START, cfg, run);
    var p := w.pool;
    InvLater(p, cfg, w.clock, now);
    SweepKeepsInv(p, cfg, p.lru, opens, now);
    SweepReachesEveryKey(p, cfg.timeout, p.lru, opens, now, k);
    if k in p.idle {
      var open := (j: nat) => opens(k, j);
      if entry in Retain(p.idle[k], cfg.timeout, open, now) {
        var i := StaleEntriesGo(p.idle[k], cfg.timeout, open, now, entry);
      }
      if i: nat :| i < |p.idle[k]| && p.idle[k][i] == entry && Fresh(p.idle[k], cfg.timeout, open, now, i) {
        FreshEntriesStay(p.idle[k], cfg.timeout, open, now, i);
      }
    }
  }

  /** After a cleaning, in every run, exactly those are queued under the key that were and still have a receiver. */
  lemma CleanKeepsExactlyLive(cfg: Config, run: seq<Event>, key: Key, r: Waiter)
    requires cfg.Enabled() && IsRun(START, cfg, run)
    ensures var w := After(START, cfg, run);
            var w' := Apply(w, cfg, Clean(key));
            && (r in QueueOf(w'.pool, key) <==> r in QueueOf(w.pool, key) && r in w.rx)
            && w'.pool.waiters - {key} == w.pool.waiters - {key} && w'.pool.idle == w.pool.idle && w'.rx == w.rx
  {
    Reached(cfg, run);
    CleanIsExact(After(START, cfg, run).pool, key, x => x !in After(START, cfg, run).rx);
  }

  // ----- Waiting for somebody else's connection -----

  ghost predicate Pends(w: World, key: Key, r: Waiter) {
    r in w.rx && w.rx[r].key == key && w.rx[r].state.Pending?
  }

  lemma PendsOverStep(w: World, cfg: Config, e: Event, key: Key, r: Waiter)
    requires Enabled(w, cfg, e) && r < w.next && !Pends(w, key, r)
    ensures !Pends(Apply(w, cfg, e), key, r)
  {
  }

  lemma {:induction false} PendsStaysOver(w: World, cfg: Config, run: seq<Event>, key: Key, r: Waiter)
    requires IsRun(w, cfg, run) && r < w.next && !Pends(w, key, r)
    ensures !Pends(After(w, cfg, run), key, r)
    decreases |run|
  {
    if run == [] {
    } else {
      NumbersGrow(w, cfg, run[0]);
      PendsOverStep(w, cfg, run[0], key, r);
      PendsStaysOver(Apply(w, cfg, run[0]), cfg, run[1..], key, r);
    }
  }

  /** The end of a lock leaves nobody queued under its key. */
  lemma LockEndsQueue(w: World, cfg: Config, e: Event, t: nat, key: Key)
    requires WorldInv(w, cfg) && Enabled(w, cfg, e) && Holder(w.attempts, t, key)
    ensures Holder(Apply(w, cfg, e).attempts, t, key) || key !in Apply(w, cfg, e).pool.waiters
  {
    assert t < w.next;
  }

  lemma {:induction false} WaiterKeepsHolder(w: World, cfg: Config, run: seq<Event>, t: nat, key: Key, r: Waiter)
    requires cfg.Enabled() && WorldInv(w, cfg) && IsRun(w, cfg, run) && Holder(w.attempts, t, key) && r < w.next
    ensures Pends(After(w, cfg, run), key, r) ==> Holder(After(w, cfg, run).attempts, t, key)
    decreases |run|
  {
    if run == [] {
    } else {
      var w' := Apply(w, cfg, run[0]);
      StepKeepsInv(w, cfg, run[0]);
      NumbersGrow(w, cfg, run[0]);
      LockEndsQueue(w, cfg, run[0], t, key);
      if Holder(w'.attempts, t, key) {
        WaiterKeepsHolder(w', cfg, run[1..], t, key, r);
      } else {
        assert !Queued(w'.pool.waiters, key, r) && !Pends(w', key, r);
        PendsStaysOver(w', cfg, run[1..], key, r);
      }
    }
  }

  /** A request whose own connect is refused because another attempt holds the lock may wait for that one: there is
      exactly one such attempt, and in no run does a waiter of the key that is there by then outlive it unanswered. */
  lemma RefusedConnectMayWait(cfg: Config, run: seq<Event>, key: Key, more: seq<Event>)
    requires cfg.Enabled() && IsRun(START, cfg, run) && key in After(START, cfg, run).pool.connecting
    requires IsRun(After(START, cfg, run), cfg, more)
    ensures var w := After(START, cfg, run);
            var w' := After(w, cfg, more);
            exists t :: Holder(w.attempts, t, key)
                        && (forall u :: Holder(w.attempts, u, key) ==> u == t)
                        && (forall r :: Pends(w, key, r) && Pends(w', key, r) ==> Holder(w'.attempts, t, key))
  {
    Reached(cfg, run);
    var w := After(START, cfg, run);
    var w' := After(w, cfg, more);
    var t :| Holder(w.attempts, t, key);
    forall r | Pends(w, key, r) && Pends(w', key, r) ensures Holder(w'.attempts, t, key) {
      WaiterKeepsHolder(w, cfg, more, t, key, r);
    }
  }

  // ----- The assertion on the first poll of a waiter -----

  /** The lock is released before the first poll, which is then pending exactly while the sender is still queued. */
  lemma FirstPollPendingWhileQueued(cfg: Config, run: seq<Event>, r: Waiter)
    requires cfg.Enabled() && IsRun(START, cfg, run) && Enabled(After(START, cfg, run), cfg, FirstPoll(r))
    ensures var w := After(START, cfg, run);
            w.rx[r].state.Pending? <==> r in QueueOf(w.pool, w.rx[r].key)
  {
    Reached(cfg, run);
  }

  /** The receiver has been made and its sender queued, and nothing has happened to either since. */
  ghost predicate Waits(w: World, key: Key, r: Waiter) {
    r in w.rx && w.rx[r] == Receiver(key, false, Pending)
  }

  /** Every waiter in front of `r` turns out to be gone. */
  ghost predicate Foremost(queue: seq<Waiter>, fate: Waiter -> Fate, r: Waiter) {
    exists n: nat :: n < |queue| && queue[n] == r && forall i :: 0 <= i < n ==> !fate(queue[i]).Delivered?
  }

  /** What ends the wait of `r`: a shared connection comes up under its key, a lock on its key is given up, an open
      connection of its key is put back with nobody in front, or the receiver itself is polled or dropped. */
  ghost predicate Touches(w: World, cfg: Config, e: Event, key: Key, r: Waiter)
    requires Enabled(w, cfg, e)
  {
    match e
    case FinishConnect(t, _, _) => w.attempts[t].key == key && w.attempts[t].h2.value
    case AbortConnect(t) => w.attempts[t].key == key && w.attempts[t].locked
    case DropPooled(p, open, fate, _) =>
      w.live[p].key == key && open && w.live[p].hasPool && Foremost(QueueOf(w.pool, key), fate, r)
    case FirstPoll(x) => x == r
    case DropReceiver(x) => x == r
    case _ => false
  }

  /** A unique connection takes from the queue those in front of the first waiter that is there, and that one. */
  lemma ServedIffForemost(queue: seq<Waiter>, fate: Waiter -> Fate, r: Waiter)
    requires NoRepeats(queue) && r in queue
    ensures var s := Serve(queue, false, fate); r in s.got || r in s.lost <==> Foremost(queue, fate, r)
  {
    var n: nat :| n < |queue| && queue[n] == r;
    if exists w :: w in queue && fate(w).Delivered? {
      var m := FirstOpen(queue, fate);
      OldestOpenWaiterFirst(queue, fate, m);
      assert r in queue[..m] <==> n < m;
    } else {
      NobodyThere(queue, false, fate);
      ServePartitions(queue, false, fate);
      assert forall i :: 0 <= i < n ==> queue[i] in queue;
    }
  }

  lemma PutEndsWaitIff(w: World, cfg: Config, at: Key, conn: Conn, fate: Waiter -> Fate, now: nat, key: Key, r: Waiter)
    requires WaitersInv(w) && Waits(w, key, r) && !conn.shared
    ensures Waits(PutBack(w, cfg, at, conn, fate, now), key, r) <==>
            !(at == key && Foremost(QueueOf(w.pool, key), fate, r))
  {
    var queue := QueueOf(w.pool, at);
    assert Queued(w.pool.waiters, key, r) && NoRepeats(queue);
    assert at != key ==> !Queued(w.pool.waiters, at, r);
    ServePartitions(queue, false, fate);
    if at == key {
      ServedIffForemost(queue, fate, r);
    }
  }

  lemma ReleaseEndsWaitIff(w: World, at: Key, key: Key, r: Waiter)
    requires WaitersInv(w) && Waits(w, key, r)
    ensures Waits(Release(w, at), key, r) <==> at != key
  {
    assert Queued(w.pool.waiters, key, r);
    assert at != key ==> !Queued(w.pool.waiters, at, r);
  }

  lemma PutMissesOtherKeys(w: World, cfg: Config, at: Key, conn: Conn, fate: Waiter -> Fate, now: nat,
                           key: Key, r: Waiter)
    requires WaitersInv(w) && r in w.rx && w.rx[r].key == key && at != key
    ensures var w' := PutBack(w, cfg, at, conn, fate, now); r in w'.rx && w'.rx[r] == w.rx[r]
  {
    assert !Queued(w.pool.waiters, at, r) && NoRepeats(QueueOf(w.pool, at));
    ServePartitions(QueueOf(w.pool, at), conn.shared, fate);
  }

  lemma FinishEndsWaitIff(w: World, cfg: Config, t: nat, fate: Waiter -> Fate, now: nat, key: Key, r: Waiter)
    requires WorldInv(w, cfg) && Waits(w, key, r) && t in w.attempts && w.attempts[t].h2.Some?
    ensures Waits(Finish(w, cfg, t, w.attempts[t].h2.value, fate, now), key, r) <==>
            !(w.attempts[t].key == key && w.attempts[t].h2.value)
  {
    if w.attempts[t].h2.value {
      var at, c, w1 := w.attempts[t].key, Conn(w.next, true), w.(attempts := w.attempts - {t});
      var w2 := PutBack(w1, cfg, at, c, fate, now);
      PutKeepsChannels(w1, cfg, at, c, fate, now);
      if at == key {
        assert r in w2.rx && w2.rx[r].state.Pending? ==> Queued(w2.pool.waiters, key, r);
      } else {
        PutMissesOtherKeys(w1, cfg, at, c, fate, now, key, r);
        ReleaseEndsWaitIff(w2, at, key, r);
      }
    }
  }

  /** Exactly these events end the wait. */
  lemma StepEndsWaitIff(w: World, cfg: Config, e: Event, key: Key, r: Waiter)
    requires WorldInv(w, cfg) && Enabled(w, cfg, e) && Waits(w, key, r)
    ensures Waits(Apply(w, cfg, e), key, r) <==> !Touches(w, cfg, e, key, r)
  {
    match e
    case FinishConnect(t, fate, now) => FinishEndsWaitIff(w, cfg, t, fate, now, key, r);
    case AbortConnect(t) => ReleaseEndsWaitIff(w.(attempts := w.attempts - {t}), w.attempts[t].key, key, r);
    case DropPooled(p, open, fate, now) =>
      if w.live[p].hasPool {
        PutEndsWaitIff(w.(live := w.live - {p}, clock := now), cfg, w.live[p].key, w.live[p].conn, fate, now, key, r);
      }
    case _ =>
  }

  ghost predicate TouchedIn(w: World, cfg: Config, run: seq<Event>, key: Key, r: Waiter)
    requires IsRun(w, cfg, run)
    decreases |run|
  {
    run != [] && (Touches(w, cfg, run[0], key, r) || TouchedIn(Apply(w, cfg, run[0]), cfg, run[1..], key, r))
  }

  /** A wait that is over does not begin again. */
  lemma WaitOverStep(w: World, cfg: Config, e: Event, key: Key, r: Waiter)
    requires Enabled(w, cfg, e) && r < w.next && !Waits(w, key, r)
    ensures r < Apply(w, cfg, e).next && !Waits(Apply(w, cfg, e), key, r)
  {
  }

  lemma {:induction false} WaitStaysOver(w: World, cfg: Config, run: seq<Event>, key: Key, r: Waiter)
    requires IsRun(w, cfg, run) && r < w.next && !Waits(w, key, r)
    ensures !Waits(After(w, cfg, run), key, r)
    decreases |run|
  {
    if run == [] {
    } else {
      WaitOverStep(w, cfg, run[0], key, r);
      WaitStaysOver(Apply(w, cfg, run[0]), cfg, run[1..], key, r);
    }
  }

  lemma {:induction false} RunEndsWaitIff(w: World, cfg: Config, run: seq<Event>, key: Key, r: Waiter)
    requires cfg.Enabled() && WorldInv(w, cfg) && IsRun(w, cfg, run) && Waits(w, key, r)
    ensures Waits(After(w, cfg, run), key, r) <==> !TouchedIn(w, cfg, run, key, r)
    decreases |run|
  {
    if run == [] {
    } else {
      var w' := Apply(w, cfg, run[0]);
      StepEndsWaitIff(w, cfg, run[0], key, r);
      if Touches(w, cfg, run[0], key, r) {
        NumbersGrow(w, cfg, run[0]);
        WaitStaysOver(w', cfg, run[1..], key, r);
      } else {
        StepKeepsInv(w, cfg, run[0]);
        RunEndsWaitIff(w', cfg, run[1..], key, r);
      }
    }
  }

  lemma NumbersGrow(w: World, cfg: Config, e: Event)
    requires Enabled(w, cfg, e)
    ensures w.next <= Apply(w, cfg, e).next
  {
  }

  /** A checkout that finds nothing is followed by its first poll, and any events may come in between. The poll is
      pending, as the source asserts, exactly when none of them ends the wait of the new receiver. */
  lemma FirstPollPendingIff(cfg: Config, run: seq<Event>, key: Key, scan: Scan, gap: seq<Event>)
    requires cfg.Enabled() && IsRun(START, cfg, run)
    requires var w := After(START, cfg, run);
             && Enabled(w, cfg, PollCheckout(key, scan)) && w.next in Apply(w, cfg, PollCheckout(key, scan)).rx
             && IsRun(Apply(w, cfg, PollCheckout(key, scan)), cfg, gap)
             && Enabled(After(Apply(w, cfg, PollCheckout(key, scan)), cfg, gap), cfg, FirstPoll(w.next))
    ensures var w := After(START, cfg, run);
            var w' := Apply(w, cfg, PollCheckout(key, scan));
            After(w', cfg, gap).rx[w.next].state.Pending? <==> !TouchedIn(w', cfg, gap, key, w.next)
  {
    var w := After(START, cfg, run);
    var e := PollCheckout(key, scan);
    Reached(cfg, run);
    StepKeepsInv(w, cfg, e);
    RunEndsWaitIff(Apply(w, cfg, e), cfg, gap, key, w.next);
    KeyStays(Apply(w, cfg, e), cfg, gap, w.next);
  }

  lemma KeyStep(w: World, cfg: Config, e: Event, r: Waiter)
    requires Enabled(w, cfg, e) && r < w.next && r in Apply(w, cfg, e).rx
    ensures r in w.rx && Apply(w, cfg, e).rx[r].key == w.rx[r].key
  {
  }

  lemma {:induction false} KeyStays(w: World, cfg: Config, run: seq<Event>, r: Waiter)
    requires IsRun(w, cfg, run) && r < w.next
    ensures r in After(w, cfg, run).rx ==> r in w.rx && After(w, cfg, run).rx[r].key == w.rx[r].key
    decreases |run|
  {
    if run == [] {
    } else {
      NumbersGrow(w, cfg, run[0]);
      KeyStays(Apply(w, cfg, run[0]), cfg, run[1..], r);
      if r in After(w, cfg, run).rx {
        KeyStep(w, cfg, run[0], r);
      }
    }
  }

  lemma Before(w: World, cfg: Config, e: Event, w': World, run: seq<Event>)
    requires Enabled(w, cfg, e) && Apply(w, cfg, e) == w' && IsRun(w', cfg, run)
    ensures IsRun(w, cfg, [e] + run) && After(w, cfg, [e] + run) == After(w', cfg, run)
  {
    assert ([e] + run)[1..] == run;
  }

  /** A lone checkout, and the connection that is put back right after it has queued its sender. */
  lemma PutBackAnswersNewWaiter(w: World, cfg: Config, scan: Scan, served: Waiter -> Fate)
    requires w == START.(live := map[2 := Pooled(7, Conn(1, false), true)], next := 3)
    requires ClockRuns(scan, 0) && scan.end == 0 && served(3).Delivered?
    ensures var w1 := CheckoutStep(w, cfg, 7, scan);
            && w1.live == w.live && w1.clock == 0
            && w1.rx == map[3 := Receiver(7, false, Pending)] && QueueOf(w1.pool, 7) == [3]
            && PutBack(w1.(live := map[]), cfg, 7, Conn(1, false), served, 0).rx
               == map[3 := Receiver(7, false, Ready(Conn(1, false)))]
  {
    var w1 := CheckoutStep(w, cfg, 7, scan);
    assert QueueOf(w1.pool, 7) == [3] by { assert QueueOf(Forget(EMPTY, 7), 7) + [3] == [3]; }
    assert Serve([3], false, served) == Served([], [3], [], false);
  }

  /** Three events that leave one HTTP/1 connection checked out. */
  lemma OneConnectionUp(cfg: Config, fate: Waiter -> Fate, w: World, run: seq<Event>)
    requires w == START.(live := map[2 := Pooled(7, Conn(1, false), true)], next := 3) && IsRun(w, cfg, run)
    ensures var all := [StartConnect(7, false)] + ([Established(0, false)] + ([FinishConnect(0, fate, 0)] + run));
            IsRun(START, cfg, all) && After(START, cfg, all) == After(w, cfg, run)
  {
    var w1 := START.(attempts := map[0 := Attempt(7, false, false, None)], next := 1);
    var w2 := w1.(attempts := map[0 := Attempt(7, false, false, Some(false))]);
    assert w2.attempts - {0} == map[];
    Before(w2, cfg, FinishConnect(0, fate, 0), w, run);
    Before(w1, cfg, Established(0, false), w2, [FinishConnect(0, fate, 0)] + run);
    Before(START, cfg, StartConnect(7, false), w1, [Established(0, false)] + ([FinishConnect(0, fate, 0)] + run));
  }

  /** The checkout and the drop of that connection, in this order. */
  lemma CheckoutThenPutBack(cfg: Config, w: World, scan: Scan, fate: Waiter -> Fate)
    requires cfg.Enabled() && w == START.(live := map[2 := Pooled(7, Conn(1, false), true)], next := 3)
    requires ClockRuns(scan, 0) && scan.end == 0 && fate(3).Delivered?
    ensures var run := [PollCheckout(7, scan)] + ([DropPooled(2, true, fate, 0)] + []);
            && IsRun(w, cfg, run) && Enabled(After(w, cfg, run), cfg, FirstPoll(3))
            && After(w, cfg, run).rx[3].state.Ready?
  {
    var put := DropPooled(2, true, fate, 0);
    var w1 := CheckoutStep(w, cfg, 7, scan);
    PutBackAnswersNewWaiter(w, cfg, scan, fate);
    assert w1.live - {2} == map[];
    var w2 := Apply(w1, cfg, put);
    Before(w1, cfg, put, w2, []);
    Before(w, cfg, PollCheckout(7, scan), w1, [put] + []);
  }

  /** A connection that is dropped in between finds the new waiter, and the assertion fails. */
  lemma FirstPollMayFindAnAnswer(cfg: Config)
    requires cfg.Enabled()
    ensures exists run: seq<Event>, r: Waiter ::
              && IsRun(START, cfg, run) && Enabled(After(START, cfg, run), cfg, FirstPoll(r))
              && After(START, cfg, run).rx[r].state.Ready?
  {
    var served := (r: Waiter) => Delivered;
    var scan := Scan((i: nat) => true, (i: nat) => 0, 0);
    var w := START.(live := map[2 := Pooled(7, Conn(1, false), true)], next := 3);
    CheckoutThenPutBack(cfg, w, scan, served);
    OneConnectionUp(cfg, served, w, [PollCheckout(7, scan)] + ([DropPooled(2, true, served, 0)] + []));
  }
}
