/**
 The connection pool of src/core/client/pool.rs as a value: what each critical
 section computes, and the invariant that every one of them keeps.

 What the pool asks of the outside world is passed in: whether a connection is
 open, what a waiter's channel answers, and what the clock reads.
 */
module PoolState {
  import opened Wrappers
  import opened Sequences

  /** Keys are only ever compared, so a number stands for one. */
  type Key = nat

  /** A parked checkout, named by the sender that the pool holds for it. */
  type Waiter = nat

  /** `shared` is `can_share`: an HTTP/2 connection, of which any number of copies may exist. */
  datatype Conn = Conn(id: nat, shared: bool)

  datatype Idle = Idle(at: nat, conn: Conn)

  /** `maxKeys` is the capacity of the LRU map, counted in keys. */
  datatype Config = Config(maxIdle: nat, timeout: Option<nat>, maxKeys: Option<nat>) {
    predicate Enabled() {
      maxIdle > 0 && (maxKeys.Some? ==> maxKeys.value > 0)
    }
  }

  /** `lru` lists the keys of `idle`, most recently used first. */
  datatype Pool = Pool(
    connecting: set<Key>,
    idle: map<Key, seq<Idle>>,
    lru: seq<Key>,
    waiters: map<Key, seq<Waiter>>)

  const EMPTY := Pool({}, map[], [], map[])

  // ----- Taking an idle connection -----

  predicate Expires(timeout: Option<nat>, at: nat, now: nat) {
    timeout.Some? && now > at + timeout.value
  }

  /** The answers given during one scan: entry `i` is looked at when the clock reads `clock(i)`. */
  datatype Scan = Scan(open: nat -> bool, clock: nat -> nat, end: nat)

  /** The list is scanned from its end, so the clock is read earlier for a higher index. */
  ghost predicate ClockRuns(scan: Scan, start: nat) {
    && start <= scan.end
    && (forall i: nat :: start <= scan.clock(i) <= scan.end)
    && (forall i: nat, j: nat :: i < j ==> scan.clock(j) <= scan.clock(i))
  }

  predicate Usable(list: seq<Idle>, timeout: Option<nat>, scan: Scan, i: nat)
    requires i < |list|
  {
    scan.open(i) && !Expires(timeout, list[i].at, scan.clock(i))
  }

  /** What is left of the list once its last entry has been checked out. */
  function TakeLast(list: seq<Idle>, end: nat): seq<Idle>
    requires list != []
  {
    var entry := list[|list| - 1];
    if entry.conn.shared then list[|list| - 1 := Idle(end, entry.conn)] else list[..|list| - 1]
  }

  /** `IdlePopper::pop`: the entry found, and the list afterwards. */
  function Pop(list: seq<Idle>, timeout: Option<nat>, scan: Scan): (Option<Idle>, seq<Idle>) {
    if list == [] then (None, [])
    else if Usable(list, timeout, scan, |list| - 1) then (Some(list[|list| - 1]), TakeLast(list, scan.end))
    else Pop(list[..|list| - 1], timeout, scan)
  }

  /** The shortcut considered in the source: give the whole list up at the first expired entry. */
  function PopGivingUp(list: seq<Idle>, timeout: Option<nat>, scan: Scan): (Option<Idle>, seq<Idle>) {
    if list == [] then (None, [])
    else
      var i := |list| - 1;
      if !scan.open(i) then PopGivingUp(list[..i], timeout, scan)
      else if Expires(timeout, list[i].at, scan.clock(i)) then (None, [])
      else (Some(list[i]), TakeLast(list, scan.end))
  }

  ghost predicate Sorted(list: seq<Idle>) {
    forall i, j :: 0 <= i < j < |list| ==> list[i].at <= list[j].at
  }

  /** Entry `i` is usable and no newer one is. */
  ghost predicate NewestUsable(list: seq<Idle>, timeout: Option<nat>, scan: Scan, i: nat) {
    i < |list| && Usable(list, timeout, scan, i) && forall j: nat :: i < j < |list| ==> !Usable(list, timeout, scan, j)
  }

  lemma {:induction false} PopFinds(list: seq<Idle>, timeout: Option<nat>, scan: Scan, i: nat)
    requires NewestUsable(list, timeout, scan, i)
    ensures Pop(list, timeout, scan) == (Some(list[i]), TakeLast(list[..i + 1], scan.end))
  {
    var last := |list| - 1;
    if i == last {
      assert list[..i + 1] == list;
    } else {
      var rest := list[..last];
      forall j: nat | j < last ensures Usable(rest, timeout, scan, j) <==> Usable(list, timeout, scan, j) {}
      PopFinds(rest, timeout, scan, i);
      assert rest[..i + 1] == list[..i + 1];
    }
  }

  lemma {:induction false} PopFindsNothing(list: seq<Idle>, timeout: Option<nat>, scan: Scan)
    requires forall i: nat :: i < |list| ==> !Usable(list, timeout, scan, i)
    ensures Pop(list, timeout, scan) == (None, [])
  {
    if list == [] {
    } else {
      var rest := list[..|list| - 1];
      forall i: nat | i < |rest| ensures !Usable(rest, timeout, scan, i) { assert !Usable(list, timeout, scan, i); }
      PopFindsNothing(rest, timeout, scan);
    }
  }

  lemma {:induction false} NewestExists(list: seq<Idle>, timeout: Option<nat>, scan: Scan, i: nat) returns (n: nat)
    requires i < |list| && Usable(list, timeout, scan, i)
    ensures NewestUsable(list, timeout, scan, n)
    decreases |list| - i
  {
    if j: nat :| i < j < |list| && Usable(list, timeout, scan, j) {
      n := NewestExists(list, timeout, scan, j);
    } else {
      n := i;
    }
  }

  /** A checkout gets the newest usable connection, and gets none only when none is usable. */
  lemma PopFindsNewestUsable(list: seq<Idle>, timeout: Option<nat>, scan: Scan)
    ensures Pop(list, timeout, scan).0.None? <==> forall i: nat :: i < |list| ==> !Usable(list, timeout, scan, i)
    ensures Pop(list, timeout, scan).0.None? ==> Pop(list, timeout, scan).1 == []
    ensures forall i: nat :: NewestUsable(list, timeout, scan, i) ==>
                               Pop(list, timeout, scan) == (Some(list[i]), TakeLast(list[..i + 1], scan.end))
  {
    if i: nat :| i < |list| && Usable(list, timeout, scan, i) {
      var n := NewestExists(list, timeout, scan, i);
      PopFinds(list, timeout, scan, n);
    } else {
      PopFindsNothing(list, timeout, scan);
    }
    forall i: nat | NewestUsable(list, timeout, scan, i)
      ensures Pop(list, timeout, scan) == (Some(list[i]), TakeLast(list[..i + 1], scan.end))
    {
      PopFinds(list, timeout, scan, i);
    }
  }

  /** The question left open in the source: on a sorted list the shortcut changes nothing. */
  lemma {:induction false} GivingUpIsSafe(list: seq<Idle>, timeout: Option<nat>, scan: Scan, start: nat)
    requires Sorted(list) && ClockRuns(scan, start)
    ensures PopGivingUp(list, timeout, scan) == Pop(list, timeout, scan)
  {
    if list == [] {
    } else {
      var last := |list| - 1;
      if scan.open(last) && Expires(timeout, list[last].at, scan.clock(last)) {
        forall i: nat | i < |list| ensures !Usable(list, timeout, scan, i) {
          assert list[i].at <= list[last].at && scan.clock(last) <= scan.clock(i);
        }
        PopFindsNewestUsable(list, timeout, scan);
      } else if !scan.open(last) {
        GivingUpIsSafe(list[..last], timeout, scan, start);
      }
    }
  }

  // ----- Serving waiters -----

  /** What a waiter's channel answers: closed when asked, closed by the time of the send, or a delivery. */
  datatype Fate = Closed | SendFails | Delivered

  /** `kept` tells whether the pool still has the connection at the end. */
  datatype Served = Served(left: seq<Waiter>, got: seq<Waiter>, lost: seq<Waiter>, kept: bool)

  /** The waiter loop of `PoolInner::put`. */
  function Serve(queue: seq<Waiter>, shared: bool, fate: Waiter -> Fate): Served {
    if queue == [] then Served([], [], [], true)
    else
      var w, rest := queue[0], queue[1..];
      if fate(w).Delivered? then
        if shared then
          var r := Serve(rest, shared, fate);
          r.(got := [w] + r.got)
        else Served(rest, [w], [], false)
      else
        var r := Serve(rest, shared, fate);
        r.(lost := [w] + r.lost)
  }

  /** Place `n` of the queue is the oldest waiter that can be reached. */
  ghost predicate FirstThere(queue: seq<Waiter>, fate: Waiter -> Fate, n: nat) {
    n < |queue| && fate(queue[n]).Delivered? && forall i :: 0 <= i < n ==> !fate(queue[i]).Delivered?
  }

  /** A unique connection goes to the oldest waiter that is still there; those behind it keep their places. */
  lemma {:induction false} OldestOpenWaiterFirst(queue: seq<Waiter>, fate: Waiter -> Fate, n: nat)
    requires FirstThere(queue, fate, n)
    ensures Serve(queue, false, fate) == Served(queue[n + 1..], [queue[n]], queue[..n], false)
  {
    if n == 0 {
    } else {
      OldestOpenWaiterFirst(queue[1..], fate, n - 1);
      assert queue[1..][n..] == queue[n + 1..] && [queue[0]] + queue[1..][..n - 1] == queue[..n];
    }
  }

  /** A shared connection empties the queue: every waiter still there gets it, and the pool keeps it. */
  lemma {:induction false} EveryOpenWaiterServed(queue: seq<Waiter>, fate: Waiter -> Fate)
    ensures var s := Serve(queue, true, fate);
            && s.left == [] && s.kept
            && (forall w :: w in s.got <==> w in queue && fate(w).Delivered?)
            && (forall w :: w in s.lost <==> w in queue && !fate(w).Delivered?)
  {
    if queue == [] {
    } else {
      EveryOpenWaiterServed(queue[1..], fate);
      assert queue == [queue[0]] + queue[1..];
    }
  }

  /** The value is gone exactly when it is unique and was sent, and then it was sent once. */
  lemma {:induction false} ServeSendsOnce(queue: seq<Waiter>, shared: bool, fate: Waiter -> Fate)
    ensures var s := Serve(queue, shared, fate);
            && (s.kept ==> s.left == [])
            && (!s.kept ==> !shared && |s.got| == 1)
            && (!shared && s.kept ==> s.got == [])
  {
    if queue == [] {
    } else {
      ServeSendsOnce(queue[1..], shared, fate);
    }
  }

  /** Every queued waiter stays queued, is answered, or was found closed: one of the three. */
  lemma {:induction false} ServePartitions(queue: seq<Waiter>, shared: bool, fate: Waiter -> Fate)
    requires NoRepeats(queue)
    ensures var s := Serve(queue, shared, fate);
            && (forall r :: r in queue <==> r in s.left || r in s.got || r in s.lost)
            && (forall r :: r in s.left ==> r !in s.got && r !in s.lost)
            && (forall r :: r in s.got ==> fate(r).Delivered?)
            && (forall r :: r in s.lost ==> !fate(r).Delivered?)
            && NoRepeats(s.left)
  {
    if queue == [] {
    } else {
      assert queue == [queue[0]] + queue[1..];
      forall i | 0 <= i < |queue[1..]| ensures queue[1..][i] != queue[0] {}
      ServePartitions(queue[1..], shared, fate);
    }
  }

  // ----- The LRU map -----

  function Without(keys: seq<Key>, key: Key): seq<Key> {
    if keys == [] then []
    else if keys[0] == key then Without(keys[1..], key)
    else [keys[0]] + Without(keys[1..], key)
  }

  ghost predicate Lists(lru: seq<Key>, keys: set<Key>) {
    && (forall k :: k in lru <==> k in keys)
    && NoRepeats(lru)
  }

  lemma {:induction false} WithoutLists(lru: seq<Key>, keys: set<Key>, key: Key)
    requires Lists(lru, keys)
    ensures Lists(Without(lru, key), keys - {key})
    ensures |Without(lru, key)| == |lru| - (if key in keys then 1 else 0)
  {
    if lru == [] {
    } else {
      var tail := lru[1..];
      assert lru == [lru[0]] + tail;
      WithoutLists(tail, keys - {lru[0]}, key);
      var w := Without(tail, key);
      forall i | 0 <= i < |w| ensures w[i] != lru[0] { assert w[i] in w; }
    }
  }

  function Promote(p: Pool, key: Key): Pool {
    if key in p.idle then p.(lru := [key] + Without(p.lru, key)) else p
  }

  function Forget(p: Pool, key: Key): Pool {
    p.(idle := p.idle - {key}, lru := Without(p.lru, key))
  }

  /** `get_or_insert_mut`: a new key at full capacity pushes the least recently used one out. */
  function Enter(p: Pool, cfg: Config, key: Key): Pool {
    if key in p.idle then Promote(p, key)
    else
      var full := cfg.maxKeys.Some? && |p.lru| >= cfg.maxKeys.value && p.lru != [];
      var q := if full then Forget(p, p.lru[|p.lru| - 1]) else p;
      q.(idle := q.idle[key := []], lru := [key] + q.lru)
  }

  // ----- The critical sections -----

  /** The push at the end of `PoolInner::put`. */
  function PushIdle(p: Pool, cfg: Config, key: Key, conn: Conn, now: nat): Pool {
    var q := Enter(p, cfg, key);
    if cfg.maxIdle <= |q.idle[key]| then q
    else q.(idle := q.idle[key := q.idle[key] + [Idle(now, conn)]])
  }

  function QueueOf(p: Pool, key: Key): seq<Waiter> {
    if key in p.waiters then p.waiters[key] else []
  }

  function SetQueue(p: Pool, key: Key, queue: seq<Waiter>): Pool {
    p.(waiters := if queue == [] then p.waiters - {key} else p.waiters[key := queue])
  }

  /** Which waiters `put` takes from the queue; none when it returns at once. */
  function PutServes(p: Pool, key: Key, conn: Conn, fate: Waiter -> Fate): Served {
    if conn.shared && key in p.idle then Served(QueueOf(p, key), [], [], false)
    else Serve(QueueOf(p, key), conn.shared, fate)
  }

  /** `PoolInner::put`. */
  function Put(p: Pool, cfg: Config, key: Key, conn: Conn, fate: Waiter -> Fate, now: nat): Pool {
    if conn.shared && key in p.idle then p
    else
      var s := Serve(QueueOf(p, key), conn.shared, fate);
      var q := SetQueue(p, key, s.left);
      if s.kept then PushIdle(q, cfg, key, conn, now) else q
  }

  /** The locked part of `Checkout::checkout`, for a checkout that has no waiter yet. */
  function Checkout(p: Pool, cfg: Config, key: Key, w: Waiter, scan: Scan): (Option<Idle>, Pool) {
    var (found, list) := if key in p.idle then Pop(p.idle[key], cfg.timeout, scan) else (None, []);
    var q := if found.None? || list == [] then Forget(p, key)
             else var r := Promote(p, key); r.(idle := r.idle[key := list]);
    (found, if found.None? then q.(waiters := q.waiters[key := QueueOf(q, key) + [w]]) else q)
  }

  /** `PoolInner::connected`. */
  function Connected(p: Pool, key: Key): Pool {
    p.(connecting := p.connecting - {key}, waiters := p.waiters - {key})
  }

  function StillOpen(queue: seq<Waiter>, closed: Waiter -> bool): seq<Waiter> {
    if queue == [] then []
    else (if closed(queue[0]) then [] else [queue[0]]) + StillOpen(queue[1..], closed)
  }

  /** `PoolInner::clean_waiters`. */
  function CleanWaiters(p: Pool, key: Key, closed: Waiter -> bool): Pool {
    if key in p.waiters then SetQueue(p, key, StillOpen(p.waiters[key], closed)) else p
  }

  function Retain(list: seq<Idle>, timeout: Option<nat>, open: nat -> bool, now: nat): seq<Idle> {
    if list == [] then []
    else
      var i := |list| - 1;
      Retain(list[..i], timeout, open, now)
      + if open(i) && !Expires(timeout, list[i].at, now) then [list[i]] else []
  }

  /** One key of `PoolInner::clear_expired`. */
  function SweepKey(p: Pool, timeout: Option<nat>, key: Key, open: nat -> bool, now: nat): Pool {
    if key !in p.idle then p
    else
      var list := Retain(p.idle[key], timeout, open, now);
      if list == [] then Forget(p, key) else p.(idle := p.idle[key := list])
  }

  /** `PoolInner::clear_expired`, over the first `n` of the given keys. */
  function Sweep(p: Pool, timeout: Option<nat>, keys: seq<Key>, open: (Key, nat) -> bool, now: nat): Pool {
    if keys == [] then p
    else
      var k := keys[|keys| - 1];
      SweepKey(Sweep(p, timeout, keys[..|keys| - 1], open, now), timeout, k, (i: nat) => open(k, i), now)
  }

  // ----- The invariant -----

  ghost predicate OneShared(list: seq<Idle>) {
    forall i, j :: 0 <= i < j < |list| ==> !(list[i].conn.shared && list[j].conn.shared)
  }

  /** No unique connection is listed twice. */
  ghost predicate Distinct(list: seq<Idle>) {
    forall i, j :: 0 <= i < j < |list| && list[i].conn == list[j].conn ==> list[i].conn.shared
  }

  ghost predicate ListInv(list: seq<Idle>, cfg: Config, now: nat) {
    && 0 < |list| <= cfg.maxIdle
    && Sorted(list)
    && OneShared(list)
    && forall i :: 0 <= i < |list| ==> list[i].at <= now
  }

  /** What holds of the pool whenever its lock is free. */
  ghost predicate Inv(p: Pool, cfg: Config, now: nat) {
    && (forall k :: k in p.idle ==> ListInv(p.idle[k], cfg, now))
    && (forall k :: k in p.waiters ==> p.waiters[k] != [] && k !in p.idle)
    && Lists(p.lru, p.idle.Keys)
    && (cfg.maxKeys.Some? ==> |p.lru| <= cfg.maxKeys.value)
  }

  lemma InvLater(p: Pool, cfg: Config, now: nat, later: nat)
    requires Inv(p, cfg, now) && now <= later
    ensures Inv(p, cfg, later)
  {
  }

  lemma ForgetKeepsInv(p: Pool, cfg: Config, key: Key, now: nat)
    requires Inv(p, cfg, now)
    ensures Inv(Forget(p, key), cfg, now)
  {
    WithoutLists(p.lru, p.idle.Keys, key);
    assert (p.idle - {key}).Keys == p.idle.Keys - {key};
  }

  lemma PromoteLists(p: Pool, key: Key)
    requires Lists(p.lru, p.idle.Keys) && key in p.idle
    ensures Lists(Promote(p, key).lru, p.idle.Keys) && |Promote(p, key).lru| == |p.lru|
  {
    WithoutLists(p.lru, p.idle.Keys, key);
  }

  /** Replacing one list by another good one, with the key moved to the front, keeps the invariant. */
  lemma ReplaceKeepsInv(p: Pool, cfg: Config, key: Key, list: seq<Idle>, now: nat)
    requires Inv(p, cfg, now) && key in p.idle && ListInv(list, cfg, now)
    ensures var q := Promote(p, key); Inv(q.(idle := q.idle[key := list]), cfg, now)
    ensures Inv(p.(idle := p.idle[key := list]), cfg, now)
  {
    PromoteLists(p, key);
    assert p.idle[key := list].Keys == p.idle.Keys;
  }

  lemma {:induction false} PopKeepsList(list: seq<Idle>, cfg: Config, scan: Scan, now: nat)
    requires list != [] ==> ListInv(list, cfg, now)
    requires ClockRuns(scan, now)
    ensures var (found, rest) := Pop(list, cfg.timeout, scan); rest != [] ==> ListInv(rest, cfg, scan.end)
  {
    if list == [] || Usable(list, cfg.timeout, scan, |list| - 1) {
    } else {
      PopKeepsList(list[..|list| - 1], cfg, scan, now);
    }
  }

  /** What is retained comes from the list, in the same order: `at` says from where. */
  lemma {:induction false} RetainFrom(list: seq<Idle>, timeout: Option<nat>, open: nat -> bool, now: nat)
    returns (at: seq<nat>)
    ensures var r := Retain(list, timeout, open, now);
            && |at| == |r|
            && (forall i :: 0 <= i < |r| ==> at[i] < |list| && list[at[i]] == r[i])
            && (forall i, j :: 0 <= i < j < |at| ==> at[i] < at[j])
  {
    if list == [] {
      at := [];
    } else {
      var last := |list| - 1;
      at := RetainFrom(list[..last], timeout, open, now);
      if open(last) && !Expires(timeout, list[last].at, now) {
        at := at + [last];
      }
    }
  }

  lemma RetainKeeps(list: seq<Idle>, timeout: Option<nat>, open: nat -> bool, now: nat)
    ensures var r := Retain(list, timeout, open, now);
            && |r| <= |list|
            && (forall i :: 0 <= i < |r| ==> r[i] in list)
            && (Sorted(list) ==> Sorted(r)) && (OneShared(list) ==> OneShared(r)) && (Distinct(list) ==> Distinct(r))
  {
    var at := RetainFrom(list, timeout, open, now);
    Spread(at, |list|);
  }

  /** Increasing numbers below a bound are no more than the bound. */
  lemma {:induction false} Spread(at: seq<nat>, bound: nat)
    requires forall i :: 0 <= i < |at| ==> at[i] < bound
    requires forall i, j :: 0 <= i < j < |at| ==> at[i] < at[j]
    ensures |at| <= bound
  {
    if at == [] {
    } else {
      Spread(at[..|at| - 1], at[|at| - 1]);
    }
  }

  // `put`, `checkout`, `connected`, `clean_waiters` and `clear_expired` all keep the invariant.

  lemma EnterKeepsLists(p: Pool, cfg: Config, key: Key)
    requires cfg.Enabled() && Lists(p.lru, p.idle.Keys)
    requires cfg.maxKeys.Some? ==> |p.lru| <= cfg.maxKeys.value
    ensures var q := Enter(p, cfg, key);
            && Lists(q.lru, q.idle.Keys) && (cfg.maxKeys.Some? ==> |q.lru| <= cfg.maxKeys.value)
            && key in q.idle && q.idle.Keys <= p.idle.Keys + {key}
            && q.waiters == p.waiters && q.connecting == p.connecting
            && q.idle[key] == (if key in p.idle then p.idle[key] else [])
            && (forall k :: k in q.idle && k != key ==> q.idle[k] == p.idle[k])
  {
    if key in p.idle {
      PromoteLists(p, key);
    } else if cfg.maxKeys.Some? && |p.lru| >= cfg.maxKeys.value {
      var last := p.lru[|p.lru| - 1];
      assert last in p.lru;
      WithoutLists(p.lru, p.idle.Keys, last);
      var q := Forget(p, last);
      assert q.idle.Keys == p.idle.Keys - {last};
      assert q.idle[key := []].Keys == q.idle.Keys + {key};
    } else {
      assert p.idle[key := []].Keys == p.idle.Keys + {key};
    }
  }

  lemma AppendKeepsList(list: seq<Idle>, cfg: Config, conn: Conn, now: nat)
    requires list != [] ==> ListInv(list, cfg, now) && !conn.shared
    requires |list| < cfg.maxIdle
    ensures ListInv(list + [Idle(now, conn)], cfg, now)
  {
  }

  lemma PushKeepsInv(p: Pool, cfg: Config, key: Key, conn: Conn, now: nat)
    requires cfg.Enabled() && Inv(p, cfg, now) && key !in p.waiters
    requires conn.shared ==> key !in p.idle
    ensures Inv(PushIdle(p, cfg, key, conn, now), cfg, now)
  {
    EnterKeepsLists(p, cfg, key);
    var q := Enter(p, cfg, key);
    var r := PushIdle(p, cfg, key, conn, now);
    assert r.idle.Keys == q.idle.Keys;
    if |q.idle[key]| < cfg.maxIdle {
      AppendKeepsList(q.idle[key], cfg, conn, now);
    }
    forall k | k in r.idle ensures ListInv(r.idle[k], cfg, now) {
      assert k != key ==> r.idle[k] == p.idle[k];
    }
  }

  lemma PutKeepsInv(p: Pool, cfg: Config, key: Key, conn: Conn, fate: Waiter -> Fate, now: nat)
    requires cfg.Enabled() && Inv(p, cfg, now)
    ensures Inv(Put(p, cfg, key, conn, fate, now), cfg, now)
  {
    if !(conn.shared && key in p.idle) {
      var s := Serve(QueueOf(p, key), conn.shared, fate);
      ServeSendsOnce(QueueOf(p, key), conn.shared, fate);
      var q := SetQueue(p, key, s.left);
      assert Inv(q, cfg, now);
      if s.kept {
        PushKeepsInv(q, cfg, key, conn, now);
      }
    }
  }

  lemma CheckoutKeepsInv(p: Pool, cfg: Config, key: Key, w: Waiter, scan: Scan, now: nat)
    requires Inv(p, cfg, now) && ClockRuns(scan, now)
    ensures Inv(Checkout(p, cfg, key, w, scan).1, cfg, scan.end)
  {
    InvLater(p, cfg, now, scan.end);
    ForgetKeepsInv(p, cfg, key, scan.end);
    if key in p.idle {
      PopKeepsList(p.idle[key], cfg, scan, now);
      PopFindsNewestUsable(p.idle[key], cfg.timeout, scan);
      var (found, list) := Pop(p.idle[key], cfg.timeout, scan);
      if found.Some? && list != [] {
        ReplaceKeepsInv(p, cfg, key, list, scan.end);
      }
    }
  }

  lemma {:induction false} SweepKeepsInv(p: Pool, cfg: Config, keys: seq<Key>, open: (Key, nat) -> bool, now: nat)
    requires Inv(p, cfg, now)
    ensures Inv(Sweep(p, cfg.timeout, keys, open, now), cfg, now)
    ensures Sweep(p, cfg.timeout, keys, open, now).waiters == p.waiters
    ensures Sweep(p, cfg.timeout, keys, open, now).connecting == p.connecting
  {
    if keys == [] {
    } else {
      var k := keys[|keys| - 1];
      SweepKeepsInv(p, cfg, keys[..|keys| - 1], open, now);
      var q := Sweep(p, cfg.timeout, keys[..|keys| - 1], open, now);
      if k in q.idle {
        var f := (i: nat) => open(k, i);
        var list := Retain(q.idle[k], cfg.timeout, f, now);
        RetainKeeps(q.idle[k], cfg.timeout, f, now);
        if list == [] {
          ForgetKeepsInv(q, cfg, k, now);
        } else {
          forall i | 0 <= i < |list| ensures list[i].at <= now { assert list[i] in q.idle[k]; }
          ReplaceKeepsInv(q, cfg, k, list, now);
        }
      }
    }
  }

  /** So a shared connection that `put` turns away leaves nobody waiting for it. */
  lemma EarlyReturnStrandsNobody(p: Pool, cfg: Config, key: Key, conn: Conn, fate: Waiter -> Fate, now: nat)
    requires Inv(p, cfg, now) && conn.shared
    ensures QueueOf(Put(p, cfg, key, conn, fate, now), key) == []
    ensures key in p.idle ==> QueueOf(p, key) == []
  {
    EveryOpenWaiterServed(QueueOf(p, key), fate);
  }

  // ----- Nothing is lost on the way -----

  ghost predicate EvictedFor(p: Pool, cfg: Config, key: Key, k: Key) {
    key !in p.idle && p.lru != [] && k == p.lru[|p.lru| - 1] && cfg.maxKeys == Some(|p.lru|)
  }

  /** Pushing goes to the end of the list if there is room, and moves the key to the front. Other lists stay
      as they are, but for the least recently used one when a new key needs its place. */
  lemma PushIsExact(p: Pool, cfg: Config, key: Key, conn: Conn, now: nat)
    requires cfg.Enabled() && Inv(p, cfg, now)
    ensures var q := PushIdle(p, cfg, key, conn, now);
            var list := if key in p.idle then p.idle[key] else [];
            && key in q.idle && q.lru[0] == key
            && q.idle[key] == (if |list| < cfg.maxIdle then list + [Idle(now, conn)] else list)
            && (forall k :: k in q.idle && k != key ==> k in p.idle && q.idle[k] == p.idle[k])
            && (forall k :: k in p.idle && k !in q.idle <==> EvictedFor(p, cfg, key, k))
  {
    EnterKeepsLists(p, cfg, key);
    EnterEvicts(p, cfg, key);
  }

  lemma EnterEvicts(p: Pool, cfg: Config, key: Key)
    requires Lists(p.lru, p.idle.Keys) && (cfg.maxKeys.Some? ==> |p.lru| <= cfg.maxKeys.value)
    ensures Enter(p, cfg, key).lru[0] == key
    ensures forall k :: k in p.idle && k !in Enter(p, cfg, key).idle <==> EvictedFor(p, cfg, key, k)
  {
    assert p.lru != [] ==> p.lru[|p.lru| - 1] in p.lru;
  }

  lemma PushIgnoresWaiters(p: Pool, cfg: Config, key: Key, conn: Conn, now: nat, waiters: map<Key, seq<Waiter>>)
    ensures PushIdle(p.(waiters := waiters), cfg, key, conn, now)
            == PushIdle(p, cfg, key, conn, now).(waiters := waiters)
  {
  }

  /** Where a connection goes that is put back: to a waiter if one is there, and to its idle list otherwise. */
  lemma PutLosesNothing(p: Pool, cfg: Config, key: Key, conn: Conn, fate: Waiter -> Fate, now: nat)
    requires cfg.Enabled() && Inv(p, cfg, now) && !(conn.shared && key in p.idle)
    ensures var q := Put(p, cfg, key, conn, fate, now);
            var queue := QueueOf(p, key);
            if !conn.shared && exists w :: w in queue && fate(w).Delivered? then
              && q.idle == p.idle && q.lru == p.lru
              && exists n: nat ::
                   && FirstThere(queue, fate, n)
                   && PutServes(p, key, conn, fate).got == [queue[n]] && QueueOf(q, key) == queue[n + 1..]
            else var r := PushIdle(p, cfg, key, conn, now); q.idle == r.idle && q.lru == r.lru && key !in q.waiters
  {
    var queue := QueueOf(p, key);
    if !conn.shared && exists w :: w in queue && fate(w).Delivered? {
      var n := FirstOpen(queue, fate);
      OldestOpenWaiterFirst(queue, fate, n);
    } else {
      NobodyThere(queue, conn.shared, fate);
      PushIgnoresWaiters(p, cfg, key, conn, now, p.waiters - {key});
    }
  }

  lemma {:induction false} FirstOpen(queue: seq<Waiter>, fate: Waiter -> Fate) returns (n: nat)
    requires exists w :: w in queue && fate(w).Delivered?
    ensures FirstThere(queue, fate, n)
  {
    if fate(queue[0]).Delivered? {
      n := 0;
    } else {
      assert queue == [queue[0]] + queue[1..];
      n := FirstOpen(queue[1..], fate);
      n := n + 1;
    }
  }

  lemma {:induction false} NobodyThere(queue: seq<Waiter>, shared: bool, fate: Waiter -> Fate)
    requires shared || forall w :: w in queue ==> !fate(w).Delivered?
    ensures Serve(queue, shared, fate).kept && Serve(queue, shared, fate).left == []
  {
    if queue == [] {
    } else {
      NobodyThere(queue[1..], shared, fate);
    }
  }

  /** A checkout that finds something disturbs no waiter; one that finds nothing queues last, behind an empty
      idle list. */
  lemma CheckoutQueuesLast(p: Pool, cfg: Config, key: Key, w: Waiter, scan: Scan)
    ensures var (found, q) := Checkout(p, cfg, key, w, scan);
            && (found.None? <==>
                key !in p.idle || forall i: nat :: i < |p.idle[key]| ==> !Usable(p.idle[key], cfg.timeout, scan, i))
            && (found.Some? ==> q.waiters == p.waiters)
            && (found.None? ==> key !in q.idle && QueueOf(q, key) == QueueOf(p, key) + [w])
            && (forall k :: k != key ==> QueueOf(q, k) == QueueOf(p, k) && (k in q.idle <==> k in p.idle)
                                         && (k in q.idle ==> q.idle[k] == p.idle[k]))
  {
    if key in p.idle {
      PopFindsNewestUsable(p.idle[key], cfg.timeout, scan);
    }
  }

  /** Without a timeout, or for exactly as long as the timeout after it became idle, an entry is good. */
  predicate InTime(timeout: Option<nat>, at: nat, now: nat) {
    match timeout
    case None => true
    case Some(limit) => now <= at + limit
  }

  predicate Fresh(list: seq<Idle>, timeout: Option<nat>, open: nat -> bool, now: nat, i: nat)
    requires i < |list|
  {
    open(i) && InTime(timeout, list[i].at, now)
  }

  /** Entry `i` is open and in time when it is looked at, and no newer one is. */
  ghost predicate Best(list: seq<Idle>, timeout: Option<nat>, scan: Scan, i: nat) {
    && i < |list| && scan.open(i) && InTime(timeout, list[i].at, scan.clock(i))
    && forall j: nat :: i < j < |list| ==> !(scan.open(j) && InTime(timeout, list[j].at, scan.clock(j)))
  }

  lemma {:induction false} WithoutIs(keys: seq<Key>, key: Key, n: nat)
    requires NoRepeats(keys) && n < |keys| && keys[n] == key
    ensures Without(keys, key) == keys[..n] + keys[n + 1..]
  {
    var rest := keys[1..];
    if n == 0 {
      WithoutAbsent(rest, key);
    } else {
      WithoutIs(rest, key, n - 1);
      assert keys[..n] == [keys[0]] + rest[..n - 1] && rest[n..] == keys[n + 1..];
    }
  }

  lemma {:induction false} WithoutAbsent(keys: seq<Key>, key: Key)
    requires key !in keys
    ensures Without(keys, key) == keys
  {
    if keys == [] {
    } else {
      WithoutAbsent(keys[1..], key);
      assert keys == [keys[0]] + keys[1..];
    }
  }

  /** What is left of an idle list whose entry `i` is checked out: the older entries, and behind them a shared
      connection itself, idle again from the end of the scan. */
  function LeftOf(list: seq<Idle>, i: nat, end: nat): seq<Idle>
    requires i < |list|
  {
    list[..i] + if list[i].conn.shared then [Idle(end, list[i].conn)] else []
  }

  /** A checkout takes the best entry and leaves the older ones under the key, which stays exactly as long as it has
      any, as the most recently used. The other keys keep their order. */
  lemma CheckoutTakesBest(p: Pool, cfg: Config, key: Key, w: Waiter, scan: Scan, i: nat, n: nat)
    requires Lists(p.lru, p.idle.Keys) && key in p.idle && Best(p.idle[key], cfg.timeout, scan, i)
    requires n < |p.lru| && p.lru[n] == key
    ensures var (found, q) := Checkout(p, cfg, key, w, scan);
            var left := LeftOf(p.idle[key], i, scan.end);
            && found == Some(p.idle[key][i])
            && (key in q.idle <==> left != []) && (key in q.idle ==> q.idle[key] == left)
            && q.idle - {key} == p.idle - {key}
            && q.lru == (if left == [] then [] else [key]) + p.lru[..n] + p.lru[n + 1..]
            && q.waiters == p.waiters && q.connecting == p.connecting
  {
    var list := p.idle[key];
    PopFinds(list, cfg.timeout, scan, i);
    WithoutIs(p.lru, key, n);
    assert TakeLast(list[..i + 1], scan.end) == LeftOf(list, i, scan.end);
  }

  /** One that has no entry to take leaves nothing under the key, and queues last. */
  lemma CheckoutFindsNothing(p: Pool, cfg: Config, key: Key, w: Waiter, scan: Scan)
    requires Lists(p.lru, p.idle.Keys)
    requires key in p.idle ==> forall i: nat :: !Best(p.idle[key], cfg.timeout, scan, i)
    ensures var (found, q) := Checkout(p, cfg, key, w, scan);
            && found.None? && q.idle == p.idle - {key} && q.connecting == p.connecting
            && QueueOf(q, key) == QueueOf(p, key) + [w] && q.waiters - {key} == p.waiters - {key}
            && (forall n: nat :: n < |p.lru| && p.lru[n] == key ==> q.lru == p.lru[..n] + p.lru[n + 1..])
            && (key !in p.idle ==> q.lru == p.lru)
  {
    if key in p.idle {
      NothingUsable(p.idle[key], cfg.timeout, scan);
      PopFindsNothing(p.idle[key], cfg.timeout, scan);
      forall n: nat | n < |p.lru| && p.lru[n] == key ensures Without(p.lru, key) == p.lru[..n] + p.lru[n + 1..] {
        WithoutIs(p.lru, key, n);
      }
    } else {
      WithoutAbsent(p.lru, key);
    }
  }

  lemma NothingUsable(list: seq<Idle>, timeout: Option<nat>, scan: Scan)
    requires forall i: nat :: !Best(list, timeout, scan, i)
    ensures forall i: nat :: i < |list| ==> !Usable(list, timeout, scan, i)
  {
    if i: nat :| i < |list| && Usable(list, timeout, scan, i) {
      var n := NewestExists(list, timeout, scan, i);
      forall j: nat | n < j < |list| ensures !(scan.open(j) && InTime(timeout, list[j].at, scan.clock(j))) {
        assert !Usable(list, timeout, scan, j);
      }
      assert Best(list, timeout, scan, n);
    }
  }

  // ----- The order of the keys, and the queues that are cleaned -----

  /** Two keys that are both listed before and after are in the same order. */
  ghost predicate SameOrder(before: seq<Key>, after: seq<Key>) {
    forall a: Key, b: Key :: Precedes(after, a, b) ==> Precedes(before, a, b)
  }

  /** A push leaves the order of the other keys alone. */
  lemma PushKeepsOrder(p: Pool, cfg: Config, key: Key, conn: Conn, now: nat)
    requires Lists(p.lru, p.idle.Keys)
    ensures var lru := PushIdle(p, cfg, key, conn, now).lru;
            lru != [] && lru[0] == key && SameOrder(p.lru, lru[1..])
  {
    var lru := PushIdle(p, cfg, key, conn, now).lru;
    WithoutKeepsOrder(p.lru, key);
    if p.lru != [] {
      WithoutKeepsOrder(p.lru, p.lru[|p.lru| - 1]);
    }
    assert lru[1..] == p.lru || lru[1..] == Without(p.lru, key)
           || (p.lru != [] && lru[1..] == Without(p.lru, p.lru[|p.lru| - 1]));
  }

  lemma {:induction false} WithoutKeepsOrder(keys: seq<Key>, key: Key)
    ensures SameOrder(keys, Without(keys, key))
    ensures forall k :: k in Without(keys, key) ==> k in keys
  {
    if keys == [] {
    } else {
      WithoutKeepsOrder(keys[1..], key);
      forall a: Key, b: Key | Precedes(Without(keys, key), a, b) ensures Precedes(keys, a, b) {
        OrderBehind(keys, Without(keys, key), Without(keys[1..], key), a, b);
      }
      assert keys == [keys[0]] + keys[1..];
    }
  }

  /** The order of a list is that of its tail, with the first element in front. */
  lemma OrderBehind(keys: seq<Key>, kept: seq<Key>, rest: seq<Key>, a: Key, b: Key)
    requires keys != [] && (kept == rest || kept == [keys[0]] + rest) && Precedes(kept, a, b)
    requires SameOrder(keys[1..], rest) && forall k :: k in rest ==> k in keys[1..]
    ensures Precedes(keys, a, b)
  {
    var i, j :| 0 <= i < j < |kept| && kept[i] == a && kept[j] == b;
    var d := if kept == rest then 0 else 1;
    assert rest[j - d] == b;
    if i >= d {
      assert rest[i - d] == a && Precedes(rest, a, b);
      var x, y :| 0 <= x < y < |keys[1..]| && keys[1..][x] == a && keys[1..][y] == b;
      assert keys[x + 1] == a && keys[y + 1] == b;
    } else {
      assert b in rest;
      var y :| 0 <= y < |keys[1..]| && keys[1..][y] == b;
      assert keys[0] == a && keys[y + 1] == b;
    }
  }

  /** A sweep only takes keys out of the order. */
  lemma {:induction false} SweepKeepsOrder(p: Pool, timeout: Option<nat>, keys: seq<Key>,
                                           open: (Key, nat) -> bool, now: nat)
    ensures SameOrder(p.lru, Sweep(p, timeout, keys, open, now).lru)
  {
    if keys == [] {
    } else {
      SweepKeepsOrder(p, timeout, keys[..|keys| - 1], open, now);
      WithoutKeepsOrder(Sweep(p, timeout, keys[..|keys| - 1], open, now).lru, keys[|keys| - 1]);
    }
  }

  /** Cleaning leaves exactly the waiters with a receiver in the queue of the key, and everything else as it was. */
  lemma CleanIsExact(p: Pool, key: Key, closed: Waiter -> bool)
    requires forall k :: k in p.waiters ==> p.waiters[k] != []
    ensures var q := CleanWaiters(p, key, closed);
            && (forall r :: r in QueueOf(q, key) <==> r in QueueOf(p, key) && !closed(r))
            && (forall a: Waiter, b: Waiter :: Precedes(QueueOf(q, key), a, b) ==> Precedes(QueueOf(p, key), a, b))
            && (key in q.waiters <==> QueueOf(q, key) != [])
            && q.waiters - {key} == p.waiters - {key} && q == p.(waiters := q.waiters)
  {
    var queue := QueueOf(p, key);
    StillOpenMembers(queue, closed);
    forall a: Waiter, b: Waiter | Precedes(StillOpen(queue, closed), a, b) ensures Precedes(queue, a, b) {
      CleaningKeepsOrder(queue, closed, a, b);
    }
  }

  /** A sweep keeps every entry that is open and not expired... */
  lemma {:induction false} FreshEntriesStay(list: seq<Idle>, timeout: Option<nat>, open: nat -> bool, now: nat, i: nat)
    requires i < |list| && Fresh(list, timeout, open, now, i)
    ensures list[i] in Retain(list, timeout, open, now)
  {
    if i == |list| - 1 {
    } else {
      FreshEntriesStay(list[..|list| - 1], timeout, open, now, i);
    }
  }

  /** ...and no other. */
  lemma {:induction false} StaleEntriesGo(list: seq<Idle>, timeout: Option<nat>, open: nat -> bool, now: nat, e: Idle)
    returns (i: nat)
    requires e in Retain(list, timeout, open, now)
    ensures i < |list| && list[i] == e && Fresh(list, timeout, open, now, i)
  {
    var last := |list| - 1;
    if e !in Retain(list[..last], timeout, open, now) {
      i := last;
    } else {
      i := StaleEntriesGo(list[..last], timeout, open, now, e);
    }
  }

  /** And it does so for every key that it is given. */
  lemma {:induction false} SweepReachesEveryKey(p: Pool, timeout: Option<nat>, keys: seq<Key>,
                                                open: (Key, nat) -> bool, now: nat, k: Key)
    requires NoRepeats(keys)
    ensures var q := Sweep(p, timeout, keys, open, now);
            var list := if k !in p.idle then []
                        else if k in keys then Retain(p.idle[k], timeout, (i: nat) => open(k, i), now)
                        else p.idle[k];
            if k in p.idle && (k in keys ==> list != []) then k in q.idle && q.idle[k] == list else k !in q.idle
  {
    if keys == [] {
    } else {
      var rest := keys[..|keys| - 1];
      SweepReachesEveryKey(p, timeout, rest, open, now, k);
      assert keys == rest + [keys[|keys| - 1]];
      if keys[|keys| - 1] == k {
        assert forall i :: 0 <= i < |rest| ==> keys[i] != k;
      }
    }
  }

  ghost predicate Precedes(queue: seq<Waiter>, a: Waiter, b: Waiter) {
    exists i, j :: 0 <= i < j < |queue| && queue[i] == a && queue[j] == b
  }

  /** Cleaning a queue keeps the waiters that are still there, in their order. */
  lemma {:induction false} CleaningKeepsOrder(queue: seq<Waiter>, closed: Waiter -> bool, a: Waiter, b: Waiter)
    requires Precedes(StillOpen(queue, closed), a, b)
    ensures Precedes(queue, a, b)
  {
    var r, rest := StillOpen(queue, closed), StillOpen(queue[1..], closed);
    var i, j :| 0 <= i < j < |r| && r[i] == a && r[j] == b;
    if closed(queue[0]) || i > 0 {
      var d := if closed(queue[0]) then 0 else 1;
      assert rest[i - d] == a && rest[j - d] == b;
      CleaningKeepsOrder(queue[1..], closed, a, b);
      var x, y :| 0 <= x < y < |queue[1..]| && queue[1..][x] == a && queue[1..][y] == b;
      assert queue[x + 1] == a && queue[y + 1] == b;
    } else {
      StillOpenMembers(queue[1..], closed);
      assert rest[j - 1] == b && b in rest;
      var y :| 0 <= y < |queue[1..]| && queue[1..][y] == b;
      assert queue[0] == a && queue[y + 1] == b;
    }
  }

  lemma {:induction false} StillOpenMembers(queue: seq<Waiter>, closed: Waiter -> bool)
    ensures forall r :: r in StillOpen(queue, closed) <==> r in queue && !closed(r)
  {
    if queue == [] {
    } else {
      StillOpenMembers(queue[1..], closed);
      assert queue == [queue[0]] + queue[1..];
    }
  }
}
