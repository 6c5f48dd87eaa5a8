/**
 `PoolInner` of src/core/client/pool.rs, whose fields change in place under the
 pool's lock. Every method does to the fields what the function of the same
 name in `PoolState` does to the value they hold.
 */
module PoolInner {
  import opened Wrappers
  import opened Sequences
  import Spec = PoolState
  import opened PoolState

  /** `IdlePopper::pop`. */
  method PopIdle(list: seq<Idle>, timeout: Option<nat>, scan: Scan) returns (found: Option<Idle>, rest: seq<Idle>)
    ensures (found, rest) == Spec.Pop(list, timeout, scan)
  {
    rest := list;
    while rest != []
      invariant Spec.Pop(rest, timeout, scan) == Spec.Pop(list, timeout, scan)
      decreases |rest|
    {
      var i := |rest| - 1;
      var entry := rest[i];
      ghost var before := rest;
      rest := rest[..i];
      if !scan.open(i) {
        continue;
      }
      if Expires(timeout, entry.at, scan.clock(i)) {
        continue;
      }
      if entry.conn.shared {
        rest := rest + [Idle(scan.end, entry.conn)];
        assert rest == before[i := Idle(scan.end, entry.conn)];
      }
      return Some(entry), rest;
    }
    found := None;
  }

  class PoolInner {
    const cfg: Config
    var connecting: set<Key>
    var idle: map<Key, seq<Idle>>
    var lru: seq<Key>
    var waiters: map<Key, seq<Waiter>>

    constructor (cfg: Config)
      ensures this.cfg == cfg && Value() == EMPTY
    {
      this.cfg := cfg;
      connecting, idle, lru, waiters := {}, map[], [], map[];
    }

    function Value(): Pool
      reads this
    {
      Pool(connecting, idle, lru, waiters)
    }

    method Store(p: Pool)
      modifies this
      ensures Value() == p
    {
      connecting, idle, lru, waiters := p.connecting, p.idle, p.lru, p.waiters;
    }

    /** The waiter loop of `put`: the waiters left, served and found closed, and whether the value is still there. */
    method OfferToWaiters(waiting: seq<Waiter>, conn: Conn, fate: Waiter -> Fate)
      returns (queue: seq<Waiter>, got: seq<Waiter>, lost: seq<Waiter>, value: Option<Conn>)
      ensures Serve(waiting, conn.shared, fate) == Served(queue, got, lost, value.Some?)
    {
      queue, got, lost, value := waiting, [], [], Some(conn);
      ghost var s := Serve(queue, conn.shared, fate);
      while queue != []
        invariant value == Some(conn)
        invariant var r := Serve(queue, conn.shared, fate); s == r.(got := got + r.got, lost := lost + r.lost)
        decreases |queue|
      {
        var tx := queue[0];
        queue := queue[1..];
        ghost var r := Serve(queue, conn.shared, fate);
        Associate(got, [tx], r.got);
        Associate(lost, [tx], r.lost);
        if !fate(tx).Closed? {
          // "value already sent" cannot happen: the loop is left as soon as the value is gone
          assert value.Some?;
          var reserved := value.value;
          value := if reserved.shared then Some(reserved) else None;
          if fate(tx).Delivered? {
            got := got + [tx];
            if value.None? {
              break;
            }
            continue;
          }
          value := Some(reserved);
        }
        lost := lost + [tx];
      }
    }

    /** `put`: offers the connection to the waiters of its key, then to the idle list. */
    method Put(key: Key, conn: Conn, fate: Waiter -> Fate, now: nat) returns (got: seq<Waiter>, lost: seq<Waiter>)
      modifies this
      ensures Value() == Spec.Put(old(Value()), cfg, key, conn, fate, now)
      ensures var s := PutServes(old(Value()), key, conn, fate); got == s.got && lost == s.lost
    {
      got, lost := [], [];
      if conn.shared && key in idle {
        return;
      }
      var value: Option<Conn> := Some(conn);
      if key in waiters {
        var queue;
        queue, got, lost, value := OfferToWaiters(waiters[key], conn, fate);
        waiters := if queue == [] then waiters - {key} else waiters[key := queue];
      } else {
        assert waiters - {key} == waiters;
      }
      if value.Some? {
        Store(Enter(Value(), cfg, key));
        if cfg.maxIdle <= |idle[key]| {
          return;
        }
        idle := idle[key := idle[key] + [Idle(now, conn)]];
      }
    }

    /** `connected`. */
    method Connected(key: Key) returns (existed: bool, canceled: seq<Waiter>)
      modifies this`connecting, this`waiters
      ensures Value() == Spec.Connected(old(Value()), key)
      ensures existed == (key in old(connecting)) && canceled == QueueOf(old(Value()), key)
    {
      existed := key in connecting;
      canceled := if key in waiters then waiters[key] else [];
      connecting := connecting - {key};
      waiters := waiters - {key};
    }

    /** `clean_waiters`. */
    method CleanWaiters(key: Key, closed: Waiter -> bool)
      modifies this`waiters
      ensures Value() == Spec.CleanWaiters(old(Value()), key, closed)
    {
      if key in waiters {
        var queue, kept := waiters[key], [];
        for i := 0 to |queue|
          invariant waiters == old(waiters) && kept + StillOpen(queue[i..], closed) == StillOpen(queue, closed)
        {
          assert queue[i..][1..] == queue[i + 1..];
          if !closed(queue[i]) {
            kept := kept + [queue[i]];
          }
        }
        assert queue[|queue|..] == [] && kept + [] == kept;
        waiters := if kept == [] then waiters - {key} else waiters[key := kept];
      }
    }

    /** The locked part of `Checkout::checkout`; `w` is the sender queued when nothing is found. */
    method Checkout(key: Key, w: Waiter, scan: Scan) returns (found: Option<Idle>)
      modifies this
      ensures (found, Value()) == Spec.Checkout(old(Value()), cfg, key, w, scan)
    {
      found := None;
      var list := [];
      if key in idle {
        Store(Promote(Value(), key));
        found, list := PopIdle(idle[key], cfg.timeout, scan);
      }
      if found.None? || list == [] {
        WithoutTwice(old(lru), key);
        Store(Forget(Value(), key));
      } else {
        idle := idle[key := list];
      }
      if found.None? {
        waiters := waiters[key := (if key in waiters then waiters[key] else []) + [w]];
      }
    }

    /** `clear_expired`: prunes every list, then removes the keys left without entries. */
    method ClearExpired(open: (Key, nat) -> bool, now: nat)
      modifies this
      ensures Value() == Spec.Sweep(old(Value()), cfg.timeout, old(lru), open, now)
    {
      var keys := lru;
      ghost var start := Value();
      for n := 0 to |keys|
        invariant Value() == Spec.Sweep(start, cfg.timeout, keys[..n], open, now)
      {
        var k := keys[n];
        assert keys[..n + 1][..n] == keys[..n];
        if k in idle {
          var list, kept := idle[k], [];
          for i := 0 to |list|
            invariant kept == Retain(list[..i], cfg.timeout, (j: nat) => open(k, j), now)
            invariant Value() == Spec.Sweep(start, cfg.timeout, keys[..n], open, now)
          {
            assert list[..i + 1][..i] == list[..i];
            if open(k, i) && !Expires(cfg.timeout, list[i].at, now) {
              kept := kept + [list[i]];
            }
          }
          assert list[..|list|] == list;
          if kept == [] {
            Store(Forget(Value(), k));
          } else {
            idle := idle[k := kept];
          }
        }
      }
      assert keys[..|keys|] == keys;
    }
  }

  lemma {:induction false} WithoutTwice(lru: seq<Key>, key: Key)
    ensures Without([key] + Without(lru, key), key) == Without(lru, key)
  {
    WithoutIdempotent(lru, key);
    assert ([key] + Without(lru, key))[1..] == Without(lru, key);
  }

  lemma {:induction false} WithoutIdempotent(lru: seq<Key>, key: Key)
    ensures Without(Without(lru, key), key) == Without(lru, key)
  {
    if lru == [] {
    } else {
      WithoutIdempotent(lru[1..], key);
      var w := Without(lru[1..], key);
      if lru[0] != key {
        assert ([lru[0]] + w)[1..] == w;
      }
    }
  }
}
