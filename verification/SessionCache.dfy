/**
 The TLS session cache of src/tls/conn/cache.rs: a bounded queue of sessions for
 each key, and a reverse index from session id to key.
 */
module SessionState {
  import opened Wrappers

  type Key = nat
  type Id = nat

  /** Sessions are equal when their ids are. */
  datatype Session = Session(id: Id, tls13: bool)

  /** A queue lists its sessions oldest first. */
  datatype Cache = Cache(sessions: map<Key, seq<Session>>, reverse: map<Id, Key>)

  const EMPTY := Cache(map[], map[])

  // ----- The linked hash set -----

  ghost predicate Holds(queue: seq<Session>, id: Id) {
    exists i :: 0 <= i < |queue| && queue[i].id == id
  }

  ghost predicate DistinctIds(queue: seq<Session>) {
    forall i, j :: 0 <= i < j < |queue| ==> queue[i].id != queue[j].id
  }

  /** The queue without the session of this id. */
  function Unfiled(queue: seq<Session>, id: Id): seq<Session> {
    if queue == [] then []
    else if queue[0].id == id then Unfiled(queue[1..], id)
    else [queue[0]] + Unfiled(queue[1..], id)
  }

  /** The stored session with this id, or the new one. */
  function Stored(queue: seq<Session>, s: Session): Session {
    if queue == [] then s else if queue[0].id == s.id then queue[0] else Stored(queue[1..], s)
  }

  /** `LinkedHashSet::insert` puts the element last, whether or not it was there. */
  function Append(queue: seq<Session>, s: Session): seq<Session> {
    Unfiled(queue, s.id) + [Stored(queue, s)]
  }

  lemma {:induction false} UnfiledIs(queue: seq<Session>, id: Id)
    requires DistinctIds(queue)
    ensures DistinctIds(Unfiled(queue, id))
    ensures forall x: Id :: Holds(Unfiled(queue, id), x) <==> Holds(queue, x) && x != id
    ensures |Unfiled(queue, id)| == |queue| - (if Holds(queue, id) then 1 else 0)
  {
    if queue == [] {
    } else {
      var rest, kept := queue[1..], Unfiled(queue[1..], id);
      UnfiledIs(rest, id);
      forall x: Id ensures Holds(queue, x) <==> x == queue[0].id || Holds(rest, x) {
        if Holds(rest, x) { var i :| 0 <= i < |rest| && rest[i].id == x; assert queue[i + 1].id == x; }
        if Holds(queue, x) && x != queue[0].id {
          var i :| 0 <= i < |queue| && queue[i].id == x;
          assert rest[i - 1].id == x;
        }
      }
      assert !Holds(rest, queue[0].id) by {
        forall i | 0 <= i < |rest| ensures rest[i].id != queue[0].id { assert queue[i + 1] == rest[i]; }
      }
      if queue[0].id != id {
        var all := [queue[0]] + kept;
        forall x: Id ensures Holds(all, x) <==> x == queue[0].id || Holds(kept, x) {
          if Holds(kept, x) { var i :| 0 <= i < |kept| && kept[i].id == x; assert all[i + 1].id == x; }
          assert x == queue[0].id ==> all[0].id == x;
        }
        forall i | 0 <= i < |kept| ensures kept[i].id != queue[0].id { assert Holds(kept, kept[i].id); }
      }
    }
  }

  lemma AppendIs(queue: seq<Session>, s: Session)
    requires DistinctIds(queue)
    ensures var q := Append(queue, s);
            && DistinctIds(q)
            && (forall x: Id :: Holds(q, x) <==> Holds(queue, x) || x == s.id)
            && |q| == |queue| + (if Holds(queue, s.id) then 0 else 1)
            && q[|q| - 1].id == s.id
  {
    UnfiledIs(queue, s.id);
    StoredId(queue, s);
    var w, q := Unfiled(queue, s.id), Append(queue, s);
    forall i | 0 <= i < |w| ensures w[i].id != s.id { assert Holds(w, w[i].id); }
    forall x: Id ensures Holds(q, x) <==> Holds(w, x) || x == s.id {
      if Holds(w, x) { var i :| 0 <= i < |w| && w[i].id == x; assert q[i].id == x; }
      assert x == s.id ==> q[|w|].id == x;
    }
  }

  lemma {:induction false} StoredId(queue: seq<Session>, s: Session)
    ensures Stored(queue, s).id == s.id
  {
    if queue == [] {
    } else {
      StoredId(queue[1..], s);
    }
  }

  // ----- The operations -----

  function QueueOf(c: Cache, key: Key): seq<Session> {
    if key in c.sessions then c.sessions[key] else []
  }

  function Insert(c: Cache, capacity: nat, key: Key, s: Session): Cache {
    var queue := QueueOf(c, key);
    var full := |queue| >= capacity && queue != [];
    var queue' := if full then queue[1..] else queue;
    var reverse := if full then c.reverse - {queue[0].id} else c.reverse;
    Cache(c.sessions[key := Append(queue', s)], reverse[s.id := key])
  }

  function Remove(c: Cache, id: Id): Cache {
    if id !in c.reverse then c
    else
      var key := c.reverse[id];
      var reverse := c.reverse - {id};
      if key !in c.sessions then c.(reverse := reverse)
      else
        var queue := Unfiled(c.sessions[key], id);
        Cache(if queue == [] then c.sessions - {key} else c.sessions[key := queue], reverse)
  }

  function Get(c: Cache, key: Key): (Option<Session>, Cache) {
    if QueueOf(c, key) == [] then (None, c)
    else
      var s := c.sessions[key][0];
      (Some(s), if s.tls13 then Remove(c, s.id) else c)
  }

  // ----- Which session comes next -----

  lemma {:induction false} UnfiledAt(queue: seq<Session>, n: nat)
    requires DistinctIds(queue) && n < |queue|
    ensures Unfiled(queue, queue[n].id) == queue[..n] + queue[n + 1..]
  {
    var rest, id := queue[1..], queue[n].id;
    if n == 0 {
      UnfiledNothing(rest, id);
    } else {
      UnfiledAt(rest, n - 1);
      assert queue[..n] == [queue[0]] + rest[..n - 1] && rest[n..] == queue[n + 1..];
    }
  }

  lemma {:induction false} UnfiledNothing(queue: seq<Session>, id: Id)
    requires forall i :: 0 <= i < |queue| ==> queue[i].id != id
    ensures Unfiled(queue, id) == queue
  {
    if queue == [] {
    } else {
      UnfiledNothing(queue[1..], id);
      assert queue == [queue[0]] + queue[1..];
    }
  }

  /** `get` returns the oldest session of the key, if there is one. A session that is not TLS 1.3 stays where it is and
      comes first again; a TLS 1.3 session that is filed under the key leaves, and the next one comes first. */
  lemma GetReturnsOldest(c: Cache, capacity: nat, key: Key)
    requires QueuesOk(c, capacity)
    ensures var (got, d) := Get(c, key);
            if key !in c.sessions then got.None? && d == c
            else
              && got == Some(c.sessions[key][0])
              && (!got.value.tls13 ==> d == c)
              && (got.value.tls13 && Listed(c, key, got.value.id) ==>
                    && QueueOf(d, key) == c.sessions[key][1..] && d.sessions - {key} == c.sessions - {key}
                    && d.reverse == c.reverse - {got.value.id})
  {
    if key in c.sessions {
      UnfiledAt(c.sessions[key], 0);
    }
  }

  /** A removal closes the gap and keeps the order; nothing else moves. */
  lemma RemoveIsExact(c: Cache, capacity: nat, key: Key, n: nat)
    requires QueuesOk(c, capacity) && key in c.sessions && n < |c.sessions[key]|
    requires Listed(c, key, c.sessions[key][n].id)
    ensures var queue := c.sessions[key];
            var d := Remove(c, queue[n].id);
            && QueueOf(d, key) == queue[..n] + queue[n + 1..]
            && (key in d.sessions <==> |queue| > 1)
            && d.sessions - {key} == c.sessions - {key} && d.reverse == c.reverse - {queue[n].id}
  {
    UnfiledAt(c.sessions[key], n);
  }

  /** An insert puts a new session last and, in a full queue, pushes the oldest out of both indexes. */
  lemma InsertIsExact(c: Cache, capacity: nat, key: Key, s: Session)
    requires forall i :: 0 <= i < |QueueOf(c, key)| ==> QueueOf(c, key)[i].id != s.id
    ensures var queue, d := QueueOf(c, key), Insert(c, capacity, key, s);
            var full := |queue| >= capacity && queue != [];
            && QueueOf(d, key) == (if full then queue[1..] else queue) + [s]
            && d.sessions - {key} == c.sessions - {key}
            && d.reverse == (if full then c.reverse - {queue[0].id} else c.reverse)[s.id := key]
  {
    var queue := QueueOf(c, key);
    FreshGoesLast(queue, s);
    if queue != [] {
      FreshGoesLast(queue[1..], s);
    }
  }

  /** An insert of an id that the queue still has once its oldest has gone keeps the session stored for it, and moves
      it to the end. */
  lemma InsertAgainMovesLast(c: Cache, capacity: nat, key: Key, s: Session, n: nat)
    requires QueuesOk(c, capacity) && n < |QueueOf(c, key)| && QueueOf(c, key)[n].id == s.id
    requires |QueueOf(c, key)| >= capacity ==> n > 0
    ensures var queue, d := QueueOf(c, key), Insert(c, capacity, key, s);
            && QueueOf(d, key) == queue[if |queue| >= capacity then 1 else 0..n] + queue[n + 1..] + [queue[n]]
            && d.sessions - {key} == c.sessions - {key}
            && d.reverse == (if |queue| >= capacity then c.reverse - {queue[0].id} else c.reverse)[s.id := key]
  {
    var queue := QueueOf(c, key);
    var m := if |queue| >= capacity then 1 else 0;
    var kept := queue[m..];
    assert DistinctIds(kept) && kept[n - m] == queue[n];
    UnfiledAt(kept, n - m);
    StoredIs(kept, s, n - m);
    assert kept[..n - m] == queue[m..n] && kept[n - m + 1..] == queue[n + 1..];
    assert queue[0..] == queue;
  }

  lemma {:induction false} StoredIs(queue: seq<Session>, s: Session, n: nat)
    requires DistinctIds(queue) && n < |queue| && queue[n].id == s.id
    ensures Stored(queue, s) == queue[n]
  {
    if n == 0 {
    } else {
      StoredIs(queue[1..], s, n - 1);
    }
  }

  // ----- The two indexes agree -----

  ghost predicate Stores(c: Cache, key: Key, id: Id) {
    key in c.sessions && Holds(c.sessions[key], id)
  }

  ghost predicate Listed(c: Cache, key: Key, id: Id) {
    id in c.reverse && c.reverse[id] == key
  }

  ghost predicate QueuesOk(c: Cache, capacity: nat) {
    forall k :: k in c.sessions ==>
                  DistinctIds(c.sessions[k]) && 0 < |c.sessions[k]| <= if capacity > 0 then capacity else 1
  }

  /** The indexes are exact inverses, and every queue is non-empty and within its bound. */
  ghost predicate Consistent(c: Cache, capacity: nat) {
    QueuesOk(c, capacity) && forall k: Key, id: Id :: Stores(c, k, id) <==> Listed(c, k, id)
  }

  lemma TailHolds(queue: seq<Session>)
    requires queue != [] && DistinctIds(queue)
    ensures DistinctIds(queue[1..])
    ensures forall x: Id :: Holds(queue[1..], x) <==> Holds(queue, x) && x != queue[0].id
  {
    UnfiledIs(queue, queue[0].id);
    var rest := queue[1..];
    forall x: Id ensures Holds(rest, x) <==> Holds(queue, x) && x != queue[0].id {
      if Holds(rest, x) { var i :| 0 <= i < |rest| && rest[i].id == x; assert queue[i + 1].id == x; }
      if Holds(queue, x) && x != queue[0].id {
        var i :| 0 <= i < |queue| && queue[i].id == x;
        assert rest[i - 1].id == x;
      }
    }
  }

  lemma InsertQueues(c: Cache, capacity: nat, key: Key, s: Session)
    requires QueuesOk(c, capacity)
    ensures QueuesOk(Insert(c, capacity, key, s), capacity)
    ensures var queue, full := QueueOf(c, key), |QueueOf(c, key)| >= capacity && QueueOf(c, key) != [];
            forall k: Key, x: Id ::
              Stores(Insert(c, capacity, key, s), k, x) <==>
              if k == key then x == s.id || (Stores(c, k, x) && !(full && x == queue[0].id)) else Stores(c, k, x)
  {
    var queue := QueueOf(c, key);
    if queue != [] {
      TailHolds(queue);
      AppendIs(queue[1..], s);
    }
    AppendIs(queue, s);
    var d := Insert(c, capacity, key, s);
    forall k: Key, x: Id
      ensures Stores(d, k, x) <==> if k == key then Holds(d.sessions[key], x) else Stores(c, k, x)
    {
    }
    assert forall x: Id :: Holds(queue, x) <==> Stores(c, key, x);
  }

  /** Inserting keeps the indexes inverse exactly when the id is not filed under another key. */
  lemma InsertConsistentIff(c: Cache, capacity: nat, key: Key, s: Session)
    requires Consistent(c, capacity)
    ensures Consistent(Insert(c, capacity, key, s), capacity) <==> (s.id in c.reverse ==> c.reverse[s.id] == key)
  {
    InsertQueues(c, capacity, key, s);
    var d := Insert(c, capacity, key, s);
    if s.id in c.reverse && c.reverse[s.id] != key {
      assert Stores(c, c.reverse[s.id], s.id);
      assert Stores(d, c.reverse[s.id], s.id) && !Listed(d, c.reverse[s.id], s.id);
    } else {
      var queue := QueueOf(c, key);
      assert queue != [] ==> Holds(queue, queue[0].id) && Stores(c, key, queue[0].id);
      forall k: Key, x: Id ensures Stores(d, k, x) <==> Listed(d, k, x) {
        assert Stores(c, k, x) <==> Listed(c, k, x);
      }
    }
  }

  /** A removal takes the id from the key that the reverse index names for it, and from no other. */
  lemma RemoveTakes(c: Cache, capacity: nat, id: Id)
    requires QueuesOk(c, capacity)
    ensures QueuesOk(Remove(c, id), capacity)
    ensures forall k: Key, x: Id ::
              Stores(Remove(c, id), k, x) <==> Stores(c, k, x) && !(x == id && Listed(c, k, x))
    ensures Remove(c, id).reverse == c.reverse - {id}
  {
    var d := Remove(c, id);
    if id in c.reverse && c.reverse[id] in c.sessions {
      var key := c.reverse[id];
      UnfiledIs(c.sessions[key], id);
      var queue := Unfiled(c.sessions[key], id);
      forall k: Key, x: Id ensures Stores(d, k, x) <==> Stores(c, k, x) && !(x == id && Listed(c, k, x)) {
        assert queue == [] ==> !Holds(queue, x);
      }
    } else {
      assert forall k: Key :: Listed(c, k, id) ==> !Stores(c, k, id);
    }
  }

  lemma RemoveConsistent(c: Cache, capacity: nat, id: Id)
    requires Consistent(c, capacity)
    ensures Consistent(Remove(c, id), capacity)
    ensures forall k: Key, x: Id :: Stores(Remove(c, id), k, x) <==> Stores(c, k, x) && x != id
  {
    var d := Remove(c, id);
    RemoveTakes(c, capacity, id);
    assert forall k: Key, x: Id :: Listed(d, k, x) <==> Listed(c, k, x) && x != id;
    forall k: Key, x: Id ensures Stores(d, k, x) <==> Stores(c, k, x) && x != id {
      assert Stores(c, k, x) <==> Listed(c, k, x);
    }
  }

  // ----- Runs -----

  datatype Op = DoInsert(key: Key, session: Session) | DoGet(key: Key) | DoRemove(id: Id)

  function Apply(c: Cache, capacity: nat, op: Op): Cache {
    match op
    case DoInsert(key, s) => Insert(c, capacity, key, s)
    case DoGet(key) => Get(c, key).1
    case DoRemove(id) => Remove(c, id)
  }

  function After(c: Cache, capacity: nat, ops: seq<Op>): Cache
    decreases |ops|
  {
    if ops == [] then c else After(Apply(c, capacity, ops[0]), capacity, ops[1..])
  }

  /** No session id is inserted under two keys: each id has one owner. */
  ghost predicate OneOwner(ops: seq<Op>, owner: Id -> Key) {
    forall i :: 0 <= i < |ops| && ops[i].DoInsert? ==> owner(ops[i].session.id) == ops[i].key
  }

  /** An insert of an id that is filed under another key at that time. */
  ghost predicate Refiles(c: Cache, op: Op) {
    op.DoInsert? && op.session.id in c.reverse && c.reverse[op.session.id] != op.key
  }

  ghost predicate NeverRefiles(c: Cache, capacity: nat, ops: seq<Op>)
    decreases |ops|
  {
    ops == [] || (!Refiles(c, ops[0]) && NeverRefiles(Apply(c, capacity, ops[0]), capacity, ops[1..]))
  }

  ghost predicate StaysConsistent(c: Cache, capacity: nat, ops: seq<Op>)
    decreases |ops|
  {
    Consistent(c, capacity) && (ops == [] || StaysConsistent(Apply(c, capacity, ops[0]), capacity, ops[1..]))
  }

  lemma StepConsistentIff(c: Cache, capacity: nat, op: Op)
    requires Consistent(c, capacity)
    ensures Consistent(Apply(c, capacity, op), capacity) <==> !Refiles(c, op)
  {
    match op
    case DoInsert(key, s) => InsertConsistentIff(c, capacity, key, s);
    case DoGet(key) => if QueueOf(c, key) != [] { RemoveConsistent(c, capacity, c.sessions[key][0].id); }
    case DoRemove(id) => RemoveConsistent(c, capacity, id);
  }

  /** Over a whole run the indexes are inverse at every point exactly when no insert files an id away
      from another key. */
  lemma {:induction false} StaysInverseIff(c: Cache, capacity: nat, ops: seq<Op>)
    requires Consistent(c, capacity)
    ensures StaysConsistent(c, capacity, ops) <==> NeverRefiles(c, capacity, ops)
    decreases |ops|
  {
    if ops == [] {
    } else {
      StepConsistentIff(c, capacity, ops[0]);
      if !Refiles(c, ops[0]) {
        StaysInverseIff(Apply(c, capacity, ops[0]), capacity, ops[1..]);
      }
    }
  }

  lemma {:induction false} OneOwnerNeverRefiles(c: Cache, capacity: nat, ops: seq<Op>, owner: Id -> Key)
    requires OneOwner(ops, owner) && forall id :: id in c.reverse ==> owner(id) == c.reverse[id]
    ensures NeverRefiles(c, capacity, ops)
    decreases |ops|
  {
    if ops == [] {
    } else {
      OneOwnerNeverRefiles(Apply(c, capacity, ops[0]), capacity, ops[1..], owner);
    }
  }

  /** With one owner for each id, any sequence of operations leaves the indexes exact inverses. */
  lemma IndexesStayInverse(capacity: nat, ops: seq<Op>, owner: Id -> Key)
    requires OneOwner(ops, owner)
    ensures var c := After(EMPTY, capacity, ops);
            && (forall k: Key, id: Id :: Stores(c, k, id) <==> Listed(c, k, id))
            && (forall k :: k in c.sessions ==> 0 < |c.sessions[k]| <= if capacity > 0 then capacity else 1)
  {
    OneOwnerNeverRefiles(EMPTY, capacity, ops, owner);
    StaysInverseIff(EMPTY, capacity, ops);
    EndConsistent(EMPTY, capacity, ops);
  }

  // ----- A session is used once -----

  /** Queues are non-empty, within their bound and without repeats in every run, whatever the indexes say. */
  lemma StepKeepsQueues(c: Cache, capacity: nat, op: Op)
    requires QueuesOk(c, capacity)
    ensures QueuesOk(Apply(c, capacity, op), capacity)
  {
    match op
    case DoInsert(key, s) => InsertQueues(c, capacity, key, s);
    case DoGet(key) => if QueueOf(c, key) != [] { RemoveTakes(c, capacity, c.sessions[key][0].id); }
    case DoRemove(id) => RemoveTakes(c, capacity, id);
  }

  lemma {:induction false} RunKeepsQueues(c: Cache, capacity: nat, ops: seq<Op>)
    requires QueuesOk(c, capacity)
    ensures QueuesOk(After(c, capacity, ops), capacity)
    decreases |ops|
  {
    if ops == [] {
    } else {
      StepKeepsQueues(c, capacity, ops[0]);
      RunKeepsQueues(Apply(c, capacity, ops[0]), capacity, ops[1..]);
    }
  }

  ghost predicate Nowhere(c: Cache, id: Id) {
    forall k: Key :: !Stores(c, k, id)
  }

  ghost predicate Inserts(op: Op, id: Id) {
    op.DoInsert? && op.session.id == id
  }

  ghost predicate NeverInserts(ops: seq<Op>, id: Id) {
    forall i :: 0 <= i < |ops| ==> !Inserts(ops[i], id)
  }

  lemma AbsentStep(c: Cache, capacity: nat, op: Op, id: Id)
    requires QueuesOk(c, capacity) && Nowhere(c, id) && !Inserts(op, id)
    ensures Nowhere(Apply(c, capacity, op), id)
  {
    match op
    case DoInsert(key, s) => InsertQueues(c, capacity, key, s);
    case DoGet(key) => if QueueOf(c, key) != [] { RemoveTakes(c, capacity, c.sessions[key][0].id); }
    case DoRemove(x) => RemoveTakes(c, capacity, x);
  }

  /** A session that is nowhere stays so until it is inserted again. */
  lemma {:induction false} AbsentStaysAbsent(c: Cache, capacity: nat, ops: seq<Op>, id: Id)
    requires QueuesOk(c, capacity) && Nowhere(c, id) && NeverInserts(ops, id)
    ensures Nowhere(After(c, capacity, ops), id)
    decreases |ops|
  {
    if ops == [] {
    } else {
      AbsentStep(c, capacity, ops[0], id);
      StepKeepsQueues(c, capacity, ops[0]);
      AbsentStaysAbsent(Apply(c, capacity, ops[0]), capacity, ops[1..], id);
    }
  }

  /** `get` hands out a session with this id. */
  predicate Returns(c: Cache, key: Key, id: Id) {
    Get(c, key).0.Some? && Get(c, key).0.value.id == id
  }

  /** Whatever is done to the cache short of inserting the id, no `get` under any key returns it. */
  ghost predicate NeverAgain(c: Cache, capacity: nat, id: Id) {
    forall ops: seq<Op>, k: Key :: NeverInserts(ops, id) ==> !Returns(After(c, capacity, ops), k, id)
  }

  lemma AbsentNeverAgain(c: Cache, capacity: nat, id: Id)
    requires QueuesOk(c, capacity) && Nowhere(c, id)
    ensures NeverAgain(c, capacity, id)
  {
    forall ops: seq<Op>, k: Key | NeverInserts(ops, id) ensures !Returns(After(c, capacity, ops), k, id) {
      AbsentStaysAbsent(c, capacity, ops, id);
      var d := After(c, capacity, ops);
      if Returns(d, k, id) {
        assert d.sessions[k][0].id == id;
        assert Stores(d, k, id);
      }
    }
  }

  /** An id that no session of the queue has. */
  lemma {:induction false} FreshId(queue: seq<Session>) returns (id: Id)
    ensures forall i :: 0 <= i < |queue| ==> queue[i].id < id
  {
    if queue == [] {
      id := 0;
    } else {
      id := FreshId(queue[1..]);
      id := if queue[0].id < id then id else queue[0].id + 1;
      assert forall i :: 1 <= i < |queue| ==> queue[i] == queue[1..][i - 1];
    }
  }

  lemma {:induction false} FreshGoesLast(queue: seq<Session>, s: Session)
    requires forall i :: 0 <= i < |queue| ==> queue[i].id != s.id
    ensures Unfiled(queue, s.id) == queue && Stored(queue, s) == s && Append(queue, s) == queue + [s]
  {
    if queue == [] {
    } else {
      FreshGoesLast(queue[1..], s);
      assert queue == [queue[0]] + queue[1..];
    }
  }

  /** A session that is still in some queue can be had again: fresh ids push it to the front. */
  lemma {:induction false} StoredComesAgain(c: Cache, capacity: nat, k: Key, n: nat) returns (ops: seq<Op>)
    requires k in c.sessions && n < |c.sessions[k]|
    ensures NeverInserts(ops, c.sessions[k][n].id)
    ensures Returns(After(c, capacity, ops), k, c.sessions[k][n].id)
    decreases n, if |c.sessions[k]| < capacity then capacity - |c.sessions[k]| else 0
  {
    var queue := c.sessions[k];
    if n == 0 {
      ops := [];
    } else {
      var x := FreshId(queue);
      var op := DoInsert(k, Session(x, true));
      var d, full := Apply(c, capacity, op), |queue| >= capacity;
      var kept := if full then queue[1..] else queue;
      FreshGoesLast(kept, Session(x, true));
      assert d.sessions[k] == kept + [Session(x, true)];
      ops := StoredComesAgain(d, capacity, k, if full then n - 1 else n);
      assert ([op] + ops)[1..] == ops;
      ops := [op] + ops;
    }
  }

  /** The session is filed under this key and stored under no other. */
  ghost predicate OnlyUnder(c: Cache, key: Key, id: Id) {
    Listed(c, key, id) && forall k: Key :: k != key ==> !Stores(c, k, id)
  }

  /** Appendix C.4 of RFC 8446, exactly: a TLS 1.3 session that `get` has returned is never returned again without
      a new insert if and only if, at the time of that `get`, it was filed under that key and stored under no other. */
  lemma UsedOnceIff(c: Cache, capacity: nat, key: Key)
    requires QueuesOk(c, capacity) && Get(c, key).0.Some? && Get(c, key).0.value.tls13
    ensures var id := Get(c, key).0.value.id;
            NeverAgain(Get(c, key).1, capacity, id) <==> OnlyUnder(c, key, id)
  {
    var id := Get(c, key).0.value.id;
    var d := Remove(c, id);
    RemoveTakes(c, capacity, id);
    assert Holds(c.sessions[key], id) && Stores(c, key, id);
    if OnlyUnder(c, key, id) {
      assert Nowhere(d, id);
      AbsentNeverAgain(d, capacity, id);
    } else {
      var k: Key :| Stores(c, k, id) && !Listed(c, k, id) by {
        if Listed(c, key, id) {
          var other: Key :| other != key && Stores(c, other, id);
          assert !Listed(c, other, id);
        }
      }
      assert Stores(d, k, id);
      var n: nat :| n < |d.sessions[k]| && d.sessions[k][n].id == id;
      var ops := StoredComesAgain(d, capacity, k, n);
      assert NeverInserts(ops, id) && Returns(After(d, capacity, ops), k, id);
    }
  }

  /** The same of every cache that a run can reach, with no condition on the run. */
  lemma UsedOnceInRunsIff(capacity: nat, before: seq<Op>, key: Key)
    requires var got := Get(After(EMPTY, capacity, before), key).0; got.Some? && got.value.tls13
    ensures var c := After(EMPTY, capacity, before);
            var id := Get(c, key).0.value.id;
            NeverAgain(Get(c, key).1, capacity, id) <==> OnlyUnder(c, key, id)
  {
    RunKeepsQueues(EMPTY, capacity, before);
    UsedOnceIff(After(EMPTY, capacity, before), capacity, key);
  }

  lemma {:induction false} EndConsistent(c: Cache, capacity: nat, ops: seq<Op>)
    requires StaysConsistent(c, capacity, ops)
    ensures Consistent(After(c, capacity, ops), capacity)
    decreases |ops|
  {
    if ops == [] {
    } else {
      EndConsistent(Apply(c, capacity, ops[0]), capacity, ops[1..]);
    }
  }

  /** So if no insert has filed an id away from another key, every session returned is used once, whatever follows. */
  lemma Tls13SessionUsedOnce(capacity: nat, before: seq<Op>, key: Key)
    requires NeverRefiles(EMPTY, capacity, before)
    requires var got := Get(After(EMPTY, capacity, before), key).0; got.Some? && got.value.tls13
    ensures var c := After(EMPTY, capacity, before);
            NeverAgain(Get(c, key).1, capacity, Get(c, key).0.value.id)
  {
    var c := After(EMPTY, capacity, before);
    var id := Get(c, key).0.value.id;
    StaysInverseIff(EMPTY, capacity, before);
    EndConsistent(EMPTY, capacity, before);
    assert Holds(c.sessions[key], id) && Stores(c, key, id);
    assert forall k: Key :: Stores(c, k, id) <==> Listed(c, k, id);
    UsedOnceIff(c, capacity, key);
  }

  /** Where the condition of `UsedOnceIff` fails: an id filed under two keys and evicted from one can be had
      for ever from the other. */
  lemma SameIdUnderTwoKeys()
    ensures var s := Session(5, true);
            var c := After(EMPTY, 1, [DoInsert(1, s), DoInsert(2, s), DoInsert(1, Session(6, true))]);
            Get(c, 2) == (Some(s), c)
  {
    var s, t := Session(5, true), Session(6, true);
    var c1, c2 := Insert(EMPTY, 1, 1, s), Insert(Insert(EMPTY, 1, 1, s), 1, 2, s);
    assert c1 == Cache(map[1 := [s]], map[5 := 1]) by { assert Append([], s) == [s]; }
    assert c2 == Cache(map[1 := [s], 2 := [s]], map[5 := 2]) by { assert Append([], s) == [s]; }
    var c3 := Insert(c2, 1, 1, t);
    assert c3 == Cache(map[1 := [t], 2 := [s]], map[6 := 1]) by { assert [s][1..] == [] && Append([], t) == [t]; }
    var ops := [DoInsert(1, s), DoInsert(2, s), DoInsert(1, t)];
    assert ops[1..] == [DoInsert(2, s), DoInsert(1, t)] && ops[1..][1..] == [DoInsert(1, t)];
    assert After(c2, 1, [DoInsert(1, t)]) == c3;
    assert After(c1, 1, ops[1..]) == c3;
  }
}

/** The cache itself, with the two maps that its methods update. */
module SessionCache {
  import opened Wrappers
  import Spec = SessionState
  import opened SessionState

  class SessionCache {
    var sessions: map<Key, seq<Session>>
    var reverse: map<Id, Key>
    const capacity: nat

    constructor (capacity: nat)
      ensures this.capacity == capacity && Value() == EMPTY
    {
      this.capacity := capacity;
      sessions, reverse := map[], map[];
    }

    function Value(): Cache
      reads this
    {
      Cache(sessions, reverse)
    }

    method Insert(key: Key, session: Session)
      modifies this
      ensures Value() == Spec.Insert(old(Value()), capacity, key, session)
    {
      var queue := if key in sessions then sessions[key] else [];
      if |queue| >= capacity {
        if queue != [] {
          reverse := reverse - {queue[0].id};
          queue := queue[1..];
        }
      }
      sessions := sessions[key := Append(queue, session)];
      reverse := reverse[session.id := key];
    }

    method Get(key: Key) returns (found: Option<Session>)
      modifies this
      ensures (found, Value()) == Spec.Get(old(Value()), key)
    {
      if key !in sessions || sessions[key] == [] {
        return None;
      }
      var session := sessions[key][0];
      if session.tls13 {
        Remove(session.id);
      }
      found := Some(session);
    }

    method Remove(id: Id)
      modifies this
      ensures Value() == Spec.Remove(old(Value()), id)
    {
      if id !in reverse {
        return;
      }
      var key := reverse[id];
      reverse := reverse - {id};
      if key in sessions {
        var queue := Unfiled(sessions[key], id);
        sessions := if queue == [] then sessions - {key} else sessions[key := queue];
      }
    }
  }
}
