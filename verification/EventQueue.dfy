/** The RustDesk agent's forwarding queue (agent/jt_ipam_rustdesk_agent.py): HTTP handler threads
    enqueue reports under a lock while one forwarder takes a snapshot, releases the lock for the POST
    and afterwards removes what it delivered. */
module EventQueue {
  import opened Integers
  import opened Wrappers
  import opened PyDict

  /** A report.  `ident` stands for the identity of the dict object that a handler has just built:
      reports are numbered in the order in which they are accepted. */
  datatype Event = Event(ident: nat, heartbeat: bool, id: string)

  datatype Key = Hb(id: string) | Ev(seqNo: nat)

  datatype DropKey = Unverified | RateLimited | BadRequest | QueueOverflow

  type Queue = Dict<Key, Event>

  /** The four drop counters: a dict whose keys never change. */
  datatype Counters = Counters(unverified: int, rateLimited: int, badRequest: int, overflow: int)

  const NO_DROPS := Counters(0, 0, 0, 0)

  function Plus(a: Counters, b: Counters): Counters {
    Counters(a.unverified + b.unverified, a.rateLimited + b.rateLimited,
             a.badRequest + b.badRequest, a.overflow + b.overflow)
  }

  predicate AtMost(a: Counters, b: Counters) {
    a.unverified <= b.unverified && a.rateLimited <= b.rateLimited &&
    a.badRequest <= b.badRequest && a.overflow <= b.overflow
  }

  // ---- what each critical section does to the shared state ----

  datatype Pipe = Pipe(queue: Queue, nextSeq: nat, dropped: Counters)

  const EMPTY_PIPE := Pipe([], 0, NO_DROPS)

  function KeyOf(p: Pipe, ev: Event): Key {
    if ev.heartbeat then Hb(ev.id) else Ev(p.nextSeq)
  }

  /** The queue once an older heartbeat of the same ID has been taken out. */
  function Coalesced(q: Queue, ev: Event): Queue {
    if ev.heartbeat then Pop(q, Hb(ev.id)) else q
  }

  /** How many of the oldest entries must go so that one more fits. */
  function Excess(n: nat, cap: int): (k: nat)
    ensures k <= n
  {
    if n >= Max(1, cap) then n - Max(1, cap) + 1 else 0
  }

  function Enqueued(p: Pipe, ev: Event, cap: int): Pipe {
    var q := Coalesced(p.queue, ev);
    var k := Excess(|q|, cap);
    Pipe(Put(q[k..], KeyOf(p, ev), ev),
         if ev.heartbeat then p.nextSeq else p.nextSeq + 1,
         p.dropped.(overflow := p.dropped.overflow + k))
  }

  function One(k: DropKey): Counters {
    match k
    case Unverified => NO_DROPS.(unverified := 1)
    case RateLimited => NO_DROPS.(rateLimited := 1)
    case BadRequest => NO_DROPS.(badRequest := 1)
    case QueueOverflow => NO_DROPS.(overflow := 1)
  }

  function Snapshot(q: Queue, flushBatch: int): Queue {
    if |q| <= Max(1, flushBatch) then q else q[..Max(1, flushBatch)]
  }

  /** The entries of `q` that are not (the very same objects) in `batch`. */
  function Without(q: Queue, batch: Queue): Queue {
    if q == [] then []
    else (if q[0] in batch then [] else [q[0]]) + Without(q[1..], batch)
  }

  /** `max(0, current - sent)` for every counter. */
  function Deducted(c: Counters, sent: Counters): Counters {
    Counters(Max(0, c.unverified - sent.unverified), Max(0, c.rateLimited - sent.rateLimited),
             Max(0, c.badRequest - sent.badRequest), Max(0, c.overflow - sent.overflow))
  }

  lemma {:induction false} WithoutItems(q: Queue, batch: Queue)
    ensures forall it :: it in Without(q, batch) <==> it in q && it !in batch
  {
    if q != [] {
      WithoutItems(q[1..], batch);
      assert q == [q[0]] + q[1..];
    }
  }

  lemma {:induction false} WithoutUnique(q: Queue, batch: Queue)
    requires UniqueKeys(q)
    ensures UniqueKeys(Without(q, batch))
  {
    if q != [] {
      assert forall it :: it in q[1..] ==> it.key != q[0].key;
      WithoutUnique(q[1..], batch);
      WithoutItems(q[1..], batch);
    }
  }

  /** `r` with the object `it` taken out if it is the one under its key. */
  function Removing(r: Queue, it: Item<Key, Event>): Queue {
    if Get(r, it.key) == Some(it.val) then Pop(r, it.key) else r
  }

  /** One round of the removal loop: drop the key if the queue still holds that object. */
  lemma {:induction false} WithoutStep(q: Queue, batch: Queue, it: Item<Key, Event>)
    requires UniqueKeys(q)
    ensures Without(q, batch + [it]) == Removing(Without(q, batch), it)
  {
    if q != [] {
      WithoutStep(q[1..], batch, it);
      WithoutItems(q[1..], batch);
      var r := Without(q[1..], batch);
      if q[0].key == it.key {
        assert forall x :: x in r ==> x.key != it.key;
        AbsentKey(r, it.key);
      }
      WithoutMore(q, batch, it);
      RemoveCons(q[0], q[0] in batch, r, it, Without(q[1..], batch + [it]));
    }
  }

  lemma RemoveCons(x: Item<Key, Event>, gone: bool, r: Queue, it: Item<Key, Event>, more: Queue)
    requires more == Removing(r, it) && (x.key == it.key ==> Get(r, it.key) == None)
    ensures Removing((if gone then [] else [x]) + r, it) == (if gone || x == it then [] else [x]) + more
  {
    PopCons(x, r, it.key);
    assert [] + r == r && [] + more == more;
  }

  lemma WithoutMore(q: Queue, batch: Queue, it: Item<Key, Event>)
    requires q != []
    ensures Without(q, batch + [it])
            == (if q[0] in batch || q[0] == it then [] else [q[0]]) + Without(q[1..], batch + [it])
  {
    assert q[0] in batch + [it] <==> q[0] in batch || q[0] == it;
  }

  lemma {:induction false} WithoutNothing(q: Queue)
    ensures Without(q, []) == q
  {
    if q != [] {
      WithoutNothing(q[1..]);
    }
  }

  lemma {:induction false} WithoutDisjoint(q: Queue, batch: Queue)
    requires forall it :: it in q ==> it !in batch
    ensures Without(q, batch) == q
  {
    if q != [] {
      WithoutDisjoint(q[1..], batch);
    }
  }

  lemma {:induction false} WithoutAll(q: Queue, batch: Queue, rest: Queue)
    requires forall it :: it in q ==> it in batch
    ensures Without(q + rest, batch) == Without(rest, batch)
  {
    if q == [] {
      assert q + rest == rest;
    } else {
      assert (q + rest)[1..] == q[1..] + rest;
      WithoutAll(q[1..], batch, rest);
    }
  }

  /** Removing a snapshot of an untouched queue leaves what came after the snapshot. */
  lemma WithoutPrefix(q: Queue, n: nat)
    requires UniqueKeys(q) && n <= |q|
    ensures Without(q, q[..n]) == q[n..]
  {
    assert q[..n] + q[n..] == q;
    WithoutAll(q[..n], q[..n], q[n..]);
    WithoutDisjoint(q[n..], q[..n]);
  }

  lemma EnqueuedUnique(p: Pipe, ev: Event, cap: int)
    requires UniqueKeys(p.queue)
    ensures UniqueKeys(Enqueued(p, ev, cap).queue)
  {
    PopItems(p.queue, Hb(ev.id));
    var q := Coalesced(p.queue, ev);
    PutUnique(q[Excess(|q|, cap)..], KeyOf(p, ev), ev);
  }

  // ---- the pipeline object: one method per critical section ----

  lemma BatchMoves(before: Queue, batch: Queue, after: Queue, sent: Queue)
    requires UniqueKeys(before) && batch <= before && after == Without(before, batch)
    ensures (sent + batch) + after == sent + before && |after| == |before| - |batch|
  {
    WithoutPrefix(before, |batch|);
    assert batch == before[..|batch|] && before == batch + before[|batch|..];
  }

  class Forwarder {
    const cap: int
    const flushBatch: int
    var queue: Queue
    var nextSeq: nat
    var dropped: Counters

    constructor (cap: int, flushBatch: int)
      ensures this.cap == cap && this.flushBatch == flushBatch
      ensures State() == EMPTY_PIPE && Valid()
    {
      this.cap, this.flushBatch := cap, flushBatch;
      queue, nextSeq, dropped := [], 0, NO_DROPS;
    }

    ghost function State(): Pipe
      reads this
    {
      Pipe(queue, nextSeq, dropped)
    }

    ghost predicate Valid()
      reads this
    {
      UniqueKeys(queue)
    }

    method Enqueue(ev: Event)
      requires Valid()
      modifies this
      ensures Valid() && State() == Enqueued(old(State()), ev, cap)
    {
      var key;
      if ev.heartbeat {
        key := Hb(ev.id);
        queue := Pop(queue, key);
      } else {
        key := Ev(nextSeq);
        nextSeq := nextSeq + 1;
      }
      ghost var q := queue;
      ghost var k: nat := 0;
      assert q == Coalesced(old(queue), ev) && q[0..] == q;
      while queue != [] && |queue| >= Max(1, cap)
        invariant k <= Excess(|q|, cap) && queue == q[k..]
        invariant dropped == old(dropped).(overflow := old(dropped).overflow + k)
        invariant nextSeq == (if ev.heartbeat then old(nextSeq) else old(nextSeq) + 1)
        decreases |queue|
      {
        queue := queue[1..];
        dropped := dropped.(overflow := dropped.overflow + 1);
        k := k + 1;
      }
      assert k == Excess(|q|, cap);
      EnqueuedUnique(old(State()), ev, cap);
      queue := Put(queue, key, ev);
    }

    method Count(k: DropKey)
      requires Valid()
      modifies this`dropped
      ensures Valid() && dropped == Plus(old(dropped), One(k))
      ensures dropped == match k
                         case Unverified => old(dropped).(unverified := old(dropped).unverified + 1)
                         case RateLimited => old(dropped).(rateLimited := old(dropped).rateLimited + 1)
                         case BadRequest => old(dropped).(badRequest := old(dropped).badRequest + 1)
                         case QueueOverflow => old(dropped).(overflow := old(dropped).overflow + 1)
    {
      match k
      case Unverified => dropped := dropped.(unverified := dropped.unverified + 1);
      case RateLimited => dropped := dropped.(rateLimited := dropped.rateLimited + 1);
      case BadRequest => dropped := dropped.(badRequest := dropped.badRequest + 1);
      case QueueOverflow => dropped := dropped.(overflow := dropped.overflow + 1);
    }

    /** First critical section of a forwarding round: what the next POST will carry. */
    method FlushBegin() returns (batch: Queue, drops: Counters)
      ensures batch == Snapshot(queue, flushBatch) && drops == dropped
      ensures batch <= queue && |batch| == if |queue| <= Max(1, flushBatch) then |queue| else Max(1, flushBatch)
    {
      batch := if |queue| <= Max(1, flushBatch) then queue else queue[..Max(1, flushBatch)];
      drops := dropped;
    }

    /** Second critical section, after a POST that succeeded. */
    method FlushEnd(batch: Queue, drops: Counters) returns (more: bool)
      requires Valid()
      modifies this`queue, this`dropped
      ensures Valid()
      ensures queue == Without(old(queue), batch)
      ensures dropped == Deducted(old(dropped), drops)
      ensures more <==> queue != []
    {
      WithoutNothing(queue);
      for i := 0 to |batch|
        invariant UniqueKeys(queue) && queue == Without(old(queue), batch[..i])
        invariant dropped == old(dropped)
      {
        assert batch[..i + 1] == batch[..i] + [batch[i]];
        WithoutStep(old(queue), batch[..i], batch[i]);
        WithoutUnique(old(queue), batch[..i + 1]);
        if Get(queue, batch[i].key) == Some(batch[i].val) {
          queue := Pop(queue, batch[i].key);
        }
      }
      assert batch[..|batch|] == batch;
      dropped := Deducted(dropped, drops);
      more := queue != [];
    }

    /** The whole forwarding call with nobody else touching the queue.  `posts[n]` tells whether the
        n-th POST succeeds (a POST beyond the list fails).  Whatever the outcomes, what was sent
        followed by what is left is the old queue; true means everything went out. */
    method Flush(sourceKnown: bool, posts: seq<bool>) returns (done: bool, used: nat, sent: Queue)
      requires Valid()
      modifies this`queue, this`dropped
      ensures Valid()
      ensures sent + queue == old(queue)
      ensures done ==> queue == [] && dropped == NO_DROPS
      ensures !sourceKnown ==> !done && used == 0 && sent == [] && queue == old(queue) && dropped == old(dropped)
      ensures !done ==> !sourceKnown || (0 < used && (used <= |posts| ==> !posts[used - 1]))
      ensures used == 0 ==> dropped == old(dropped)
      ensures used <= |old(queue)| + 1
    {
      used, sent := 0, [];
      while true
        invariant UniqueKeys(queue)
        invariant sent + queue == old(queue)
        invariant used == 0 ==> dropped == old(dropped)
        invariant used <= |sent|
        invariant !sourceKnown ==> used == 0 && sent == []
        decreases |queue|
      {
        if !sourceKnown {
          return false, used, sent;
        }
        var batch, drops := FlushBegin();
        if batch == [] && drops == NO_DROPS {
          return true, used, sent;
        }
        used := used + 1;
        if |posts| < used || !posts[used - 1] {
          return false, used, sent;
        }
        ghost var before := queue;
        var more := FlushEnd(batch, drops);
        BatchMoves(before, batch, queue, sent);
        sent := sent + batch;
        if !more || |batch| < flushBatch {
          return true, used, sent;
        }
      }
    }
  }
}
