/** What every interleaving of the handler threads with one forwarder keeps. */
module EventRuns {
  import opened Integers
  import opened Wrappers
  import opened PyDict
  import opened EventQueue

  /** A report together with the queue key it was accepted under. */
  type Slot = Item<Key, Event>

  /** A POST under way: the snapshot it carries. */
  datatype Flight = Flight(batch: Queue, drops: Counters)

  /** The shared state plus everything that has happened so far. */
  datatype World = World(
    pipe: Pipe,
    flight: Option<Flight>,
    accepted: seq<Slot>,     // in the order of acceptance
    delivered: seq<Slot>,    // carried by successful POSTs, in the order of the POSTs
    retired: set<Slot>,      // taken out of the queue because they were delivered
    superseded: set<Slot>,   // heartbeats replaced by a newer one of the same ID
    evicted: seq<Slot>,      // pushed out by the capacity
    raised: Counters,        // every increment of a drop counter
    reported: Counters)      // the drop counts of successful POSTs

  datatype Step =
    | Accept(heartbeat: bool, id: string)
    | Drop(k: DropKey)
    | FlushBegin
    | FlushOk
    | FlushFail

  const START := World(EMPTY_PIPE, None, [], [], {}, {}, [], NO_DROPS, NO_DROPS)

  function Removed(before: Queue, after: Queue): set<Slot> {
    set it | it in before && it !in after
  }

  function Accepted(w: World, ev: Event, cap: int): World {
    var q := Coalesced(w.pipe.queue, ev);
    var k := Excess(|q|, cap);
    w.(pipe := Enqueued(w.pipe, ev, cap),
       accepted := w.accepted + [Item(KeyOf(w.pipe, ev), ev)],
       superseded := w.superseded + Removed(w.pipe.queue, q),
       evicted := w.evicted + q[..k],
       raised := w.raised.(overflow := w.raised.overflow + k))
  }

  function Dropped(w: World, k: DropKey): World {
    w.(pipe := w.pipe.(dropped := Plus(w.pipe.dropped, One(k))), raised := Plus(w.raised, One(k)))
  }

  function Begun(w: World, flushBatch: int): World {
    var batch := Snapshot(w.pipe.queue, flushBatch);
    if batch == [] && w.pipe.dropped == NO_DROPS then w
    else w.(flight := Some(Flight(batch, w.pipe.dropped)))
  }

  function Delivered(w: World): World
    requires w.flight.Some?
  {
    var Flight(batch, drops) := w.flight.value;
    var q := Without(w.pipe.queue, batch);
    w.(pipe := w.pipe.(queue := q, dropped := Deducted(w.pipe.dropped, drops)),
       flight := None,
       delivered := w.delivered + batch,
       retired := w.retired + Removed(w.pipe.queue, q),
       reported := Plus(w.reported, drops))
  }

  /** A step that is not possible in `w` changes nothing. */
  function Do(w: World, s: Step, cap: int, flushBatch: int): World {
    match s
    case Accept(heartbeat, id) => Accepted(w, Event(|w.accepted|, heartbeat, id), cap)
    case Drop(k) => if k == QueueOverflow then w else Dropped(w, k)  // counted by Enqueued only
    case FlushBegin => if w.flight.Some? then w else Begun(w, flushBatch)
    case FlushOk => if w.flight.None? then w else Delivered(w)
    case FlushFail => w.(flight := None)
  }

  function Run(w: World, steps: seq<Step>, cap: int, flushBatch: int): World
    decreases |steps|
  {
    if steps == [] then w else Run(Do(w, steps[0], cap, flushBatch), steps[1..], cap, flushBatch)
  }

  // ---- the invariant ----

  /** Strictly increasing order of acceptance; in particular no slot occurs twice. */
  ghost predicate Increasing(s: seq<Slot>) {
    forall i, j :: 0 <= i < j < |s| ==> s[i].val.ident < s[j].val.ident
  }

  ghost predicate AllBefore(s: seq<Slot>, t: seq<Slot>) {
    forall x, y :: x in s && y in t ==> x.val.ident < y.val.ident
  }

  ghost predicate Numbered(accepted: seq<Slot>) {
    forall i :: 0 <= i < |accepted| ==> accepted[i].val.ident == i
  }

  ghost predicate ProperKey(it: Slot, nextSeq: nat) {
    if it.val.heartbeat then it.key == Hb(it.val.id) else it.key.Ev? && it.key.seqNo < nextSeq
  }

  ghost predicate ProperQueue(p: Pipe, cap: int) {
    && UniqueKeys(p.queue)
    && |p.queue| <= Max(1, cap)
    && Increasing(p.queue)
    && forall it :: it in p.queue ==> ProperKey(it, p.nextSeq)
  }

  /** `n` is a heartbeat accepted after `it` from the same ID. */
  ghost predicate Newer(n: Slot, it: Slot) {
    n.val.heartbeat && it.val.heartbeat && n.val.id == it.val.id && it.val.ident < n.val.ident
  }

  /** A pending heartbeat is the newest one its ID has sent. */
  ghost predicate Latest(w: World) {
    forall it, n :: it in w.pipe.queue && n in w.accepted ==> !Newer(n, it)
  }

  ghost predicate Replaced(w: World, it: Slot) {
    exists n :: n in w.accepted && Newer(n, it)
  }

  ghost predicate AllReplaced(w: World) {
    forall it :: it in w.superseded ==> Replaced(w, it)
  }

  /** Every accepted event has exactly one fate. */
  ghost predicate Partition(w: World) {
    && (forall it :: it in w.accepted <==>
          it in w.pipe.queue || it in w.retired || it in w.superseded || it in w.evicted)
    && (forall it :: it in w.pipe.queue ==> it !in w.retired && it !in w.superseded && it !in w.evicted)
    && (forall it :: it in w.retired ==> it !in w.superseded && it !in w.evicted)
    && (forall it :: it in w.superseded ==> it !in w.evicted)
  }

  ghost predicate Delivery(w: World) {
    && Increasing(w.delivered)
    && AllBefore(w.delivered, w.pipe.queue)
    && (forall it :: it in w.retired ==> it in w.delivered)
    && (forall it :: it in w.delivered ==> it in w.retired || it in w.superseded || it in w.evicted)
  }

  ghost predicate InFlight(w: World) {
    w.flight.Some? ==>
      var Flight(batch, drops) := w.flight.value;
      && Increasing(batch)
      && AllBefore(w.delivered, batch)
      && (forall it :: it in batch ==> it in w.pipe.queue || it in w.superseded || it in w.evicted)
      && (forall it, b :: it in w.pipe.queue && b in batch && it !in batch ==> b.val.ident < it.val.ident)
      && AtMost(drops, w.pipe.dropped)
  }

  ghost predicate Counting(w: World) {
    && w.raised == Plus(w.reported, w.pipe.dropped)
    && AtMost(NO_DROPS, w.pipe.dropped)
    && w.raised.overflow == |w.evicted|
  }

  ghost predicate Eviction(w: World) {
    Increasing(w.evicted) && AllBefore(w.evicted, w.pipe.queue)
  }

  ghost predicate Inv(w: World, cap: int) {
    && Numbered(w.accepted)
    && ProperQueue(w.pipe, cap)
    && Latest(w)
    && Partition(w)
    && AllReplaced(w)
    && Eviction(w)
    && Delivery(w)
    && InFlight(w)
    && Counting(w)
  }

  // ---- accepting an event ----

  lemma CoalescedIncreasing(q: Queue, ev: Event)
    requires Increasing(q)
    ensures Increasing(Coalesced(q, ev))
  {
  }

  lemma Split(q: Queue, k: nat)
    requires k <= |q|
    ensures forall it :: it in q <==> it in q[..k] || it in q[k..]
    ensures Increasing(q) ==> Increasing(q[..k]) && Increasing(q[k..]) && AllBefore(q[..k], q[k..])
  {
    assert q == q[..k] + q[k..];
  }

  /** The key of a new event is never in the queue any more, so it goes to the end. */
  lemma EnqueuedShape(p: Pipe, ev: Event, cap: int)
    requires ProperQueue(p, cap)
    ensures var q := Coalesced(p.queue, ev);
            Enqueued(p, ev, cap).queue == q[Excess(|q|, cap)..] + [Item(KeyOf(p, ev), ev)]
    ensures forall it :: it in Coalesced(p.queue, ev) <==> it in p.queue && it.key != KeyOf(p, ev)
  {
    PopItems(p.queue, Hb(ev.id));
    var q := Coalesced(p.queue, ev);
    var k := Excess(|q|, cap);
    Split(q, k);
    PutAbsent(q[k..], KeyOf(p, ev), ev);
  }

  lemma AcceptQueue(p: Pipe, ev: Event, cap: int)
    requires ProperQueue(p, cap) && forall it :: it in p.queue ==> it.val.ident < ev.ident
    ensures ProperQueue(Enqueued(p, ev, cap), cap)
  {
    EnqueuedUnique(p, ev, cap);
    EnqueuedShape(p, ev, cap);
    CoalescedIncreasing(p.queue, ev);
    var q := Coalesced(p.queue, ev);
    AppendIncreasing(q, Excess(|q|, cap), Item(KeyOf(p, ev), ev));
  }

  lemma AppendIncreasing(q: Queue, k: nat, s: Slot)
    requires Increasing(q) && k <= |q| && forall it :: it in q ==> it.val.ident < s.val.ident
    ensures Increasing(q[k..] + [s])
  {
    assert forall i :: k <= i < |q| ==> q[i] in q;
  }

  /** Where every slot of the old queue goes when `ev` is accepted. */
  lemma AcceptItems(w: World, ev: Event, cap: int)
    requires Inv(w, cap) && ev.ident == |w.accepted|
    ensures var s: Slot := Item(KeyOf(w.pipe, ev), ev);
            var q := Coalesced(w.pipe.queue, ev);
            var k := Excess(|q|, cap);
            && (forall it :: it in w.accepted ==> it.val.ident < ev.ident)
            && (forall it :: it in Accepted(w, ev, cap).pipe.queue <==> it in q[k..] || it == s)
            && (forall it :: it in q <==> it in q[..k] || it in q[k..])
            && (forall it :: it in w.pipe.queue <==> it in q || it in Removed(w.pipe.queue, q))
            && (forall it :: it in Removed(w.pipe.queue, q) ==> it !in q && it.key == s.key && ev.heartbeat)
            && Increasing(q[..k]) && AllBefore(q[..k], q[k..])
  {
    EnqueuedShape(w.pipe, ev, cap);
    CoalescedIncreasing(w.pipe.queue, ev);
    var q := Coalesced(w.pipe.queue, ev);
    Split(q, Excess(|q|, cap));
  }

  lemma AcceptPartition(w: World, ev: Event, cap: int)
    requires Inv(w, cap) && ev.ident == |w.accepted|
    ensures Partition(Accepted(w, ev, cap))
  {
    AcceptItems(w, ev, cap);
    var q := Coalesced(w.pipe.queue, ev);
    PartitionNext(w, Accepted(w, ev, cap), q[..Excess(|q|, cap)], q[Excess(|q|, cap)..], Removed(w.pipe.queue, q),
                  Item(KeyOf(w.pipe, ev), ev));
  }

  /** A new slot joins the queue while some of the old ones are pushed out and some are replaced. */
  lemma PartitionNext(w: World, u: World, out: seq<Slot>, rest: seq<Slot>, gone: set<Slot>, s: Slot)
    requires Partition(w) && s !in w.accepted
    requires forall it :: it in w.pipe.queue <==> it in out || it in rest || it in gone
    requires forall it :: it in out ==> it !in rest && it !in gone
    requires forall it :: it in rest ==> it !in gone
    requires forall it :: it in u.pipe.queue <==> it in rest || it == s
    requires u.accepted == w.accepted + [s] && u.retired == w.retired
    requires u.superseded == w.superseded + gone && u.evicted == w.evicted + out
    ensures Partition(u)
  {
  }

  lemma AcceptLatest(w: World, ev: Event, cap: int)
    requires Inv(w, cap) && ev.ident == |w.accepted|
    ensures Latest(Accepted(w, ev, cap)) && AllReplaced(Accepted(w, ev, cap))
  {
    AcceptItems(w, ev, cap);
    EnqueuedShape(w.pipe, ev, cap);
    var s: Slot := Item(KeyOf(w.pipe, ev), ev);
    var w' := Accepted(w, ev, cap);
    assert s in w'.accepted;
    forall it | it in w'.superseded ensures Replaced(w', it) {
      if it in w.superseded {
        var n :| n in w.accepted && Newer(n, it);
        assert n in w'.accepted;
      } else {
        assert Newer(s, it);
      }
    }
  }

  lemma AcceptEviction(w: World, ev: Event, cap: int)
    requires Inv(w, cap) && ev.ident == |w.accepted|
    ensures Eviction(Accepted(w, ev, cap))
  {
    AcceptItems(w, ev, cap);
  }

  lemma AcceptDelivery(w: World, ev: Event, cap: int)
    requires Inv(w, cap) && ev.ident == |w.accepted|
    ensures Delivery(Accepted(w, ev, cap))
  {
    AcceptItems(w, ev, cap);
  }

  lemma AcceptInFlight(w: World, ev: Event, cap: int)
    requires Inv(w, cap) && ev.ident == |w.accepted|
    ensures InFlight(Accepted(w, ev, cap))
  {
    AcceptItems(w, ev, cap);
  }

  lemma AcceptBookkeeping(w: World, ev: Event, cap: int)
    requires Inv(w, cap) && ev.ident == |w.accepted|
    ensures Numbered(Accepted(w, ev, cap).accepted) && Counting(Accepted(w, ev, cap))
    ensures forall it :: it in w.pipe.queue ==> it.val.ident < ev.ident
  {
  }

  lemma AcceptStep(w: World, ev: Event, cap: int)
    requires Inv(w, cap) && ev.ident == |w.accepted|
    ensures Inv(Accepted(w, ev, cap), cap)
  {
    AcceptBookkeeping(w, ev, cap);
    AcceptQueue(w.pipe, ev, cap);
    AcceptPartition(w, ev, cap);
    AcceptLatest(w, ev, cap);
    AcceptEviction(w, ev, cap);
    AcceptDelivery(w, ev, cap);
    AcceptInFlight(w, ev, cap);
  }

  // ---- the forwarder ----

  lemma IncreasingCons(x: Slot, s: seq<Slot>)
    requires Increasing(s) && forall it :: it in s ==> x.val.ident < it.val.ident
    ensures Increasing([x] + s)
  {
  }

  lemma {:induction false} WithoutIncreasing(q: Queue, batch: Queue)
    requires Increasing(q)
    ensures Increasing(Without(q, batch)) && |Without(q, batch)| <= |q|
  {
    if q != [] {
      WithoutIncreasing(q[1..], batch);
      WithoutItems(q[1..], batch);
      IncreasingCons(q[0], Without(q[1..], batch));
    }
  }

  lemma BeginStep(w: World, cap: int, flushBatch: int)
    requires Inv(w, cap) && w.flight.None?
    ensures Inv(Begun(w, flushBatch), cap)
  {
    var n := |Snapshot(w.pipe.queue, flushBatch)|;
    assert Snapshot(w.pipe.queue, flushBatch) == w.pipe.queue[..n];
    Split(w.pipe.queue, n);
  }

  lemma DeliverQueue(w: World, cap: int)
    requires Inv(w, cap) && w.flight.Some?
    ensures ProperQueue(Delivered(w).pipe, cap) && Latest(Delivered(w))
    ensures forall it :: it in Delivered(w).pipe.queue <==> it in w.pipe.queue && it !in w.flight.value.batch
  {
    WithoutItems(w.pipe.queue, w.flight.value.batch);
    WithoutUnique(w.pipe.queue, w.flight.value.batch);
    WithoutIncreasing(w.pipe.queue, w.flight.value.batch);
  }

  lemma DeliverFates(w: World, cap: int)
    requires Inv(w, cap) && w.flight.Some?
    ensures Partition(Delivered(w)) && AllReplaced(Delivered(w)) && Eviction(Delivered(w))
  {
    DeliverQueue(w, cap);
  }

  lemma DeliverDelivery(w: World, cap: int)
    requires Inv(w, cap) && w.flight.Some?
    ensures Delivery(Delivered(w))
  {
    DeliverQueue(w, cap);
  }

  lemma DeliverBookkeeping(w: World, cap: int)
    requires Inv(w, cap) && w.flight.Some?
    ensures Numbered(Delivered(w).accepted) && InFlight(Delivered(w)) && Counting(Delivered(w))
  {
  }

  lemma DeliverStep(w: World, cap: int)
    requires Inv(w, cap) && w.flight.Some?
    ensures Inv(Delivered(w), cap)
  {
    DeliverQueue(w, cap);
    DeliverFates(w, cap);
    DeliverDelivery(w, cap);
    DeliverBookkeeping(w, cap);
  }

  lemma InvStep(w: World, s: Step, cap: int, flushBatch: int)
    requires Inv(w, cap)
    ensures Inv(Do(w, s, cap, flushBatch), cap)
  {
    match s
    case Accept(heartbeat, id) => AcceptStep(w, Event(|w.accepted|, heartbeat, id), cap);
    case Drop(k) =>
    case FlushBegin => if w.flight.None? { BeginStep(w, cap, flushBatch); }
    case FlushOk => if w.flight.Some? { DeliverStep(w, cap); }
    case FlushFail =>
  }

  lemma {:induction false} InvRun(w: World, steps: seq<Step>, cap: int, flushBatch: int)
    requires Inv(w, cap)
    ensures Inv(Run(w, steps, cap, flushBatch), cap)
    decreases |steps|
  {
    if steps != [] {
      InvStep(w, steps[0], cap, flushBatch);
      InvRun(Do(w, steps[0], cap, flushBatch), steps[1..], cap, flushBatch);
    }
  }

  lemma StartInv(cap: int)
    ensures Inv(START, cap)
  {
    EmptyInv(START, cap);
  }

  lemma EmptyInv(w: World, cap: int)
    requires w.pipe.queue == w.accepted == w.delivered == w.evicted == [] && w.retired == w.superseded == {}
    requires w.flight == None && w.raised == w.reported == w.pipe.dropped == NO_DROPS
    ensures Inv(w, cap)
  {
  }

  ghost predicate Reachable(w: World, cap: int, flushBatch: int) {
    exists steps :: w == Run(START, steps, cap, flushBatch)
  }

  lemma ReachableInv(w: World, cap: int, flushBatch: int)
    requires Reachable(w, cap, flushBatch)
    ensures Inv(w, cap)
  {
    var steps :| w == Run(START, steps, cap, flushBatch);
    StartInv(cap);
    InvRun(START, steps, cap, flushBatch);
  }

  // ---- main results, over every reachable world ----

  /** No event is silently lost: each accepted one is pending, delivered, replaced by a newer
      heartbeat of its ID, or evicted and counted; and it leaves the queue in one way only. */
  lemma NoEventLost(w: World, cap: int, flushBatch: int)
    requires Reachable(w, cap, flushBatch)
    ensures forall it :: it in w.accepted ==>
              it in w.pipe.queue || it in w.delivered || Replaced(w, it) || it in w.evicted
    ensures Partition(w)
    ensures w.raised.overflow == |w.evicted|
  {
    ReachableInv(w, cap, flushBatch);
  }

  /** Deliveries follow the order of acceptance and no event is delivered twice; what is pending is
      newer than everything delivered. */
  lemma DeliveredInOrder(w: World, cap: int, flushBatch: int)
    requires Reachable(w, cap, flushBatch)
    ensures Increasing(w.delivered)
    ensures AllBefore(w.delivered, w.pipe.queue)
    ensures forall it :: it in w.delivered ==> it in w.accepted
  {
    ReachableInv(w, cap, flushBatch);
  }

  /** The queue stays within its capacity and holds, for each ID, at most its newest heartbeat. */
  lemma QueueBounded(w: World, cap: int, flushBatch: int)
    requires Reachable(w, cap, flushBatch)
    ensures |w.pipe.queue| <= Max(1, cap)
    ensures Latest(w)
    ensures forall i, j :: 0 <= i < j < |w.pipe.queue| ==>
              !(w.pipe.queue[i].val.heartbeat && w.pipe.queue[j].val.heartbeat
                && w.pipe.queue[i].val.id == w.pipe.queue[j].val.id)
  {
    ReachableInv(w, cap, flushBatch);
    var q := w.pipe.queue;
    forall i, j | 0 <= i < j < |q| ensures !(q[i].val.heartbeat && q[j].val.heartbeat && q[i].val.id == q[j].val.id) {
      assert q[i] in q && q[j] in q;
      assert ProperKey(q[i], w.pipe.nextSeq);
    }
  }

  /** Drop counters are conserved: what was raised is what was reported plus what is still held, and
      the floor at zero after a POST never changes a counter. */
  lemma DropsConserved(w: World, cap: int, flushBatch: int)
    requires Reachable(w, cap, flushBatch)
    ensures w.raised == Plus(w.reported, w.pipe.dropped)
    ensures AtMost(NO_DROPS, w.pipe.dropped)
    ensures w.flight.Some? ==> Plus(Delivered(w).pipe.dropped, w.flight.value.drops) == w.pipe.dropped
  {
    ReachableInv(w, cap, flushBatch);
  }

  /** An event can be evicted while the POST that carries it is under way, and is then both counted
      as lost and delivered. */
  lemma EvictedYetDelivered()
    ensures var w := Run(START, [Accept(false, "a"), FlushBegin, Accept(false, "b"), FlushOk], 1, 1);
            w.delivered == w.evicted && |w.evicted| == 1 && |w.pipe.queue| == 1
  {
    var a: Slot := Item(Ev(0), Event(0, false, "a"));
    var b: Slot := Item(Ev(1), Event(1, false, "b"));
    var w2 := Begin(a);
    var w4 := Evict(w2, a, b);
    RunTwo(START, Accept(false, "a"), FlushBegin, [Accept(false, "b"), FlushOk], 1, 1);
    RunTwo(w2, Accept(false, "b"), FlushOk, [], 1, 1);
    assert Run(w4, [], 1, 1) == w4;
  }

  lemma Begin(a: Slot) returns (w: World)
    requires a == Item(Ev(0), Event(0, false, "a"))
    ensures w == Do(Do(START, Accept(false, "a"), 1, 1), FlushBegin, 1, 1)
    ensures w.pipe.queue == [a] && |w.accepted| == 1 && w.evicted == [] && w.delivered == []
    ensures w.pipe.nextSeq == 1 && w.flight == Some(Flight([a], NO_DROPS))
  {
    var u := Do(START, Accept(false, "a"), 1, 1);
    assert u.pipe.queue == [a];
    w := Do(u, FlushBegin, 1, 1);
  }

  lemma Evict(w: World, a: Slot, b: Slot) returns (v: World)
    requires w.pipe.queue == [a] && |w.accepted| == 1 && w.evicted == [] && w.delivered == []
    requires w.pipe.nextSeq == 1 && w.flight == Some(Flight([a], NO_DROPS))
    requires a == Item(Ev(0), Event(0, false, "a")) && b == Item(Ev(1), Event(1, false, "b"))
    ensures v == Do(Do(w, Accept(false, "b"), 1, 1), FlushOk, 1, 1)
    ensures v.pipe.queue == [b] && v.delivered == [a] == v.evicted
  {
    var u := Do(w, Accept(false, "b"), 1, 1);
    assert u.pipe.queue == [b] && u.evicted == [a];
    assert Without([b], [a]) == [b] + Without([], [a]);
    v := Do(u, FlushOk, 1, 1);
  }

  lemma RunTwo(w: World, s: Step, t: Step, steps: seq<Step>, cap: int, flushBatch: int)
    ensures Run(w, [s, t] + steps, cap, flushBatch)
            == Run(Do(Do(w, s, cap, flushBatch), t, cap, flushBatch), steps, cap, flushBatch)
  {
    assert ([s, t] + steps)[1..] == [t] + steps && ([t] + steps)[1..] == steps;
  }
}
