/** Events that leave the queue while the POST that carries them is under way: which of those counted as lost
    are lost. */
module EventFates {
  import opened EventQueue
  import opened EventRuns

  predicate InBatch(w: World, it: Slot) {
    w.flight.Some? && it in w.flight.value.batch
  }

  /** The POST under way, or the next one to end, ends with success. */
  predicate PostSucceeds(steps: seq<Step>)
    decreases |steps|
  {
    steps != [] && (steps[0].FlushOk? || (!steps[0].FlushFail? && PostSucceeds(steps[1..])))
  }

  /** What the event will have come to when the POST under way has ended. */
  predicate Destined(w: World, it: Slot, steps: seq<Step>) {
    it in w.delivered || (InBatch(w, it) && PostSucceeds(steps))
  }

  /** Nothing changes the destiny of an event that is no longer in the queue. */
  lemma DestinyStep(w: World, it: Slot, steps: seq<Step>, cap: int, flushBatch: int)
    requires steps != [] && Inv(w, cap) && it in w.accepted && it !in w.pipe.queue
    ensures var n := Do(w, steps[0], cap, flushBatch);
            && it in n.accepted && it !in n.pipe.queue
            && (Destined(n, it, steps[1..]) <==> Destined(w, it, steps))
  {
    match steps[0]
    case Accept(heartbeat, id) =>
      AcceptItems(w, Event(|w.accepted|, heartbeat, id), cap);
    case Drop(k) =>
    case FlushBegin =>
    case FlushOk =>
      if w.flight.Some? {
        WithoutItems(w.pipe.queue, w.flight.value.batch);
      }
    case FlushFail =>
  }

  lemma {:induction false} Destiny(w: World, it: Slot, steps: seq<Step>, cap: int, flushBatch: int)
    requires Inv(w, cap) && it in w.accepted && it !in w.pipe.queue
    ensures it in Run(w, steps, cap, flushBatch).delivered <==> Destined(w, it, steps)
    decreases |steps|
  {
    if steps != [] {
      DestinyStep(w, it, steps, cap, flushBatch);
      InvStep(w, steps[0], cap, flushBatch);
      Destiny(Do(w, steps[0], cap, flushBatch), it, steps[1..], cap, flushBatch);
    }
  }

  lemma {:induction false} RunSplit(w: World, steps: seq<Step>, k: nat, cap: int, flushBatch: int)
    requires k < |steps|
    ensures Run(w, steps, cap, flushBatch)
            == Run(Do(Run(w, steps[..k], cap, flushBatch), steps[k], cap, flushBatch), steps[k + 1..], cap, flushBatch)
    decreases k
  {
    if k > 0 {
      RunSplit(Do(w, steps[0], cap, flushBatch), steps[1..], k - 1, cap, flushBatch);
      assert steps[1..][..k - 1] == steps[..k][1..] && steps[1..][k..] == steps[k + 1..];
    }
  }

  /** In every run, an event that is pushed out of the queue, by the capacity or by a newer heartbeat, is
      delivered all the same exactly when the POST under way at that moment carries it and succeeds. */
  lemma PushedOutYetDelivered(steps: seq<Step>, k: nat, it: Slot, cap: int, flushBatch: int)
    requires k < |steps| && steps[k].Accept?
    requires var w := Run(START, steps[..k], cap, flushBatch);
             it in w.pipe.queue && it !in Do(w, steps[k], cap, flushBatch).pipe.queue
    ensures it in Run(START, steps, cap, flushBatch).delivered
            <==> InBatch(Run(START, steps[..k], cap, flushBatch), it) && PostSucceeds(steps[k + 1..])
  {
    var w := Run(START, steps[..k], cap, flushBatch);
    var n := Do(w, steps[k], cap, flushBatch);
    RunSplit(START, steps, k, cap, flushBatch);
    ReachableInv(w, cap, flushBatch);
    InvStep(w, steps[k], cap, flushBatch);
    assert it in w.accepted && it in n.accepted;
    Destiny(n, it, steps[k + 1..], cap, flushBatch);
  }

  // ---- how many are lost ----

  /** What the capacity pushes out in this step. */
  function PushedOut(w: World, s: Step, cap: int): seq<Slot> {
    if !s.Accept? then []
    else
      var q := Coalesced(w.pipe.queue, Event(|w.accepted|, s.heartbeat, s.id));
      q[..Excess(|q|, cap)]
  }

  function CountIn(s: seq<Slot>, t: seq<Slot>): nat {
    if s == [] then 0 else CountIn(s[..|s| - 1], t) + if s[|s| - 1] in t then 1 else 0
  }

  function Batch(w: World): seq<Slot> {
    if w.flight.Some? then w.flight.value.batch else []
  }

  /** How many of the events pushed out during the run were carried by a POST that succeeded. */
  function Rescued(w: World, steps: seq<Step>, cap: int, flushBatch: int): nat
    decreases |steps|
  {
    if steps == [] then 0
    else (if PostSucceeds(steps[1..]) then CountIn(PushedOut(w, steps[0], cap), Batch(w)) else 0)
         + Rescued(Do(w, steps[0], cap, flushBatch), steps[1..], cap, flushBatch)
  }

  function CountDestined(s: seq<Slot>, w: World, steps: seq<Step>): nat {
    if s == [] then 0
    else CountDestined(s[..|s| - 1], w, steps) + if Destined(w, s[|s| - 1], steps) then 1 else 0
  }

  lemma {:induction false} CountDestinedAppend(a: seq<Slot>, b: seq<Slot>, w: World, steps: seq<Step>)
    ensures CountDestined(a + b, w, steps) == CountDestined(a, w, steps) + CountDestined(b, w, steps)
  {
    if b == [] {
      assert a + b == a;
    } else {
      var n := |b| - 1;
      assert (a + b)[..|a + b| - 1] == a + b[..n];
      CountDestinedAppend(a, b[..n], w, steps);
    }
  }

  lemma {:induction false} CountDestinedSame(s: seq<Slot>, w: World, v: World, steps: seq<Step>, more: seq<Step>)
    requires forall it :: it in s ==> (Destined(w, it, steps) <==> Destined(v, it, more))
    ensures CountDestined(s, w, steps) == CountDestined(s, v, more)
  {
    if s != [] {
      CountDestinedSame(s[..|s| - 1], w, v, steps, more);
    }
  }

  lemma {:induction false} CountDestinedNow(s: seq<Slot>, w: World)
    ensures CountDestined(s, w, []) == CountIn(s, w.delivered)
  {
    if s != [] {
      CountDestinedNow(s[..|s| - 1], w);
    }
  }

  lemma {:induction false} CountDestinedFresh(s: seq<Slot>, w: World, steps: seq<Step>)
    requires forall it :: it in s ==> it !in w.delivered
    ensures CountDestined(s, w, steps) == if PostSucceeds(steps) then CountIn(s, Batch(w)) else 0
  {
    if s != [] {
      CountDestinedFresh(s[..|s| - 1], w, steps);
    }
  }

  lemma EvictedStep(w: World, s: Step, cap: int, flushBatch: int)
    requires Inv(w, cap)
    ensures var n := Do(w, s, cap, flushBatch);
            && n.evicted == w.evicted + PushedOut(w, s, cap)
            && (s.Accept? ==> n.delivered == w.delivered && Batch(n) == Batch(w))
            && forall it :: it in PushedOut(w, s, cap) ==> it in w.pipe.queue && it !in w.delivered
  {
    if s.Accept? {
      AcceptItems(w, Event(|w.accepted|, s.heartbeat, s.id), cap);
    } else {
      assert w.evicted + [] == w.evicted;
    }
  }

  lemma EvictedDestiny(w: World, steps: seq<Step>, cap: int, flushBatch: int)
    requires steps != [] && Inv(w, cap)
    ensures var n := Do(w, steps[0], cap, flushBatch);
            CountDestined(n.evicted, n, steps[1..])
            == CountDestined(w.evicted, w, steps)
               + if PostSucceeds(steps[1..]) then CountIn(PushedOut(w, steps[0], cap), Batch(w)) else 0
  {
    var s := steps[0];
    var n, out := Do(w, s, cap, flushBatch), PushedOut(w, s, cap);
    EvictedStep(w, s, cap, flushBatch);
    CountDestinedAppend(w.evicted, out, n, steps[1..]);
    forall it | it in w.evicted ensures Destined(n, it, steps[1..]) <==> Destined(w, it, steps) {
      DestinyStep(w, it, steps, cap, flushBatch);
    }
    CountDestinedSame(w.evicted, n, w, steps[1..], steps);
    CountDestinedFresh(out, n, steps[1..]);
  }

  lemma {:induction false} EvictedDelivered(w: World, steps: seq<Step>, cap: int, flushBatch: int)
    requires Inv(w, cap)
    ensures var r := Run(w, steps, cap, flushBatch);
            CountIn(r.evicted, r.delivered) == CountDestined(w.evicted, w, steps) + Rescued(w, steps, cap, flushBatch)
    decreases |steps|
  {
    if steps == [] {
      CountDestinedNow(w.evicted, w);
    } else {
      InvStep(w, steps[0], cap, flushBatch);
      EvictedDestiny(w, steps, cap, flushBatch);
      EvictedDelivered(Do(w, steps[0], cap, flushBatch), steps[1..], cap, flushBatch);
    }
  }

  /** The evicted events that no POST delivered. */
  function LostEvents(w: World): set<Slot> {
    set it | it in w.evicted && it !in w.delivered
  }

  lemma {:induction false} CountMissing(s: seq<Slot>, t: seq<Slot>)
    requires Increasing(s)
    ensures |set it | it in s && it !in t| == |s| - CountIn(s, t)
  {
    if s != [] {
      var n := |s| - 1;
      CountMissing(s[..n], t);
      MissingLast(s, n, t, set it | it in s[..n] && it !in t, set it | it in s && it !in t);
    }
  }

  lemma MissingLast(s: seq<Slot>, n: nat, t: seq<Slot>, a: set<Slot>, b: set<Slot>)
    requires Increasing(s) && |s| == n + 1
    requires a == (set it | it in s[..n] && it !in t) && b == set it | it in s && it !in t
    ensures |b| == if s[n] in t then |a| else |a| + 1
  {
    assert s == s[..n] + [s[n]];
    assert s[n] !in a;
    assert b == if s[n] in t then a else a + {s[n]};
  }

  lemma LostOf(w: World, cap: int, rescued: nat)
    requires Inv(w, cap) && CountIn(w.evicted, w.delivered) == rescued
    ensures |LostEvents(w)| == w.raised.overflow - rescued
  {
    CountMissing(w.evicted, w.delivered);
  }

  lemma LostFrom(w: World, steps: seq<Step>, cap: int, flushBatch: int)
    requires Inv(w, cap) && w.evicted == []
    ensures var r := Run(w, steps, cap, flushBatch);
            |LostEvents(r)| == r.raised.overflow - Rescued(w, steps, cap, flushBatch)
  {
    InvRun(w, steps, cap, flushBatch);
    EvictedDelivered(w, steps, cap, flushBatch);
    LostOf(Run(w, steps, cap, flushBatch), cap, Rescued(w, steps, cap, flushBatch));
  }

  /** After every run, the number of events lost is the overflow count less the events that were pushed out
      of the queue during a successful POST that carried them. */
  lemma LostCount(steps: seq<Step>, cap: int, flushBatch: int)
    ensures var w := Run(START, steps, cap, flushBatch);
            |LostEvents(w)| == w.raised.overflow - Rescued(START, steps, cap, flushBatch)
  {
    LostSinceStart(START, steps, cap, flushBatch);
  }

  lemma LostSinceStart(start: World, steps: seq<Step>, cap: int, flushBatch: int)
    requires start == START
    ensures var w := Run(start, steps, cap, flushBatch);
            |LostEvents(w)| == w.raised.overflow - Rescued(start, steps, cap, flushBatch)
  {
    assert Inv(start, cap) && start.evicted == [] by {
      StartInv(cap);
    }
    LostFrom(start, steps, cap, flushBatch);
  }
}
