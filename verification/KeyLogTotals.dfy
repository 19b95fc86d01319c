/** What all reports of the key counters add up to. */
module KeyLogTotals {
  import opened PyDict
  import opened KeyLog
  import opened KeyLogRuns

  /** How many of the lines are failures, or how many are not. */
  function Kind(lines: seq<Line>, failures: bool): nat {
    if lines == [] then 0
    else
      var n := |lines| - 1;
      Kind(lines[..n], failures) + if lines[n].Fail? == failures then 1 else 0
  }

  /** Those of them that have no entry. */
  function MissingOf(lines: seq<Line>, l: Log, failures: bool): nat {
    if lines == [] then 0
    else
      var n := |lines| - 1;
      MissingOf(lines[..n], l, failures) + if lines[n].Fail? == failures && !Present(l, KeyOf(lines[n])) then 1 else 0
  }

  lemma {:induction false} KindSplit(lines: seq<Line>, l: Log)
    ensures forall f :: Kind(lines, f) == Kept(lines, l, f) + MissingOf(lines, l, f)
    ensures Missing(lines, l) == MissingOf(lines, l, true) + MissingOf(lines, l, false)
  {
    if lines != [] {
      KindSplit(lines[..|lines| - 1], l);
    }
  }

  lemma {:induction false} KindAppend(a: seq<Line>, b: seq<Line>, failures: bool)
    ensures Kind(a + b, failures) == Kind(a, failures) + Kind(b, failures)
  {
    if b == [] {
      assert a + b == a;
    } else {
      assert (a + b)[..|a + b| - 1] == a + b[..|b| - 1];
      KindAppend(a, b[..|b| - 1], failures);
    }
  }

  function Failures(fs: seq<Failure>): nat {
    if fs == [] then 0 else Failures(fs[..|fs| - 1]) + fs[|fs| - 1].n
  }

  lemma {:induction false} FailuresOf(d: Dict<Who, Failure>)
    ensures Failures(Vals(d)) == Sum(d)
  {
    if d != [] {
      FailuresOf(d[..|d| - 1]);
      assert Vals(d)[..|d| - 1] == Vals(d[..|d| - 1]);
    }
  }

  /** Failure lines that found no room. */
  function Unrecorded(lines: seq<Line>, cap: nat, failures: bool): nat {
    MissingOf(lines, AddLines(EMPTY, lines, cap), failures)
  }

  /** One report on some lines: its counts are the failure lines that found room, and what it says was dropped is
      the lines of both kinds that did not. */
  lemma OneReport(lines: seq<Line>, cap: nat)
    ensures var t := Take(AddLines(EMPTY, lines, cap));
            && Failures(t.fails) + Unrecorded(lines, cap, true) == Kind(lines, true)
            && t.dropped == Unrecorded(lines, cap, true) + Unrecorded(lines, cap, false)
  {
    var l := AddLines(EMPTY, lines, cap);
    FailuresOf(l.fails);
    SumIsKept(lines, cap);
    DroppedExactly(lines, cap);
    KindSplit(lines, l);
  }

  /** The reports that were delivered. */
  function Reports(polls: seq<Poll>, cap: nat): seq<Taken> {
    if polls == [] then []
    else
      var n := |polls| - 1;
      Reports(polls[..n], cap) + if polls[n].delivered then [Take(AddLines(After(polls[..n], cap), polls[n].lines, cap))] else []
  }

  function DeliveredFailures(ts: seq<Taken>): nat {
    if ts == [] then 0 else DeliveredFailures(ts[..|ts| - 1]) + Failures(ts[|ts| - 1].fails)
  }

  function DeliveredDropped(ts: seq<Taken>): nat {
    if ts == [] then 0 else DeliveredDropped(ts[..|ts| - 1]) + ts[|ts| - 1].dropped
  }

  function AllUnrecorded(batches: seq<seq<Line>>, cap: nat, failures: bool): nat {
    if batches == [] then 0
    else AllUnrecorded(batches[..|batches| - 1], cap, failures) + Unrecorded(batches[|batches| - 1], cap, failures)
  }

  lemma {:induction false} DeliveredTotals(polls: seq<Poll>, cap: nat)
    ensures DeliveredFailures(Reports(polls, cap)) + AllUnrecorded(Covered(polls), cap, true) == Kind(Join(Covered(polls)), true)
    ensures DeliveredDropped(Reports(polls, cap))
            == AllUnrecorded(Covered(polls), cap, true) + AllUnrecorded(Covered(polls), cap, false)
  {
    if polls != [] {
      var n := |polls| - 1;
      DeliveredTotals(polls[..n], cap);
      if polls[n].delivered {
        var batch := Since(polls[..n]) + polls[n].lines;
        ReportCounts(polls[..n], polls[n].lines, cap);
        OneReport(batch, cap);
        Appended(Reports(polls[..n], cap), Take(AddLines(EMPTY, batch, cap)), Covered(polls[..n]), batch, cap);
        KindAppend(Join(Covered(polls[..n])), batch, true);
      } else {
        assert Reports(polls, cap) == Reports(polls[..n], cap) && Covered(polls) == Covered(polls[..n]);
      }
    }
  }

  lemma Appended(ts: seq<Taken>, t: Taken, batches: seq<seq<Line>>, b: seq<Line>, cap: nat)
    ensures DeliveredFailures(ts + [t]) == DeliveredFailures(ts) + Failures(t.fails)
    ensures DeliveredDropped(ts + [t]) == DeliveredDropped(ts) + t.dropped
    ensures forall f :: AllUnrecorded(batches + [b], cap, f) == AllUnrecorded(batches, cap, f) + Unrecorded(b, cap, f)
    ensures Join(batches + [b]) == Join(batches) + b
  {
    assert (ts + [t])[..|ts|] == ts && (batches + [b])[..|batches|] == batches;
  }

  /** Over every run, whatever deliveries fail: the failure lines found are exactly the failures counted in
      delivered reports, those counted and pending, and those that found no room; and what delivered reports
      and the pending one say was dropped is exactly the lines of both kinds that found no room. */
  lemma RunTotals(polls: seq<Poll>, cap: nat)
    ensures var l, unrecorded := After(polls, cap), Covered(polls) + [Since(polls)];
            && Kind(AllLines(polls), true)
               == DeliveredFailures(Reports(polls, cap)) + Sum(l.fails) + AllUnrecorded(unrecorded, cap, true)
            && DeliveredDropped(Reports(polls, cap)) + l.dropped
               == AllUnrecorded(unrecorded, cap, true) + AllUnrecorded(unrecorded, cap, false)
  {
    DeliveredTotals(polls, cap);
    FailedPollsInvisible(polls, cap);
    OneReport(Since(polls), cap);
    FailuresOf(After(polls, cap).fails);
    LinesCoveredOnce(polls);
    KindAppend(Join(Covered(polls)), Since(polls), true);
    Appended([], Take(EMPTY), Covered(polls), Since(polls), cap);
  }
}
