/** What the planner's cursors guarantee over many cycles. */
module ScanCoverage {
  import opened Wrappers
  import opened Runs
  import opened ScanPlan

  // ---- one cursor over one list ----

  /** The stored position after scanning with these step sizes. */
  function Moved(total: nat, pos: nat, steps: seq<nat>): nat
    decreases |steps|
  {
    if steps == [] then pos else Moved(total, Next(Start(pos, total), steps[0], total), steps[1..])
  }

  /** Everything those cycles scan, in order. */
  function Swept(all: seq<int>, pos: nat, steps: seq<nat>): seq<int>
    decreases |steps|
  {
    if steps == [] then []
    else
      var s := Start(pos, |all|);
      Slice(all, s, steps[0]) + Swept(all, Next(s, steps[0], |all|), steps[1..])
  }

  function Sum(steps: seq<nat>): nat {
    if steps == [] then 0 else steps[0] + Sum(steps[1..])
  }

  lemma {:induction false} SweptAppend(all: seq<int>, pos: nat, a: seq<nat>, b: seq<nat>)
    ensures Swept(all, pos, a + b) == Swept(all, pos, a) + Swept(all, Moved(|all|, pos, a), b)
    ensures Moved(|all|, pos, a + b) == Moved(|all|, Moved(|all|, pos, a), b)
    decreases |a|
  {
    if a == [] {
      assert a + b == b;
    } else {
      assert (a + b)[0] == a[0] && (a + b)[1..] == a[1..] + b;
      SweptAppend(all, Next(Start(pos, |all|), a[0], |all|), a[1..], b);
    }
  }

  /** As long as the steps do not reach the end, the slices are consecutive. */
  lemma {:induction false} SweptShort(all: seq<int>, pos: nat, steps: seq<nat>)
    requires pos + Sum(steps) < |all|
    ensures Swept(all, pos, steps) == all[pos..pos + Sum(steps)]
    ensures Moved(|all|, pos, steps) == pos + Sum(steps)
    decreases |steps|
  {
    if steps != [] {
      var p, end := pos + steps[0], pos + Sum(steps);
      SweptShort(all, p, steps[1..]);
      assert p + Sum(steps[1..]) == end && Start(pos, |all|) == pos && Next(pos, steps[0], |all|) == p;
      assert Slice(all, pos, steps[0]) == all[pos..p];
      assert Swept(all, pos, steps) == all[pos..p] + all[p..end];
      Adjacent(all, pos, p, end);
    }
  }

  lemma Adjacent(s: seq<int>, a: nat, b: nat, c: nat)
    requires a <= b <= c <= |s|
    ensures s[a..b] + s[b..c] == s[a..c]
  {
  }

  /** The step that reaches the end scans what is left and starts over. */
  lemma SweptToEnd(all: seq<int>, pos: nat, steps: seq<nat>, last: nat)
    requires pos + Sum(steps) < |all| <= pos + Sum(steps) + last
    ensures Swept(all, pos, steps + [last]) == all[pos..]
    ensures Moved(|all|, pos, steps + [last]) == 0
  {
    var p := pos + Sum(steps);
    SweptShort(all, pos, steps);
    SweptAppend(all, pos, steps, [last]);
    SweptLast(all, p, last);
    assert Moved(|all|, pos, steps) == p && Swept(all, pos, steps) == all[pos..p];
    AdjacentEnd(all, pos, p);
  }

  lemma SweptLast(all: seq<int>, p: nat, last: nat)
    requires p < |all| <= p + last
    ensures Swept(all, p, [last]) == all[p..] && Moved(|all|, p, [last]) == 0
  {
    SweptOnce(all, p, last);
  }

  lemma AdjacentEnd(s: seq<int>, a: nat, b: nat)
    requires a <= b <= |s|
    ensures s[a..b] + s[b..] == s[a..]
  {
  }

  lemma SweptOnce(all: seq<int>, pos: nat, step: nat)
    ensures Swept(all, pos, [step]) == Slice(all, Start(pos, |all|), step)
    ensures Moved(|all|, pos, [step]) == Next(Start(pos, |all|), step, |all|)
  {
    assert Swept(all, Next(Start(pos, |all|), step, |all|), [step][1..]) == [];
  }

  function Repeat(m: nat, n: nat): (s: seq<nat>)
    ensures |s| == n && forall i :: 0 <= i < n ==> s[i] == m
  {
    seq(n, i => m)
  }

  lemma {:induction false} SumRepeat(m: nat, n: nat)
    ensures Sum(Repeat(m, n)) == n * m
  {
    if n > 0 {
      assert Repeat(m, n)[1..] == Repeat(m, n - 1);
      SumRepeat(m, n - 1);
    }
  }

  lemma SweptFromStart(all: seq<int>, pos: nat, steps: seq<nat>)
    requires steps != []
    ensures Swept(all, pos, steps) == Swept(all, Start(pos, |all|), steps)
    ensures Moved(|all|, pos, steps) == Moved(|all|, Start(pos, |all|), steps)
  {
  }

  /** With a fixed step size, a whole rotation scans the list once, from the cursor around. */
  lemma Rotation(all: seq<int>, pos: nat, m: nat)
    requires m > 0 && all != [] && pos % m == 0
    ensures CeilDiv(|all|, m) > 0
    ensures var s := Start(pos, |all|);
            && Swept(all, pos, Repeat(m, CeilDiv(|all|, m))) == all[s..] + all[..s]
            && Start(Moved(|all|, pos, Repeat(m, CeilDiv(|all|, m))), |all|) == s
  {
    SweptSteps(all, pos, Start(pos, |all|), m, Repeat(m, CeilDiv(|all|, m)));
  }

  lemma SweptSteps(all: seq<int>, pos: nat, s: nat, m: nat, steps: seq<nat>)
    requires m > 0 && all != [] && s == Start(pos, |all|) && s % m == 0
    requires steps == Repeat(m, CeilDiv(|all|, m))
    ensures CeilDiv(|all|, m) > 0
    ensures Swept(all, pos, steps) == all[s..] + all[..s] && Start(Moved(|all|, pos, steps), |all|) == s
  {
    var q, left := RoundsLeft(|all|, m, s);
    SumRepeat(m, left);
    SumRepeat(m, q);
    RepeatSplit(m, q + left + 1, q);
    SweptFromStart(all, pos, steps);
    SweptAround(all, s, Repeat(m, left), m, Repeat(m, q), steps);
  }

  /** Steps to the end of the list and then from its beginning to where they started. */
  lemma SweptAround(all: seq<int>, s: nat, a: seq<nat>, m: nat, b: seq<nat>, steps: seq<nat>)
    requires steps == a + [m] + b && Sum(b) == s && s + Sum(a) < |all| <= s + Sum(a) + m
    ensures Swept(all, s, steps) == all[s..] + all[..s] && Moved(|all|, s, steps) == s
  {
    SweptToEnd(all, s, a, m);
    SweptAppend(all, s, a + [m], b);
    SweptShort(all, 0, b);
  }

  lemma RoundsLeft(n: nat, m: nat, s: nat) returns (q: nat, left: nat)
    requires m > 0 && s < n && s % m == 0
    ensures CeilDiv(n, m) == q + left + 1 && s == q * m && s + left * m < n <= s + left * m + m
  {
    var rounds := CeilDiv(n, m);
    CeilDivBounds(n, m);
    q := s / m;
    RoundsBound(n, m, q, rounds);
    left := rounds - q - 1;
  }

  lemma RoundsBound(n: nat, m: nat, q: nat, rounds: int)
    requires m > 0 && q * m < n && (rounds - 1) * m < n <= rounds * m
    ensures q < rounds
    ensures q * m + (rounds - q - 1) * m < n <= q * m + (rounds - q - 1) * m + m
  {
  }

  lemma RepeatSplit(m: nat, rounds: nat, q: nat)
    requires q < rounds
    ensures Repeat(m, rounds) == Repeat(m, rounds - q - 1) + [m] + Repeat(m, q)
  {
  }

  // ---- many cycles of one subnet ----

  /** Stored positions of fixed-size rotations are multiples of that size. */
  ghost predicate Aligned(c: Cursors, m: nat)
    requires m > 0
  {
    forall k: CursorKey :: k in c && (k.Whole? || k.Known?) ==> c[k] % m == 0
  }

  lemma AtAligned(c: Cursors, k: CursorKey, m: nat)
    requires m > 0 && Aligned(c, m) && (k.Whole? || k.Known?)
    ensures At(c, k) % m == 0
  {
  }

  lemma NextAligned(start: nat, total: nat, m: nat)
    requires m > 0 && start % m == 0
    ensures Next(start, m, total) % m == 0
  {
    assert start + m == m * (start / m + 1);
    MultipleOf(m, start / m + 1);
  }

  lemma MultipleOf(m: nat, q: nat)
    requires m > 0
    ensures (m * q) % m == 0
  {
    var x := m * q;
    var d := q - x / m;
    assert m * d == m * q - m * (x / m) == x % m;
    if d >= 1 {
      assert m * d == m + m * (d - 1);
      NonNegative(m, d - 1);
    } else if d <= -1 {
      assert m * -d == m + m * (-d - 1);
      NonNegative(m, -d - 1);
    }
  }

  lemma NonNegative(a: nat, b: nat)
    ensures a * b >= 0
  {
  }

  lemma KnownKeeps(c: Cursors, id: string, runs: seq<Run>, m: nat)
    requires m > 0 && Aligned(c, m)
    ensures Aligned(KnownPart(c, id, runs, m).cursors, m)
  {
    NextStored(c, Known(id), |Expand(runs)|, m);
  }

  /** Every cycle of every subnet keeps the positions aligned. */
  lemma PlannedAligned(c: Cursors, id: string, net: Net, plan: Option<Plan>, m: nat)
    requires m > 0 && Aligned(c, m) && (net.V4? ==> net.prefix <= 32)
    ensures Aligned(Planned(c, id, net, plan, m).cursors, m)
  {
    if net.V4? {
      if plan.None? {
        ChunkAligned(c, id, net, m);
      } else {
        TargetsAligned(c, id, net, plan.value, m);
      }
    }
  }

  lemma ChunkAligned(c: Cursors, id: string, net: Net, m: nat)
    requires m > 0 && Aligned(c, m) && net.V4? && net.prefix <= 32
    ensures Aligned(Chunk(c, id, net, m).cursors, m)
  {
    NextStored(c, Whole(id), Usable(net), m);
  }

  lemma NextStored(c: Cursors, k: CursorKey, total: nat, m: nat)
    requires m > 0 && Aligned(c, m) && (k.Whole? || k.Known?)
    ensures Aligned(c[k := Next(Start(At(c, k), total), m, total)], m)
  {
    AtAligned(c, k, m);
    NextAligned(Start(At(c, k), total), total, m);
    StoredAligned(c, k, Next(Start(At(c, k), total), m, total), m);
  }

  lemma StoredAligned(c: Cursors, k: CursorKey, pos: nat, m: nat)
    requires m > 0 && Aligned(c, m) && pos % m == 0
    ensures Aligned(c[k := pos], m)
  {
  }

  lemma TargetsAligned(c: Cursors, id: string, net: Net, plan: Plan, m: nat)
    requires m > 0 && Aligned(c, m) && net.V4? && net.prefix <= 32
    ensures Aligned(Targets(c, id, net, plan, m).cursors, m)
  {
    var runs := Parsed(plan.known, net);
    KnownKeeps(c, id, runs, m);
    if plan.discover.Some? {
      ExtraAligned(KnownPart(c, id, runs, m).cursors, id, runs, net, plan.discover.value, m);
    }
  }

  lemma ExtraAligned(k: Cursors, id: string, runs: seq<Run>, net: Net, d: Discovery, m: nat)
    requires m > 0 && Aligned(k, m) && net.V4? && net.prefix <= 32 && Sorted(runs)
    ensures Aligned(Extra(k, id, runs, net, d, m).cursors, m)
  {
  }

  function After(c: Cursors, id: string, net: Net, plans: seq<Plan>, m: nat): Cursors
    requires net.V4? && net.prefix <= 32
    decreases |plans|
  {
    if plans == [] then c else After(Targets(c, id, net, plans[0], m).cursors, id, net, plans[1..], m)
  }

  /** The known parts of consecutive cycles, one after the other. */
  function KnownRun(c: Cursors, id: string, net: Net, plans: seq<Plan>, m: nat): seq<int>
    requires net.V4? && net.prefix <= 32
    decreases |plans|
  {
    if plans == [] then []
    else KnownPart(c, id, Parsed(plans[0].known, net), m).hosts
         + KnownRun(Targets(c, id, net, plans[0], m).cursors, id, net, plans[1..], m)
  }

  ghost predicate SameKnown(plans: seq<Plan>, known: seq<Option<Run>>) {
    forall i :: 0 <= i < |plans| ==> plans[i].known == known
  }

  lemma {:induction false} KnownRunSwept(c: Cursors, id: string, net: Net, plans: seq<Plan>, known: seq<Option<Run>>, m: nat)
    requires net.V4? && net.prefix <= 32 && SameKnown(plans, known)
    requires |Expand(Parsed(known, net))| > m
    ensures KnownRun(c, id, net, plans, m)
            == Swept(Expand(Parsed(known, net)), At(c, Known(id)), Repeat(m, |plans|))
    decreases |plans|
  {
    if plans != [] {
      var d := Targets(c, id, net, plans[0], m).cursors;
      KnownRunSwept(d, id, net, plans[1..], known, m);
      KnownStep(c, id, net, plans[0], Expand(Parsed(known, net)), m);
      assert Repeat(m, |plans|)[1..] == Repeat(m, |plans| - 1);
    }
  }

  lemma KnownStep(c: Cursors, id: string, net: Net, plan: Plan, all: seq<int>, m: nat)
    requires net.V4? && net.prefix <= 32 && all == Expand(Parsed(plan.known, net)) && |all| > m
    ensures KnownPart(c, id, Parsed(plan.known, net), m).hosts == Slice(all, Start(At(c, Known(id)), |all|), m)
    ensures At(Targets(c, id, net, plan, m).cursors, Known(id)) == Next(Start(At(c, Known(id)), |all|), m, |all|)
  {
  }

  /** Whatever discovery does, `rounds` consecutive cycles with an unchanged set of known runs scan all
      known addresses, each exactly once (in the order of the runs, beginning at the cursor). */
  lemma KnownEveryRotation(c: Cursors, id: string, net: Net, plans: seq<Plan>, known: seq<Option<Run>>, m: nat)
    requires m > 0 && Aligned(c, m) && net.V4? && net.prefix <= 32 && SameKnown(plans, known)
    requires var all := Expand(Parsed(known, net));
             |all| > m && |plans| == CeilDiv(|all|, m)
    ensures var all := Expand(Parsed(known, net));
            var s := Start(At(c, Known(id)), |all|);
            KnownRun(c, id, net, plans, m) == all[s..] + all[..s]
  {
    KnownRunSwept(c, id, net, plans, known, m);
    AtAligned(c, Known(id), m);
    Rotation(Expand(Parsed(known, net)), At(c, Known(id)), m);
  }

  function WholeRun(c: Cursors, id: string, net: Net, n: nat, m: nat): seq<int>
    requires net.V4? && net.prefix <= 32
    decreases n
  {
    if n == 0 then []
    else Chunk(c, id, net, m).hosts + WholeRun(Chunk(c, id, net, m).cursors, id, net, n - 1, m)
  }

  lemma {:induction false} WholeRunSwept(c: Cursors, id: string, net: Net, n: nat, m: nat)
    requires net.V4? && net.prefix <= 32 && Usable(net) > m
    ensures WholeRun(c, id, net, n, m) == Swept(Range(First(net), Usable(net)), At(c, Whole(id)), Repeat(m, n))
    decreases n
  {
    if n > 0 {
      WholeRunSwept(Chunk(c, id, net, m).cursors, id, net, n - 1, m);
      assert Repeat(m, n)[1..] == Repeat(m, n - 1);
    }
  }

  /** Without a plan, `rounds` consecutive cycles scan every usable address of a large subnet once. */
  lemma WholeSubnetEveryRotation(c: Cursors, id: string, net: Net, m: nat)
    requires m > 0 && Aligned(c, m) && net.V4? && net.prefix <= 32 && Usable(net) > m
    ensures CeilDiv(Usable(net), m) > 0
    ensures var all := Range(First(net), Usable(net));
            var s := Start(At(c, Whole(id)), |all|);
            WholeRun(c, id, net, CeilDiv(Usable(net), m), m) == all[s..] + all[..s]
  {
    AtAligned(c, Whole(id), m);
    Rotation(Range(First(net), Usable(net)), At(c, Whole(id)), m);
    WholeRunSwept(c, id, net, CeilDiv(Usable(net), m), m);
  }

  // ---- discovery ----

  lemma {:induction false} UnknownItems(runs: seq<Run>, a: seq<int>, n: int)
    requires Sorted(runs)
    ensures n in Unknown(runs, a) <==> n in a && !InRuns(runs, n)
  {
    if a != [] {
      UnknownItems(runs, a[..|a| - 1], n);
      assert a == a[..|a| - 1] + [a[|a| - 1]];
    }
  }

  lemma {:induction false} SumAppend(a: seq<nat>, x: nat)
    ensures Sum(a + [x]) == Sum(a) + x
  {
    if a != [] {
      assert (a + [x])[1..] == a[1..] + [x];
      SumAppend(a[1..], x);
    }
  }

  /** One pass together with the known addresses is the whole usable range; and nothing known is
      discovered exactly when no known run shadows a hole. */
  lemma KnownAndDiscovered(net: Net, known: seq<Option<Run>>)
    requires net.V4? && net.prefix <= 32
    ensures var runs, all := Parsed(known, net), Range(First(net), Usable(net));
            && (forall n :: n in all <==> Covers(runs, n) || n in Unknown(runs, all))
            && ((forall n :: n in Unknown(runs, all) ==> !Covers(runs, n)) <==> NoShadow(runs))
  {
    var runs, all := Parsed(known, net), Range(First(net), Usable(net));
    var lo, hi := First(net), First(net) + Usable(net) - 1;
    forall n
      ensures Covers(runs, n) ==> n in all
      ensures n in Unknown(runs, all) <==> n in all && !InRuns(runs, n)
      ensures InRuns(runs, n) ==> Covers(runs, n)
    {
      ParsedCovers(known, lo, hi, n);
      assert n in all <==> lo <= n <= hi by {
        if lo <= n <= hi { assert all[n - lo] == n; }
      }
      UnknownItems(runs, all, n);
      if InRuns(runs, n) { InRunsSound(runs, n); }
    }
    InRunsExact(runs);
  }

  lemma PartsUnknown(c: Cursors, id: string, runs: seq<Run>, near: seq<Run>, lo: nat, total: nat, per: nat, n: int)
    requires Sorted(runs)
    ensures n in NearPart(c, id, runs, near, per).hosts ==> !InRuns(runs, n)
    ensures n in DiscoverPart(c, id, runs, lo, total, per).hosts ==> !InRuns(runs, n)
  {
    var all := Expand(near);
    UnknownItems(runs, Slice(all, Start(At(c, Near(id)), |all|), per), n);
    UnknownItems(runs, Slice(Range(lo, total), Start(At(c, Discover(id)), total), per), n);
  }

  /** In every cycle, nothing that is added to the known part is reported as known by the search. */
  lemma ExtrasUnknown(c: Cursors, id: string, runs: seq<Run>, net: Net, d: Discovery, m: nat, n: int)
    requires net.V4? && net.prefix <= 32 && Sorted(runs)
    ensures n in Extra(c, id, runs, net, d, m).hosts ==> !InRuns(runs, n)
    ensures n in Extra(c, id, runs, net, d, m).hosts && NoShadow(runs) ==> !Covers(runs, n)
  {
    var near, nearPer, per := Parsed(d.near, net), Clamp(d.nearPerCycle, m), Clamp(d.perCycle, m);
    var e := NearPart(c, id, runs, near, nearPer);
    PartsUnknown(c, id, runs, near, First(net), Usable(net), nearPer, n);
    PartsUnknown(e.cursors, id, runs, near, First(net), Usable(net), per, n);
    if Covers(runs, n) && NoShadow(runs) { InRunsComplete(runs, n); }
  }
}
