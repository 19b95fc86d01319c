/** The scan agent's rotating planner (agent/jt_ipam_agent.py): which addresses of a subnet one cycle
    scans.  Three persistent cursors per subnet walk the known addresses, the neighbourhood of known
    addresses and the whole subnet. */
module ScanPlan {
  import opened Wrappers
  import opened Runs
  import Bits

  /** A parsed network: `base` is the network address. */
  datatype Net = V4(base: nat, prefix: nat) | V6

  datatype CursorKey = Whole(id: string) | Known(id: string) | Near(id: string) | Discover(id: string)

  type Cursors = map<CursorKey, nat>

  datatype Discovery = Discovery(perCycle: Option<int>, near: seq<Option<Run>>, nearPerCycle: Option<int>)

  /** A plan of mode "targets"; any other plan is treated like none. */
  datatype Plan = Plan(known: seq<Option<Run>>, discover: Option<Discovery>)

  datatype Part = Part(total: nat, chunk: int, rounds: int)

  datatype Info = Info(chunk: int, rounds: int, known: Option<nat>, near: Option<Part>, discover: Option<Part>)

  const PLAIN := Info(1, 1, None, None, None)

  // ---- the arithmetic of one cursor ----

  function Edge(prefix: nat): nat {
    if prefix < 31 then 1 else 0
  }

  /** How many addresses of the network can be used, and the first of them. */
  function Usable(net: Net): nat
    requires net.V4? && net.prefix <= 32
  {
    var n := Bits.Pow2(32 - net.prefix) - 2 * Edge(net.prefix);
    if n >= 0 then n else 0
  }

  function First(net: Net): nat
    requires net.V4?
  {
    net.base + Edge(net.prefix)
  }

  /** Division rounding up, written as the source does. */
  function CeilDiv(a: int, b: int): int
    requires b > 0
  {
    -((-a) / b)
  }

  function At(c: Cursors, k: CursorKey): nat {
    if k in c then c[k] else 0
  }

  /** A stored position that no longer exists starts over. */
  function Start(pos: nat, total: nat): nat {
    if pos >= total then 0 else pos
  }

  function Next(start: nat, step: nat, total: nat): nat {
    if start + step < total then start + step else 0
  }

  function Clamp(per: Option<int>, maxHosts: int): int {
    var p := if per.None? || per.value == 0 then 1 else per.value;
    var q := if p <= maxHosts then p else maxHosts;
    if q >= 1 then q else 1
  }

  function TotalSize(runs: seq<Run>): (n: nat)
    ensures n == |Expand(runs)|
  {
    if runs == [] then 0 else Size(runs[0]) + TotalSize(runs[1..])
  }

  function Unknown(runs: seq<Run>, hosts: seq<int>): seq<int>
    requires Sorted(runs)
  {
    if hosts == [] then []
    else
      var n := |hosts| - 1;
      Unknown(runs, hosts[..n]) + if InRuns(runs, hosts[n]) then [] else [hosts[n]]
  }

  // ---- what one cycle returns, part by part ----

  datatype Out = Out(hosts: seq<int>, cursors: Cursors)

  function Chunk(c: Cursors, id: string, net: Net, maxHosts: nat): Out
    requires net.V4? && net.prefix <= 32
  {
    var total := Usable(net);
    if total <= maxHosts then Out(Range(First(net), total), c)
    else
      var s := Start(At(c, Whole(id)), total);
      Out(Slice(Range(First(net), total), s, maxHosts), c[Whole(id) := Next(s, maxHosts, total)])
  }

  function KnownPart(c: Cursors, id: string, runs: seq<Run>, maxHosts: nat): Out {
    var all := Expand(runs);
    if |all| <= maxHosts then Out(all, c)
    else
      var s := Start(At(c, Known(id)), |all|);
      Out(Slice(all, s, maxHosts), c[Known(id) := Next(s, maxHosts, |all|)])
  }

  function NearPart(c: Cursors, id: string, runs: seq<Run>, near: seq<Run>, per: nat): Out
    requires Sorted(runs)
  {
    var all := Expand(near);
    if all == [] then Out([], c)
    else
      var s := Start(At(c, Near(id)), |all|);
      Out(Unknown(runs, Slice(all, s, per)), c[Near(id) := Next(s, per, |all|)])
  }

  function DiscoverPart(c: Cursors, id: string, runs: seq<Run>, lo: nat, total: nat, per: nat): Out
    requires Sorted(runs)
  {
    var s := Start(At(c, Discover(id)), total);
    Out(Unknown(runs, Slice(Range(lo, total), s, per)), c[Discover(id) := Next(s, per, total)])
  }

  function Parsed(raw: seq<Option<Run>>, net: Net): (runs: seq<Run>)
    requires net.V4? && net.prefix <= 32
    ensures Sorted(runs) && Proper(runs)
  {
    var lo, hi := First(net), First(net) + Usable(net) - 1;
    ParsedCovers(raw, lo, hi, lo);
    Sort(Clipped(raw, lo, hi))
  }

  /** What a plan with discovery adds to the known part. */
  function Extra(c: Cursors, id: string, runs: seq<Run>, net: Net, d: Discovery, maxHosts: nat): Out
    requires net.V4? && net.prefix <= 32 && Sorted(runs)
  {
    var n := NearPart(c, id, runs, Parsed(d.near, net), Clamp(d.nearPerCycle, maxHosts));
    var g := DiscoverPart(n.cursors, id, runs, First(net), Usable(net), Clamp(d.perCycle, maxHosts));
    Out(n.hosts + g.hosts, g.cursors)
  }

  function Targets(c: Cursors, id: string, net: Net, plan: Plan, maxHosts: nat): Out
    requires net.V4? && net.prefix <= 32
  {
    var runs := Parsed(plan.known, net);
    var k := KnownPart(c, id, runs, maxHosts);
    if plan.discover.None? || Usable(net) == 0 then k
    else
      var x := Extra(k.cursors, id, runs, net, plan.discover.value, maxHosts);
      Out(k.hosts + x.hosts, x.cursors)
  }

  function Planned(c: Cursors, id: string, net: Net, plan: Option<Plan>, maxHosts: nat): Out
    requires net.V4? ==> net.prefix <= 32
  {
    if net.V6? then Out([], c)
    else if plan.None? then Chunk(c, id, net, maxHosts)
    else Targets(c, id, net, plan.value, maxHosts)
  }

  lemma CeilDivBounds(a: int, b: int)
    requires b > 0
    ensures (CeilDiv(a, b) - 1) * b < a <= CeilDiv(a, b) * b
  {
  }

  // ---- what is reported about the position ----

  function PartAt(start: nat, per: nat, total: nat): Part
    requires per > 0
  {
    Part(total, start / per + 1, CeilDiv(total, per))
  }

  function ChunkInfo(c: Cursors, id: string, net: Net, maxHosts: nat): Info
    requires maxHosts > 0 && net.V4? && net.prefix <= 32
  {
    var total := Usable(net);
    if total <= maxHosts then PLAIN
    else
      var p := PartAt(Start(At(c, Whole(id)), total), maxHosts, total);
      Info(p.chunk, p.rounds, None, None, None)
  }

  function KnownInfo(c: Cursors, id: string, runs: seq<Run>, maxHosts: nat): Info
    requires maxHosts > 0
  {
    var n := |Expand(runs)|;
    if n <= maxHosts then PLAIN.(known := Some(n))
    else
      var p := PartAt(Start(At(c, Known(id)), n), maxHosts, n);
      Info(p.chunk, p.rounds, Some(n), None, None)
  }

  function NearInfo(c: Cursors, id: string, near: seq<Run>, per: nat): Option<Part>
    requires per > 0
  {
    var n := |Expand(near)|;
    if n == 0 then None else Some(PartAt(Start(At(c, Near(id)), n), per, n))
  }

  function DiscoverInfo(c: Cursors, id: string, total: nat, per: nat): Part
    requires per > 0
  {
    PartAt(Start(At(c, Discover(id)), total), per, total)
  }

  function PlannedInfo(c: Cursors, id: string, net: Net, plan: Option<Plan>, maxHosts: nat): Info
    requires maxHosts > 0 && (net.V4? ==> net.prefix <= 32)
  {
    if net.V6? then PLAIN
    else if plan.None? then ChunkInfo(c, id, net, maxHosts)
    else
      var runs := Parsed(plan.value.known, net);
      var info := KnownInfo(c, id, runs, maxHosts);
      if plan.value.discover.None? || Usable(net) == 0 then info
      else
        var d, near := plan.value.discover.value, Parsed(plan.value.discover.value.near, net);
        info.(near := NearInfo(c, id, near, Clamp(d.nearPerCycle, maxHosts)),
              discover := Some(DiscoverInfo(c, id, Usable(net), Clamp(d.perCycle, maxHosts))))
  }

  ghost predicate Locates(p: Part, start: nat, per: nat) {
    && 1 <= p.chunk <= p.rounds
    && (p.chunk - 1) * per <= start < p.chunk * per
    && (p.rounds - 1) * per < p.total <= p.rounds * per
  }

  /** The reported slice is the one in which the scan starts, of just as many as are needed. */
  lemma PartLocates(start: nat, per: nat, total: nat)
    requires per > 0 && start < total
    ensures Locates(PartAt(start, per, total), start, per)
  {
    CeilDivBounds(total, per);
    DivBounds(start, per);
    SliceBounds(start / per, CeilDiv(total, per), per, start, total);
  }

  lemma DivBounds(a: nat, b: nat)
    requires b > 0
    ensures (a / b) * b <= a < (a / b) * b + b
  {
  }

  lemma SliceBounds(q: nat, rounds: int, per: nat, start: nat, total: nat)
    requires q * per <= start < q * per + per && start < total && (rounds - 1) * per < total <= rounds * per
    ensures Locates(Part(total, q + 1, rounds), start, per)
  {
    assert (q + 1) * per == q * per + per;
    assert q >= rounds ==> q * per >= rounds * per;
  }

  /** Whatever is planned: each reported position is that of the slice scanned in this cycle. */
  lemma InfoLocates(c: Cursors, id: string, net: Net, plan: Option<Plan>, maxHosts: nat)
    requires maxHosts > 0 && net.V4? && net.prefix <= 32
    ensures var info := PlannedInfo(c, id, net, plan, maxHosts);
            && (plan.None? && Usable(net) > maxHosts ==>
                  Locates(Part(Usable(net), info.chunk, info.rounds), Start(At(c, Whole(id)), Usable(net)), maxHosts))
            && (plan.Some? && info.known.value > maxHosts ==>
                  Locates(Part(info.known.value, info.chunk, info.rounds),
                          Start(At(c, Known(id)), info.known.value), maxHosts))
            && (info.near.Some? ==>
                  Locates(info.near.value, Start(At(c, Near(id)), info.near.value.total),
                          Clamp(plan.value.discover.value.nearPerCycle, maxHosts)))
            && (info.discover.Some? ==>
                  Locates(info.discover.value, Start(At(c, Discover(id)), info.discover.value.total),
                          Clamp(plan.value.discover.value.perCycle, maxHosts)))
  {
    var total := Usable(net);
    if plan.None? {
      if total > maxHosts {
        PartLocates(Start(At(c, Whole(id)), total), maxHosts, total);
      }
    } else {
      var known := |Expand(Parsed(plan.value.known, net))|;
      if known > maxHosts {
        PartLocates(Start(At(c, Known(id)), known), maxHosts, known);
      }
      if plan.value.discover.Some? && total > 0 {
        var d := plan.value.discover.value;
        var near := |Expand(Parsed(d.near, net))|;
        if near > 0 {
          PartLocates(Start(At(c, Near(id)), near), Clamp(d.nearPerCycle, maxHosts), near);
        }
        PartLocates(Start(At(c, Discover(id)), total), Clamp(d.perCycle, maxHosts), total);
      }
    }
  }

  lemma SliceOfRange(a: int, total: nat, start: nat, count: nat)
    requires start <= total
    ensures Slice(Range(a, total), start, count)
            == Range(a + start, if start + count <= total then count else total - start)
  {
  }

  /** A cycle of one subnet leaves the positions of the other subnets alone. */
  lemma PlannedFrame(c: Cursors, id: string, net: Net, plan: Option<Plan>, m: nat)
    requires net.V4? ==> net.prefix <= 32
    ensures forall k: CursorKey :: k.id != id ==> At(Planned(c, id, net, plan, m).cursors, k) == At(c, k)
  {
  }

  /** A small set of known addresses is scanned completely in every cycle. */
  lemma KnownEveryCycle(c: Cursors, id: string, net: Net, plan: Plan, m: nat)
    requires net.V4? && net.prefix <= 32 && |Expand(Parsed(plan.known, net))| <= m
    ensures Expand(Parsed(plan.known, net)) <= Targets(c, id, net, plan, m).hosts
  {
  }

  lemma RangeSlice(first: int, total: nat, start: nat, count: nat, most: nat)
    requires start <= total && count == if most <= total - start then most else total - start
    ensures Slice(Range(first, total), start, most) == Range(first + start, count)
  {
  }

  // ---- the planner object ----

  class Planner {
    const maxHosts: nat
    var cursors: Cursors

    constructor (maxHosts: nat)
      requires maxHosts > 0
      ensures this.maxHosts == maxHosts && cursors == map[]
    {
      this.maxHosts := maxHosts;
      cursors := map[];
    }

    method SubnetChunk(id: string, net: Net) returns (hosts: seq<int>, total: nat, info: Info)
      requires maxHosts > 0 && (net.V4? ==> net.prefix <= 32)
      modifies this
      ensures Out(hosts, cursors) == if net.V6? then Out([], old(cursors)) else Chunk(old(cursors), id, net, maxHosts)
      ensures total == (if net.V6? then 0 else Usable(net)) && info == PlannedInfo(old(cursors), id, net, None, maxHosts)
    {
      if net.V6? {
        return [], 0, PLAIN;
      }
      total := Usable(net);
      if total <= maxHosts {
        return Range(First(net), total), total, PLAIN;
      }
      var rounds := CeilDiv(total, maxHosts);
      var start := At(cursors, Whole(id));
      if start >= total {
        start := 0;
      }
      var count := if maxHosts <= total - start then maxHosts else total - start;
      hosts := Range(First(net) + start, count);
      RangeSlice(First(net), total, start, count, maxHosts);
      cursors := cursors[Whole(id) := if start + count < total then start + count else 0];
      info := Info(start / maxHosts + 1, rounds, None, None, None);
    }

    method PlanHosts(id: string, net: Net, plan: Option<Plan>) returns (hosts: seq<int>, total: nat, info: Info)
      requires maxHosts > 0 && (net.V4? ==> net.prefix <= 32)
      modifies this
      ensures Out(hosts, cursors) == Planned(old(cursors), id, net, plan, maxHosts)
      ensures total == (if net.V6? then 0 else Usable(net)) && info == PlannedInfo(old(cursors), id, net, plan, maxHosts)
      ensures forall k: CursorKey :: k.id != id ==> At(cursors, k) == At(old(cursors), k)
      ensures net.V4? && plan.Some? && |Expand(Parsed(plan.value.known, net))| <= maxHosts ==>
                Expand(Parsed(plan.value.known, net)) <= hosts
    {
      if plan.None? {
        hosts, total, info := SubnetChunk(id, net);
        PlannedFrame(old(cursors), id, net, plan, maxHosts);
        return;
      }
      if net.V6? {
        return [], 0, PLAIN;
      }
      total := Usable(net);
      hosts, info := PlanTargets(id, net, plan.value);
      PlannedFrame(old(cursors), id, net, plan, maxHosts);
      if |Expand(Parsed(plan.value.known, net))| <= maxHosts {
        KnownEveryCycle(old(cursors), id, net, plan.value, maxHosts);
      }
    }

    method PlanTargets(id: string, net: Net, plan: Plan) returns (hosts: seq<int>, info: Info)
      requires maxHosts > 0 && net.V4? && net.prefix <= 32
      modifies this
      ensures Out(hosts, cursors) == Targets(old(cursors), id, net, plan, maxHosts)
      ensures info == PlannedInfo(old(cursors), id, net, Some(plan), maxHosts)
    {
      var total := Usable(net);
      var lo, hi := First(net), First(net) + total - 1;
      var runs := ParseRuns(plan.known, lo, hi);
      assert runs == Parsed(plan.known, net);
      hosts, info := ScanKnown(id, runs);
      var disc := plan.discover;
      if disc.Some? && total != 0 {
        var near := ParseRuns(disc.value.near, lo, hi);
        assert near == Parsed(disc.value.near, net);
        var extra, nearInfo, discInfo := ScanExtra(id, runs, near, net, disc.value);
        hosts := hosts + extra;
        info := info.(near := nearInfo, discover := Some(discInfo));
      }
    }

    method ScanExtra(id: string, runs: seq<Run>, near: seq<Run>, net: Net, d: Discovery)
      returns (hosts: seq<int>, nearInfo: Option<Part>, discInfo: Part)
      requires maxHosts > 0 && net.V4? && net.prefix <= 32 && Usable(net) > 0 && Sorted(runs)
      requires near == Parsed(d.near, net)
      modifies this
      ensures Out(hosts, cursors) == Extra(old(cursors), id, runs, net, d, maxHosts)
      ensures nearInfo == NearInfo(old(cursors), id, near, Clamp(d.nearPerCycle, maxHosts))
      ensures discInfo == DiscoverInfo(old(cursors), id, Usable(net), Clamp(d.perCycle, maxHosts))
    {
      hosts, nearInfo := ScanNear(id, runs, near, Clamp(d.nearPerCycle, maxHosts));
      var more;
      more, discInfo := ScanDiscover(id, runs, First(net), Usable(net), Clamp(d.perCycle, maxHosts));
      hosts := hosts + more;
    }

    method ScanKnown(id: string, runs: seq<Run>) returns (hosts: seq<int>, info: Info)
      requires maxHosts > 0 && Proper(runs)
      modifies this
      ensures Out(hosts, cursors) == KnownPart(old(cursors), id, runs, maxHosts)
      ensures info == KnownInfo(old(cursors), id, runs, maxHosts)
    {
      var known := TotalSize(runs);
      var start, rounds := 0, 1;
      if known > maxHosts {
        rounds := CeilDiv(known, maxHosts);
        start := At(cursors, Known(id));
        if start >= known {
          start := 0;
        }
        var next := start + maxHosts;
        cursors := cursors[Known(id) := if next < known then next else 0];
      }
      hosts := RunsSlice(runs, start, if maxHosts <= known - start then maxHosts else known - start);
      info := Info(start / maxHosts + 1, rounds, Some(known), None, None);
    }

    method ScanNear(id: string, runs: seq<Run>, near: seq<Run>, per: nat) returns (hosts: seq<int>, info: Option<Part>)
      requires per > 0 && Sorted(runs) && Proper(near)
      modifies this
      ensures Out(hosts, cursors) == NearPart(old(cursors), id, runs, near, per)
      ensures info == NearInfo(old(cursors), id, near, per)
    {
      hosts, info := [], None;
      var total := TotalSize(near);
      if total != 0 {
        var start := At(cursors, Near(id));
        if start >= total {
          start := 0;
        }
        assert start == Start(At(cursors, Near(id)), total);
        var some := RunsSlice(near, start, if per <= total - start then per else total - start);
        assert some == Slice(Expand(near), start, per);
        hosts := SkipKnown(runs, some);
        var next := if start + per < total then start + per else 0;
        assert next == Next(start, per, total);
        cursors := cursors[Near(id) := next];
        info := Some(PartAt(start, per, total));
      }
    }

    method ScanDiscover(id: string, runs: seq<Run>, lo: nat, total: nat, per: nat) returns (hosts: seq<int>, info: Part)
      requires per > 0 && total > 0 && Sorted(runs)
      modifies this
      ensures Out(hosts, cursors) == DiscoverPart(old(cursors), id, runs, lo, total, per)
      ensures info == DiscoverInfo(old(cursors), id, total, per)
    {
      var start := At(cursors, Discover(id));
      if start >= total {
        start := 0;
      }
      var end := if start + per <= total then start + per else total;
      SliceOfRange(lo, total, start, per);
      hosts := SkipKnown(runs, Range(lo + start, end - start));
      assert hosts == Unknown(runs, Slice(Range(lo, total), start, per));
      var next := if start + per < total then start + per else 0;
      assert next == Next(start, per, total);
      cursors := cursors[Discover(id) := next];
      info := PartAt(start, per, total);
    }
  }

  /** The filtering loop shared by the near and the discover part. */
  method SkipKnown(runs: seq<Run>, some: seq<int>) returns (hosts: seq<int>)
    requires Sorted(runs)
    ensures hosts == Unknown(runs, some)
  {
    hosts := [];
    for i := 0 to |some|
      invariant hosts == Unknown(runs, some[..i])
    {
      assert some[..i + 1][..i] == some[..i];
      if !InRuns(runs, some[i]) {
        hosts := hosts + [some[i]];
      }
    }
    assert some[..|some|] == some;
  }
}
