/** Passes of the planner's two discovery cursors, over the whole subnet and over the neighbourhood of known
    addresses, while the plans change and other subnets are scanned in between. */
module PassCoverage {
  import opened Wrappers
  import opened Runs
  import opened ScanPlan
  import opened ScanCoverage
  import Bits

  // ---- cycles and what each looks at ----

  /** One cycle of one subnet. */
  datatype Cycle = Cycle(id: string, net: Net, plan: Option<Plan>)

  ghost predicate ProperCycles(cycles: seq<Cycle>) {
    forall i :: 0 <= i < |cycles| ==> cycles[i].net.V4? ==> cycles[i].net.prefix <= 32
  }

  function AfterCycle(c: Cursors, y: Cycle, m: nat): Cursors
    requires y.net.V4? ==> y.net.prefix <= 32
  {
    Planned(c, y.id, y.net, y.plan, m).cursors
  }

  function AfterCycles(c: Cursors, cycles: seq<Cycle>, m: nat): Cursors
    requires ProperCycles(cycles)
    decreases |cycles|
  {
    if cycles == [] then c else AfterCycles(AfterCycle(c, cycles[0], m), cycles[1..], m)
  }

  datatype Walk = Neighbourhood | Subnet

  function Key(walk: Walk, id: string): CursorKey {
    if walk.Subnet? then Discover(id) else Near(id)
  }

  predicate Discovers(y: Cycle) {
    y.net.V4? && y.net.prefix <= 32 && y.plan.Some? && y.plan.value.discover.Some? && Usable(y.net) > 0
  }

  /** The addresses that the walk goes over. */
  function ListOf(y: Cycle, walk: Walk): seq<int>
    requires Discovers(y)
  {
    if walk.Subnet? then Range(First(y.net), Usable(y.net))
    else Expand(Parsed(y.plan.value.discover.value.near, y.net))
  }

  function PerOf(y: Cycle, walk: Walk, m: nat): (per: nat)
    requires Discovers(y)
    ensures per > 0
  {
    var d := y.plan.value.discover.value;
    Clamp(if walk.Subnet? then d.perCycle else d.nearPerCycle, m)
  }

  /** What a cycle does for one walk: it looks at `per` addresses of the list from `pos` on and adds `found` to
      what is scanned; `runs` is what its plan knows. */
  datatype Look = Look(runs: seq<Run>, list: seq<int>, pos: nat, per: nat, found: seq<int>)

  function Seen(l: Look): seq<int> {
    Slice(l.list, l.pos, l.per)
  }

  predicate HasLook(y: Cycle, id: string, walk: Walk) {
    y.id == id && Discovers(y) && ListOf(y, walk) != []
  }

  /** The cursors when the walk has its turn within the cycle. */
  function Turn(c: Cursors, y: Cycle, walk: Walk, m: nat): Cursors
    requires Discovers(y)
  {
    var runs, d := Parsed(y.plan.value.known, y.net), y.plan.value.discover.value;
    var k := KnownPart(c, y.id, runs, m).cursors;
    if walk.Neighbourhood? then k
    else NearPart(k, y.id, runs, Parsed(d.near, y.net), PerOf(y, Neighbourhood, m)).cursors
  }

  function Added(c: Cursors, y: Cycle, walk: Walk, m: nat): seq<int>
    requires Discovers(y)
  {
    var runs, d, t := Parsed(y.plan.value.known, y.net), y.plan.value.discover.value, Turn(c, y, walk, m);
    if walk.Neighbourhood? then NearPart(t, y.id, runs, Parsed(d.near, y.net), PerOf(y, walk, m)).hosts
    else DiscoverPart(t, y.id, runs, First(y.net), Usable(y.net), PerOf(y, walk, m)).hosts
  }

  function LookOf(c: Cursors, y: Cycle, walk: Walk, m: nat): Look
    requires Discovers(y)
  {
    var list := ListOf(y, walk);
    Look(Parsed(y.plan.value.known, y.net), list, Start(At(c, Key(walk, y.id)), |list|), PerOf(y, walk, m), Added(c, y, walk, m))
  }

  function Looks(c: Cursors, id: string, cycles: seq<Cycle>, walk: Walk, m: nat): seq<Look>
    requires ProperCycles(cycles)
    decreases |cycles|
  {
    if cycles == [] then []
    else
      (if HasLook(cycles[0], id, walk) then [LookOf(c, cycles[0], walk, m)] else [])
      + Looks(AfterCycle(c, cycles[0], m), id, cycles[1..], walk, m)
  }

  /** The cycle scans the known part, then what both walks add. */
  lemma CycleScans(c: Cursors, y: Cycle, m: nat)
    requires Discovers(y)
    ensures Planned(c, y.id, y.net, y.plan, m).hosts
            == KnownPart(c, y.id, Parsed(y.plan.value.known, y.net), m).hosts
               + (Added(c, y, Neighbourhood, m) + Added(c, y, Subnet, m))
  {
  }

  // ---- the walks, cycle by cycle ----

  ghost predicate ProperLook(l: Look) {
    l.list != [] && l.per > 0 && Sorted(l.runs) && l.found == Unknown(l.runs, Seen(l))
  }

  /** Each look begins where the stored position says and stores where the next one goes on. */
  ghost predicate Chained(stored: nat, looks: seq<Look>)
    decreases |looks|
  {
    looks != [] ==>
      var l := looks[0];
      && ProperLook(l) && l.pos == Start(stored, |l.list|)
      && Chained(Next(l.pos, l.per, |l.list|), looks[1..])
  }

  function Stored(stored: nat, looks: seq<Look>): nat
    decreases |looks|
  {
    if looks == [] then stored
    else Stored(Next(looks[0].pos, looks[0].per, |looks[0].list|), looks[1..])
  }

  lemma TurnKeeps(c: Cursors, y: Cycle, walk: Walk, m: nat)
    requires Discovers(y)
    ensures At(Turn(c, y, walk, m), Key(walk, y.id)) == At(c, Key(walk, y.id))
  {
  }

  lemma OneLook(c: Cursors, y: Cycle, walk: Walk, m: nat)
    requires Discovers(y) && ListOf(y, walk) != []
    ensures var l := LookOf(c, y, walk, m);
            ProperLook(l) && At(AfterCycle(c, y, m), Key(walk, y.id)) == Next(l.pos, l.per, |l.list|)
  {
    TurnKeeps(c, y, walk, m);
  }

  /** A cycle without a look, of this subnet or another, leaves the position alone. */
  lemma NoLook(c: Cursors, y: Cycle, id: string, walk: Walk, m: nat)
    requires (y.net.V4? ==> y.net.prefix <= 32) && !HasLook(y, id, walk)
    ensures At(AfterCycle(c, y, m), Key(walk, id)) == At(c, Key(walk, id))
  {
    if y.id != id {
      PlannedFrame(c, y.id, y.net, y.plan, m);
    } else if Discovers(y) {
      SubnetListed(y);
      NothingNear(c, y, m);
    } else if y.net.V4? {
      NoDiscovery(c, y, walk, m);
    }
  }

  lemma SubnetListed(y: Cycle)
    requires Discovers(y)
    ensures ListOf(y, Subnet) != []
  {
  }

  lemma NoDiscovery(c: Cursors, y: Cycle, walk: Walk, m: nat)
    requires y.net.V4? && y.net.prefix <= 32 && !Discovers(y)
    ensures At(AfterCycle(c, y, m), Key(walk, y.id)) == At(c, Key(walk, y.id))
  {
    if y.plan.None? {
      assert AfterCycle(c, y, m) == Chunk(c, y.id, y.net, m).cursors;
    } else {
      assert AfterCycle(c, y, m) == KnownPart(c, y.id, Parsed(y.plan.value.known, y.net), m).cursors;
    }
  }

  lemma NothingNear(c: Cursors, y: Cycle, m: nat)
    requires Discovers(y) && ListOf(y, Neighbourhood) == []
    ensures At(AfterCycle(c, y, m), Near(y.id)) == At(c, Near(y.id))
  {
    TurnKeeps(c, y, Neighbourhood, m);
  }

  lemma {:induction false} LooksChained(c: Cursors, id: string, cycles: seq<Cycle>, walk: Walk, m: nat)
    requires ProperCycles(cycles)
    ensures var looks := Looks(c, id, cycles, walk, m);
            && Chained(At(c, Key(walk, id)), looks)
            && At(AfterCycles(c, cycles, m), Key(walk, id)) == Stored(At(c, Key(walk, id)), looks)
    decreases |cycles|
  {
    if cycles != [] {
      var y := cycles[0];
      var rest := Looks(AfterCycle(c, y, m), id, cycles[1..], walk, m);
      LooksChained(AfterCycle(c, y, m), id, cycles[1..], walk, m);
      if HasLook(y, id, walk) {
        OneLook(c, y, walk, m);
        var l := LookOf(c, y, walk, m);
        assert ([l] + rest)[1..] == rest;
      } else {
        NoLook(c, y, id, walk, m);
        assert [] + rest == rest;
      }
    }
  }

  // ---- a list that stays the same ----

  function Pers(looks: seq<Look>): (s: seq<nat>)
    ensures |s| == |looks|
  {
    if looks == [] then [] else [looks[0].per] + Pers(looks[1..])
  }

  function Joined(looks: seq<Look>): seq<int> {
    if looks == [] then [] else Seen(looks[0]) + Joined(looks[1..])
  }

  ghost predicate SameList(looks: seq<Look>, all: seq<int>) {
    forall i :: 0 <= i < |looks| ==> looks[i].list == all
  }

  lemma {:induction false} JoinedSwept(stored: nat, looks: seq<Look>, all: seq<int>)
    requires Chained(stored, looks) && SameList(looks, all)
    ensures Joined(looks) == Swept(all, stored, Pers(looks)) && Stored(stored, looks) == Moved(|all|, stored, Pers(looks))
    decreases |looks|
  {
    if looks != [] {
      JoinedSwept(Next(looks[0].pos, looks[0].per, |all|), looks[1..], all);
      assert Pers(looks)[1..] == Pers(looks[1..]);
    }
  }

  /** The looks begin at the front of a list of `total` addresses and the last of them reaches its end. */
  ghost predicate IsPass(looks: seq<Look>, total: nat, stored: nat) {
    && looks != [] && Start(stored, total) == 0
    && var front := Pers(looks)[..|looks| - 1];
       Sum(front) < total <= Sum(front) + looks[|looks| - 1].per
  }

  lemma {:induction false} PersLast(looks: seq<Look>)
    requires looks != []
    ensures Pers(looks) == Pers(looks)[..|looks| - 1] + [looks[|looks| - 1].per]
  {
    if |looks| > 1 {
      PersLast(looks[1..]);
      assert Pers(looks[1..])[|looks| - 2] == looks[|looks| - 1].per;
    }
  }

  /** A pass over a list looks at the whole list, in order. */
  lemma PassSeesAll(stored: nat, looks: seq<Look>, all: seq<int>)
    requires Chained(stored, looks) && SameList(looks, all) && IsPass(looks, |all|, stored)
    ensures Joined(looks) == all && Stored(stored, looks) == 0
  {
    var front, last := Pers(looks)[..|looks| - 1], looks[|looks| - 1].per;
    JoinedSwept(stored, looks, all);
    PersLast(looks);
    SweptFromStart(all, stored, Pers(looks));
    SweptToEnd(all, 0, front, last);
    assert all[0..] == all;
  }

  /** Look `i` is at `n`, and `n` is added to what is scanned unless the plan of that cycle knows it. */
  ghost predicate Settles(looks: seq<Look>, i: nat, n: int) {
    && i < |looks| && n in Seen(looks[i])
    && Sorted(looks[i].runs)
    && (n in looks[i].found <==> !InRuns(looks[i].runs, n))
    && (n in looks[i].found || Covers(looks[i].runs, n))
  }

  lemma SettledWhereSeen(stored: nat, looks: seq<Look>, i: nat, n: int)
    requires Chained(stored, looks) && i < |looks| && n in Seen(looks[i])
    ensures Settles(looks, i, n)
  {
    var l := looks[i];
    ChainedAt(stored, looks, i);
    UnknownItems(l.runs, Seen(l), n);
    if InRuns(l.runs, n) {
      InRunsSound(l.runs, n);
    }
  }

  lemma {:induction false} SeenBy(looks: seq<Look>, n: int) returns (i: nat)
    requires n in Joined(looks)
    ensures i < |looks| && n in Seen(looks[i])
  {
    if n in Seen(looks[0]) {
      i := 0;
    } else {
      var j := SeenBy(looks[1..], n);
      i := j + 1;
    }
  }

  lemma SeenSomewhere(stored: nat, looks: seq<Look>, n: int)
    requires Chained(stored, looks) && n in Joined(looks)
    ensures exists i :: Settles(looks, i, n)
  {
    var i := SeenBy(looks, n);
    SettledWhereSeen(stored, looks, i, n);
  }

  /** Where the part that look `i` sees begins within all that is seen. */
  function Offset(looks: seq<Look>, i: nat): nat
    requires i <= |looks|
    decreases |looks|
  {
    if i == 0 then 0 else |Seen(looks[0])| + Offset(looks[1..], i - 1)
  }

  lemma {:induction false} OffsetNext(looks: seq<Look>, i: nat)
    requires i < |looks|
    ensures Offset(looks, i + 1) == Offset(looks, i) + |Seen(looks[i])|
    decreases |looks|
  {
    if i > 0 {
      OffsetNext(looks[1..], i - 1);
    }
  }

  lemma {:induction false} OffsetsGrow(looks: seq<Look>, i: nat, j: nat)
    requires i < j <= |looks|
    ensures Offset(looks, i) + |Seen(looks[i])| <= Offset(looks, j)
    decreases j
  {
    OffsetNext(looks, j - 1);
    if i < j - 1 {
      OffsetsGrow(looks, i, j - 1);
    }
  }

  lemma {:induction false} JoinedAt(looks: seq<Look>, i: nat, k: nat)
    requires i < |looks| && k < |Seen(looks[i])|
    ensures Offset(looks, i) + k < |Joined(looks)| && Joined(looks)[Offset(looks, i) + k] == Seen(looks[i])[k]
    decreases |looks|
  {
    if i > 0 {
      JoinedAt(looks[1..], i - 1, k);
    }
  }

  ghost predicate NoRepeats(s: seq<int>) {
    forall i, j :: 0 <= i < j < |s| ==> s[i] != s[j]
  }

  /** Different looks see different places. */
  lemma SeenApart(looks: seq<Look>, i: nat, k: nat, j: nat, l: nat)
    requires NoRepeats(Joined(looks)) && i < j < |looks| && k < |Seen(looks[i])| && l < |Seen(looks[j])|
    ensures Seen(looks[i])[k] != Seen(looks[j])[l]
  {
    JoinedAt(looks, i, k);
    JoinedAt(looks, j, l);
    OffsetsGrow(looks, i, j);
  }

  lemma SeenOnce(looks: seq<Look>, i: nat, j: nat, n: int)
    requires NoRepeats(Joined(looks)) && i < j < |looks| && n in Seen(looks[i])
    ensures n !in Seen(looks[j])
  {
    var k :| 0 <= k < |Seen(looks[i])| && Seen(looks[i])[k] == n;
    if n in Seen(looks[j]) {
      var l :| 0 <= l < |Seen(looks[j])| && Seen(looks[j])[l] == n;
      SeenApart(looks, i, k, j, l);
    }
  }

  // ---- passes over the subnet ----

  ghost predicate SameNet(cycles: seq<Cycle>, id: string, net: Net) {
    forall i :: 0 <= i < |cycles| && cycles[i].id == id ==> cycles[i].net == net
  }

  lemma {:induction false} SubnetList(c: Cursors, id: string, net: Net, cycles: seq<Cycle>, m: nat)
    requires ProperCycles(cycles) && SameNet(cycles, id, net) && net.V4? && net.prefix <= 32
    ensures SameList(Looks(c, id, cycles, Subnet, m), Range(First(net), Usable(net)))
    decreases |cycles|
  {
    if cycles != [] {
      SubnetList(AfterCycle(c, cycles[0], m), id, net, cycles[1..], m);
    }
  }

  /** Whatever the step sizes, however the known addresses change during the pass and whatever other subnets do
      in between: from one wrap-around to the next every usable address is looked at in exactly one cycle, and in
      that cycle it is discovered or known to that cycle's plan. */
  lemma DiscoverPass(c: Cursors, id: string, net: Net, cycles: seq<Cycle>, m: nat, n: int)
    requires ProperCycles(cycles) && SameNet(cycles, id, net) && net.V4? && net.prefix <= 32
    requires IsPass(Looks(c, id, cycles, Subnet, m), Usable(net), At(c, Discover(id)))
    requires First(net) <= n < First(net) + Usable(net)
    ensures var looks := Looks(c, id, cycles, Subnet, m);
            && (exists i :: Settles(looks, i, n))
            && (forall i, j :: 0 <= i < j < |looks| && n in Seen(looks[i]) ==> n !in Seen(looks[j]))
    ensures At(AfterCycles(c, cycles, m), Discover(id)) == 0
  {
    var looks, all, stored := Looks(c, id, cycles, Subnet, m), Range(First(net), Usable(net)), At(c, Discover(id));
    LooksChained(c, id, cycles, Subnet, m);
    SubnetList(c, id, net, cycles, m);
    PassSeesAll(stored, looks, all);
    assert all[n - First(net)] == n;
    SeenSomewhere(stored, looks, n);
    forall i, j | 0 <= i < j < |looks| && n in Seen(looks[i]) ensures n !in Seen(looks[j]) {
      SeenOnce(looks, i, j, n);
    }
  }

  function AllFound(looks: seq<Look>): seq<int> {
    if looks == [] then [] else looks[0].found + AllFound(looks[1..])
  }

  lemma {:induction false} UnknownAppend(runs: seq<Run>, a: seq<int>, b: seq<int>)
    requires Sorted(runs)
    ensures Unknown(runs, a + b) == Unknown(runs, a) + Unknown(runs, b)
  {
    if b == [] {
      assert a + b == a;
    } else {
      var n := |b| - 1;
      assert (a + b)[..|a + b| - 1] == a + b[..n];
      UnknownAppend(runs, a, b[..n]);
    }
  }

  ghost predicate KnowsSame(looks: seq<Look>, runs: seq<Run>) {
    forall i :: 0 <= i < |looks| ==> looks[i].runs == runs
  }

  lemma {:induction false} FoundInOrder(stored: nat, looks: seq<Look>, runs: seq<Run>)
    requires Chained(stored, looks) && Sorted(runs) && KnowsSame(looks, runs)
    ensures AllFound(looks) == Unknown(runs, Joined(looks))
    decreases |looks|
  {
    if looks != [] {
      FoundInOrder(Next(looks[0].pos, looks[0].per, |looks[0].list|), looks[1..], runs);
      UnknownAppend(runs, Seen(looks[0]), Joined(looks[1..]));
    }
  }

  /** If the known addresses stay the same, a pass discovers exactly the usable addresses that the search does not
      report as known, each once and in order. */
  lemma DiscoverPassInOrder(c: Cursors, id: string, net: Net, cycles: seq<Cycle>, runs: seq<Run>, m: nat)
    requires ProperCycles(cycles) && SameNet(cycles, id, net) && net.V4? && net.prefix <= 32 && Sorted(runs)
    requires IsPass(Looks(c, id, cycles, Subnet, m), Usable(net), At(c, Discover(id)))
    requires KnowsSame(Looks(c, id, cycles, Subnet, m), runs)
    ensures AllFound(Looks(c, id, cycles, Subnet, m)) == Unknown(runs, Range(First(net), Usable(net)))
  {
    var looks := Looks(c, id, cycles, Subnet, m);
    LooksChained(c, id, cycles, Subnet, m);
    SubnetList(c, id, net, cycles, m);
    PassSeesAll(At(c, Discover(id)), looks, Range(First(net), Usable(net)));
    FoundInOrder(At(c, Discover(id)), looks, runs);
  }

  /** A pass over `total` addresses ends: among as many looks there is one that reaches the end. */
  lemma PassEnds(looks: seq<Look>, total: nat, stored: nat) returns (k: nat)
    requires Chained(stored, looks) && 0 < total <= |looks| && Start(stored, total) == 0
    ensures 0 < k <= |looks| && IsPass(looks[..k], total, stored)
  {
    PersPositive(stored, looks);
    var last := StepsEnd(Pers(looks), total);
    k := last + 1;
    PersPrefix(looks, k);
    assert Pers(looks[..k])[..k - 1] == Pers(looks)[..k - 1];
    PersLast(looks[..k]);
    assert Pers(looks)[k - 1] == Pers(looks[..k])[k - 1] == looks[k - 1].per;
  }

  lemma {:induction false} PersPositive(stored: nat, looks: seq<Look>)
    requires Chained(stored, looks)
    ensures forall i :: 0 <= i < |looks| ==> Pers(looks)[i] > 0
    decreases |looks|
  {
    if looks != [] {
      PersPositive(Next(looks[0].pos, looks[0].per, |looks[0].list|), looks[1..]);
    }
  }

  lemma {:induction false} PersPrefix(looks: seq<Look>, k: nat)
    requires k <= |looks|
    ensures Pers(looks[..k]) == Pers(looks)[..k]
    decreases |looks|
  {
    if k > 0 {
      PersPrefix(looks[1..], k - 1);
      assert looks[..k][1..] == looks[1..][..k - 1];
    }
  }

  lemma SumGrows(steps: seq<nat>, k: nat)
    requires k < |steps|
    ensures Sum(steps[..k + 1]) == Sum(steps[..k]) + steps[k]
  {
    assert steps[..k] + [steps[k]] == steps[..k + 1];
    SumAppend(steps[..k], steps[k]);
  }

  lemma StepsEnd(steps: seq<nat>, total: nat) returns (k: nat)
    requires 0 < total <= |steps| && forall i :: 0 <= i < |steps| ==> steps[i] > 0
    ensures k < |steps| && Sum(steps[..k]) < total <= Sum(steps[..k]) + steps[k]
  {
    k := 0;
    while Sum(steps[..k]) + steps[k] < total
      invariant k < |steps| && k <= Sum(steps[..k]) < total
      decreases |steps| - k
    {
      SumGrows(steps, k);
      k := k + 1;
    }
  }

  // ---- passes over the neighbourhood ----

  ghost predicate SameNear(cycles: seq<Cycle>, id: string, list: seq<int>) {
    forall i :: 0 <= i < |cycles| && HasLook(cycles[i], id, Neighbourhood) ==> ListOf(cycles[i], Neighbourhood) == list
  }

  lemma {:induction false} NearList(c: Cursors, id: string, list: seq<int>, cycles: seq<Cycle>, m: nat)
    requires ProperCycles(cycles) && SameNear(cycles, id, list)
    ensures SameList(Looks(c, id, cycles, Neighbourhood, m), list)
    decreases |cycles|
  {
    if cycles != [] {
      NearList(AfterCycle(c, cycles[0], m), id, list, cycles[1..], m);
    }
  }

  /** The same for the neighbourhood, as long as its runs stay: each address in one of them is looked at, and
      discovered or known to the plan of that cycle. */
  lemma NearPass(c: Cursors, id: string, near: seq<Run>, cycles: seq<Cycle>, m: nat, n: int)
    requires ProperCycles(cycles) && SameNear(cycles, id, Expand(near)) && Covers(near, n)
    requires IsPass(Looks(c, id, cycles, Neighbourhood, m), |Expand(near)|, At(c, Near(id)))
    ensures exists i :: Settles(Looks(c, id, cycles, Neighbourhood, m), i, n)
    ensures At(AfterCycles(c, cycles, m), Near(id)) == 0
  {
    var looks, stored := Looks(c, id, cycles, Neighbourhood, m), At(c, Near(id));
    LooksChained(c, id, cycles, Neighbourhood, m);
    NearList(c, id, Expand(near), cycles, m);
    PassSeesAll(stored, looks, Expand(near));
    ExpandCovers(near, n);
    SeenSomewhere(stored, looks, n);
  }

  // ---- a list that changes ----

  /** How far into its list a look gets. */
  function Reach(l: Look): nat {
    l.pos + l.per
  }

  /** The looks from the front of the list up to the first that reaches the end of the list it has. */
  ghost predicate ChangingPass(looks: seq<Look>) {
    && looks != [] && looks[0].pos == 0
    && (forall i :: 0 <= i < |looks| - 1 ==> Reach(looks[i]) < |looks[i].list|)
    && Reach(looks[|looks| - 1]) >= |looks[|looks| - 1].list|
  }

  /** `p[i]` is where `n` stands in the list of look `i`. */
  ghost predicate Listed(looks: seq<Look>, p: seq<nat>, n: int) {
    |p| == |looks| && forall i :: 0 <= i < |looks| ==> p[i] < |looks[i].list| && looks[i].list[p[i]] == n
  }

  /** Between two looks the address falls back from where the cursor has not been to where it has. */
  ghost predicate FallsBehind(looks: seq<Look>, p: seq<nat>, i: nat) {
    |p| == |looks| && i + 1 < |looks| && p[i] >= Reach(looks[i]) && p[i + 1] < Reach(looks[i])
  }

  lemma {:induction false} ChainedAt(stored: nat, looks: seq<Look>, i: nat)
    requires Chained(stored, looks) && i < |looks|
    ensures ProperLook(looks[i])
    ensures i + 1 < |looks| ==>
              looks[i + 1].pos == Start(Next(looks[i].pos, looks[i].per, |looks[i].list|), |looks[i + 1].list|)
    decreases i
  {
    if i > 0 {
      ChainedAt(Next(looks[0].pos, looks[0].per, |looks[0].list|), looks[1..], i - 1);
    }
  }

  lemma SettledAt(stored: nat, looks: seq<Look>, i: nat, p: nat, n: int)
    requires Chained(stored, looks) && i < |looks| && p < |looks[i].list| && looks[i].list[p] == n
    requires looks[i].pos <= p < Reach(looks[i])
    ensures Settles(looks, i, n)
  {
    assert Seen(looks[i])[p - looks[i].pos] == n;
    SettledWhereSeen(stored, looks, i, n);
  }

  /** The first look that reaches beyond the address. */
  lemma FirstReach(looks: seq<Look>, p: seq<nat>, n: int) returns (i: nat)
    requires ChangingPass(looks) && Listed(looks, p, n)
    ensures i < |looks| && p[i] < Reach(looks[i]) && forall j :: 0 <= j < i ==> p[j] >= Reach(looks[j])
  {
    i := 0;
    while p[i] >= Reach(looks[i])
      invariant i < |looks| && forall j :: 0 <= j < i ==> p[j] >= Reach(looks[j])
      decreases |looks| - i
    {
      assert i < |looks| - 1;
      i := i + 1;
    }
  }

  /** Even if plan, known addresses and neighbourhood change in every cycle: an address that is listed throughout
      a pass is looked at, unless a change of the list makes it fall behind the cursor. */
  lemma ListedIsSeen(stored: nat, looks: seq<Look>, p: seq<nat>, n: int)
    requires Chained(stored, looks) && ChangingPass(looks) && Listed(looks, p, n)
    ensures (exists i :: Settles(looks, i, n)) || (exists i :: FallsBehind(looks, p, i))
  {
    var i := FirstReach(looks, p, n);
    if looks[i].pos <= p[i] {
      SettledAt(stored, looks, i, p[i], n);
    } else {
      ChainedAt(stored, looks, i - 1);
      assert FallsBehind(looks, p, i - 1);
    }
  }

  /** The same for the neighbourhood as the planner walks it. */
  lemma NearListed(c: Cursors, id: string, cycles: seq<Cycle>, m: nat, p: seq<nat>, n: int)
    requires ProperCycles(cycles)
    requires var looks := Looks(c, id, cycles, Neighbourhood, m); ChangingPass(looks) && Listed(looks, p, n)
    ensures var looks := Looks(c, id, cycles, Neighbourhood, m);
            (exists i :: Settles(looks, i, n)) || (exists i :: FallsBehind(looks, p, i))
  {
    LooksChained(c, id, cycles, Neighbourhood, m);
    ListedIsSeen(At(c, Near(id)), Looks(c, id, cycles, Neighbourhood, m), p, n);
  }

  // ---- an address that a change makes the pass miss ----

  const SMALL: Net := V4(0, 24)

  /** A cycle whose neighbourhood is the two addresses from `a` on, one of them scanned in each cycle. */
  function TwoNear(a: int): Cycle {
    Cycle("s", SMALL, Some(Plan([], Some(Discovery(None, [Some(Run(a, a + 1))], Some(1))))))
  }

  lemma SmallNet()
    ensures First(SMALL) == 1 && Usable(SMALL) == 254
  {
    Bits.PowersOfTwo();
  }

  lemma TwoNearList(a: int)
    requires 1 <= a <= 253
    ensures Discovers(TwoNear(a)) && ListOf(TwoNear(a), Neighbourhood) == [a, a + 1] && PerOf(TwoNear(a), Neighbourhood, 10) == 1
  {
    SmallNet();
    var raw := [Some(Run(a, a + 1))];
    assert raw[..0] == [];
    assert Clipped(raw, 1, 254) == [Run(a, a + 1)];
    SortOfSorted([Run(a, a + 1)]);
    TwoExpanded(a);
  }

  lemma TwoExpanded(a: int)
    ensures Expand([Run(a, a + 1)]) == [a, a + 1]
  {
    var none: seq<Run> := [];
    ExpandOne(none, Run(a, a + 1));
    assert none + [Run(a, a + 1)] == [Run(a, a + 1)] && Expand(none) == [];
    assert Range(a, 2) == [a, a + 1];
  }

  lemma LooksCons(c: Cursors, y: Cycle, rest: seq<Cycle>, m: nat)
    requires HasLook(y, "s", Neighbourhood) && ProperCycles(rest)
    ensures Looks(c, "s", [y] + rest, Neighbourhood, m)
            == [LookOf(c, y, Neighbourhood, m)] + Looks(AfterCycle(c, y, m), "s", rest, Neighbourhood, m)
  {
    assert ([y] + rest)[1..] == rest;
  }

  lemma LooksOfTwo(c: Cursors, x: Cycle, y: Cycle, m: nat)
    requires HasLook(x, "s", Neighbourhood) && HasLook(y, "s", Neighbourhood)
    ensures Looks(c, "s", [x, y], Neighbourhood, m)
            == [LookOf(c, x, Neighbourhood, m), LookOf(AfterCycle(c, x, m), y, Neighbourhood, m)]
  {
    LooksCons(c, x, [y], m);
    LooksCons(AfterCycle(c, x, m), y, [], m);
    assert [x] + [y] == [x, y] && [y] + [] == [y];
  }

  lemma FirstLook(c: Cursors, a: int, stored: nat)
    requires 1 <= a <= 253 && stored < 2 && At(c, Near("s")) == stored
    ensures var y := TwoNear(a);
            && HasLook(y, "s", Neighbourhood)
            && var l := LookOf(c, y, Neighbourhood, 10);
            && l.list == [a, a + 1] && l.pos == stored && l.per == 1
            && Seen(l) == [a + stored]
            && At(AfterCycle(c, y, 10), Near("s")) == if stored == 0 then 1 else 0
  {
    TwoNearList(a);
    OneLook(c, TwoNear(a), Neighbourhood, 10);
  }

  /** 11 is listed in both cycles of a pass, but when 10 leaves the list it falls behind the cursor: neither cycle
      looks at it. */
  lemma ChangeMisses()
    ensures var looks := Looks(map[], "s", [TwoNear(10), TwoNear(11)], Neighbourhood, 10);
            && ChangingPass(looks) && Listed(looks, [1, 0], 11) && FallsBehind(looks, [1, 0], 0)
            && forall i :: 0 <= i < |looks| ==> 11 !in Seen(looks[i])
  {
    var c: Cursors := map[];
    FirstLook(c, 10, 0);
    FirstLook(AfterCycle(c, TwoNear(10), 10), 11, 1);
    LooksOfTwo(c, TwoNear(10), TwoNear(11), 10);
    var a, b := LookOf(c, TwoNear(10), Neighbourhood, 10),
                LookOf(AfterCycle(c, TwoNear(10), 10), TwoNear(11), Neighbourhood, 10);
    MissedBetween([a, b]);
  }

  lemma MissedBetween(looks: seq<Look>)
    requires |looks| == 2 && looks[0].list == [10, 11] && looks[1].list == [11, 12]
    requires looks[0].pos == 0 && looks[1].pos == 1 && looks[0].per == looks[1].per == 1
    requires Seen(looks[0]) == [10] && Seen(looks[1]) == [12]
    ensures ChangingPass(looks) && Listed(looks, [1, 0], 11) && FallsBehind(looks, [1, 0], 0)
    ensures forall i :: 0 <= i < |looks| ==> 11 !in Seen(looks[i])
  {
  }

  // ---- other subnets in between ----

  ghost predicate SameFor(c: Cursors, e: Cursors, id: string) {
    forall k: CursorKey :: k.id == id ==> At(c, k) == At(e, k)
  }

  /** A cycle depends on the positions of its own subnet alone. */
  lemma OwnPositions(c: Cursors, e: Cursors, y: Cycle, m: nat)
    requires (y.net.V4? ==> y.net.prefix <= 32) && SameFor(c, e, y.id)
    ensures Planned(c, y.id, y.net, y.plan, m).hosts == Planned(e, y.id, y.net, y.plan, m).hosts
    ensures SameFor(AfterCycle(c, y, m), AfterCycle(e, y, m), y.id)
  {
    if y.net.V4? {
      if y.plan.None? {
        OwnChunk(c, e, y.id, y.net, m);
      } else {
        OwnTargets(c, e, y.id, y.net, y.plan.value, m);
      }
    }
  }

  lemma OwnChunk(c: Cursors, e: Cursors, id: string, net: Net, m: nat)
    requires net.V4? && net.prefix <= 32 && SameFor(c, e, id)
    ensures Chunk(c, id, net, m).hosts == Chunk(e, id, net, m).hosts
    ensures SameFor(Chunk(c, id, net, m).cursors, Chunk(e, id, net, m).cursors, id)
  {
  }

  lemma OwnTargets(c: Cursors, e: Cursors, id: string, net: Net, plan: Plan, m: nat)
    requires net.V4? && net.prefix <= 32 && SameFor(c, e, id)
    ensures Targets(c, id, net, plan, m).hosts == Targets(e, id, net, plan, m).hosts
    ensures SameFor(Targets(c, id, net, plan, m).cursors, Targets(e, id, net, plan, m).cursors, id)
  {
    var runs := Parsed(plan.known, net);
    var k, l := KnownPart(c, id, runs, m), KnownPart(e, id, runs, m);
    assert k.hosts == l.hosts && SameFor(k.cursors, l.cursors, id);
    if plan.discover.Some? {
      OwnExtra(k.cursors, l.cursors, id, runs, net, plan.discover.value, m);
    }
  }

  lemma OwnExtra(k: Cursors, l: Cursors, id: string, runs: seq<Run>, net: Net, d: Discovery, m: nat)
    requires net.V4? && net.prefix <= 32 && Sorted(runs) && SameFor(k, l, id)
    ensures Extra(k, id, runs, net, d, m).hosts == Extra(l, id, runs, net, d, m).hosts
    ensures SameFor(Extra(k, id, runs, net, d, m).cursors, Extra(l, id, runs, net, d, m).cursors, id)
  {
    var near, per := Parsed(d.near, net), Clamp(d.nearPerCycle, m);
    OwnNear(k, l, id, runs, near, per);
    OwnDiscover(NearPart(k, id, runs, near, per).cursors, NearPart(l, id, runs, near, per).cursors, id, runs,
                First(net), Usable(net), Clamp(d.perCycle, m));
  }

  lemma OwnNear(k: Cursors, l: Cursors, id: string, runs: seq<Run>, near: seq<Run>, per: nat)
    requires Sorted(runs) && SameFor(k, l, id)
    ensures NearPart(k, id, runs, near, per).hosts == NearPart(l, id, runs, near, per).hosts
    ensures SameFor(NearPart(k, id, runs, near, per).cursors, NearPart(l, id, runs, near, per).cursors, id)
  {
  }

  lemma OwnDiscover(k: Cursors, l: Cursors, id: string, runs: seq<Run>, lo: nat, total: nat, per: nat)
    requires Sorted(runs) && SameFor(k, l, id)
    ensures DiscoverPart(k, id, runs, lo, total, per).hosts == DiscoverPart(l, id, runs, lo, total, per).hosts
    ensures SameFor(DiscoverPart(k, id, runs, lo, total, per).cursors, DiscoverPart(l, id, runs, lo, total, per).cursors, id)
  {
  }

  /** What the cycles of one subnet scan, cycle by cycle. */
  function Scans(c: Cursors, id: string, cycles: seq<Cycle>, m: nat): seq<seq<int>>
    requires ProperCycles(cycles)
    decreases |cycles|
  {
    if cycles == [] then []
    else
      var y := cycles[0];
      (if y.id == id then [Planned(c, y.id, y.net, y.plan, m).hosts] else [])
      + Scans(AfterCycle(c, y, m), id, cycles[1..], m)
  }

  function Own(cycles: seq<Cycle>, id: string): (own: seq<Cycle>)
    ensures forall y :: y in own ==> y in cycles
  {
    if cycles == [] then [] else (if cycles[0].id == id then [cycles[0]] else []) + Own(cycles[1..], id)
  }

  /** The cycles of other subnets never change what a subnet's cycles scan: everything said about consecutive
      cycles of one subnet holds whatever is scanned in between. */
  lemma {:induction false} OthersInvisible(c: Cursors, e: Cursors, id: string, cycles: seq<Cycle>, m: nat)
    requires ProperCycles(cycles) && SameFor(c, e, id) && ProperCycles(Own(cycles, id))
    ensures Scans(c, id, cycles, m) == Scans(e, id, Own(cycles, id), m)
    ensures SameFor(AfterCycles(c, cycles, m), AfterCycles(e, Own(cycles, id), m), id)
    decreases |cycles|
  {
    if cycles != [] {
      var y := cycles[0];
      if y.id == id {
        OwnPositions(c, e, y, m);
        assert Own(cycles, id)[1..] == Own(cycles[1..], id);
        OthersInvisible(AfterCycle(c, y, m), AfterCycle(e, y, m), id, cycles[1..], m);
      } else {
        PlannedFrame(c, y.id, y.net, y.plan, m);
        assert Own(cycles, id) == Own(cycles[1..], id);
        OthersInvisible(AfterCycle(c, y, m), e, id, cycles[1..], m);
      }
    }
  }
}
