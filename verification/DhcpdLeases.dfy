/** Replaying the lease log of ISC dhcpd (agent/jt_ipam_agent.py): later records replace earlier ones. */
module DhcpdLeases {
  import opened Integers
  import opened Wrappers
  import opened PyDict
  import opened DhcpdSyntax
  import opened DhcpdConf

  /** Reading a time of the form `epoch N` and one of the form `W YYYY/MM/DD HH:MM:SS`. */
  datatype Clock = Clock(epoch: string -> Option<int>, stamp: (string, string) -> Option<int>)

  datatype Lease = Lease(state: string, mac: Option<string>, hostname: Option<string>, never: bool, ends: Option<int>)

  const NO_LEASE := Lease("", None, None, false, None)

  datatype Report = Report(ip: nat, lease: Lease)

  type Leases = Dict<nat, Lease>

  type Hosts = Dict<string, seq<Reservation>>

  /** (never expires, time) */
  function TimeOf(lib: Lib, clock: Clock, ws: seq<string>): (bool, Option<int>) {
    if ws == [] then (false, None)
    else if lib.lower(ws[0]) == "never" then (true, None)
    else if lib.lower(ws[0]) == "epoch" && |ws| >= 2 then (false, clock.epoch(ws[1]))
    else if |ws| >= 3 then (false, clock.stamp(ws[1], ws[2]))
    else (false, None)
  }

  function LeaseStmt(lib: Lib, clock: Clock, l: Lease, node: Node): Lease {
    if node.Block? || node.words == [] then l
    else
      var w, k := node.words, lib.lower(node.words[0]);
      if k == "binding" && |w| >= 3 && lib.lower(w[1]) == "state" then l.(state := lib.lower(w[2]))
      else if k == "ends" then
        var (never, ends) := TimeOf(lib, clock, w[1..]);
        l.(never := never, ends := ends)
      else if k == "hardware" && |w| >= 3 then l.(mac := lib.mac(w[2]))
      else if k == "client-hostname" && |w| >= 2 then l.(hostname := Some(w[1]))
      else l
  }

  /** What one lease record says; nothing is carried over from earlier records. */
  function LeaseOf(lib: Lib, clock: Clock, kids: seq<Node>): Lease {
    if kids == [] then NO_LEASE
    else LeaseStmt(lib, clock, LeaseOf(lib, clock, kids[..|kids| - 1]), kids[|kids| - 1])
  }

  /** The address that a node of the log is a lease record for. */
  function LeaseAddress(lib: Lib, node: Node): Option<nat> {
    if node.Block? && |node.words| >= 2 && lib.lower(node.words[0]) == "lease" then lib.ip4(node.words[1]) else None
  }

  /** The name that a node of the log is a host record for. */
  function HostLabel(lib: Lib, node: Node): Option<string> {
    if node.Block? && |node.words| >= 2 && lib.lower(node.words[0]) == "host" then Some(node.words[1]) else None
  }

  predicate IsDeleted(lib: Lib, kids: seq<Node>) {
    exists k :: k in kids && k.Stmt? && k.words != [] && lib.lower(k.words[0]) == "deleted"
  }

  function ReplayLease(lib: Lib, clock: Clock, d: Leases, node: Node): Leases {
    match LeaseAddress(lib, node)
    case None => d
    case Some(ip) => Put(PyDict.Pop(d, ip), ip, LeaseOf(lib, clock, node.kids))
  }

  function ReplayHost(lib: Lib, d: Hosts, node: Node): Hosts {
    match HostLabel(lib, node)
    case None => d
    case Some(name) =>
      if IsDeleted(lib, node.kids) then PyDict.Pop(d, name)
      else Put(d, name, Reservations(lib, name, node.kids))
  }

  function Replay(lib: Lib, clock: Clock, nodes: seq<Node>): (Leases, Hosts) {
    if nodes == [] then ([], [])
    else
      var n := |nodes| - 1;
      var (leases, hosts) := Replay(lib, clock, nodes[..n]);
      (ReplayLease(lib, clock, leases, nodes[n]), ReplayHost(lib, hosts, nodes[n]))
  }

  predicate IsActive(l: Lease, now: int) {
    l.state == "active" && (l.never || (l.ends.Some? && l.ends.value > now))
  }

  /** The active leases in the order of the table. */
  function ActiveOf(d: Leases, now: int): seq<Report> {
    if d == [] then []
    else
      var n := |d| - 1;
      ActiveOf(d[..n], now) + if IsActive(d[n].val, now) then [Report(d[n].key, d[n].val)] else []
  }

  function InsertByIp(r: Report, s: seq<Report>): seq<Report> {
    if s == [] then [r] else if r.ip <= s[0].ip then [r] + s else [s[0]] + InsertByIp(r, s[1..])
  }

  function SortByIp(s: seq<Report>): seq<Report> {
    if s == [] then [] else InsertByIp(s[0], SortByIp(s[1..]))
  }

  function Flatten(d: Hosts): seq<Reservation> {
    if d == [] then [] else Flatten(d[..|d| - 1]) + d[|d| - 1].val
  }

  method ParseLease(lib: Lib, clock: Clock, kids: seq<Node>) returns (l: Lease)
    ensures l == LeaseOf(lib, clock, kids)
  {
    l := NO_LEASE;
    for i := 0 to |kids|
      invariant l == LeaseOf(lib, clock, kids[..i])
    {
      assert kids[..i + 1][..i] == kids[..i];
      l := LeaseStmt(lib, clock, l, kids[i]);
    }
    assert kids[..|kids|] == kids;
  }

  method ParseLeases(lib: Lib, clock: Clock, text: string, now: int, maxLeases: nat, maxReservations: nat)
    returns (leases: seq<Report>, reservations: seq<Reservation>)
    ensures var (latest, hosts) := Replay(lib, clock, Tree(text));
            && leases == SortByIp(Capped(ActiveOf(latest, now), maxLeases))
            && reservations == Capped(Flatten(hosts), maxReservations)
  {
    var nodes := BuildTree(text);
    var latest: Leases, hosts: Hosts := [], [];
    for i := 0 to |nodes|
      invariant (latest, hosts) == Replay(lib, clock, nodes[..i])
    {
      assert nodes[..i + 1][..i] == nodes[..i];
      var node := nodes[i];
      if node.Stmt? || |node.words| < 2 {
        continue;
      }
      var key := lib.lower(node.words[0]);
      if key == "lease" {
        var ip := lib.ip4(node.words[1]);
        if ip.Some? {
          var info := ParseLease(lib, clock, node.kids);
          latest := PyDict.Pop(latest, ip.value);
          latest := Put(latest, ip.value, info);
        }
      } else if key == "host" {
        if IsDeleted(lib, node.kids) {
          hosts := PyDict.Pop(hosts, node.words[1]);
        } else {
          var rs := ParseHost(lib, node.words[1], node.kids);
          hosts := Put(hosts, node.words[1], rs);
        }
      }
    }
    assert nodes[..|nodes|] == nodes;
    leases := CollectActive(latest, now, maxLeases);
    leases := SortByIp(leases);
    reservations := Capped(Flatten(hosts), maxReservations);
  }

  method CollectActive(latest: Leases, now: int, cap: nat) returns (leases: seq<Report>)
    ensures leases == Capped(ActiveOf(latest, now), cap)
  {
    leases := [];
    for i := 0 to |latest|
      invariant leases == ActiveOf(latest[..i], now) && |leases| <= cap
    {
      assert latest[..i + 1][..i] == latest[..i];
      var info := latest[i].val;
      if info.state != "active" {
        continue;
      }
      if !info.never && (info.ends.None? || info.ends.value <= now) {
        continue;
      }
      if |leases| >= cap {
        ActivePrefix(latest, i, now);
        return;
      }
      leases := leases + [Report(latest[i].key, info)];
    }
    assert latest[..|latest|] == latest;
  }

  lemma {:induction false} ActivePrefix(d: Leases, i: nat, now: int)
    requires i <= |d|
    ensures ActiveOf(d[..i], now) <= ActiveOf(d, now)
    decreases |d|
  {
    if i < |d| {
      ActivePrefix(d[..|d| - 1], i, now);
      assert d[..|d| - 1][..i] == d[..i];
    } else {
      assert d[..i] == d;
    }
  }

  // ---- the specification: only the last record of an address counts ----

  function LastLease(lib: Lib, clock: Clock, nodes: seq<Node>, ip: nat): Option<Lease> {
    if nodes == [] then None
    else
      var n := |nodes| - 1;
      if LeaseAddress(lib, nodes[n]) == Some(ip) then Some(LeaseOf(lib, clock, nodes[n].kids))
      else LastLease(lib, clock, nodes[..n], ip)
  }

  /** The reservations of the last record of a host, unless that record deletes it. */
  function LastHost(lib: Lib, nodes: seq<Node>, name: string): Option<seq<Reservation>> {
    if nodes == [] then None
    else
      var n := |nodes| - 1;
      if HostLabel(lib, nodes[n]) == Some(name) then
        if IsDeleted(lib, nodes[n].kids) then None else Some(Reservations(lib, name, nodes[n].kids))
      else LastHost(lib, nodes[..n], name)
  }

  /** Position of the last record for `ip`, if there is one. */
  function LastPosition(lib: Lib, nodes: seq<Node>, ip: nat): int {
    if nodes == [] then -1
    else
      var n := |nodes| - 1;
      if LeaseAddress(lib, nodes[n]) == Some(ip) then n else LastPosition(lib, nodes[..n], ip)
  }

  lemma {:induction false} ReplayUnique(lib: Lib, clock: Clock, nodes: seq<Node>)
    ensures UniqueKeys(Replay(lib, clock, nodes).0) && UniqueKeys(Replay(lib, clock, nodes).1)
  {
    if nodes != [] {
      var n := |nodes| - 1;
      ReplayUnique(lib, clock, nodes[..n]);
      var (leases, hosts) := Replay(lib, clock, nodes[..n]);
      if LeaseAddress(lib, nodes[n]).Some? {
        var ip := LeaseAddress(lib, nodes[n]).value;
        PopItems(leases, ip);
        PutUnique(PyDict.Pop(leases, ip), ip, LeaseOf(lib, clock, nodes[n].kids));
      }
      if HostLabel(lib, nodes[n]).Some? {
        var name := HostLabel(lib, nodes[n]).value;
        PopItems(hosts, name);
        PutUnique(hosts, name, Reservations(lib, name, nodes[n].kids));
      }
    }
  }

  /** The table of leases holds, for every address, exactly its last record. */
  lemma {:induction false} LastRecordWins(lib: Lib, clock: Clock, nodes: seq<Node>, ip: nat)
    ensures Get(Replay(lib, clock, nodes).0, ip) == LastLease(lib, clock, nodes, ip)
  {
    if nodes != [] {
      var n := |nodes| - 1;
      LastRecordWins(lib, clock, nodes[..n], ip);
      ReplayUnique(lib, clock, nodes[..n]);
      var leases := Replay(lib, clock, nodes[..n]).0;
      if LeaseAddress(lib, nodes[n]).Some? {
        var a := LeaseAddress(lib, nodes[n]).value;
        PopItems(leases, a);
        GetPop(leases, a, ip);
        GetPut(PyDict.Pop(leases, a), a, LeaseOf(lib, clock, nodes[n].kids), ip);
      }
    }
  }

  /** A host is reported exactly when its last record is not a deletion, with that record's contents. */
  lemma {:induction false} LastHostWins(lib: Lib, clock: Clock, nodes: seq<Node>, name: string)
    ensures Get(Replay(lib, clock, nodes).1, name) == LastHost(lib, nodes, name)
  {
    if nodes != [] {
      var n := |nodes| - 1;
      LastHostWins(lib, clock, nodes[..n], name);
      ReplayUnique(lib, clock, nodes[..n]);
      var hosts := Replay(lib, clock, nodes[..n]).1;
      if HostLabel(lib, nodes[n]).Some? {
        var a := HostLabel(lib, nodes[n]).value;
        GetPop(hosts, a, name);
        GetPut(hosts, a, Reservations(lib, a, nodes[n].kids), name);
      }
    }
  }

  ghost predicate ByPosition(lib: Lib, nodes: seq<Node>, d: Leases) {
    forall i, j :: 0 <= i < j < |d| ==> LastPosition(lib, nodes, d[i].key) < LastPosition(lib, nodes, d[j].key)
  }

  lemma {:induction false} PositionBelow(lib: Lib, nodes: seq<Node>, ip: nat)
    ensures LastPosition(lib, nodes, ip) < |nodes|
  {
    if nodes != [] {
      PositionBelow(lib, nodes[..|nodes| - 1], ip);
    }
  }

  lemma PopByPosition(lib: Lib, nodes: seq<Node>, d: Leases, ip: nat)
    requires ByPosition(lib, nodes, d)
    ensures ByPosition(lib, nodes, PyDict.Pop(d, ip))
  {
  }

  /** A new record moves its address behind all others, whose positions stay. */
  lemma PositionsNext(lib: Lib, nodes: seq<Node>, p: Leases, ip: nat, info: Lease)
    requires nodes != [] && LeaseAddress(lib, nodes[|nodes| - 1]) == Some(ip)
    requires ByPosition(lib, nodes[..|nodes| - 1], p) && forall it :: it in p ==> it.key != ip
    ensures ByPosition(lib, nodes, p + [PyDict.Item(ip, info)])
  {
    var n := |nodes| - 1;
    forall i | 0 <= i < |p|
      ensures LastPosition(lib, nodes, p[i].key) == LastPosition(lib, nodes[..n], p[i].key) < n
    {
      assert p[i] in p;
      PositionBelow(lib, nodes[..n], p[i].key);
    }
  }

  /** The table lists the addresses in the order of their last records. */
  lemma {:induction false} TableByPosition(lib: Lib, clock: Clock, nodes: seq<Node>)
    ensures ByPosition(lib, nodes, Replay(lib, clock, nodes).0)
  {
    if nodes != [] {
      var n := |nodes| - 1;
      TableByPosition(lib, clock, nodes[..n]);
      ReplayUnique(lib, clock, nodes[..n]);
      var leases := Replay(lib, clock, nodes[..n]).0;
      match LeaseAddress(lib, nodes[n])
      case None =>
        assert forall k :: LastPosition(lib, nodes, k) == LastPosition(lib, nodes[..n], k);
      case Some(ip) =>
        PopItems(leases, ip);
        PopByPosition(lib, nodes[..n], leases, ip);
        PutAbsent(PyDict.Pop(leases, ip), ip, LeaseOf(lib, clock, nodes[n].kids));
        PositionsNext(lib, nodes, PyDict.Pop(leases, ip), ip, LeaseOf(lib, clock, nodes[n].kids));
    }
  }

  lemma {:induction false} ActiveItems(d: Leases, now: int, r: Report)
    ensures r in ActiveOf(d, now) <==> Item(r.ip, r.lease) in d && IsActive(r.lease, now)
  {
    if d != [] {
      ActiveItems(d[..|d| - 1], now, r);
      assert d == d[..|d| - 1] + [d[|d| - 1]];
    }
  }

  ghost predicate ReportsByPosition(lib: Lib, nodes: seq<Node>, s: seq<Report>) {
    forall i, j :: 0 <= i < j < |s| ==> LastPosition(lib, nodes, s[i].ip) < LastPosition(lib, nodes, s[j].ip)
  }

  lemma {:induction false} ActiveByPosition(lib: Lib, nodes: seq<Node>, d: Leases, now: int)
    requires ByPosition(lib, nodes, d)
    ensures ReportsByPosition(lib, nodes, ActiveOf(d, now))
  {
    if d != [] {
      var n := |d| - 1;
      var s := ActiveOf(d[..n], now);
      ActiveByPosition(lib, nodes, d[..n], now);
      forall i | 0 <= i < |s| ensures LastPosition(lib, nodes, s[i].ip) < LastPosition(lib, nodes, d[n].key) {
        ActiveItems(d[..n], now, s[i]);
      }
    }
  }

  ghost predicate Ascending(s: seq<Report>) {
    forall i, j :: 0 <= i < j < |s| ==> s[i].ip < s[j].ip
  }

  lemma {:induction false} InsertAscending(r: Report, s: seq<Report>)
    requires Ascending(s) && forall x :: x in s ==> x.ip != r.ip
    ensures Ascending(InsertByIp(r, s)) && forall x :: x in InsertByIp(r, s) <==> x == r || x in s
  {
    if s != [] {
      assert s == [s[0]] + s[1..];
      if r.ip > s[0].ip {
        InsertAscending(r, s[1..]);
        var t := InsertByIp(r, s[1..]);
        forall j | 0 <= j < |t| ensures s[0].ip < t[j].ip {
          assert t[j] in t;
        }
      }
    }
  }

  lemma {:induction false} SortAscending(s: seq<Report>)
    requires forall i, j :: 0 <= i < j < |s| ==> s[i].ip != s[j].ip
    ensures Ascending(SortByIp(s)) && forall x :: x in SortByIp(s) <==> x in s
  {
    if s != [] {
      assert s == [s[0]] + s[1..];
      SortAscending(s[1..]);
      InsertAscending(s[0], SortByIp(s[1..]));
    }
  }

  function Reported(lib: Lib, clock: Clock, nodes: seq<Node>, now: int, cap: nat): seq<Report> {
    SortByIp(Capped(ActiveOf(Replay(lib, clock, nodes).0, now), cap))
  }

  /** The last record of the address is active and not expired. */
  predicate Current(lib: Lib, clock: Clock, nodes: seq<Node>, r: Report, now: int) {
    LastLease(lib, clock, nodes, r.ip) == Some(r.lease) && IsActive(r.lease, now)
  }

  lemma ActiveAreCurrent(lib: Lib, clock: Clock, nodes: seq<Node>, now: int, r: Report)
    ensures r in ActiveOf(Replay(lib, clock, nodes).0, now) <==> Current(lib, clock, nodes, r, now)
  {
    ActiveItems(Replay(lib, clock, nodes).0, now, r);
    ReplayUnique(lib, clock, nodes);
    LastRecordWins(lib, clock, nodes, r.ip);
    GetIn(Replay(lib, clock, nodes).0, r.ip, r.lease);
  }

  /** The addresses in the log whose last record is active and not expired. */
  function CurrentAddresses(lib: Lib, clock: Clock, nodes: seq<Node>, now: int): set<nat> {
    set n | n in nodes && LeaseAddress(lib, n).Some?
            && LastLease(lib, clock, nodes, LeaseAddress(lib, n).value).Some?
            && IsActive(LastLease(lib, clock, nodes, LeaseAddress(lib, n).value).value, now) :: LeaseAddress(lib, n).value
  }

  function Ips(s: seq<Report>): set<nat> {
    set r | r in s :: r.ip
  }

  lemma {:induction false} IpsCount(s: seq<Report>)
    requires forall i, j :: 0 <= i < j < |s| ==> s[i].ip != s[j].ip
    ensures |Ips(s)| == |s|
  {
    if s != [] {
      var n := |s| - 1;
      IpsCount(s[..n]);
      assert s == s[..n] + [s[n]];
      assert Ips(s) == Ips(s[..n]) + {s[n].ip};
      assert s[n].ip !in Ips(s[..n]);
    }
  }

  lemma {:induction false} LastLeaseIn(lib: Lib, clock: Clock, nodes: seq<Node>, ip: nat)
    requires LastLease(lib, clock, nodes, ip).Some?
    ensures exists n :: n in nodes && LeaseAddress(lib, n) == Some(ip)
  {
    var n := |nodes| - 1;
    assert nodes[n] in nodes;
    if LeaseAddress(lib, nodes[n]) != Some(ip) {
      LastLeaseIn(lib, clock, nodes[..n], ip);
    }
  }

  /** The table holds one active entry for each current address. */
  lemma CurrentCount(lib: Lib, clock: Clock, nodes: seq<Node>, now: int)
    ensures |ActiveOf(Replay(lib, clock, nodes).0, now)| == |CurrentAddresses(lib, clock, nodes, now)|
  {
    var active := ActiveOf(Replay(lib, clock, nodes).0, now);
    TableByPosition(lib, clock, nodes);
    ActiveByPosition(lib, nodes, Replay(lib, clock, nodes).0, now);
    IpsCount(active);
    forall ip ensures ip in Ips(active) <==> ip in CurrentAddresses(lib, clock, nodes, now) {
      var l := LastLease(lib, clock, nodes, ip);
      if l.Some? {
        LastLeaseIn(lib, clock, nodes, ip);
        ActiveAreCurrent(lib, clock, nodes, now, Report(ip, l.value));
      }
      if ip in Ips(active) {
        var r :| r in active && r.ip == ip;
        ActiveAreCurrent(lib, clock, nodes, now, r);
      }
    }
    assert Ips(active) == CurrentAddresses(lib, clock, nodes, now);
  }

  lemma {:induction false} InsertLength(r: Report, s: seq<Report>)
    ensures |InsertByIp(r, s)| == |s| + 1
  {
    if s != [] && r.ip > s[0].ip {
      InsertLength(r, s[1..]);
    }
  }

  lemma {:induction false} SortLength(s: seq<Report>)
    ensures |SortByIp(s)| == |s|
  {
    if s != [] {
      SortLength(s[1..]);
      InsertLength(s[0], SortByIp(s[1..]));
    }
  }

  lemma ReportedCount(lib: Lib, clock: Clock, nodes: seq<Node>, now: int, cap: nat)
    ensures |Reported(lib, clock, nodes, now, cap)| == Min(cap, |CurrentAddresses(lib, clock, nodes, now)|)
  {
    CurrentCount(lib, clock, nodes, now);
    SortLength(Capped(ActiveOf(Replay(lib, clock, nodes).0, now), cap));
  }

  /** Addresses are reported in numerical order, each at most once, and exactly the current leases are
      reported as long as they fit; a full report contains as many as the limit allows, and what it leaves
      out was last recorded later than everything it contains. */
  lemma ReportedExactly(lib: Lib, clock: Clock, nodes: seq<Node>, now: int, cap: nat)
    ensures var out := Reported(lib, clock, nodes, now, cap);
            && Ascending(out)
            && (forall r :: r in out ==> Current(lib, clock, nodes, r, now))
            && (forall r, x :: Current(lib, clock, nodes, r, now) && r !in out && x in out ==>
                  LastPosition(lib, nodes, x.ip) < LastPosition(lib, nodes, r.ip))
            && |out| == Min(cap, |CurrentAddresses(lib, clock, nodes, now)|)
            && (|CurrentAddresses(lib, clock, nodes, now)| <= cap ==>
                  forall r :: Current(lib, clock, nodes, r, now) ==> r in out)
  {
    ReportedCount(lib, clock, nodes, now, cap);
    assert |ActiveOf(Replay(lib, clock, nodes).0, now)| == |CurrentAddresses(lib, clock, nodes, now)| by {
      CurrentCount(lib, clock, nodes, now);
    }
    var active := ActiveOf(Replay(lib, clock, nodes).0, now);
    var kept := Capped(active, cap);
    TableByPosition(lib, clock, nodes);
    ActiveByPosition(lib, nodes, Replay(lib, clock, nodes).0, now);
    assert ReportsByPosition(lib, nodes, kept);
    SortAscending(kept);
    forall r ensures Current(lib, clock, nodes, r, now) <==> r in active {
      ActiveAreCurrent(lib, clock, nodes, now, r);
    }
    forall r, x | r in active && r !in kept && x in kept
      ensures LastPosition(lib, nodes, x.ip) < LastPosition(lib, nodes, r.ip)
    {
      var i :| 0 <= i < |active| && active[i] == r;
      var j :| 0 <= j < |kept| && kept[j] == x;
      assert forall k :: 0 <= k < |kept| ==> kept[k] == active[k] && kept[k] != r;
      assert i >= |kept|;
    }
  }
}
