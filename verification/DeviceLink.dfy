/** Linking IP records to devices by the MAC of a device port (backend/ip_device_link.py).  Tables are
    sequences of rows; one run of the job without concurrent writers. */
module DeviceLink {
  import opened PyText
  import opened Wrappers

  datatype Port = Port(device: nat, mac: Option<string>)

  datatype Device = Device(name: Option<string>, customer: Option<nat>)

  /** An IP record joined with its subnet. */
  datatype Row = Row(id: nat, mac: Option<string>, hostname: Option<string>, customer: Option<nat>,
                     subnet: nat, subnetCustomer: Option<nat>, archived: bool, device: Option<nat>)

  /** What the job reads but does not change; `touched` are the records whose device was set by hand. */
  datatype Context = Context(ports: seq<Port>, devices: map<nat, Device>, touched: set<nat>, scope: Option<set<nat>>)

  const BATCH: nat := 25

  const SHARED_PREFIXES := ["00005e0001", "00005e0002", "00000c07ac", "00005e0053"]

  // ---- MAC addresses and host names ----

  function LowerHex(c: char): Option<char> {
    if '0' <= c <= '9' || 'a' <= c <= 'f' then Some(c)
    else if 'A' <= c <= 'F' then Some(c - 'A' + 'a')
    else None
  }

  /** Lower-case hexadecimal digits, everything else left out. */
  function Normalize(s: string): string {
    if s == "" then ""
    else (match LowerHex(s[0]) case None => "" case Some(c) => [c]) + Normalize(s[1..])
  }

  function MacOf(raw: Option<string>): string {
    if raw.None? then "" else Normalize(raw.value)
  }

  predicate Linkable(raw: Option<string>) {
    var m := MacOf(raw);
    && |m| == 12
    && m != "000000000000" && m != "ffffffffffff"
    && m[1] !in "13579bdf"
    && forall p :: p in SHARED_PREFIXES ==> !(p <= m)
  }

  function Strip(s: string): string
    decreases |s|
  {
    if s == "" then ""
    else if IsSpace(s[0]) then Strip(s[1..])
    else if IsSpace(s[|s| - 1]) then Strip(s[..|s| - 1])
    else s
  }

  function UpToDot(s: string): string {
    if s == "" || s[0] == '.' then "" else [s[0]] + UpToDot(s[1..])
  }

  /** `lower` is the lower-casing of the library. */
  function HostLabel(lower: string -> string, name: Option<string>): string {
    if name.None? then lower("") else lower(UpToDot(Strip(name.value)))
  }

  predicate Contradicts(lower: string -> string, hostname: Option<string>, device: Option<string>) {
    var h, d := HostLabel(lower, hostname), HostLabel(lower, device);
    h != "" && d != "" && !(d <= h) && !(h <= d)
  }

  // ---- the decision on one record ----

  datatype Outcome = Link(device: nat) | InvalidMac | Ambiguous | NoPort | Manual | Hostname | Customer

  /** The devices that have a usable port with this MAC. */
  function Owners(ports: seq<Port>, m: string): set<nat> {
    set p | p in ports && Linkable(p.mac) && MacOf(p.mac) == m :: p.device
  }

  predicate Candidate(c: Context, r: Row) {
    r.device.None? && r.mac.Some? && !r.archived && (c.scope.None? || r.subnet in c.scope.value)
  }

  function Either(a: Option<nat>, b: Option<nat>): Option<nat> {
    if a.Some? then a else b
  }

  predicate CustomersClash(r: Row, d: Device) {
    var eff := Either(r.customer, r.subnetCustomer);
    eff.Some? && d.customer.Some? && eff != d.customer
  }

  function DeviceAt(c: Context, id: nat): Device {
    if id in c.devices then c.devices[id] else Device(None, None)
  }

  ghost predicate Passes(lower: string -> string, c: Context, r: Row, dev: nat) {
    && Linkable(r.mac)
    && Owners(c.ports, MacOf(r.mac)) == {dev}
    && r.id !in c.touched
    && !Contradicts(lower, r.hostname, DeviceAt(c, dev).name)
    && !CustomersClash(r, DeviceAt(c, dev))
  }

  /** The source's tables: MACs with one owner and MACs with several. */
  datatype Macs = Macs(unique: map<string, nat>, ambiguous: set<string>)

  ghost predicate Describes(m: Macs, ports: seq<Port>) {
    && (forall mac :: mac in m.ambiguous <==> |Owners(ports, mac)| > 1)
    && (forall mac :: mac in m.unique <==> |Owners(ports, mac)| == 1)
    && (forall mac :: mac in m.unique ==> Owners(ports, mac) == {m.unique[mac]})
  }

  function Decide(lower: string -> string, c: Context, m: Macs, r: Row): Outcome {
    var mac := MacOf(r.mac);
    if !Linkable(r.mac) then InvalidMac
    else if mac in m.ambiguous then Ambiguous
    else if mac !in m.unique then NoPort
    else
      var dev := m.unique[mac];
      if r.id in c.touched then Manual
      else if Contradicts(lower, r.hostname, DeviceAt(c, dev).name) then Hostname
      else if CustomersClash(r, DeviceAt(c, dev)) then Customer
      else Link(dev)
  }

  /** A record is linked exactly when every guard passes, and then to the one owner of its MAC. */
  lemma LinkedExactly(lower: string -> string, c: Context, m: Macs, r: Row, dev: nat)
    requires Describes(m, c.ports)
    ensures Decide(lower, c, m, r) == Link(dev) <==> Passes(lower, c, r, dev)
  {
    if Owners(c.ports, MacOf(r.mac)) == {dev} {
      assert |Owners(c.ports, MacOf(r.mac))| == 1;
    }
  }

  ghost predicate Collects(byMac: map<string, set<nat>>, ports: seq<Port>) {
    && (forall mac :: mac in byMac ==> byMac[mac] == Owners(ports, mac) && byMac[mac] != {})
    && (forall mac :: mac !in byMac ==> Owners(ports, mac) == {})
  }

  function WithOwner(byMac: map<string, set<nat>>, mac: string, device: nat): map<string, set<nat>> {
    byMac[mac := (if mac in byMac then byMac[mac] else {}) + {device}]
  }

  lemma CollectsNext(byMac: map<string, set<nat>>, ports: seq<Port>, i: nat)
    requires i < |ports| && Collects(byMac, ports[..i])
    ensures Collects(if Linkable(ports[i].mac) then WithOwner(byMac, MacOf(ports[i].mac), ports[i].device) else byMac, ports[..i + 1])
  {
    var now := if Linkable(ports[i].mac) then WithOwner(byMac, MacOf(ports[i].mac), ports[i].device) else byMac;
    forall mac
      ensures mac in now ==> now[mac] == Owners(ports[..i + 1], mac) && now[mac] != {}
      ensures mac !in now ==> Owners(ports[..i + 1], mac) == {}
    {
      CollectedNext(byMac, ports, i, now, mac);
    }
  }

  lemma CollectedNext(byMac: map<string, set<nat>>, ports: seq<Port>, i: nat, now: map<string, set<nat>>, mac: string)
    requires i < |ports| && (mac in byMac ==> byMac[mac] == Owners(ports[..i], mac) != {})
    requires mac !in byMac ==> Owners(ports[..i], mac) == {}
    requires now == if Linkable(ports[i].mac) then WithOwner(byMac, MacOf(ports[i].mac), ports[i].device) else byMac
    ensures mac in now ==> now[mac] == Owners(ports[..i + 1], mac) != {}
    ensures mac !in now ==> Owners(ports[..i + 1], mac) == {}
  {
    OwnersNext(ports, i, mac);
  }

  /** MAC -> devices; a set, so that a second owner is not overwritten. */
  method ByMac(ports: seq<Port>) returns (byMac: map<string, set<nat>>)
    ensures Collects(byMac, ports)
  {
    byMac := map[];
    for i := 0 to |ports|
      invariant Collects(byMac, ports[..i])
    {
      CollectsNext(byMac, ports, i);
      if Linkable(ports[i].mac) {
        byMac := WithOwner(byMac, MacOf(ports[i].mac), ports[i].device);
      }
    }
    assert ports[..|ports|] == ports;
  }

  method CollectMacs(ports: seq<Port>) returns (m: Macs)
    ensures Describes(m, ports)
  {
    var byMac := ByMac(ports);
    forall mac | mac in byMac && |byMac[mac]| == 1 ensures exists d :: byMac[mac] == {d} {
      SingleElement(byMac[mac]);
    }
    m := Macs(map mac | mac in byMac && |byMac[mac]| == 1 :: Only(byMac[mac]),
              set mac | mac in byMac && |byMac[mac]| > 1);
  }

  lemma OwnersNext(ports: seq<Port>, i: nat, mac: string)
    requires i < |ports|
    ensures Owners(ports[..i + 1], mac)
            == Owners(ports[..i], mac) + if Linkable(ports[i].mac) && MacOf(ports[i].mac) == mac then {ports[i].device} else {}
  {
    assert ports[..i + 1] == ports[..i] + [ports[i]];
  }

  lemma SingleElement(s: set<nat>)
    requires |s| == 1
    ensures exists d :: s == {d}
  {
    var d :| d in s;
    assert |s - {d}| == 0;
    assert s == {d};
  }

  function Only(s: set<nat>): (d: nat)
    requires exists d :: s == {d}
    ensures s == {d}
  {
    var d :| d in s;
    d
  }

  // ---- the job ----

  datatype Stats = Stats(linked: nat, ambiguous: nat, manual: nat, invalidMac: nat, hostname: nat, customer: nat)

  const NO_STATS := Stats(0, 0, 0, 0, 0, 0)

  function Counted(s: Stats, o: Outcome): Stats {
    match o
    case Link(_) => s.(linked := s.linked + 1)
    case Ambiguous => s.(ambiguous := s.ambiguous + 1)
    case Manual => s.(manual := s.manual + 1)
    case InvalidMac => s.(invalidMac := s.invalidMac + 1)
    case Hostname => s.(hostname := s.hostname + 1)
    case Customer => s.(customer := s.customer + 1)
    case NoPort => s
  }

  /** The decision on a record, None when it is not a candidate. */
  type Judge = Row -> Option<Outcome>

  function JudgeOf(lower: string -> string, c: Context, m: Macs): Judge {
    r => if Candidate(c, r) then Some(Decide(lower, c, m, r)) else None
  }

  function StatsOf(judge: Judge, rows: seq<Row>): Stats {
    if rows == [] then NO_STATS
    else
      var n := |rows| - 1;
      var s := StatsOf(judge, rows[..n]);
      match judge(rows[n])
      case None => s
      case Some(o) => Counted(s, o)
  }

  function Linked(judge: Judge, r: Row): Row {
    match judge(r)
    case Some(Link(d)) => r.(device := Some(d))
    case _ => r
  }

  function AllLinked(judge: Judge, rows: seq<Row>): (out: seq<Row>)
    ensures |out| == |rows|
    ensures forall i :: 0 <= i < |rows| ==> out[i] == Linked(judge, rows[i])
  {
    seq(|rows|, i requires 0 <= i < |rows| => Linked(judge, rows[i]))
  }

  /** Some of the links that the job makes have been made, nothing else has changed. */
  ghost predicate PartlyLinked(judge: Judge, before: seq<Row>, now: seq<Row>) {
    |now| == |before| && forall i :: 0 <= i < |now| ==> now[i] == before[i] || now[i] == Linked(judge, before[i])
  }

  /** The table when the first `i` records have been dealt with. */
  function Progress(judge: Judge, rows: seq<Row>, i: nat): seq<Row>
    requires i <= |rows|
  {
    AllLinked(judge, rows[..i]) + rows[i..]
  }

  /** What the session sees then; a dry run changes nothing. */
  function Table(judge: Judge, rows: seq<Row>, dryRun: bool, i: nat): seq<Row>
    requires i <= |rows|
  {
    if dryRun then rows else Progress(judge, rows, i)
  }

  /** The job does not come to its end. */
  predicate StopsEarly(rows: seq<Row>, stopAfter: Option<nat>) {
    stopAfter.Some? && stopAfter.value < |rows|
  }

  /** How many links an interruption leaves: those of the full batches before it. */
  function FullBatchLinks(judge: Judge, rows: seq<Row>, stop: nat): (links: nat)
    requires stop <= |rows|
    ensures links % 25 == 0 && links <= StatsOf(judge, rows[..stop]).linked < links + 25
  {
    var n := StatsOf(judge, rows[..stop]).linked;
    n - n % BATCH
  }

  lemma ProgressNext(judge: Judge, rows: seq<Row>, i: nat)
    requires i < |rows|
    ensures Progress(judge, rows, i + 1) == Progress(judge, rows, i)[i := Linked(judge, rows[i])]
    ensures Progress(judge, rows, i)[i] == rows[i]
    ensures Linked(judge, rows[i]) == rows[i] ==> Progress(judge, rows, i + 1) == Progress(judge, rows, i)
    ensures StatsOf(judge, rows[..i + 1])
            == match judge(rows[i])
               case None => StatsOf(judge, rows[..i])
               case Some(o) => Counted(StatsOf(judge, rows[..i]), o)
  {
    assert rows[..i + 1][..i] == rows[..i];
  }

  lemma ProgressEnds(judge: Judge, rows: seq<Row>, i: nat)
    requires i <= |rows|
    ensures Progress(judge, rows, 0) == rows
    ensures Progress(judge, rows, |rows|) == AllLinked(judge, rows)
    ensures PartlyLinked(judge, rows, Progress(judge, rows, i))
  {
    assert rows[..|rows|] == rows;
  }

  lemma FullBatches(n: nat, next: nat)
    requires next == n + 1
    ensures next - next % BATCH == if next % BATCH == 0 then next else n - n % BATCH
  {
  }

  /** The table as this session sees it and as it is committed; an interruption leaves the latter. */
  class Linker {
    var rows: seq<Row>
    var committed: seq<Row>

    constructor (rows: seq<Row>)
      ensures this.rows == rows && committed == rows
    {
      this.rows, committed := rows, rows;
    }

    /** `stopAfter` records the job is interrupted (None: it runs to the end). */
    method LinkByPortMac(lower: string -> string, c: Context, dryRun: bool, stopAfter: Option<nat>)
      returns (stats: Stats, ghost m: Macs, ghost saved: nat)
      requires committed == rows
      modifies this
      ensures Describes(m, c.ports) && rows == committed
      ensures PartlyLinked(JudgeOf(lower, c, m), old(rows), committed)
      ensures saved <= |old(rows)| && committed == Table(JudgeOf(lower, c, m), old(rows), dryRun, saved)
      ensures StopsEarly(old(rows), stopAfter) && !dryRun ==>
                StatsOf(JudgeOf(lower, c, m), old(rows)[..saved]).linked
                == FullBatchLinks(JudgeOf(lower, c, m), old(rows), stopAfter.value)
      ensures dryRun ==> rows == committed == old(rows)
      ensures !StopsEarly(old(rows), stopAfter) && !dryRun ==> rows == committed == AllLinked(JudgeOf(lower, c, m), old(rows))
      ensures !StopsEarly(old(rows), stopAfter) ==>
                saved == |old(rows)| && stats == StatsOf(JudgeOf(lower, c, m), old(rows))
    {
      var macs := CollectMacs(c.ports);
      m := macs;
      ghost var before := rows;
      stats, saved := LinkRows(JudgeOf(lower, c, macs), dryRun, stopAfter);
      ProgressEnds(JudgeOf(lower, c, macs), before, saved);
    }

    /** `i` records have been dealt with, `saved` of them before the last commit. */
    ghost predicate UpTo(judge: Judge, before: seq<Row>, dryRun: bool, i: nat, saved: nat, pending: nat, stats: Stats)
      reads this
    {
      && saved <= i <= |before| == |rows| && rows == Table(judge, before, dryRun, i)
      && committed == Table(judge, before, dryRun, saved) && stats == StatsOf(judge, before[..i])
      && (pending == 0 ==> committed == rows) && (dryRun ==> pending == 0)
      && (!dryRun ==> pending == StatsOf(judge, before[..i]).linked
                      && StatsOf(judge, before[..saved]).linked == pending - pending % BATCH)
    }

    method LinkRows(judge: Judge, dryRun: bool, stopAfter: Option<nat>) returns (stats: Stats, ghost saved: nat)
      requires committed == rows
      modifies this
      ensures saved <= |old(rows)| && rows == committed
      ensures committed == Table(judge, old(rows), dryRun, saved)
      ensures if StopsEarly(old(rows), stopAfter)
              then dryRun || StatsOf(judge, old(rows)[..saved]).linked == FullBatchLinks(judge, old(rows), stopAfter.value)
              else saved == |old(rows)| && stats == StatsOf(judge, old(rows))
    {
      stats := NO_STATS;
      var pending: nat := 0;
      ghost var before := rows;
      saved := 0;
      NothingYet(judge, dryRun);
      for i := 0 to |rows|
        invariant UpTo(judge, before, dryRun, i, saved, pending, stats)
        invariant stopAfter.Some? ==> i <= stopAfter.value
      {
        if stopAfter.Some? && i >= stopAfter.value {
          Rollback(judge, dryRun, i, pending, before, saved, stats);
          return;
        }
        stats, pending, saved := LinkRow(judge, dryRun, i, stats, pending, before, saved);
      }
      CommitRest(judge, dryRun, pending, before, saved, stats);
      saved := |before|;
    }

    lemma NothingYet(judge: Judge, dryRun: bool)
      requires committed == rows
      ensures UpTo(judge, rows, dryRun, 0, 0, 0, NO_STATS)
    {
      ProgressEnds(judge, rows, 0);
    }

    /** What an interruption leaves. */
    method Rollback(ghost judge: Judge, ghost dryRun: bool, ghost i: nat, ghost pending: nat, ghost before: seq<Row>,
                    ghost saved: nat, ghost stats: Stats)
      requires UpTo(judge, before, dryRun, i, saved, pending, stats)
      modifies this`rows
      ensures rows == committed == Table(judge, before, dryRun, saved)
      ensures dryRun || StatsOf(judge, before[..saved]).linked == FullBatchLinks(judge, before, i)
    {
      rows := committed;
    }

    /** The commit after the last record. */
    method CommitRest(ghost judge: Judge, dryRun: bool, pending: nat, ghost before: seq<Row>, ghost saved: nat,
                      ghost stats: Stats)
      requires UpTo(judge, before, dryRun, |before|, saved, pending, stats)
      modifies this`committed
      ensures committed == rows == Table(judge, before, dryRun, |before|)
      ensures stats == StatsOf(judge, before) == StatsOf(judge, before[..|before|])
    {
      assert before[..|before|] == before;
      if !dryRun && pending != 0 {
        committed := rows;
      }
    }

    method LinkRow(judge: Judge, dryRun: bool, i: nat, stats: Stats, pending: nat, ghost before: seq<Row>, ghost saved: nat)
        returns (counted: Stats, left: nat, ghost stored: nat)
      requires UpTo(judge, before, dryRun, i, saved, pending, stats) && i < |before|
      modifies this
      ensures UpTo(judge, before, dryRun, i + 1, stored, left, counted)
    {
      ProgressNext(judge, before, i);
      counted, left, stored := stats, pending, saved;
      var verdict := judge(rows[i]);
      if verdict.Some? {
        var o := verdict.value;
        counted := Counted(stats, o);
        if !dryRun && o.Link? {
          rows := rows[i := rows[i].(device := Some(o.device))];
          left := pending + 1;
          FullBatches(pending, left);
          if left % BATCH == 0 {
            committed := rows;
            stored := i + 1;
          }
        }
      }
    }
  }

  // ---- what the job guarantees ----

  /** The decision never concerns a record that has a device. */
  ghost predicate LeavesLinked(judge: Judge) {
    forall r: Row :: r.device.Some? ==> judge(r) == None
  }

  lemma JudgeLeavesLinked(lower: string -> string, c: Context, m: Macs)
    ensures LeavesLinked(JudgeOf(lower, c, m))
  {
  }

  /** Existing links are never changed, and everything but the device of a record stays as it is. */
  lemma OnlyEmptyFilled(lower: string -> string, c: Context, m: Macs, r: Row)
    requires Describes(m, c.ports)
    ensures var out := Linked(JudgeOf(lower, c, m), r);
            && out.(device := r.device) == r
            && (r.device.Some? ==> out == r)
            && (forall dev: nat :: r.device.None? ==>
                  (out.device == Some(dev) <==> Candidate(c, r) && Passes(lower, c, r, dev)))
  {
    forall dev: nat ensures Decide(lower, c, m, r) == Link(dev) <==> Passes(lower, c, r, dev) {
      LinkedExactly(lower, c, m, r, dev);
    }
  }

  /** Wherever an earlier run was interrupted, running the job again reaches the state that an
      uninterrupted run would have reached. */
  lemma RerunCompletes(judge: Judge, before: seq<Row>, now: seq<Row>)
    requires LeavesLinked(judge) && PartlyLinked(judge, before, now)
    ensures AllLinked(judge, now) == AllLinked(judge, before)
  {
    forall i | 0 <= i < |now| ensures AllLinked(judge, now)[i] == AllLinked(judge, before)[i] {
      assert now[i] == before[i] || now[i] == Linked(judge, before[i]);
    }
  }

  /** A second run links nothing and skips what the first run skipped. */
  lemma {:induction false} SecondRun(judge: Judge, rows: seq<Row>)
    requires LeavesLinked(judge)
    ensures StatsOf(judge, AllLinked(judge, rows)) == StatsOf(judge, rows).(linked := 0)
  {
    if rows != [] {
      var n := |rows| - 1;
      SecondRun(judge, rows[..n]);
      var out := AllLinked(judge, rows);
      assert out[..n] == AllLinked(judge, rows[..n]);
    }
  }

  /** How many candidates there are, and how many of them have no port with their MAC. */
  function CountOf(judge: Judge, rows: seq<Row>): (nat, nat) {
    if rows == [] then (0, 0)
    else
      var n := |rows| - 1;
      var (all, none) := CountOf(judge, rows[..n]);
      match judge(rows[n])
      case None => (all, none)
      case Some(NoPort) => (all + 1, none + 1)
      case Some(_) => (all + 1, none)
  }

  /** Every candidate is counted in exactly one place, or has no port with its MAC. */
  lemma {:induction false} CandidatesCountedOnce(judge: Judge, rows: seq<Row>)
    ensures var s, (all, none) := StatsOf(judge, rows), CountOf(judge, rows);
            s.linked + s.ambiguous + s.manual + s.invalidMac + s.hostname + s.customer + none == all
  {
    if rows != [] {
      CandidatesCountedOnce(judge, rows[..|rows| - 1]);
    }
  }
}
