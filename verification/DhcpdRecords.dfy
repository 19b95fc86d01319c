/** Which records of the lease log count and what they say, with their keywords written out. */
module DhcpdRecords {
  import opened Wrappers
  import opened DhcpdSyntax
  import opened DhcpdConf
  import opened DhcpdStatements
  import opened DhcpdLeases

  // ---- lease records ----

  function StateIn(lib: Lib): Node -> Option<string> {
    k => if Says(lib, k, "binding", 3) && lib.lower(k.words[1]) == "state" then Some(lib.lower(k.words[2])) else None
  }

  function EndIn(lib: Lib): Node -> Option<seq<string>> {
    k => if Says(lib, k, "ends", 1) then Some(k.words[1..]) else None
  }

  function ClientNameIn(lib: Lib): Node -> Option<string> {
    k => if Says(lib, k, "client-hostname", 2) then Some(k.words[1]) else None
  }

  /** `never`, in any case. */
  predicate Never(lib: Lib, ws: seq<string>) {
    ws != [] && lib.lower(ws[0]) == "never"
  }

  /** `epoch N`, or a day of the week, a date and a time, as far as they can be read. */
  predicate EndsAt(lib: Lib, clock: Clock, ws: seq<string>, t: int) {
    && ws != [] && lib.lower(ws[0]) != "never"
    && if lib.lower(ws[0]) == "epoch" && |ws| >= 2 then clock.epoch(ws[1]) == Some(t)
       else |ws| >= 3 && clock.stamp(ws[1], ws[2]) == Some(t)
  }

  lemma TimeExactly(lib: Lib, clock: Clock, ws: seq<string>, t: int)
    ensures TimeOf(lib, clock, ws).0 <==> Never(lib, ws)
    ensures TimeOf(lib, clock, ws).1 == Some(t) <==> EndsAt(lib, clock, ws, t)
  {
    assert "epoch" != "never" by {
      assert "epoch"[0] != "never"[0];
    }
  }

  /** State, end, MAC and name are those of the last statements of their kinds. */
  lemma {:induction false} RecordExactly(lib: Lib, clock: Clock, kids: seq<Node>)
    ensures var l := LeaseOf(lib, clock, kids);
            && l.state == Else(LastSaid(kids, StateIn(lib)), "")
            && (l.never, l.ends) == TimeOf(lib, clock, Else(LastSaid(kids, EndIn(lib)), []))
            && l.mac == Else(LastSaid(kids, HardwareIn(lib)), None)
            && l.hostname == LastSaid(kids, ClientNameIn(lib))
  {
    if kids != [] {
      var n := |kids| - 1;
      RecordExactly(lib, clock, kids[..n]);
      StatementOfRecord(lib, clock, LeaseOf(lib, clock, kids[..n]), kids[n]);
    }
  }

  lemma StatementOfRecord(lib: Lib, clock: Clock, l: Lease, node: Node)
    ensures var n := LeaseStmt(lib, clock, l, node);
            && n.state == Else(StateIn(lib)(node), l.state)
            && (n.never, n.ends) == (if EndIn(lib)(node).Some? then TimeOf(lib, clock, EndIn(lib)(node).value) else (l.never, l.ends))
            && n.mac == Else(HardwareIn(lib)(node), l.mac)
            && n.hostname == (if ClientNameIn(lib)(node).Some? then ClientNameIn(lib)(node) else l.hostname)
  {
    assert |"binding"| == 7 && |"ends"| == 4 && |"hardware"| == 8 && |"client-hostname"| == 15;
    assert StateIn(lib)(node)
           == if Says(lib, node, "binding", 3) && lib.lower(node.words[1]) == "state" then Some(lib.lower(node.words[2])) else None;
    assert HardwareIn(lib)(node) == if Says(lib, node, "hardware", 3) then Some(lib.mac(node.words[2])) else None;
    assert EndIn(lib)(node) == if Says(lib, node, "ends", 1) then Some(node.words[1..]) else None;
    assert ClientNameIn(lib)(node) == if Says(lib, node, "client-hostname", 2) then Some(node.words[1]) else None;
  }

  /** The last state is `active`, and the last end is `never` or later than now. */
  ghost predicate StillRuns(lib: Lib, clock: Clock, kids: seq<Node>, now: int) {
    && LastSaid(kids, StateIn(lib)) == Some("active")
    && exists ws :: LastSaid(kids, EndIn(lib)) == Some(ws)
         && (Never(lib, ws) || exists t :: EndsAt(lib, clock, ws, t) && t > now)
  }

  lemma ActiveExactly(lib: Lib, clock: Clock, kids: seq<Node>, now: int)
    ensures IsActive(LeaseOf(lib, clock, kids), now) <==> StillRuns(lib, clock, kids, now)
  {
    RecordExactly(lib, clock, kids);
    var ws := Else(LastSaid(kids, EndIn(lib)), []);
    forall t ensures TimeOf(lib, clock, ws).1 == Some(t) <==> EndsAt(lib, clock, ws, t) {
      TimeExactly(lib, clock, ws, t);
    }
    TimeExactly(lib, clock, ws, 0);
    var ends := TimeOf(lib, clock, ws).1;
    if ends.Some? {
      assert EndsAt(lib, clock, ws, ends.value);
    }
  }

  // ---- the log ----

  /** A block `lease` for this address. */
  predicate LeaseRecord(lib: Lib, node: Node, ip: nat) {
    node.Block? && |node.words| >= 2 && lib.lower(node.words[0]) == "lease" && lib.ip4(node.words[1]) == Some(ip)
  }

  ghost predicate LastLeaseRecord(lib: Lib, nodes: seq<Node>, ip: nat, i: nat) {
    i < |nodes| && LeaseRecord(lib, nodes[i], ip) && forall k :: i < k < |nodes| ==> !LeaseRecord(lib, nodes[k], ip)
  }

  lemma {:induction false} LastLeaseExactly(lib: Lib, clock: Clock, nodes: seq<Node>, ip: nat, i: nat)
    requires LastLeaseRecord(lib, nodes, ip, i)
    ensures LastLease(lib, clock, nodes, ip) == Some(LeaseOf(lib, clock, nodes[i].kids))
    ensures LastPosition(lib, nodes, ip) == i
  {
    if i < |nodes| - 1 {
      LastLeaseExactly(lib, clock, nodes[..|nodes| - 1], ip, i);
    }
  }

  lemma {:induction false} SomeLastLease(lib: Lib, clock: Clock, nodes: seq<Node>, ip: nat) returns (i: nat)
    requires LastLease(lib, clock, nodes, ip).Some?
    ensures LastLeaseRecord(lib, nodes, ip, i)
  {
    var n := |nodes| - 1;
    if LeaseRecord(lib, nodes[n], ip) {
      i := n;
    } else {
      i := SomeLastLease(lib, clock, nodes[..n], ip);
      assert forall k :: i < k < n ==> nodes[..n][k] == nodes[k];
    }
  }

  /** An address is current if and only if its last lease record still runs. */
  lemma CurrentExactly(lib: Lib, clock: Clock, nodes: seq<Node>, ip: nat, now: int)
    ensures (exists l :: Current(lib, clock, nodes, Report(ip, l), now))
            <==> exists i: nat :: LastLeaseRecord(lib, nodes, ip, i) && StillRuns(lib, clock, nodes[i].kids, now)
  {
    if l :| Current(lib, clock, nodes, Report(ip, l), now) {
      var i := SomeLastLease(lib, clock, nodes, ip);
      LastLeaseExactly(lib, clock, nodes, ip, i);
      ActiveExactly(lib, clock, nodes[i].kids, now);
      assert LastLeaseRecord(lib, nodes, ip, i);
    }
    if i: nat :| LastLeaseRecord(lib, nodes, ip, i) && StillRuns(lib, clock, nodes[i].kids, now) {
      LastLeaseExactly(lib, clock, nodes, ip, i);
      ActiveExactly(lib, clock, nodes[i].kids, now);
      assert Current(lib, clock, nodes, Report(ip, LeaseOf(lib, clock, nodes[i].kids)), now);
    }
  }

  /** A report of what the last record of its address says, while it runs. */
  ghost predicate Running(lib: Lib, clock: Clock, nodes: seq<Node>, now: int, r: Report) {
    exists i: nat ::
      LastLeaseRecord(lib, nodes, r.ip, i) && StillRuns(lib, clock, nodes[i].kids, now)
      && r.lease == LeaseOf(lib, clock, nodes[i].kids)
  }

  /** Everything reported comes from the last record of its address, which still runs, with that record's last MAC and
      client name; and what still runs is reported unless the limit is reached. */
  lemma ReportedRecords(lib: Lib, clock: Clock, nodes: seq<Node>, now: int, cap: nat, r: Report)
    ensures r in Reported(lib, clock, nodes, now, cap) ==>
              exists i: nat :: LastLeaseRecord(lib, nodes, r.ip, i) && StillRuns(lib, clock, nodes[i].kids, now)
                && r.lease.mac == Else(LastSaid(nodes[i].kids, HardwareIn(lib)), None)
                && r.lease.hostname == LastSaid(nodes[i].kids, ClientNameIn(lib))
    ensures |CurrentAddresses(lib, clock, nodes, now)| <= cap && Running(lib, clock, nodes, now, r) ==>
              r in Reported(lib, clock, nodes, now, cap)
  {
    ReportedExactly(lib, clock, nodes, now, cap);
    if r in Reported(lib, clock, nodes, now, cap) {
      var i := SomeLastLease(lib, clock, nodes, r.ip);
      LastLeaseExactly(lib, clock, nodes, r.ip, i);
      ActiveExactly(lib, clock, nodes[i].kids, now);
      RecordExactly(lib, clock, nodes[i].kids);
      assert LastLeaseRecord(lib, nodes, r.ip, i);
    }
    if Running(lib, clock, nodes, now, r) {
      var i: nat :| LastLeaseRecord(lib, nodes, r.ip, i) && StillRuns(lib, clock, nodes[i].kids, now)
        && r.lease == LeaseOf(lib, clock, nodes[i].kids);
      LastLeaseExactly(lib, clock, nodes, r.ip, i);
      ActiveExactly(lib, clock, nodes[i].kids, now);
      assert Current(lib, clock, nodes, r, now);
    }
  }

  // ---- host records ----

  predicate HostRecord(lib: Lib, node: Node, name: string) {
    node.Block? && |node.words| >= 2 && lib.lower(node.words[0]) == "host" && node.words[1] == name
  }

  ghost predicate Deletes(lib: Lib, node: Node) {
    node.Block? && exists i :: 0 <= i < |node.kids| && Says(lib, node.kids[i], "deleted", 1)
  }

  ghost predicate LastHostRecord(lib: Lib, nodes: seq<Node>, name: string, i: nat) {
    i < |nodes| && HostRecord(lib, nodes[i], name) && forall k :: i < k < |nodes| ==> !HostRecord(lib, nodes[k], name)
  }

  /** A host of the log is what its last record says, unless that record deletes it. */
  lemma {:induction false} LastHostExactly(lib: Lib, nodes: seq<Node>, name: string, i: nat)
    requires LastHostRecord(lib, nodes, name, i)
    ensures LastHost(lib, nodes, name)
            == if Deletes(lib, nodes[i]) then None else Some(Reservations(lib, name, nodes[i].kids))
  {
    var n := |nodes| - 1;
    if i < n {
      LastHostExactly(lib, nodes[..n], name, i);
    } else {
      if Deletes(lib, nodes[i]) {
        var k :| 0 <= k < |nodes[i].kids| && Says(lib, nodes[i].kids[k], "deleted", 1);
        assert nodes[i].kids[k] in nodes[i].kids;
      }
      if IsDeleted(lib, nodes[i].kids) {
        var k :| k in nodes[i].kids && k.Stmt? && k.words != [] && lib.lower(k.words[0]) == "deleted";
        var j :| 0 <= j < |nodes[i].kids| && nodes[i].kids[j] == k;
        assert Says(lib, nodes[i].kids[j], "deleted", 1);
      }
    }
  }

  lemma {:induction false} NoHostRecord(lib: Lib, nodes: seq<Node>, name: string)
    requires forall k :: 0 <= k < |nodes| ==> !HostRecord(lib, nodes[k], name)
    ensures LastHost(lib, nodes, name) == None
  {
    if nodes != [] {
      NoHostRecord(lib, nodes[..|nodes| - 1], name);
    }
  }
}
