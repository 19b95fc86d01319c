/** What the statements of host blocks, lease records and range declarations say, with their keywords written out. */
module DhcpdStatements {
  import opened Wrappers
  import opened DhcpdSyntax
  import opened DhcpdConf

  /** A statement of at least `n` words whose first is `key`. */
  predicate Says(lib: Lib, node: Node, key: string, n: nat) {
    node.Stmt? && node.words != [] && |node.words| >= n && lib.lower(node.words[0]) == key
  }

  /** What the last node says that says anything. */
  function LastSaid<T>(nodes: seq<Node>, said: Node -> Option<T>): Option<T> {
    if nodes == [] then None
    else
      var n := |nodes| - 1;
      if said(nodes[n]).Some? then said(nodes[n]) else LastSaid(nodes[..n], said)
  }

  lemma {:induction false} LastSaidAt<T>(nodes: seq<Node>, said: Node -> Option<T>, i: nat)
    requires i < |nodes| && said(nodes[i]).Some? && forall k :: i < k < |nodes| ==> said(nodes[k]) == None
    ensures LastSaid(nodes, said) == said(nodes[i])
  {
    if i < |nodes| - 1 {
      LastSaidAt(nodes[..|nodes| - 1], said, i);
    }
  }

  lemma {:induction false} NothingSaid<T>(nodes: seq<Node>, said: Node -> Option<T>)
    ensures LastSaid(nodes, said) == None <==> forall k :: 0 <= k < |nodes| ==> said(nodes[k]) == None
  {
    if nodes != [] {
      NothingSaid(nodes[..|nodes| - 1], said);
    }
  }

  function Else<T>(o: Option<T>, otherwise: T): T {
    if o.Some? then o.value else otherwise
  }

  // ---- host blocks ----

  function HardwareIn(lib: Lib): Node -> Option<Option<string>> {
    k => if Says(lib, k, "hardware", 3) then Some(lib.mac(k.words[2])) else None
  }

  function AddressesIn(lib: Lib): Node -> Option<seq<string>> {
    k => if Says(lib, k, "fixed-address", 1) then Some(WithoutCommas(k.words[1..])) else None
  }

  function HostNameIn(lib: Lib): Node -> Option<string> {
    k => if Says(lib, k, "option", 3) && lib.lower(k.words[1]) == "host-name" then Some(k.words[2]) else None
  }

  function DdnsNameIn(lib: Lib): Node -> Option<string> {
    k => if Says(lib, k, "ddns-hostname", 2) then Some(k.words[1]) else None
  }

  /** MAC, addresses and names are those of the last statements of their kinds; blocks and statements that are too short
      say nothing. */
  lemma {:induction false} HostExactly(lib: Lib, kids: seq<Node>)
    ensures var h := HostOf(lib, kids);
            && h.mac == Else(LastSaid(kids, HardwareIn(lib)), None)
            && h.addrs == Else(LastSaid(kids, AddressesIn(lib)), [])
            && h.name == Else(LastSaid(kids, HostNameIn(lib)), "")
            && h.ddns == Else(LastSaid(kids, DdnsNameIn(lib)), "")
  {
    if kids != [] {
      var n := |kids| - 1;
      HostExactly(lib, kids[..n]);
      StatementSays(lib, HostOf(lib, kids[..n]), kids[n]);
    }
  }

  lemma StatementSays(lib: Lib, h: Host, node: Node)
    ensures var n := HostStmt(lib, h, node);
            && n.mac == Else(HardwareIn(lib)(node), h.mac)
            && n.addrs == Else(AddressesIn(lib)(node), h.addrs)
            && n.name == Else(HostNameIn(lib)(node), h.name)
            && n.ddns == Else(DdnsNameIn(lib)(node), h.ddns)
  {
    assert |"hardware"| == 8 && |"fixed-address"| == 13 && |"option"| == 6 && |"ddns-hostname"| == 13;
    assert "fixed-address"[0] == 'f' && "ddns-hostname"[0] == 'd';
    assert HardwareIn(lib)(node) == if Says(lib, node, "hardware", 3) then Some(lib.mac(node.words[2])) else None;
  }

  /** A host's name is the option's, if that is not empty, then the dynamic name, then the label of the block. */
  lemma NameExactly(lib: Lib, hostLabel: string, kids: seq<Node>)
    ensures var name, ddns := Else(LastSaid(kids, HostNameIn(lib)), ""), Else(LastSaid(kids, DdnsNameIn(lib)), "");
            && (name != "" ==> HostName(HostOf(lib, kids), hostLabel) == name)
            && (name == "" && ddns != "" ==> HostName(HostOf(lib, kids), hostLabel) == ddns)
            && (name == "" && ddns == "" ==> HostName(HostOf(lib, kids), hostLabel) == hostLabel)
  {
    HostExactly(lib, kids);
  }

  lemma {:induction false} CommasAppend(ws: seq<string>, more: seq<string>)
    ensures WithoutCommas(ws + more) == WithoutCommas(ws) + WithoutCommas(more)
  {
    if more == [] {
      assert ws + more == ws && WithoutCommas(more) == [];
    } else {
      var n := |more| - 1;
      CommasAppend(ws, more[..n]);
      assert (ws + more)[..|ws + more| - 1] == ws + more[..n];
    }
  }

  lemma WordAlone(w: string)
    ensures WithoutCommas([w]) == if w == "," then [] else [w]
  {
    assert [w][..0] == [];
  }

  /** Commas are left out wherever they stand, other words stay where they are. */
  lemma CommasIgnored(ws: seq<string>, w: string, more: seq<string>)
    ensures WithoutCommas(ws + [","] + more) == WithoutCommas(ws + more)
    ensures w != "," ==> WithoutCommas(ws + [w] + more) == WithoutCommas(ws) + [w] + WithoutCommas(more)
  {
    WordAlone(",");
    WordAlone(w);
    CommasAppend(ws, more);
    CommasAppend(ws, [","]);
    CommasAppend(ws + [","], more);
    CommasAppend(ws, [w]);
    CommasAppend(ws + [w], more);
  }

  /** One reservation for every address that can be read, in order, all with the same MAC and name. */
  ghost predicate ReservesExactly(lib: Lib, addrs: seq<string>, mac: Option<string>, name: string, out: seq<Reservation>) {
    if addrs == [] then out == []
    else
      var n := |addrs| - 1;
      match lib.ip4(addrs[n])
      case None => ReservesExactly(lib, addrs[..n], mac, name, out)
      case Some(ip) =>
        out != [] && out[|out| - 1] == Reservation(ip, mac, name)
        && ReservesExactly(lib, addrs[..n], mac, name, out[..|out| - 1])
  }

  lemma {:induction false} AddressesExactly(lib: Lib, h: Host, hostLabel: string, addrs: seq<string>)
    ensures ReservesExactly(lib, addrs, h.mac, HostName(h, hostLabel), Addresses(lib, h, hostLabel, addrs))
  {
    if addrs != [] {
      var n := |addrs| - 1;
      var out, before := Addresses(lib, h, hostLabel, addrs), Addresses(lib, h, hostLabel, addrs[..n]);
      AddressesExactly(lib, h, hostLabel, addrs[..n]);
      if lib.ip4(addrs[n]).None? {
        assert out == before;
      } else {
        assert out == before + [Reservation(lib.ip4(addrs[n]).value, h.mac, HostName(h, hostLabel))];
        assert out[..|out| - 1] == before;
      }
    }
  }

  /** What a host block reserves, by its statements alone. */
  lemma HostReserves(lib: Lib, hostLabel: string, kids: seq<Node>)
    ensures ReservesExactly(lib, Else(LastSaid(kids, AddressesIn(lib)), []), Else(LastSaid(kids, HardwareIn(lib)), None),
                            HostName(HostOf(lib, kids), hostLabel), Reservations(lib, hostLabel, kids))
  {
    HostExactly(lib, kids);
    AddressesExactly(lib, HostOf(lib, kids), hostLabel, HostOf(lib, kids).addrs);
  }

  // ---- ranges ----

  /** The word `dynamic-bootp`, in any case and anywhere, makes no difference. */
  lemma {:induction false} BootpIgnored(lib: Lib, ws: seq<string>, w: string, more: seq<string>)
    ensures WithoutBootp(lib, ws + more) == WithoutBootp(lib, ws) + WithoutBootp(lib, more)
    ensures WithoutBootp(lib, [w]) == if lib.lower(w) == "dynamic-bootp" then [] else [w]
  {
    assert [w][1..] == [];
    if ws == [] {
      assert ws + more == more;
    } else {
      BootpIgnored(lib, ws[1..], w, more);
      assert (ws + more)[1..] == ws[1..] + more;
    }
  }

  /** `range a b;` and `range dynamic-bootp a b;` name the addresses between the two, `range a;` the one. */
  lemma RangeExactly(lib: Lib, a: string, b: string, bootp: string)
    requires lib.lower(bootp) == "dynamic-bootp" && lib.lower(a) != "dynamic-bootp" && lib.lower(b) != "dynamic-bootp"
    ensures RangeOf(lib, [a, b]) == RangeOf(lib, [bootp, a, b])
    ensures RangeOf(lib, [a, b]).Some? <==> lib.ip4(a).Some? && lib.ip4(b).Some?
    ensures RangeOf(lib, [a, b]).Some? ==>
              var (x, y, r) := (lib.ip4(a).value, lib.ip4(b).value, RangeOf(lib, [a, b]).value);
              r == if x <= y then (x, y) else (y, x)
    ensures RangeOf(lib, [a]).Some? <==> lib.ip4(a).Some?
    ensures RangeOf(lib, [a]).Some? ==> RangeOf(lib, [a]).value == (lib.ip4(a).value, lib.ip4(a).value)
  {
    BootpIgnored(lib, [a], b, [b]);
    BootpIgnored(lib, [bootp], a, [a, b]);
    BootpIgnored(lib, [], bootp, []);
    assert [a] + [b] == [a, b] && [bootp] + [a, b] == [bootp, a, b];
  }
}
