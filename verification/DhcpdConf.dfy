/** What a dhcpd.conf file says about IPv4 subnets, ranges and hosts (agent/jt_ipam_agent.py). */
module DhcpdConf {
  import opened Wrappers
  import opened DhcpdSyntax

  /** Library functions and the file system, as parameters: lower-casing, an IPv4 address as a number,
      a normalised MAC, the name of the network given by address and mask, and the text of an included
      file. */
  datatype Lib = Lib(
    lower: string -> string,
    ip4: string -> Option<nat>,
    mac: string -> Option<string>,
    net: (string, string) -> Option<string>,
    load: string -> Option<string>)

  datatype Limits = Limits(pools: nat, reservations: nat, includes: nat)

  const MAX_DEPTH: nat := 5

  datatype Pool = Pool(subnet: string, first: nat, last: nat)

  datatype Reservation = Reservation(ip: nat, mac: Option<string>, hostname: string)

  // ---- host blocks ----

  datatype Host = Host(mac: Option<string>, addrs: seq<string>, name: string, ddns: string)

  const NO_HOST := Host(None, [], "", "")

  function WithoutCommas(ws: seq<string>): seq<string> {
    if ws == [] then []
    else
      var n := |ws| - 1;
      WithoutCommas(ws[..n]) + if ws[n] == "," then [] else [ws[n]]
  }

  /** One statement of a host block; blocks and empty statements say nothing. */
  function HostStmt(lib: Lib, h: Host, node: Node): Host {
    if node.Block? || node.words == [] then h
    else
      var words, k := node.words, lib.lower(node.words[0]);
      if k == "hardware" && |words| >= 3 then h.(mac := lib.mac(words[2]))
      else if k == "fixed-address" then h.(addrs := WithoutCommas(words[1..]))
      else if k == "option" && |words| >= 3 && lib.lower(words[1]) == "host-name" then h.(name := words[2])
      else if k == "ddns-hostname" && |words| >= 2 then h.(ddns := words[1])
      else h
  }

  function HostOf(lib: Lib, kids: seq<Node>): Host {
    if kids == [] then NO_HOST
    else HostStmt(lib, HostOf(lib, kids[..|kids| - 1]), kids[|kids| - 1])
  }

  function HostName(h: Host, hostLabel: string): string {
    if h.name != "" then h.name else if h.ddns != "" then h.ddns else hostLabel
  }

  function Addresses(lib: Lib, h: Host, hostLabel: string, addrs: seq<string>): seq<Reservation> {
    if addrs == [] then []
    else
      var n := |addrs| - 1;
      Addresses(lib, h, hostLabel, addrs[..n])
      + match lib.ip4(addrs[n])
        case None => []
        case Some(ip) => [Reservation(ip, h.mac, HostName(h, hostLabel))]
  }

  function Reservations(lib: Lib, hostLabel: string, kids: seq<Node>): seq<Reservation> {
    var h := HostOf(lib, kids);
    Addresses(lib, h, hostLabel, h.addrs)
  }

  method ParseHost(lib: Lib, hostLabel: string, kids: seq<Node>) returns (out: seq<Reservation>)
    ensures out == Reservations(lib, hostLabel, kids)
  {
    var h := NO_HOST;
    for i := 0 to |kids|
      invariant h == HostOf(lib, kids[..i])
    {
      assert kids[..i + 1][..i] == kids[..i];
      h := HostStmt(lib, h, kids[i]);
    }
    assert kids[..|kids|] == kids;
    out := [];
    for i := 0 to |h.addrs|
      invariant out == Addresses(lib, h, hostLabel, h.addrs[..i])
    {
      assert h.addrs[..i + 1][..i] == h.addrs[..i];
      var ip := lib.ip4(h.addrs[i]);
      if ip.Some? {
        out := out + [Reservation(ip.value, h.mac, HostName(h, hostLabel))];
      }
    }
    assert h.addrs[..|h.addrs|] == h.addrs;
  }

  // ---- the walk over the tree ----

  /** `seen` lists the included paths in the order in which they were loaded. */
  datatype Found = Found(pools: seq<Pool>, reservations: seq<Reservation>, seen: seq<string>)

  function WithoutBootp(lib: Lib, ws: seq<string>): seq<string> {
    if ws == [] then []
    else (if lib.lower(ws[0]) != "dynamic-bootp" then [ws[0]] else []) + WithoutBootp(lib, ws[1..])
  }

  /** `x` lies between `a` and `b`, whichever comes first. */
  predicate Between(x: nat, a: nat, b: nat) {
    a <= x <= b || b <= x <= a
  }

  /** The words after `range` name one address or two; all that are named must be readable. */
  predicate NamesRange(lib: Lib, ips: seq<string>) {
    ips != [] && lib.ip4(ips[0]).Some? && (|ips| > 1 ==> lib.ip4(ips[1]).Some?)
  }

  function NamedEnds(lib: Lib, ips: seq<string>): (nat, nat)
    requires NamesRange(lib, ips)
  {
    (lib.ip4(ips[0]).value, lib.ip4(ips[if |ips| > 1 then 1 else 0]).value)
  }

  /** The range that the words after `range` describe: the addresses from one named end to the other, or the
      single address that is named. */
  function RangeOf(lib: Lib, ws: seq<string>): (r: Option<(nat, nat)>)
    ensures r.Some? <==> NamesRange(lib, WithoutBootp(lib, ws))
    ensures r.Some? ==>
              var (a, b) := NamedEnds(lib, WithoutBootp(lib, ws));
              r.value.0 <= r.value.1 && forall x: nat :: r.value.0 <= x <= r.value.1 <==> Between(x, a, b)
  {
    var ips := WithoutBootp(lib, ws);
    if ips == [] then None
    else
      var a := lib.ip4(ips[0]);
      var b := if |ips| > 1 then lib.ip4(ips[1]) else a;
      if a.None? || b.None? then None
      else if a.value > b.value then Some((b.value, a.value))
      else Some((a.value, b.value))
  }

  function Capped<T>(s: seq<T>, cap: nat): seq<T> {
    if |s| <= cap then s else s[..cap]
  }

  /** The network that a block opens, if it is a subnet declaration the agent understands. */
  function SubnetOf(lib: Lib, words: seq<string>): Option<string> {
    if |words| >= 4 && lib.lower(words[0]) == "subnet" && lib.lower(words[2]) == "netmask"
    then lib.net(words[1], words[3]) else None
  }

  predicate IsSubnetDecl(lib: Lib, words: seq<string>) {
    |words| >= 4 && lib.lower(words[0]) == "subnet" && lib.lower(words[2]) == "netmask"
  }

  predicate IsHostDecl(lib: Lib, words: seq<string>) {
    |words| >= 2 && lib.lower(words[0]) == "host"
  }

  predicate IsGroup(lib: Lib, words: seq<string>) {
    words == [] || lib.lower(words[0]) in ["shared-network", "group", "pool"]
  }

  predicate MayInclude(lib: Lib, lim: Limits, seen: seq<string>, words: seq<string>, depth: nat) {
    && |words| >= 2 && lib.lower(words[0]) == "include"
    && depth < MAX_DEPTH && words[1] !in seen && |seen| < lim.includes
  }

  function WalkNode(lib: Lib, lim: Limits, f: Found, node: Node, subnet: Option<string>, depth: nat): Found
    requires depth <= MAX_DEPTH
    decreases MAX_DEPTH - depth, node, 0
  {
    match node
    case Stmt(words) =>
      if words == [] then f
      else if lib.lower(words[0]) == "range" then
        var r := RangeOf(lib, words[1..]);
        if r.None? || subnet.None? || |f.pools| >= lim.pools then f
        else f.(pools := f.pools + [Pool(subnet.value, r.value.0, r.value.1)])
      else if MayInclude(lib, lim, f.seen, words, depth) then
        var g := f.(seen := f.seen + [words[1]]);
        var text := lib.load(words[1]);
        if text.None? || text.value == "" then g
        else Walk(lib, lim, g, Tree(text.value), subnet, depth + 1)
      else f
    case Block(words, kids) =>
      if IsSubnetDecl(lib, words) then
        var net := SubnetOf(lib, words);
        if net.None? then f else Walk(lib, lim, f, kids, net, depth)
      else if IsHostDecl(lib, words) then
        f.(reservations := Capped(f.reservations + Reservations(lib, words[1], kids), lim.reservations))
      else if IsGroup(lib, words) then Walk(lib, lim, f, kids, subnet, depth)
      else f
  }

  function Walk(lib: Lib, lim: Limits, f: Found, nodes: seq<Node>, subnet: Option<string>, depth: nat): Found
    requires depth <= MAX_DEPTH
    decreases MAX_DEPTH - depth, nodes, 1
  {
    if nodes == [] then f
    else
      var n := |nodes| - 1;
      WalkNode(lib, lim, Walk(lib, lim, f, nodes[..n], subnet, depth), nodes[n], subnet, depth)
  }

  /** The three accumulators that the nested functions of the source share. */
  class ConfReader {
    const lib: Lib
    const lim: Limits
    var pools: seq<Pool>
    var reservations: seq<Reservation>
    var seen: seq<string>

    constructor (lib: Lib, lim: Limits)
      ensures this.lib == lib && this.lim == lim && State() == Found([], [], [])
    {
      this.lib, this.lim := lib, lim;
      pools, reservations, seen := [], [], [];
    }

    ghost function State(): Found
      reads this
    {
      Found(pools, reservations, seen)
    }

    method Parse(text: string)
      requires State() == Found([], [], [])
      modifies this
      ensures State() == Walk(lib, lim, Found([], [], []), Tree(text), None, 0)
    {
      var tree := BuildTree(text);
      WalkNodes(tree, None, 0);
    }

    method WalkNodes(nodes: seq<Node>, subnet: Option<string>, depth: nat)
      requires depth <= MAX_DEPTH && |reservations| <= lim.reservations
      modifies this
      ensures State() == Walk(lib, lim, old(State()), nodes, subnet, depth)
      ensures |reservations| <= lim.reservations
      decreases MAX_DEPTH - depth, nodes
    {
      for i := 0 to |nodes|
        invariant State() == Walk(lib, lim, old(State()), nodes[..i], subnet, depth)
        invariant |reservations| <= lim.reservations
      {
        assert nodes[..i + 1][..i] == nodes[..i];
        var words := nodes[i].words;
        if nodes[i].Stmt? {
          ReadStatement(words, subnet, depth);
        } else if IsSubnetDecl(lib, words) {
          var net := lib.net(words[1], words[3]);
          if net.Some? {
            WalkNodes(nodes[i].kids, net, depth);
          }
        } else if IsHostDecl(lib, words) {
          AddHost(words[1], nodes[i].kids);
        } else if IsGroup(lib, words) {
          WalkNodes(nodes[i].kids, subnet, depth);
        }
      }
      assert nodes[..|nodes|] == nodes;
    }

    method ReadStatement(words: seq<string>, subnet: Option<string>, depth: nat)
      requires depth <= MAX_DEPTH && |reservations| <= lim.reservations
      modifies this
      ensures State() == WalkNode(lib, lim, old(State()), Stmt(words), subnet, depth)
      ensures |reservations| <= lim.reservations
      decreases MAX_DEPTH - depth, Stmt(words)
    {
      if words == [] {
        return;
      }
      if lib.lower(words[0]) == "range" {
        AddRange(subnet, words[1..]);
      } else if lib.lower(words[0]) == "include" && |words| >= 2 {
        var path := words[1];
        if depth < MAX_DEPTH && path !in seen && |seen| < lim.includes {
          seen := seen + [path];
          var text := lib.load(path);
          if text.Some? && text.value != "" {
            var tree := BuildTree(text.value);
            WalkNodes(tree, subnet, depth + 1);
          }
        }
      }
    }

    method AddRange(subnet: Option<string>, words: seq<string>)
      modifies this`pools
      ensures pools == old(pools) +
        var r := RangeOf(lib, words);
        if r.None? || subnet.None? || |old(pools)| >= lim.pools then [] else [Pool(subnet.value, r.value.0, r.value.1)]
    {
      var r := RangeOf(lib, words);
      if r.Some? && subnet.Some? && |pools| < lim.pools {
        pools := pools + [Pool(subnet.value, r.value.0, r.value.1)];
      }
    }

    method AddHost(hostLabel: string, kids: seq<Node>)
      requires |reservations| <= lim.reservations
      modifies this`reservations
      ensures reservations == Capped(old(reservations) + Reservations(lib, hostLabel, kids), lim.reservations)
    {
      var rs := ParseHost(lib, hostLabel, kids);
      for i := 0 to |rs|
        invariant reservations == Capped(old(reservations) + rs[..i], lim.reservations)
      {
        if |reservations| < lim.reservations {
          reservations := reservations + [rs[i]];
        }
      }
      assert rs[..|rs|] == rs;
    }
  }
}
