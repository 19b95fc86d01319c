/** Which ranges and hosts of a dhcpd.conf count: stated by the keywords of the blocks around them, over everything that
    the file and its includes contain. */
module DhcpdBlocks {
  import opened Wrappers
  import opened DhcpdSyntax
  import opened DhcpdConf
  import opened DhcpdMeaning

  // ---- blocks ----

  /** `subnet N netmask M`, in any case, with a network that can be read. */
  predicate OpensSubnet(lib: Lib, words: seq<string>) {
    && |words| >= 4 && lib.lower(words[0]) == "subnet" && lib.lower(words[2]) == "netmask"
    && lib.net(words[1], words[3]).Some?
  }

  /** A block whose contents count: a readable subnet, a grouping block, or one without words. */
  predicate Opens(lib: Lib, words: seq<string>) {
    || words == []
    || lib.lower(words[0]) == "shared-network" || lib.lower(words[0]) == "group" || lib.lower(words[0]) == "pool"
    || OpensSubnet(lib, words)
  }

  lemma OpensExactly(lib: Lib, words: seq<string>)
    ensures Opens(lib, words) <==> Enters(lib, words)
    ensures OpensSubnet(lib, words) <==> SubnetOf(lib, words).Some?
    ensures OpensSubnet(lib, words) ==> SubnetOf(lib, words) == lib.net(words[1], words[3])
  {
    assert "subnet" != "shared-network" && "subnet" != "group" && "subnet" != "pool" && "subnet" != "host" by {
      assert |"subnet"| == 6 && |"shared-network"| == 14 && |"group"| == 5 && |"pool"| == 4 && |"host"| == 4;
    }
    assert "host" != "shared-network" && "host" != "group" && "host" != "pool" by {
      assert |"shared-network"| == 14 && |"group"| == 5 && "pool"[0] != "host"[0];
    }
  }

  /** What a block contributes: what its contents do, in its own network if it declares one and otherwise in the same; the
      reservations of a host; nothing if it is any other block. */
  lemma BlockContributes(lib: Lib, lim: Limits, f: Found, words: seq<string>, kids: seq<Node>, subnet: Option<string>, depth: nat)
    requires depth <= MAX_DEPTH
    ensures var out := WalkNode(lib, lim, f, Block(words, kids), subnet, depth);
            && (OpensSubnet(lib, words) ==> out == Walk(lib, lim, f, kids, lib.net(words[1], words[3]), depth))
            && (Opens(lib, words) && !OpensSubnet(lib, words) ==> out == Walk(lib, lim, f, kids, subnet, depth))
            && (|words| >= 2 && lib.lower(words[0]) == "host" ==>
                  out == f.(reservations := Capped(f.reservations + Reservations(lib, words[1], kids), lim.reservations)))
            && (!Opens(lib, words) && !(|words| >= 2 && lib.lower(words[0]) == "host") ==> out == f)
  {
    OpensExactly(lib, words);
    assert "host" != "subnet" by {
      assert |"subnet"| == 6 && |"host"| == 4;
    }
  }

  // ---- everything in a file ----

  ghost predicate AllOpen(lib: Lib, around: seq<seq<string>>) {
    forall i :: 0 <= i < |around| ==> Opens(lib, around[i])
  }

  /** An include that is followed. */
  ghost predicate Follows(lib: Lib, lim: Limits, seen: seq<string>, words: seq<string>, around: seq<seq<string>>, depth: nat) {
    && AllOpen(lib, around)
    && |words| >= 2 && lib.lower(words[0]) == "include" && depth < 5 && words[1] !in seen && |seen| < lim.includes
  }

  /** All nodes of a file at whatever depth, blocks of any kind descended into, and behind each include that is followed
      all nodes of the file it names. */
  ghost function EverythingIn(lib: Lib, lim: Limits, seen: seq<string>, node: Node, around: seq<seq<string>>, depth: nat): Visit
    requires depth <= 5
    decreases 5 - depth, node, 0
  {
    match node
    case Stmt(words) =>
      if Follows(lib, lim, seen, words, around, depth) then
        var text := lib.load(words[1]);
        if text.None? || text.value == "" then Visit([Item(around, node)], seen + [words[1]])
        else
          var v := Everything(lib, lim, seen + [words[1]], Tree(text.value), around, depth + 1);
          v.(items := [Item(around, node)] + v.items)
      else Visit([Item(around, node)], seen)
    case Block(words, kids) =>
      var v := Everything(lib, lim, seen, kids, around + [words], depth);
      v.(items := [Item(around, node)] + v.items)
  }

  ghost function Everything(lib: Lib, lim: Limits, seen: seq<string>, nodes: seq<Node>, around: seq<seq<string>>, depth: nat): Visit
    requires depth <= 5
    decreases 5 - depth, nodes, 1
  {
    if nodes == [] then Visit([], seen)
    else
      var n := |nodes| - 1;
      var v := Everything(lib, lim, seen, nodes[..n], around, depth);
      var w := EverythingIn(lib, lim, v.seen, nodes[n], around, depth);
      Visit(v.items + w.items, w.seen)
  }

  // ---- what counts ----

  /** The network of the innermost subnet declaration. */
  function NetAround(lib: Lib, around: seq<seq<string>>): Option<string> {
    if around == [] then None
    else
      var n := |around| - 1;
      if OpensSubnet(lib, around[n]) then lib.net(around[n][1], around[n][3]) else NetAround(lib, around[..n])
  }

  lemma {:induction false} NetAroundExactly(lib: Lib, around: seq<seq<string>>)
    ensures NetAround(lib, around) == Innermost(lib, around)
  {
    if around != [] {
      NetAroundExactly(lib, around[..|around| - 1]);
      OpensExactly(lib, around[|around| - 1]);
    }
  }

  /** A readable range statement counts if it lies in a subnet and all blocks around it are open. */
  ghost function RangeAt(lib: Lib, it: Item): seq<Pool> {
    if it.node.Stmt? && it.node.words != [] && lib.lower(it.node.words[0]) == "range" && AllOpen(lib, it.around) then
      var net, r := NetAround(lib, it.around), RangeOf(lib, it.node.words[1..]);
      if net.Some? && r.Some? then [Pool(net.value, r.value.0, r.value.1)] else []
    else []
  }

  /** A host block counts if all blocks around it are open. */
  ghost function HostAt(lib: Lib, it: Item): seq<Reservation> {
    if it.node.Block? && |it.node.words| >= 2 && lib.lower(it.node.words[0]) == "host" && AllOpen(lib, it.around)
    then Reservations(lib, it.node.words[1], it.node.kids) else []
  }

  ghost function Ranges(lib: Lib, items: seq<Item>): seq<Pool> {
    if items == [] then [] else Ranges(lib, items[..|items| - 1]) + RangeAt(lib, items[|items| - 1])
  }

  ghost function Hosts(lib: Lib, items: seq<Item>): seq<Reservation> {
    if items == [] then [] else Hosts(lib, items[..|items| - 1]) + HostAt(lib, items[|items| - 1])
  }

  lemma {:induction false} RangesAppend(lib: Lib, a: seq<Item>, b: seq<Item>)
    ensures Ranges(lib, a + b) == Ranges(lib, a) + Ranges(lib, b)
    ensures Hosts(lib, a + b) == Hosts(lib, a) + Hosts(lib, b)
  {
    if b == [] {
      assert a + b == a && Ranges(lib, b) == [] && Hosts(lib, b) == [];
    } else {
      RangesAppend(lib, a, b[..|b| - 1]);
      assert (a + b)[..|a + b| - 1] == a + b[..|b| - 1];
      Regroup(Ranges(lib, a), Ranges(lib, b[..|b| - 1]), RangeAt(lib, b[|b| - 1]));
      Regroup(Hosts(lib, a), Hosts(lib, b[..|b| - 1]), HostAt(lib, b[|b| - 1]));
    }
  }

  lemma SingleItem(lib: Lib, it: Item)
    ensures Ranges(lib, [it]) == RangeAt(lib, it) && Hosts(lib, [it]) == HostAt(lib, it)
  {
    assert [it][..0] == [];
    assert Ranges(lib, []) == [] && Hosts(lib, []) == [];
  }

  lemma FirstItem(lib: Lib, it: Item, items: seq<Item>)
    ensures Ranges(lib, [it] + items) == RangeAt(lib, it) + Ranges(lib, items)
    ensures Hosts(lib, [it] + items) == HostAt(lib, it) + Hosts(lib, items)
  {
    RangesAppend(lib, [it], items);
    SingleItem(lib, it);
  }

  lemma ItemExactly(lib: Lib, it: Item)
    ensures AllOpen(lib, it.around) ==> RangeAt(lib, it) == PoolsAt(lib, it) && HostAt(lib, it) == ReservationsAt(lib, it)
    ensures !AllOpen(lib, it.around) ==> RangeAt(lib, it) == [] && HostAt(lib, it) == []
  {
    NetAroundExactly(lib, it.around);
    assert "host" != "subnet" by {
      assert |"subnet"| == 6 && |"host"| == 4;
    }
  }

  /** What everything comes to is what the walk visits comes to. */
  ghost predicate Same(lib: Lib, seen: seq<string>, around: seq<seq<string>>, e: Visit, v: Visit) {
    if AllOpen(lib, around)
    then Ranges(lib, e.items) == AllPools(lib, v.items) && Hosts(lib, e.items) == AllReservations(lib, v.items) && e.seen == v.seen
    else Ranges(lib, e.items) == [] && Hosts(lib, e.items) == [] && e.seen == seen
  }

  lemma {:induction false} EverythingCounts(lib: Lib, lim: Limits, seen: seq<string>, nodes: seq<Node>, around: seq<seq<string>>, depth: nat)
    requires depth <= MAX_DEPTH
    ensures Same(lib, seen, around, Everything(lib, lim, seen, nodes, around, depth), VisitAll(lib, lim, seen, nodes, around, depth))
    decreases 5 - depth, nodes, 1
  {
    if nodes != [] {
      var n := |nodes| - 1;
      var e, v := Everything(lib, lim, seen, nodes[..n], around, depth), VisitAll(lib, lim, seen, nodes[..n], around, depth);
      EverythingCounts(lib, lim, seen, nodes[..n], around, depth);
      var now := if AllOpen(lib, around) then v.seen else seen;
      NodeCounts(lib, lim, now, nodes[n], around, depth);
      var f, w := EverythingIn(lib, lim, now, nodes[n], around, depth), VisitNode(lib, lim, now, nodes[n], around, depth);
      RangesAppend(lib, e.items, f.items);
      PoolsAppend(lib, v.items, w.items);
      ReservationsAppend(lib, v.items, w.items);
    }
  }

  lemma {:induction false} NodeCounts(lib: Lib, lim: Limits, seen: seq<string>, node: Node, around: seq<seq<string>>, depth: nat)
    requires depth <= MAX_DEPTH
    ensures Same(lib, seen, around, EverythingIn(lib, lim, seen, node, around, depth), VisitNode(lib, lim, seen, node, around, depth))
    decreases 5 - depth, node, 0
  {
    var it := Item(around, node);
    ItemExactly(lib, it);
    SingleItem(lib, it);
    AllSingle(lib, it);
    match node
    case Stmt(words) =>
      if Follows(lib, lim, seen, words, around, depth) {
        var text := lib.load(words[1]);
        if text.Some? && text.value != "" {
          EverythingCounts(lib, lim, seen + [words[1]], Tree(text.value), around, depth + 1);
        }
        IncludeCounts(lib, lim, seen, words, around, depth);
      }
    case Block(words, kids) =>
      EverythingCounts(lib, lim, seen, kids, around + [words], depth);
      FirstItem(lib, it, Everything(lib, lim, seen, kids, around + [words], depth).items);
      OpensExactly(lib, words);
      AllOpenNext(lib, around, words);
      EnteredSaysNothing(lib, it);
  }

  lemma AllOpenNext(lib: Lib, around: seq<seq<string>>, words: seq<string>)
    ensures AllOpen(lib, around + [words]) <==> AllOpen(lib, around) && Opens(lib, words)
  {
    var more := around + [words];
    assert more[|around|] == words;
    assert forall i :: 0 <= i < |around| ==> more[i] == around[i];
  }

  lemma EnteredSaysNothing(lib: Lib, it: Item)
    requires it.node.Block?
    ensures RangeAt(lib, it) == [] && (Opens(lib, it.node.words) ==> HostAt(lib, it) == [])
  {
    assert "host" != "shared-network" && "host" != "group" && "host" != "pool" && "host" != "subnet" by {
      assert |"shared-network"| == 14 && |"group"| == 5 && "pool"[0] != "host"[0] && |"subnet"| == 6;
    }
  }

  lemma IncludeCounts(lib: Lib, lim: Limits, seen: seq<string>, words: seq<string>, around: seq<seq<string>>, depth: nat)
    requires depth <= MAX_DEPTH && Follows(lib, lim, seen, words, around, depth)
    requires var text, now := lib.load(words[1]), seen + [words[1]];
             text.Some? && text.value != "" ==>
               Same(lib, now, around, Everything(lib, lim, now, Tree(text.value), around, depth + 1),
                    VisitAll(lib, lim, now, Tree(text.value), around, depth + 1))
    ensures Same(lib, seen, around, EverythingIn(lib, lim, seen, Stmt(words), around, depth),
                 VisitNode(lib, lim, seen, Stmt(words), around, depth))
  {
    var it, text, now := Item(around, Stmt(words)), lib.load(words[1]), seen + [words[1]];
    assert "include" != "range" by {
      assert |"include"| == 7 && |"range"| == 5;
    }
    if text.Some? && text.value != "" {
      InFront(lib, it, Everything(lib, lim, now, Tree(text.value), around, depth + 1),
              VisitAll(lib, lim, now, Tree(text.value), around, depth + 1));
    } else {
      InFront(lib, it, Visit([], now), Visit([], now));
    }
  }

  lemma InFront(lib: Lib, it: Item, e: Visit, v: Visit)
    requires AllOpen(lib, it.around) && Ranges(lib, e.items) == AllPools(lib, v.items)
    requires Hosts(lib, e.items) == AllReservations(lib, v.items)
    ensures Ranges(lib, [it] + e.items) == AllPools(lib, [it] + v.items)
    ensures Hosts(lib, [it] + e.items) == AllReservations(lib, [it] + v.items)
  {
    ItemExactly(lib, it);
    FirstItem(lib, it, e.items);
    AllSingle(lib, it);
    PoolsAppend(lib, [it], v.items);
    ReservationsAppend(lib, [it], v.items);
  }

  /** A whole file, with all it includes: the pools reported are, up to the limit and in order, the readable ranges all of
      whose blocks are open, each in the network of its innermost subnet block; the reservations those of the host blocks
      all of whose blocks are open. */
  lemma FileExactly(lib: Lib, lim: Limits, text: string)
    ensures var f, e := Walk(lib, lim, Found([], [], []), Tree(text), None, 0), Everything(lib, lim, [], Tree(text), [], 0);
            && f.pools == Capped(Ranges(lib, e.items), lim.pools)
            && f.reservations == Capped(Hosts(lib, e.items), lim.reservations)
            && f.seen == e.seen
  {
    ConfMeaning(lib, lim, text);
    EverythingCounts(lib, lim, [], Tree(text), [], 0);
  }
}
