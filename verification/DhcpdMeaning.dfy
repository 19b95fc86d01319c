/** An independent account of what the dhcpd.conf walk finds: first everything that is visited, each
    item with the blocks around it, then what the items mean. */
module DhcpdMeaning {
  import opened Wrappers
  import opened DhcpdSyntax
  import opened DhcpdConf

  /** A statement or a host block, together with the words of the blocks it lies in, outermost first;
      the blocks around an include statement enclose the included file. */
  datatype Item = Item(around: seq<seq<string>>, node: Node)

  datatype Visit = Visit(items: seq<Item>, seen: seq<string>)

  /** The blocks whose contents count. */
  predicate Enters(lib: Lib, words: seq<string>) {
    if IsSubnetDecl(lib, words) then SubnetOf(lib, words).Some?
    else !IsHostDecl(lib, words) && IsGroup(lib, words)
  }

  function VisitNode(lib: Lib, lim: Limits, seen: seq<string>, node: Node, around: seq<seq<string>>, depth: nat): Visit
    requires depth <= MAX_DEPTH
    decreases MAX_DEPTH - depth, node, 0
  {
    match node
    case Stmt(words) =>
      if words != [] && lib.lower(words[0]) != "range" && MayInclude(lib, lim, seen, words, depth) then
        var text := lib.load(words[1]);
        if text.None? || text.value == "" then Visit([Item(around, node)], seen + [words[1]])
        else
          var v := VisitAll(lib, lim, seen + [words[1]], Tree(text.value), around, depth + 1);
          v.(items := [Item(around, node)] + v.items)
      else Visit([Item(around, node)], seen)
    case Block(words, kids) =>
      if Enters(lib, words) then VisitAll(lib, lim, seen, kids, around + [words], depth)
      else Visit([Item(around, node)], seen)
  }

  function VisitAll(lib: Lib, lim: Limits, seen: seq<string>, nodes: seq<Node>, around: seq<seq<string>>, depth: nat): Visit
    requires depth <= MAX_DEPTH
    decreases MAX_DEPTH - depth, nodes, 1
  {
    if nodes == [] then Visit([], seen)
    else
      var n := |nodes| - 1;
      var v := VisitAll(lib, lim, seen, nodes[..n], around, depth);
      var w := VisitNode(lib, lim, v.seen, nodes[n], around, depth);
      Visit(v.items + w.items, w.seen)
  }

  /** The innermost of the enclosing blocks that declares a subnet. */
  function Innermost(lib: Lib, around: seq<seq<string>>): Option<string> {
    if around == [] then None
    else
      var n := |around| - 1;
      if SubnetOf(lib, around[n]).Some? then SubnetOf(lib, around[n]) else Innermost(lib, around[..n])
  }

  function PoolsAt(lib: Lib, it: Item): seq<Pool> {
    if it.node.Block? || it.node.words == [] || lib.lower(it.node.words[0]) != "range" then []
    else
      var net, r := Innermost(lib, it.around), RangeOf(lib, it.node.words[1..]);
      if net.None? || r.None? then [] else [Pool(net.value, r.value.0, r.value.1)]
  }

  function ReservationsAt(lib: Lib, it: Item): seq<Reservation> {
    if it.node.Block? && !IsSubnetDecl(lib, it.node.words) && IsHostDecl(lib, it.node.words)
    then Reservations(lib, it.node.words[1], it.node.kids) else []
  }

  function AllPools(lib: Lib, items: seq<Item>): seq<Pool> {
    if items == [] then [] else AllPools(lib, items[..|items| - 1]) + PoolsAt(lib, items[|items| - 1])
  }

  function AllReservations(lib: Lib, items: seq<Item>): seq<Reservation> {
    if items == [] then []
    else AllReservations(lib, items[..|items| - 1]) + ReservationsAt(lib, items[|items| - 1])
  }

  lemma PoolsLast(lib: Lib, s: seq<Item>, x: Item)
    ensures AllPools(lib, s + [x]) == AllPools(lib, s) + PoolsAt(lib, x)
  {
    assert (s + [x])[..|s|] == s;
  }

  lemma ReservationsLast(lib: Lib, s: seq<Item>, x: Item)
    ensures AllReservations(lib, s + [x]) == AllReservations(lib, s) + ReservationsAt(lib, x)
  {
    assert (s + [x])[..|s|] == s;
  }

  lemma Regroup<T>(a: seq<T>, b: seq<T>, c: seq<T>)
    ensures a + (b + c) == (a + b) + c
  {
  }

  lemma {:induction false} PoolsAppend(lib: Lib, a: seq<Item>, b: seq<Item>)
    ensures AllPools(lib, a + b) == AllPools(lib, a) + AllPools(lib, b)
  {
    if b == [] {
      assert a + b == a;
    } else {
      var c, x := b[..|b| - 1], b[|b| - 1];
      assert b == c + [x];
      Regroup(a, c, [x]);
      PoolsLast(lib, a + c, x);
      PoolsLast(lib, c, x);
      PoolsAppend(lib, a, c);
      Regroup(AllPools(lib, a), AllPools(lib, c), PoolsAt(lib, x));
    }
  }

  lemma {:induction false} ReservationsAppend(lib: Lib, a: seq<Item>, b: seq<Item>)
    ensures AllReservations(lib, a + b) == AllReservations(lib, a) + AllReservations(lib, b)
  {
    if b == [] {
      assert a + b == a;
    } else {
      var c, x := b[..|b| - 1], b[|b| - 1];
      assert b == c + [x];
      Regroup(a, c, [x]);
      ReservationsLast(lib, a + c, x);
      ReservationsLast(lib, c, x);
      ReservationsAppend(lib, a, c);
      Regroup(AllReservations(lib, a), AllReservations(lib, c), ReservationsAt(lib, x));
    }
  }

  lemma AllSingle(lib: Lib, it: Item)
    ensures AllPools(lib, [it]) == PoolsAt(lib, it)
    ensures AllReservations(lib, [it]) == ReservationsAt(lib, it)
  {
    assert [it][..0] == [];
    assert AllPools(lib, []) == [] && AllReservations(lib, []) == [];
  }

  function Added(lib: Lib, lim: Limits, f: Found, v: Visit): Found {
    Found(Capped(f.pools + AllPools(lib, v.items), lim.pools),
          Capped(f.reservations + AllReservations(lib, v.items), lim.reservations),
          v.seen)
  }

  ghost predicate Within(f: Found, lim: Limits) {
    |f.pools| <= lim.pools && |f.reservations| <= lim.reservations
  }

  lemma CappedTwice<T>(a: seq<T>, b: seq<T>, c: seq<T>, cap: nat)
    ensures Capped(Capped(a + b, cap) + c, cap) == Capped(a + (b + c), cap)
  {
    var s := a + b;
    assert a + (b + c) == s + c;
    if |s| > cap {
      var t := s[..cap];
      assert (s + c)[..cap] == t == (t + c)[..cap];
      assert c == [] ==> t + c == t;
    }
  }

  lemma AddedTwice(lib: Lib, lim: Limits, f: Found, v: Visit, w: Visit)
    ensures Added(lib, lim, Added(lib, lim, f, v), w) == Added(lib, lim, f, Visit(v.items + w.items, w.seen))
  {
    PoolsAppend(lib, v.items, w.items);
    ReservationsAppend(lib, v.items, w.items);
    CappedTwice(f.pools, AllPools(lib, v.items), AllPools(lib, w.items), lim.pools);
    CappedTwice(f.reservations, AllReservations(lib, v.items), AllReservations(lib, w.items), lim.reservations);
  }

  lemma AddedSingle(lib: Lib, lim: Limits, f: Found, it: Item, seen: seq<string>)
    requires Within(f, lim)
    ensures Added(lib, lim, f, Visit([it], seen))
            == Found(Capped(f.pools + PoolsAt(lib, it), lim.pools),
                     Capped(f.reservations + ReservationsAt(lib, it), lim.reservations), seen)
  {
    AllSingle(lib, it);
  }

  lemma {:induction false} WalkIsVisit(lib: Lib, lim: Limits, f: Found, nodes: seq<Node>, around: seq<seq<string>>, depth: nat)
    requires depth <= MAX_DEPTH && Within(f, lim)
    ensures Walk(lib, lim, f, nodes, Innermost(lib, around), depth)
            == Added(lib, lim, f, VisitAll(lib, lim, f.seen, nodes, around, depth))
    decreases MAX_DEPTH - depth, nodes, 1
  {
    if nodes != [] {
      var n := |nodes| - 1;
      WalkIsVisit(lib, lim, f, nodes[..n], around, depth);
      var g := Walk(lib, lim, f, nodes[..n], Innermost(lib, around), depth);
      var v := VisitAll(lib, lim, f.seen, nodes[..n], around, depth);
      NodeIsVisit(lib, lim, g, nodes[n], around, depth);
      AddedTwice(lib, lim, f, v, VisitNode(lib, lim, v.seen, nodes[n], around, depth));
    }
  }

  lemma {:induction false} NodeIsVisit(lib: Lib, lim: Limits, f: Found, node: Node, around: seq<seq<string>>, depth: nat)
    requires depth <= MAX_DEPTH && Within(f, lim)
    ensures WalkNode(lib, lim, f, node, Innermost(lib, around), depth)
            == Added(lib, lim, f, VisitNode(lib, lim, f.seen, node, around, depth))
    decreases MAX_DEPTH - depth, node, 0
  {
    match node
    case Stmt(words) =>
      if words != [] && lib.lower(words[0]) != "range" && MayInclude(lib, lim, f.seen, words, depth) {
        var text := lib.load(words[1]);
        if text.Some? && text.value != "" {
          WalkIsVisit(lib, lim, f.(seen := f.seen + [words[1]]), Tree(text.value), around, depth + 1);
        }
        IncludeStmt(lib, lim, f, node, around, depth);
      } else {
        PlainStmt(lib, lim, f, node, around, depth);
      }
    case Block(words, kids) =>
      if Enters(lib, words) {
        InnermostNext(lib, around, words);
        WalkIsVisit(lib, lim, f, kids, around + [words], depth);
      } else {
        PlainBlock(lib, lim, f, node, around, depth);
      }
  }

  lemma InnermostNext(lib: Lib, around: seq<seq<string>>, words: seq<string>)
    ensures Innermost(lib, around + [words])
            == if SubnetOf(lib, words).Some? then SubnetOf(lib, words) else Innermost(lib, around)
  {
    assert (around + [words])[..|around|] == around;
  }

  lemma IncludeStmt(lib: Lib, lim: Limits, f: Found, node: Node, around: seq<seq<string>>, depth: nat)
    requires depth <= MAX_DEPTH && Within(f, lim) && node.Stmt? && node.words != []
    requires lib.lower(node.words[0]) != "range" && MayInclude(lib, lim, f.seen, node.words, depth)
    requires var g := f.(seen := f.seen + [node.words[1]]);
             var text := lib.load(node.words[1]);
             text.Some? && text.value != "" ==>
               Walk(lib, lim, g, Tree(text.value), Innermost(lib, around), depth + 1)
               == Added(lib, lim, g, VisitAll(lib, lim, g.seen, Tree(text.value), around, depth + 1))
    ensures WalkNode(lib, lim, f, node, Innermost(lib, around), depth)
            == Added(lib, lim, f, VisitNode(lib, lim, f.seen, node, around, depth))
  {
    var g := f.(seen := f.seen + [node.words[1]]);
    var text := lib.load(node.words[1]);
    var it := Item(around, node);
    AddedSingle(lib, lim, f, it, g.seen);
    assert Added(lib, lim, f, Visit([it], g.seen)) == g;
    if text.Some? && text.value != "" {
      var v := VisitAll(lib, lim, g.seen, Tree(text.value), around, depth + 1);
      AddedTwice(lib, lim, f, Visit([it], g.seen), v);
    }
  }

  lemma PlainStmt(lib: Lib, lim: Limits, f: Found, node: Node, around: seq<seq<string>>, depth: nat)
    requires depth <= MAX_DEPTH && Within(f, lim) && node.Stmt?
    requires node.words == [] || lib.lower(node.words[0]) == "range" || !MayInclude(lib, lim, f.seen, node.words, depth)
    ensures WalkNode(lib, lim, f, node, Innermost(lib, around), depth)
            == Added(lib, lim, f, Visit([Item(around, node)], f.seen))
  {
    AddedSingle(lib, lim, f, Item(around, node), f.seen);
  }

  lemma PlainBlock(lib: Lib, lim: Limits, f: Found, node: Node, around: seq<seq<string>>, depth: nat)
    requires depth <= MAX_DEPTH && Within(f, lim) && node.Block? && !Enters(lib, node.words)
    ensures WalkNode(lib, lim, f, node, Innermost(lib, around), depth)
            == Added(lib, lim, f, Visit([Item(around, node)], f.seen))
  {
    AddedSingle(lib, lim, f, Item(around, node), f.seen);
  }

  // ---- main results ----

  /** For every file and every include graph, cyclic or not: the pools and reservations reported are the
      leading part, within the limits, of what the visited items mean, each range belonging to the
      innermost subnet block around it, include statements looked through. */
  lemma ConfMeaning(lib: Lib, lim: Limits, text: string)
    ensures var f := Walk(lib, lim, Found([], [], []), Tree(text), None, 0);
            var v := VisitAll(lib, lim, [], Tree(text), [], 0);
            && f.pools == Capped(AllPools(lib, v.items), lim.pools)
            && f.reservations == Capped(AllReservations(lib, v.items), lim.reservations)
            && f.seen == v.seen
  {
    WalkIsVisit(lib, lim, Found([], [], []), Tree(text), [], 0);
    var v := VisitAll(lib, lim, [], Tree(text), [], 0);
    assert [] + AllPools(lib, v.items) == AllPools(lib, v.items);
    assert [] + AllReservations(lib, v.items) == AllReservations(lib, v.items);
  }

  ghost predicate NoRepeats(s: seq<string>) {
    forall i, j :: 0 <= i < j < |s| ==> s[i] != s[j]
  }

  /** Included files are loaded at most once each and never more than the limit; nothing that was
      loaded is forgotten. */
  lemma {:induction false} IncludesBounded(lib: Lib, lim: Limits, seen: seq<string>, nodes: seq<Node>, around: seq<seq<string>>, depth: nat)
    requires depth <= MAX_DEPTH && NoRepeats(seen) && |seen| <= lim.includes
    ensures var v := VisitAll(lib, lim, seen, nodes, around, depth);
            seen <= v.seen && NoRepeats(v.seen) && |v.seen| <= lim.includes
    decreases MAX_DEPTH - depth, nodes, 1
  {
    if nodes != [] {
      var n := |nodes| - 1;
      IncludesBounded(lib, lim, seen, nodes[..n], around, depth);
      NodeIncludesBounded(lib, lim, VisitAll(lib, lim, seen, nodes[..n], around, depth).seen, nodes[n], around, depth);
    }
  }

  lemma {:induction false} NodeIncludesBounded(lib: Lib, lim: Limits, seen: seq<string>, node: Node, around: seq<seq<string>>, depth: nat)
    requires depth <= MAX_DEPTH && NoRepeats(seen) && |seen| <= lim.includes
    ensures var v := VisitNode(lib, lim, seen, node, around, depth);
            seen <= v.seen && NoRepeats(v.seen) && |v.seen| <= lim.includes
    decreases MAX_DEPTH - depth, node, 0
  {
    match node
    case Stmt(words) =>
      if words != [] && lib.lower(words[0]) != "range" && MayInclude(lib, lim, seen, words, depth) {
        var text := lib.load(words[1]);
        assert NoRepeats(seen + [words[1]]);
        if text.Some? && text.value != "" {
          IncludesBounded(lib, lim, seen + [words[1]], Tree(text.value), around, depth + 1);
        }
      }
    case Block(words, kids) =>
      if Enters(lib, words) {
        IncludesBounded(lib, lim, seen, kids, around + [words], depth);
      }
  }

  lemma {:induction false} PoolsOrdered(lib: Lib, items: seq<Item>)
    ensures forall p :: p in AllPools(lib, items) ==> p.first <= p.last
  {
    if items != [] {
      PoolsOrdered(lib, items[..|items| - 1]);
    }
  }
}
