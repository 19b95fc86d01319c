/** The job run again after an interruption. */
module DeviceRelink {
  import opened Wrappers
  import opened DeviceLink

  lemma InBoth(a: Macs, b: Macs, ports: seq<Port>, mac: string)
    requires Describes(a, ports) && Describes(b, ports)
    ensures mac in a.ambiguous <==> mac in b.ambiguous
    ensures mac in a.unique ==> mac in b.unique && a.unique[mac] == b.unique[mac]
  {
    if mac in a.unique {
      assert |Owners(ports, mac)| == 1;
      SameOwner(Owners(ports, mac), a.unique[mac], b.unique[mac]);
    }
  }

  lemma SameMap(a: map<string, nat>, b: map<string, nat>)
    requires forall k :: k in a ==> k in b && a[k] == b[k]
    requires forall k :: k in b ==> k in a
    ensures a == b
  {
  }

  /** The ports determine the tables of MACs. */
  lemma MacsUnique(a: Macs, b: Macs, ports: seq<Port>)
    requires Describes(a, ports) && Describes(b, ports)
    ensures a == b
  {
    assert a.ambiguous == b.ambiguous && a.unique == b.unique by {
      forall mac
        ensures mac in a.ambiguous <==> mac in b.ambiguous
        ensures mac in a.unique ==> mac in b.unique && a.unique[mac] == b.unique[mac]
        ensures mac in b.unique ==> mac in a.unique
      {
        InBoth(a, b, ports, mac);
        InBoth(b, a, ports, mac);
      }
      SameMap(a.unique, b.unique);
    }
  }

  lemma SameOwner(s: set<nat>, x: nat, y: nat)
    requires s == {x} == {y}
    ensures x == y
  {
    assert x in {y};
  }

  lemma {:induction false} LinksAppend(judge: Judge, a: seq<Row>, b: seq<Row>)
    ensures StatsOf(judge, a + b).linked == StatsOf(judge, a).linked + StatsOf(judge, b).linked
  {
    if b == [] {
      assert a + b == a;
    } else {
      var n := |b| - 1;
      assert (a + b)[..|a + b| - 1] == a + b[..n];
      LinksAppend(judge, a, b[..n]);
    }
  }

  /** The links still to be made are those of the records after the last commit. */
  lemma LinksLeft(judge: Judge, rows: seq<Row>, saved: nat)
    requires LeavesLinked(judge) && saved <= |rows|
    ensures StatsOf(judge, Progress(judge, rows, saved)).linked
            == StatsOf(judge, rows).linked - StatsOf(judge, rows[..saved]).linked
  {
    Halves(judge, rows, saved, rows[..saved], rows[saved..]);
    LinksOfHalves(judge, rows[..saved], rows[saved..], rows, Progress(judge, rows, saved));
  }

  lemma Halves(judge: Judge, rows: seq<Row>, saved: nat, done: seq<Row>, rest: seq<Row>)
    requires saved <= |rows| && done == rows[..saved] && rest == rows[saved..]
    ensures rows == done + rest && Progress(judge, rows, saved) == AllLinked(judge, done) + rest
  {
  }

  lemma LinksOfHalves(judge: Judge, done: seq<Row>, rest: seq<Row>, rows: seq<Row>, mixed: seq<Row>)
    requires LeavesLinked(judge) && rows == done + rest && mixed == AllLinked(judge, done) + rest
    ensures StatsOf(judge, mixed).linked == StatsOf(judge, rows).linked - StatsOf(judge, done).linked
  {
    LinksAppend(judge, done, rest);
    LinksAppend(judge, AllLinked(judge, done), rest);
    SecondRun(judge, done);
  }

  /** The job stopped anywhere and then run to its end: the table is that of one uninterrupted run, and the
      links that the first run left and the second made add up to those of an uninterrupted run. */
  method LinkTwice(linker: Linker, lower: string -> string, c: Context, stopAfter: Option<nat>)
    returns (first: Stats, second: Stats, ghost m: Macs, ghost kept: nat)
    requires linker.committed == linker.rows
    modifies linker
    ensures Describes(m, c.ports)
    ensures linker.rows == linker.committed == AllLinked(JudgeOf(lower, c, m), old(linker.rows))
    ensures kept == if StopsEarly(old(linker.rows), stopAfter)
                    then FullBatchLinks(JudgeOf(lower, c, m), old(linker.rows), stopAfter.value)
                    else StatsOf(JudgeOf(lower, c, m), old(linker.rows)).linked
    ensures kept + second.linked == StatsOf(JudgeOf(lower, c, m), old(linker.rows)).linked
  {
    ghost var before := linker.rows;
    ghost var saved;
    first, m, saved := linker.LinkByPortMac(lower, c, false, stopAfter);
    ghost var judge, between := JudgeOf(lower, c, m), linker.rows;
    ghost var again, end;
    second, again, end := linker.LinkByPortMac(lower, c, false, None);
    MacsUnique(m, again, c.ports);
    JudgeLeavesLinked(lower, c, m);
    RerunCompletes(judge, before, between);
    LinksLeft(judge, before, saved);
    kept := StatsOf(judge, before[..saved]).linked;
    assert before[..|before|] == before;
  }
}
