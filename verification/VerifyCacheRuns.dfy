/** The verification cache from the agent's start on: how old its answers can be, what storing and purging do
    to lookups, and a deletion that takes effect late. */
module VerifyCacheRuns {
  import opened Wrappers
  import opened VerifyCache

  /** The agent has just started; nothing is cached and nobody is asking. */
  function Start(content: map<string, string>, clock: real): System {
    System(clock, [content], [clock], map[], {}, 0, [])
  }

  lemma StartInv(content: map<string, string>, clock: real)
    ensures Inv(Start(content, clock)) && NotAhead(Start(content, clock))
  {
  }

  /** Over every interleaving from the start: each answer is what the database said at some moment during the
      call, or, if it came from the cache, less than a TTL of its kind before it. */
  lemma AnswersFresh(content: map<string, string>, clock: real, steps: seq<Step>, cap: nat)
    ensures var r := Run(Start(content, clock), steps, cap);
            forall g :: g in r.answers ==>
              ReadOk(r, g.id, g.answer, g.version, if g.hit then g.at - Ttl(g.answer) else g.at)
  {
    StartInv(content, clock);
    InvRun(Start(content, clock), steps, cap);
  }

  // ---- one operation and the lookups after it ----

  /** An answer that has been stored is given to later calls for the TTL of its kind, counted from when the
      lookup began, and no longer. */
  lemma StoredThenHit(c: Cache, id: string, began: real, a: Answer, v: nat, cap: nat, now: real)
    ensures var d := Stored(c, id, began, a, v, cap);
            && (Hit(d, id, now) <==> now < began + if a.Some? then 60.0 else 15.0)
            && (Hit(d, id, now) ==> d[id].answer == a)
  {
  }

  /** Storing costs another ID its unexpired answer exactly when the cache is full even of unexpired ones. */
  lemma StoreLosesExactly(c: Cache, id: string, began: real, a: Answer, v: nat, cap: nat, other: string)
    requires other != id && other in c && c[other].expiry > began
    ensures var d := Stored(c, id, began, a, v, cap);
            && (other !in d <==> |c| >= cap && |c - Expired(c, began)| >= cap)
            && (other in d ==> d[other] == c[other])
  {
  }

  /** Housekeeping with reading `t` changes what a call with reading `now` gets exactly when it found the
      entry expired and the call, reading an earlier time, would not have. */
  lemma PurgeChangesExactly(c: Cache, t: real, id: string, now: real)
    ensures Hit(c - Expired(c, t), id, now) != Hit(c, id, now) <==> id in c && now < c[id].expiry <= t
    ensures Hit(c - Expired(c, t), id, now) ==> (c - Expired(c, t))[id] == c[id]
  {
  }

  // ---- a deletion that takes effect late ----

  const ANN: map<string, string> := map["ann" := "key"]

  /** A lookup of `ann` that has read the database. */
  const SLOW: Lookup := Lookup(0, "ann", 0.0, Some((Some("key"), 0)))

  /** The lookup reads, the registration is deleted and forgotten, the lookup finishes. */
  function LateFinish(): seq<Step> {
    [Ask("ann", 0.0), ReadDb(SLOW.(read := None)), Write(map[]), Forget({"ann"}), Finish(SLOW)]
  }

  lemma RunLast(s: System, steps: seq<Step>, last: Step, cap: nat)
    requires Shape(s)
    ensures Run(s, steps + [last], cap) == Do(Run(s, steps, cap), last, cap)
  {
    assert (steps + [last])[..|steps|] == steps;
  }

  lemma AfterRead(cap: nat)
    ensures var s := Run(Start(ANN, 0.0), [Ask("ann", 0.0), ReadDb(SLOW.(read := None))], cap);
            s.lookups == {SLOW} && s.versions == [ANN] && s.cache == map[] && s.answers == [] && s.clock == 0.0
  {
    var s, l := Start(ANN, 0.0), SLOW.(read := None);
    RunLast(s, [], Ask("ann", 0.0), cap);
    RunLast(s, [Ask("ann", 0.0)], ReadDb(l), cap);
    assert [] + [Ask("ann", 0.0)] == [Ask("ann", 0.0)];
    assert [Ask("ann", 0.0)] + [ReadDb(l)] == [Ask("ann", 0.0), ReadDb(l)];
    assert Run(s, [], cap) == s;
    var t := Do(s, Ask("ann", 0.0), cap);
    assert t.lookups == {l} && t.versions == [ANN] && t.cache == map[];
  }

  /** In that run the answer is the deleted registration, and it is cached: every call of the following minute
      is told that the registration exists, although the database no longer holds it. */
  lemma ForgottenTooLate(cap: nat, now: real)
    ensures var s := Run(Start(ANN, 0.0), LateFinish(), cap);
            && s.versions == [ANN, map[]]
            && s.answers == [Given("ann", 0.0, false, Some("key"), 0, 0.0)]
            && (Hit(s.cache, "ann", now) <==> now < TTL)
  {
    var s := Start(ANN, 0.0);
    var a := [Ask("ann", 0.0), ReadDb(SLOW.(read := None))];
    AfterRead(cap);
    RunLast(s, a, Write(map[]), cap);
    RunLast(s, a + [Write(map[])], Forget({"ann"}), cap);
    RunLast(s, a + [Write(map[])] + [Forget({"ann"})], Finish(SLOW), cap);
    assert a + [Write(map[])] + [Forget({"ann"})] + [Finish(SLOW)] == LateFinish();
    var t := Run(s, a + [Write(map[])] + [Forget({"ann"})], cap);
    assert t.lookups == {SLOW} && t.versions == [ANN, map[]] && t.answers == [];
    StoredThenHit(t.cache, "ann", 0.0, Some("key"), 0, cap, now);
  }
}
