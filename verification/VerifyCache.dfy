/** The cache in front of the hbbs database (agent/jt_ipam_rustdesk_agent.py, `_rdapi_lookup`,
    `_rdapi_forget`, `_rdapi_housekeeping`).  The lock is released while the database is read, so that
    lookups, deletions and other writers interleave. */
module VerifyCache {
  import opened Wrappers

  const TTL := 60.0
  const MISS_TTL := 15.0

  /** What the database says about an ID: nothing, or a registration with this fingerprint. */
  type Answer = Option<string>

  /** `version` is the database version the answer was read from. */
  datatype Entry = Entry(expiry: real, answer: Answer, version: nat)

  type Cache = map<string, Entry>

  /** A lookup that has missed the cache: its thread, when it began and, once it has read, what. */
  datatype Lookup = Lookup(ticket: nat, id: string, began: real, read: Option<(Answer, nat)>)

  function Ttl(a: Answer): real {
    if a.Some? then TTL else MISS_TTL
  }

  function Expired(c: Cache, now: real): set<string> {
    set id | id in c && c[id].expiry <= now
  }

  /** Room is made by dropping what has expired and, if that is not enough, everything. */
  function Roomy(c: Cache, now: real, cap: nat): Cache {
    if |c| < cap then c
    else
      var d := c - Expired(c, now);
      if |d| >= cap then map[] else d
  }

  function Stored(c: Cache, id: string, began: real, answer: Answer, version: nat, cap: nat): Cache {
    Roomy(c, began, cap)[id := Entry(began + Ttl(answer), answer, version)]
  }

  predicate Hit(c: Cache, id: string, now: real) {
    id in c && c[id].expiry > now
  }

  class VerifyTable {
    const cap: nat
    var cache: Cache

    constructor (cap: nat)
      ensures this.cap == cap && cache == map[]
    {
      this.cap := cap;
      cache := map[];
    }

    /** First critical section: None means that the database must be asked. */
    method Check(id: string, now: real) returns (a: Option<Answer>)
      ensures a == if Hit(cache, id, now) then Some(cache[id].answer) else None
    {
      if id in cache && cache[id].expiry > now {
        return Some(cache[id].answer);
      }
      return None;
    }

    /** Second critical section, after the database has been read. */
    method Store(id: string, began: real, answer: Answer, version: nat)
      modifies this
      ensures cache == Stored(old(cache), id, began, answer, version, cap)
    {
      if |cache| >= cap {
        cache := cache - Expired(cache, began);
        if |cache| >= cap {
          cache := map[];
        }
      }
      cache := cache[id := Entry(began + (if answer.Some? then TTL else MISS_TTL), answer, version)];
    }

    method Forget(ids: seq<string>)
      modifies this
      ensures cache == old(cache) - (set id | id in ids)
    {
      for i := 0 to |ids|
        invariant cache == old(cache) - (set id | id in ids[..i])
      {
        assert ids[..i + 1] == ids[..i] + [ids[i]];
        cache := cache - {ids[i]};
      }
      assert ids[..|ids|] == ids;
    }

    method Housekeeping(now: real)
      modifies this
      ensures cache == old(cache) - Expired(old(cache), now)
    {
      cache := cache - Expired(cache, now);
    }
  }

  // ---- the interleaved system ----

  /** An answer given: to a call that began at `at`, from the cache or not, read from `version` at some
      moment after `from`. */
  datatype Given = Given(id: string, at: real, hit: bool, answer: Answer, version: nat, from: real)

  /** `versions[v]` became the content of the database at time `since[v]`; the last one is current. */
  datatype System = System(
    clock: real,
    versions: seq<map<string, string>>,
    since: seq<real>,
    cache: Cache,
    lookups: set<Lookup>,
    tickets: nat,
    answers: seq<Given>)

  datatype Step =
    | Tick(clock: real)                          // time passes
    | Write(content: map<string, string>)        // hbbs or a deletion changes the database
    | Ask(id: string, now: real)                 // a hit answers, a miss begins a lookup
    | ReadDb(l: Lookup)                          // the lookup reads the database
    | Finish(l: Lookup)                          // it stores and answers
    | Abandon(l: Lookup)                         // the database could not be read
    | Forget(ids: set<string>)
    | Housekeep(now: real)

  function Content(content: map<string, string>, id: string): Answer {
    if id in content then Some(content[id]) else None
  }

  /** When the lookup that stored the entry began. */
  function StoredFrom(e: Entry): real {
    e.expiry - Ttl(e.answer)
  }

  ghost predicate Shape(s: System) {
    |s.since| == |s.versions| > 0
  }

  function AskCache(s: System, id: string, now: real): System {
    if Hit(s.cache, id, now) then
      var e := s.cache[id];
      s.(answers := s.answers + [Given(id, now, true, e.answer, e.version, StoredFrom(e))])
    else s.(lookups := s.lookups + {Lookup(s.tickets, id, now, None)}, tickets := s.tickets + 1)
  }

  function ReadFor(s: System, l: Lookup): System
    requires Shape(s)
  {
    var v := |s.versions| - 1;
    s.(lookups := s.lookups - {l} + {l.(read := Some((Content(s.versions[v], l.id), v)))})
  }

  function FinishFor(s: System, l: Lookup, cap: nat): System
    requires l.read.Some?
  {
    var (a, v) := l.read.value;
    s.(lookups := s.lookups - {l},
       cache := Stored(s.cache, l.id, l.began, a, v, cap),
       answers := s.answers + [Given(l.id, l.began, false, a, v, l.began)])
  }

  /** Clock readings are taken before the lock and may be old, never from the future; a step that is
      not possible changes nothing. */
  function Do(s: System, step: Step, cap: nat): System
    requires Shape(s)
  {
    match step
    case Tick(t) => if t < s.clock then s else s.(clock := t)
    case Write(content) => s.(versions := s.versions + [content], since := s.since + [s.clock])
    case Ask(id, now) => if now > s.clock then s else AskCache(s, id, now)
    case ReadDb(l) => if l !in s.lookups || l.read.Some? then s else ReadFor(s, l)
    case Finish(l) => if l !in s.lookups || l.read.None? then s else FinishFor(s, l, cap)
    case Abandon(l) => s.(lookups := s.lookups - {l})
    case Forget(ids) => s.(cache := s.cache - ids)
    case Housekeep(now) => s.(cache := s.cache - Expired(s.cache, now))
  }

  function Run(s: System, steps: seq<Step>, cap: nat): (r: System)
    requires Shape(s)
    ensures Shape(r)
  {
    if steps == [] then s else Do(Run(s, steps[..|steps| - 1], cap), steps[|steps| - 1], cap)
  }

  // ---- staleness ----

  /** `a` is what version `v` says, and that version was still current at `t` or later. */
  ghost predicate ReadOk(s: System, id: string, a: Answer, v: nat, t: real) {
    && v < |s.versions| == |s.since|
    && (v + 1 < |s.since| ==> s.since[v + 1] >= t)
    && a == Content(s.versions[v], id)
  }

  ghost predicate ClocksOrdered(s: System) {
    && Shape(s)
    && (forall i :: 0 <= i < |s.since| ==> s.since[i] <= s.clock)
    && (forall i, j :: 0 <= i < j < |s.since| ==> s.since[i] <= s.since[j])
  }

  ghost predicate LookupsOk(s: System) {
    forall l :: l in s.lookups ==>
      l.began <= s.clock && (l.read.Some? ==> ReadOk(s, l.id, l.read.value.0, l.read.value.1, l.began))
  }

  ghost predicate CacheOk(s: System) {
    forall id :: id in s.cache ==> ReadOk(s, id, s.cache[id].answer, s.cache[id].version, StoredFrom(s.cache[id]))
  }

  /** Answers that come from the cache are at most a TTL old, the others were read during the call. */
  ghost predicate AnswersOk(s: System) {
    forall g :: g in s.answers ==>
      ReadOk(s, g.id, g.answer, g.version, g.from) && if g.hit then g.at - Ttl(g.answer) < g.from else g.from == g.at
  }

  ghost predicate Inv(s: System) {
    ClocksOrdered(s) && LookupsOk(s) && CacheOk(s) && AnswersOk(s)
  }

  lemma ReadOkLater(s: System, content: map<string, string>, id: string, a: Answer, v: nat, t: real)
    requires ClocksOrdered(s) && ReadOk(s, id, a, v, t) && t <= s.clock
    ensures ReadOk(s.(versions := s.versions + [content], since := s.since + [s.clock]), id, a, v, t)
  {
  }

  ghost predicate NotAhead(s: System) {
    && (forall id :: id in s.cache ==> StoredFrom(s.cache[id]) <= s.clock)
    && (forall g :: g in s.answers ==> g.from <= s.clock)
  }

  lemma WriteKeeps(s: System, content: map<string, string>, cap: nat)
    requires Inv(s) && NotAhead(s)
    ensures Inv(Do(s, Write(content), cap)) && NotAhead(Do(s, Write(content), cap))
  {
    var n := Do(s, Write(content), cap);
    forall l | l in n.lookups && l.read.Some?
      ensures ReadOk(n, l.id, l.read.value.0, l.read.value.1, l.began)
    {
      ReadOkLater(s, content, l.id, l.read.value.0, l.read.value.1, l.began);
    }
    forall id | id in n.cache ensures ReadOk(n, id, n.cache[id].answer, n.cache[id].version, StoredFrom(n.cache[id])) {
      ReadOkLater(s, content, id, s.cache[id].answer, s.cache[id].version, StoredFrom(s.cache[id]));
    }
    forall g | g in n.answers ensures ReadOk(n, g.id, g.answer, g.version, g.from) {
      ReadOkLater(s, content, g.id, g.answer, g.version, g.from);
    }
  }

  lemma StepKeeps(s: System, step: Step, cap: nat)
    requires Inv(s) && NotAhead(s)
    ensures Inv(Do(s, step, cap)) && NotAhead(Do(s, step, cap))
  {
    match step
    case Tick(t) => if t >= s.clock { TickKeeps(s, t); }
    case Write(content) => WriteKeeps(s, content, cap);
    case Ask(id, now) => if now <= s.clock { AskKeeps(s, id, now); }
    case ReadDb(l) => if l in s.lookups && l.read.None? { ReadKeeps(s, l); }
    case Finish(l) => if l in s.lookups && l.read.Some? { FinishKeeps(s, l, cap); }
    case Abandon(l) => FewerKeep(s, s.cache, s.lookups - {l});
    case Forget(ids) => FewerKeep(s, s.cache - ids, s.lookups);
    case Housekeep(now) => FewerKeep(s, s.cache - Expired(s.cache, now), s.lookups);
  }

  lemma TickKeeps(s: System, clock: real)
    requires Inv(s) && NotAhead(s) && clock >= s.clock
    ensures Inv(s.(clock := clock)) && NotAhead(s.(clock := clock))
  {
  }

  lemma FewerKeep(s: System, cache: Cache, lookups: set<Lookup>)
    requires Inv(s) && NotAhead(s) && lookups <= s.lookups && forall id :: id in cache ==> id in s.cache && cache[id] == s.cache[id]
    ensures Inv(s.(cache := cache, lookups := lookups)) && NotAhead(s.(cache := cache, lookups := lookups))
  {
  }

  lemma AskKeeps(s: System, id: string, now: real)
    requires Inv(s) && NotAhead(s) && now <= s.clock
    ensures Inv(AskCache(s, id, now)) && NotAhead(AskCache(s, id, now))
  {
  }

  lemma ReadKeeps(s: System, l: Lookup)
    requires Inv(s) && NotAhead(s) && l in s.lookups && l.read.None?
    ensures Inv(ReadFor(s, l)) && NotAhead(ReadFor(s, l))
  {
  }

  lemma FinishKeeps(s: System, l: Lookup, cap: nat)
    requires Inv(s) && NotAhead(s) && l in s.lookups && l.read.Some?
    ensures Inv(FinishFor(s, l, cap)) && NotAhead(FinishFor(s, l, cap))
  {
    FinishCache(s, l, cap);
    FinishAnswers(s, l, cap);
  }

  lemma FinishCache(s: System, l: Lookup, cap: nat)
    requires Inv(s) && NotAhead(s) && l in s.lookups && l.read.Some?
    ensures var n := FinishFor(s, l, cap);
            CacheOk(n) && forall id :: id in n.cache ==> StoredFrom(n.cache[id]) <= n.clock
  {
    var n := FinishFor(s, l, cap);
    StoredEntries(s.cache, l.id, l.began, l.read.value.0, l.read.value.1, cap);
    forall id | id in n.cache
      ensures ReadOk(n, id, n.cache[id].answer, n.cache[id].version, StoredFrom(n.cache[id]))
    {
      if id != l.id {
        assert n.cache[id] == s.cache[id];
        assert ReadOk(s, id, s.cache[id].answer, s.cache[id].version, StoredFrom(s.cache[id]));
      }
    }
  }

  lemma FinishAnswers(s: System, l: Lookup, cap: nat)
    requires Inv(s) && NotAhead(s) && l in s.lookups && l.read.Some?
    ensures var n := FinishFor(s, l, cap);
            AnswersOk(n) && LookupsOk(n) && ClocksOrdered(n) && forall g :: g in n.answers ==> g.from <= n.clock
  {
    var n := FinishFor(s, l, cap);
    forall g | g in n.answers
      ensures ReadOk(n, g.id, g.answer, g.version, g.from) && g.from <= n.clock
      ensures if g.hit then g.at - Ttl(g.answer) < g.from else g.from == g.at
    {
      if g in s.answers {
        assert ReadOk(s, g.id, g.answer, g.version, g.from);
      }
    }
    forall x | x in n.lookups
      ensures x.began <= n.clock && (x.read.Some? ==> ReadOk(n, x.id, x.read.value.0, x.read.value.1, x.began))
    {
      assert x in s.lookups;
    }
  }

  /** Storing adds one entry and changes no other. */
  lemma StoredEntries(c: Cache, id: string, began: real, a: Answer, v: nat, cap: nat)
    ensures var d := Stored(c, id, began, a, v, cap);
            && id in d && d[id].answer == a && d[id].version == v && StoredFrom(d[id]) == began
            && forall k :: k in d && k != id ==> k in c && d[k] == c[k]
  {
  }

  lemma {:induction false} InvRun(s: System, steps: seq<Step>, cap: nat)
    requires Inv(s) && NotAhead(s)
    ensures Inv(Run(s, steps, cap)) && NotAhead(Run(s, steps, cap))
  {
    if steps != [] {
      InvRun(s, steps[..|steps| - 1], cap);
      StepKeeps(Run(s, steps[..|steps| - 1], cap), steps[|steps| - 1], cap);
    }
  }

  // ---- forgetting ----

  /** Nothing read from a version before `v0` can still be used to answer for `id`. */
  ghost predicate FreshFrom(s: System, id: string, v0: nat) {
    && v0 < |s.versions|
    && (id in s.cache ==> s.cache[id].version >= v0)
    && NoneStale(s, id, v0)
  }

  /** No lookup of `id` that has read an older version is under way. */
  ghost predicate NoneStale(s: System, id: string, v0: nat) {
    forall l :: l in s.lookups && l.id == id && l.read.Some? ==> l.read.value.1 >= v0
  }

  ghost predicate NewAnswersFresh(s: System, r: System, id: string, v0: nat) {
    && s.answers <= r.answers
    && forall i :: |s.answers| <= i < |r.answers| && r.answers[i].id == id ==> r.answers[i].version >= v0
  }

  lemma FreshStep(s: System, step: Step, cap: nat, id: string, v0: nat)
    requires Shape(s) && FreshFrom(s, id, v0)
    ensures FreshFrom(Do(s, step, cap), id, v0) && NewAnswersFresh(s, Do(s, step, cap), id, v0)
  {
  }

  lemma {:induction false} FreshRun(s: System, steps: seq<Step>, cap: nat, id: string, v0: nat)
    requires Shape(s) && FreshFrom(s, id, v0)
    ensures FreshFrom(Run(s, steps, cap), id, v0) && NewAnswersFresh(s, Run(s, steps, cap), id, v0)
  {
    if steps != [] {
      var r := Run(s, steps[..|steps| - 1], cap);
      FreshRun(s, steps[..|steps| - 1], cap, id, v0);
      FreshStep(r, steps[|steps| - 1], cap, id, v0);
    }
  }

  /** After forgetting an ID, all later answers for it come from the database as it is now, in every
      run, exactly when no lookup that has read an older version is under way. */
  lemma ForgetTakesEffect(s: System, ids: set<string>, id: string, cap: nat)
    requires Shape(s) && id in ids
    ensures var f, v0 := Do(s, Forget(ids), cap), |s.versions| - 1;
            (forall steps :: NewAnswersFresh(f, Run(f, steps, cap), id, v0)) <==> NoneStale(s, id, v0)
  {
    var f, v0 := Do(s, Forget(ids), cap), |s.versions| - 1;
    if NoneStale(s, id, v0) {
      assert FreshFrom(f, id, v0);
      forall steps ensures NewAnswersFresh(f, Run(f, steps, cap), id, v0) {
        FreshRun(f, steps, cap, id, v0);
      }
    } else {
      var l :| l in s.lookups && l.id == id && l.read.Some? && l.read.value.1 < v0;
      RunOne(f, Finish(l), cap);
      var r := Run(f, [Finish(l)], cap);
      assert r.answers[|f.answers|].id == id && r.answers[|f.answers|].version < v0;
      assert !NewAnswersFresh(f, r, id, v0);
    }
  }

  lemma RunOne(s: System, step: Step, cap: nat)
    requires Shape(s)
    ensures Run(s, [step], cap) == Do(s, step, cap)
  {
    assert [step][..0] == [];
    assert Run(s, [], cap) == s;
  }
}
