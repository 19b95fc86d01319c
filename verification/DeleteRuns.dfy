/** Deletion jobs over many polls: when a request is carried out again, and what the server is told. */
module DeleteRuns {
  import opened DeleteJobs

  // ---- histories ----

  /** Requests carried out, results that reached the server, and results thrown away because the store
      was full. */
  datatype Event =
    | Executed(req: string, peer: string, status: Status)
    | Reported(results: Statuses)
    | Forgotten(reqs: set<string>)

  datatype Standing = Idle | Waiting(status: Status)

  /** Whether a result of `r` is owed according to the history. */
  function StandingOf(log: seq<Event>, r: string): Standing {
    if log == [] then Idle
    else
      StandingNext(log[|log| - 1], StandingOf(log[..|log| - 1], r), r)
  }

  function StandingNext(e: Event, before: Standing, r: string): Standing {
    match e
    case Executed(q, _, s) => if q == r then Waiting(s) else before
    case Reported(m) => if r in m then Idle else before
    case Forgotten(qs) => if r in qs then Idle else before
  }

  ghost predicate InOrder(log: seq<Event>, i: nat)
    requires i < |log|
  {
    match log[i]
    case Executed(r, _, s) => StandingOf(log[..i], r) == Idle
    case Reported(m) => forall r :: r in m ==> StandingOf(log[..i], r) == Waiting(m[r])
    case Forgotten(rs) => true
  }

  /** Nothing is carried out while its result is owed, and what is reported is what is owed. */
  ghost predicate WellOrdered(log: seq<Event>) {
    forall i :: 0 <= i < |log| ==> InOrder(log, i)
  }

  /** One poll: what the server asks for, how the world behaves, whether the report gets through, and
      which registrations have been added since. */
  datatype Round = Round(jobs: seq<Job>, world: World, posted: bool, joined: set<string>)

  datatype Agent = Agent(peers: set<string>, unsent: Statuses, log: seq<Event>)

  function Executions(jobs: seq<Job>, done: Statuses): (s: seq<Event>)
    requires forall j :: j in jobs ==> j.req in done
    ensures |s| == |jobs|
  {
    seq(|jobs|, i requires 0 <= i < |jobs| => Executed(jobs[i].req, jobs[i].peer, done[jobs[i].req]))
  }

  /** The jobs of a poll that are carried out; the same job listed twice is carried out once. */
  function Work(jobs: seq<Job>, unsent: Statuses): (todo: seq<Job>)
    ensures Distinct(todo)
    ensures forall j :: j in todo <==> j in jobs && j.req !in unsent
  {
    OpenItems(jobs, unsent);
    Unique(Open(jobs, unsent))
  }

  /** What the report of a poll brings about. */
  function Settlement(unsent: Statuses, jobs: seq<Job>, done: Statuses, posted: bool, cap: nat): seq<Event> {
    if posted then [Reported(done)]
    else if |unsent| + |jobs| > cap then [Forgotten(unsent.Keys - Requests(jobs))]
    else []
  }

  function Do(a: Agent, r: Round, cap: nat): Agent {
    var peers := a.peers + r.joined;
    ResultsComplete(peers, a.unsent, r.jobs, r.world);
    var done := Results(peers, a.unsent, r.jobs, r.world);
    Agent(PeersAfter(peers, a.unsent, r.jobs, r.world),
          UnsentAfter(a.unsent, r.jobs, done, r.posted, cap),
          a.log + Executions(Work(r.jobs, a.unsent), done) + Settlement(a.unsent, r.jobs, done, r.posted, cap))
  }

  function Run(a: Agent, rounds: seq<Round>, cap: nat): Agent {
    if rounds == [] then a else Do(Run(a, rounds[..|rounds| - 1], cap), rounds[|rounds| - 1], cap)
  }

  function Fresh(peers: set<string>): Agent {
    Agent(peers, map[], [])
  }

  // ---- order within the history ----

  /** No request number stands for two registrations. */
  ghost predicate Consistent(jobs: seq<Job>) {
    forall i, j :: i in jobs && j in jobs && i.req == j.req ==> i.peer == j.peer
  }

  /** The store of unsent results is what the history says is owed. */
  ghost predicate Agrees(unsent: Statuses, log: seq<Event>) {
    forall r :: StandingOf(log, r) == if r in unsent then Waiting(unsent[r]) else Idle
  }

  lemma StandingLast(log: seq<Event>, e: Event, r: string)
    ensures StandingOf(log + [e], r) == StandingNext(e, StandingOf(log, r), r)
  {
    assert (log + [e])[..|log|] == log;
  }

  lemma OrderedLast(log: seq<Event>, e: Event)
    ensures WellOrdered(log + [e]) <==> WellOrdered(log) && InOrder(log + [e], |log|)
    ensures (log + [e])[..|log|] == log
  {
    var l := log + [e];
    assert l[..|log|] == log;
    forall i | 0 <= i < |log| ensures InOrder(l, i) == InOrder(log, i) {
      assert l[..i] == log[..i];
    }
    if WellOrdered(l) {
      forall i | 0 <= i < |log| ensures InOrder(log, i) {
        assert InOrder(l, i);
      }
    }
  }

  lemma WorkLast(jobs: seq<Job>, done: Statuses)
    requires jobs != [] && forall j :: j in jobs ==> j.req in done
    ensures var n := |jobs| - 1;
            Executions(jobs, done) == Executions(jobs[..n], done) + [Executed(jobs[n].req, jobs[n].peer, done[jobs[n].req])]
  {
  }

  ghost predicate Executing(log: seq<Event>, l: seq<Event>, jobs: seq<Job>, done: Statuses)
    requires forall j :: j in jobs ==> j.req in done
  {
    forall r :: StandingOf(l, r) == if r in Requests(jobs) then Waiting(done[r]) else StandingOf(log, r)
  }

  /** After executing distinct jobs their results are owed; the history stays in order exactly when no
      request number occurs twice. */
  lemma {:induction false} ExecutionsKeep(log: seq<Event>, jobs: seq<Job>, done: Statuses)
    requires WellOrdered(log) && Distinct(jobs) && forall j :: j in jobs ==> j.req in done
    requires forall j :: j in jobs ==> StandingOf(log, j.req) == Idle
    ensures Executing(log, log + Executions(jobs, done), jobs, done)
    ensures WellOrdered(log + Executions(jobs, done)) <==> Consistent(jobs)
  {
    if jobs == [] {
      assert log + Executions(jobs, done) == log;
    } else {
      var n := |jobs| - 1;
      var j := jobs[n];
      assert jobs == jobs[..n] + [j];
      ExecutionsKeep(log, jobs[..n], done);
      RequestsLast(jobs);
      ExecutionsLast(log, jobs, done);
      ExecutingNext(log, log + Executions(jobs[..n], done), jobs[..n], j, jobs, done);
    }
  }

  lemma ExecutionsLast(log: seq<Event>, jobs: seq<Job>, done: Statuses)
    requires jobs != [] && forall j :: j in jobs ==> j.req in done
    ensures var n := |jobs| - 1;
            log + Executions(jobs, done)
            == log + Executions(jobs[..n], done) + [Executed(jobs[n].req, jobs[n].peer, done[jobs[n].req])]
  {
    WorkLast(jobs, done);
  }

  lemma ExecutingNext(log: seq<Event>, l: seq<Event>, before: seq<Job>, j: Job, jobs: seq<Job>, done: Statuses)
    requires jobs == before + [j] && Distinct(jobs) && forall k :: k in jobs ==> k.req in done
    requires StandingOf(log, j.req) == Idle && Requests(jobs) == Requests(before) + {j.req}
    requires Executing(log, l, before, done) && (WellOrdered(l) <==> Consistent(before))
    ensures var m := l + [Executed(j.req, j.peer, done[j.req])];
            Executing(log, m, jobs, done) && (WellOrdered(m) <==> Consistent(jobs))
  {
    var e := Executed(j.req, j.peer, done[j.req]);
    OrderedLast(l, e);
    assert jobs[..|jobs| - 1] == before;
    ConsistentLast(jobs);
    forall r ensures StandingOf(l + [e], r) == if r in Requests(jobs) then Waiting(done[r]) else StandingOf(log, r) {
      StandingLast(l, e, r);
    }
  }

  lemma ConsistentLast(jobs: seq<Job>)
    requires jobs != [] && Distinct(jobs)
    ensures var n := |jobs| - 1;
            Consistent(jobs) <==> Consistent(jobs[..n]) && jobs[n].req !in Requests(jobs[..n])
  {
    var n := |jobs| - 1;
    var j := jobs[n];
    assert jobs == jobs[..n] + [j];
    if j.req in Requests(jobs[..n]) {
      var k :| k in jobs[..n] && k.req == j.req;
      assert k in jobs && j in jobs && k != j;
    }
  }

  lemma SettlementKeeps(l: seq<Event>, unsent: Statuses, jobs: seq<Job>, done: Statuses, posted: bool, cap: nat)
    requires WellOrdered(l) && Agrees(unsent + done, l) && done.Keys == Requests(jobs)
    ensures var m := l + Settlement(unsent, jobs, done, posted, cap);
            WellOrdered(m) && Agrees(UnsentAfter(unsent, jobs, done, posted, cap), m)
  {
    var s := Settlement(unsent, jobs, done, posted, cap);
    if s == [] {
      assert l + s == l;
    } else {
      OrderedLast(l, s[0]);
      forall r { StandingLast(l, s[0], r); }
    }
  }

  /** One poll keeps the order of the history exactly when the jobs it carries out are consistent; then
      store and history agree afterwards. */
  lemma RoundKeeps(a: Agent, r: Round, cap: nat)
    requires WellOrdered(a.log) && Agrees(a.unsent, a.log)
    ensures WellOrdered(Do(a, r, cap).log) <==> Consistent(Work(r.jobs, a.unsent))
    ensures WellOrdered(Do(a, r, cap).log) ==> Agrees(Do(a, r, cap).unsent, Do(a, r, cap).log)
  {
    var peers, todo := a.peers + r.joined, Work(r.jobs, a.unsent);
    var done := Results(peers, a.unsent, r.jobs, r.world);
    ResultsComplete(peers, a.unsent, r.jobs, r.world);
    ExecutionsKeep(a.log, todo, done);
    var l := a.log + Executions(todo, done);
    if Consistent(todo) {
      Owed(a.unsent, r.jobs, done, a.log, l);
      SettlementKeeps(l, a.unsent, r.jobs, done, r.posted, cap);
    } else {
      DisorderStays(l, Settlement(a.unsent, r.jobs, done, r.posted, cap));
    }
  }

  lemma Owed(unsent: Statuses, jobs: seq<Job>, done: Statuses, log: seq<Event>, l: seq<Event>)
    requires Agrees(unsent, log) && done.Keys == Requests(jobs)
    requires forall r :: r in done && r in unsent ==> done[r] == unsent[r]
    requires forall r :: StandingOf(l, r) == if r in Requests(Work(jobs, unsent)) && r in done then Waiting(done[r]) else StandingOf(log, r)
    ensures Agrees(unsent + done, l)
  {
    forall r ensures StandingOf(l, r) == if r in unsent + done then Waiting((unsent + done)[r]) else Idle {
      if r in done && r !in unsent {
        var j :| j in jobs && j.req == r;
        assert j in Work(jobs, unsent);
      }
    }
  }

  lemma {:induction false} DisorderStays(l: seq<Event>, more: seq<Event>)
    requires !WellOrdered(l)
    ensures !WellOrdered(l + more)
  {
    if more == [] {
      assert l + more == l;
    } else {
      var n := |more| - 1;
      DisorderStays(l, more[..n]);
      assert l + more == (l + more[..n]) + [more[n]];
      OrderedLast(l + more[..n], more[n]);
    }
  }

  /** In every round the jobs carried out are consistent. */
  ghost predicate AlwaysConsistent(peers: set<string>, rounds: seq<Round>, cap: nat) {
    rounds != [] ==>
      var n := |rounds| - 1;
      && AlwaysConsistent(peers, rounds[..n], cap)
      && Consistent(Work(rounds[n].jobs, Run(Fresh(peers), rounds[..n], cap).unsent))
  }

  lemma LogGrows(a: Agent, r: Round, cap: nat)
    ensures a.log <= Do(a, r, cap).log
  {
  }

  /** Over every run from an empty store: nothing is carried out while its result is owed and every report
      tells what is owed, exactly when no poll uses one request number for two registrations; and then the
      store always holds just what is owed. */
  lemma {:induction false} ReportsInOrderExactly(peers: set<string>, rounds: seq<Round>, cap: nat)
    ensures var a := Run(Fresh(peers), rounds, cap);
            && (WellOrdered(a.log) <==> AlwaysConsistent(peers, rounds, cap))
            && (WellOrdered(a.log) ==> Agrees(a.unsent, a.log))
  {
    if rounds != [] {
      var n := |rounds| - 1;
      var a := Run(Fresh(peers), rounds[..n], cap);
      ReportsInOrderExactly(peers, rounds[..n], cap);
      if WellOrdered(a.log) {
        RoundKeeps(a, rounds[n], cap);
      } else {
        DisorderKept(a, rounds[n], cap);
      }
    }
  }

  lemma DisorderKept(a: Agent, r: Round, cap: nat)
    requires !WellOrdered(a.log)
    ensures !WellOrdered(Do(a, r, cap).log)
  {
    LogGrows(a, r, cap);
    DisorderGrows(a.log, Do(a, r, cap).log);
  }

  lemma DisorderGrows(log: seq<Event>, l: seq<Event>)
    requires !WellOrdered(log) && log <= l
    ensures !WellOrdered(l)
  {
    assert l == log + l[|log|..];
    DisorderStays(log, l[|log|..]);
  }

  // ---- results that are thrown away ----

  /** Requests whose unsent results a round throws away. */
  function Lost(a: Agent, r: Round, cap: nat): set<string> {
    if !r.posted && |a.unsent| + |r.jobs| > cap then a.unsent.Keys - Requests(r.jobs) else {}
  }

  /** A result leaves the store without having been reported exactly when a failed report finds the store
      too full and the server has not just asked for it. */
  lemma LostExactly(a: Agent, r: Round, cap: nat, req: string)
    ensures req in a.unsent && req !in Do(a, r, cap).unsent && !(r.posted && req in Requests(r.jobs)) <==> req in Lost(a, r, cap)
  {
    ResultsComplete(a.peers + r.joined, a.unsent, r.jobs, r.world);
  }

  lemma RoundLosesExactly(a: Agent, r: Round, cap: nat)
    ensures (exists q :: q in a.unsent && q !in Do(a, r, cap).unsent && !(r.posted && q in Requests(r.jobs)))
            <==> !r.posted && |a.unsent| + |r.jobs| > cap && a.unsent.Keys - Requests(r.jobs) != {}
  {
    var gone := a.unsent.Keys - Requests(r.jobs);
    if !r.posted && |a.unsent| + |r.jobs| > cap && gone != {} {
      var q :| q in gone;
      LostExactly(a, r, cap, q);
    }
    if q :| q in a.unsent && q !in Do(a, r, cap).unsent && !(r.posted && q in Requests(r.jobs)) {
      LostExactly(a, r, cap, q);
      assert q in gone;
    }
  }

  // ---- second executions ----

  ghost predicate NotReported(log: seq<Event>, r: string, i: nat, j: nat)
    requires j <= |log|
  {
    forall k :: i <= k < j && log[k].Reported? ==> r !in log[k].results
  }

  predicate ExecutedAt(log: seq<Event>, r: string, i: nat) {
    i < |log| && log[i].Executed? && log[i].req == r
  }

  /** `r` has been carried out and its result has not reached the server since. */
  ghost predicate Unreported(log: seq<Event>, r: string) {
    exists i: nat :: ExecutedAt(log, r, i) && NotReported(log, r, i, |log|)
  }

  /** `r` has been carried out twice without a report of its result in between. */
  ghost predicate Twice(log: seq<Event>, r: string) {
    exists i: nat, j: nat :: i < j && ExecutedAt(log, r, i) && ExecutedAt(log, r, j) && NotReported(log, r, i, j)
  }

  lemma UnreportedLast(log: seq<Event>, e: Event, r: string)
    ensures Unreported(log + [e], r) <==>
              (e.Executed? && e.req == r) || (Unreported(log, r) && !(e.Reported? && r in e.results))
  {
    var l := log + [e];
    if Unreported(log, r) && !(e.Reported? && r in e.results) {
      var i: nat :| ExecutedAt(log, r, i) && NotReported(log, r, i, |log|);
      assert ExecutedAt(l, r, i) && NotReported(l, r, i, |l|);
    }
    if e.Executed? && e.req == r {
      assert ExecutedAt(l, r, |log|) && NotReported(l, r, |log|, |l|);
    }
    if Unreported(l, r) {
      var i: nat :| ExecutedAt(l, r, i) && NotReported(l, r, i, |l|);
      assert l[|log|] == e;
      if i < |log| {
        assert ExecutedAt(log, r, i);
        forall k | i <= k < |log| && log[k].Reported? ensures r !in log[k].results {
          assert l[k] == log[k];
        }
        assert NotReported(log, r, i, |log|);
      }
    }
  }

  lemma TwiceLast(log: seq<Event>, e: Event, r: string)
    ensures Twice(log + [e], r) <==> Twice(log, r) || (e.Executed? && e.req == r && Unreported(log, r))
  {
    var l := log + [e];
    if Twice(log, r) {
      var i: nat, j: nat :| i < j && ExecutedAt(log, r, i) && ExecutedAt(log, r, j) && NotReported(log, r, i, j);
      assert ExecutedAt(l, r, i) && ExecutedAt(l, r, j) && NotReported(l, r, i, j);
    }
    if e.Executed? && e.req == r && Unreported(log, r) {
      var i: nat :| ExecutedAt(log, r, i) && NotReported(log, r, i, |log|);
      assert ExecutedAt(l, r, i) && ExecutedAt(l, r, |log|) && NotReported(l, r, i, |log|);
    }
    if Twice(l, r) {
      var i: nat, j: nat :| i < j && ExecutedAt(l, r, i) && ExecutedAt(l, r, j) && NotReported(l, r, i, j);
      forall k | 0 <= k < |log| ensures l[k] == log[k] {}
      if j < |log| {
        assert ExecutedAt(log, r, i) && ExecutedAt(log, r, j) && NotReported(log, r, i, j);
      } else {
        assert ExecutedAt(log, r, i) && NotReported(log, r, i, |log|);
      }
    }
  }

  /** One request number for two registrations. */
  ghost predicate TwoPeers(jobs: seq<Job>, r: string) {
    exists i, j :: i in jobs && j in jobs && i.req == r && j.req == r && i.peer != j.peer
  }

  lemma TwoPeersLast(jobs: seq<Job>, r: string)
    requires jobs != [] && Distinct(jobs)
    ensures var n := |jobs| - 1;
            TwoPeers(jobs, r) <==> TwoPeers(jobs[..n], r) || (jobs[n].req == r && r in Requests(jobs[..n]))
  {
    var n := |jobs| - 1;
    assert jobs == jobs[..n] + [jobs[n]];
    if jobs[n].req == r && r in Requests(jobs[..n]) {
      var i :| i in jobs[..n] && i.req == r;
      assert i in jobs && jobs[n] in jobs && i != jobs[n];
    }
  }

  lemma {:induction false} ExecutionsTwice(log: seq<Event>, jobs: seq<Job>, done: Statuses, r: string)
    requires Distinct(jobs) && forall j :: j in jobs ==> j.req in done
    ensures var l := log + Executions(jobs, done);
            && (Unreported(l, r) <==> Unreported(log, r) || r in Requests(jobs))
            && (Twice(l, r) <==> Twice(log, r) || (r in Requests(jobs) && Unreported(log, r)) || TwoPeers(jobs, r))
  {
    if jobs == [] {
      assert log + Executions(jobs, done) == log;
    } else {
      var n := |jobs| - 1;
      var j := jobs[n];
      assert jobs == jobs[..n] + [j];
      ExecutionsTwice(log, jobs[..n], done, r);
      RequestsLast(jobs);
      WorkLast(jobs, done);
      var l, e := log + Executions(jobs[..n], done), Executed(j.req, j.peer, done[j.req]);
      assert log + Executions(jobs, done) == l + [e];
      UnreportedLast(l, e, r);
      TwiceLast(l, e, r);
      TwoPeersLast(jobs, r);
    }
  }

  lemma SettlementTwice(l: seq<Event>, s: seq<Event>, r: string)
    requires |s| <= 1 && forall e :: e in s ==> !e.Executed?
    ensures Unreported(l + s, r) <==> Unreported(l, r) && !(s != [] && s[0].Reported? && r in s[0].results)
    ensures Twice(l + s, r) <==> Twice(l, r)
  {
    if s == [] {
      assert l + s == l;
    } else {
      assert s == [s[0]];
      UnreportedLast(l, s[0], r);
      TwiceLast(l, s[0], r);
    }
  }

  /** What a poll does to both, whatever it finds. */
  lemma RoundTwice(a: Agent, r: Round, cap: nat, req: string)
    ensures var b, todo := Do(a, r, cap), Work(r.jobs, a.unsent);
            && (Unreported(b.log, req) <==>
                  (Unreported(a.log, req) || req in Requests(todo)) && !(r.posted && req in Requests(r.jobs)))
            && (Twice(b.log, req) <==>
                  Twice(a.log, req) || (req in Requests(todo) && Unreported(a.log, req)) || TwoPeers(todo, req))
  {
    var peers, todo := a.peers + r.joined, Work(r.jobs, a.unsent);
    var done := Results(peers, a.unsent, r.jobs, r.world);
    ResultsComplete(peers, a.unsent, r.jobs, r.world);
    ExecutionsTwice(a.log, todo, done, req);
    SettlementTwice(a.log + Executions(todo, done), Settlement(a.unsent, r.jobs, done, r.posted, cap), req);
  }

  /** The result of `r` was thrown away and the server has not asked for it since. */
  function LostSince(peers: set<string>, rounds: seq<Round>, cap: nat, r: string): bool {
    if rounds == [] then false
    else
      var n := |rounds| - 1;
      r !in Requests(rounds[n].jobs)
      && (LostSince(peers, rounds[..n], cap, r) || r in Lost(Run(Fresh(peers), rounds[..n], cap), rounds[n], cap))
  }

  lemma {:induction false} UnreportedExactly(peers: set<string>, rounds: seq<Round>, cap: nat, r: string)
    ensures var a := Run(Fresh(peers), rounds, cap);
            && (Unreported(a.log, r) <==> r in a.unsent || LostSince(peers, rounds, cap, r))
            && !(r in a.unsent && LostSince(peers, rounds, cap, r))
  {
    if rounds != [] {
      var n := |rounds| - 1;
      var a, q := Run(Fresh(peers), rounds[..n], cap), rounds[n];
      UnreportedExactly(peers, rounds[..n], cap, r);
      RoundTwice(a, q, cap, r);
      RequestsOfWork(q.jobs, a.unsent, r);
      StoredAfter(a, q, cap, r);
    }
  }

  lemma StoredAfter(a: Agent, q: Round, cap: nat, r: string)
    ensures r in Do(a, q, cap).unsent
            <==> if q.posted then r in a.unsent && r !in Requests(q.jobs)
                 else r in Requests(q.jobs) || (r in a.unsent && r !in Lost(a, q, cap))
  {
    ResultsComplete(a.peers + q.joined, a.unsent, q.jobs, q.world);
  }

  lemma RequestsOfWork(jobs: seq<Job>, unsent: Statuses, r: string)
    ensures r in Requests(Work(jobs, unsent)) <==> r in Requests(jobs) && r !in unsent
  {
    if r in Requests(jobs) && r !in unsent {
      var j :| j in jobs && j.req == r;
      assert j in Work(jobs, unsent);
    }
  }

  /** For each round, whether it throws the result of `r` away. */
  function Losses(peers: set<string>, rounds: seq<Round>, cap: nat, r: string): (s: seq<bool>)
    ensures |s| == |rounds|
  {
    if rounds == [] then []
    else
      var n := |rounds| - 1;
      Losses(peers, rounds[..n], cap, r) + [r in Lost(Run(Fresh(peers), rounds[..n], cap), rounds[n], cap)]
  }

  /** For each round, whether the server asks for `r`. */
  function Asks(rounds: seq<Round>, r: string): (s: seq<bool>)
    ensures |s| == |rounds|
  {
    if rounds == [] then [] else Asks(rounds[..|rounds| - 1], r) + [r in Requests(rounds[|rounds| - 1].jobs)]
  }

  /** For each round, whether it carries out `r` for two registrations. */
  ghost function Clashes(peers: set<string>, rounds: seq<Round>, cap: nat, r: string): (s: seq<bool>)
    ensures |s| == |rounds|
  {
    if rounds == [] then []
    else
      var n := |rounds| - 1;
      Clashes(peers, rounds[..n], cap, r) + [TwoPeers(Work(rounds[n].jobs, Run(Fresh(peers), rounds[..n], cap).unsent), r)]
  }

  ghost predicate Later(a: seq<bool>, b: seq<bool>) {
    exists i, j :: 0 <= i < |a| && i < j < |b| && a[i] && b[j]
  }

  /** Set in `a` with nothing set in `b` from the next position on. */
  ghost predicate StillSet(a: seq<bool>, b: seq<bool>) {
    exists i :: 0 <= i < |a| && a[i] && forall j :: i < j < |b| ==> !b[j]
  }

  lemma LaterLast(a: seq<bool>, b: seq<bool>, x: bool, y: bool)
    requires |a| == |b|
    ensures Later(a + [x], b + [y]) <==> Later(a, b) || (y && StillSet(a, b))
    ensures StillSet(a + [x], b + [y]) <==> x || (StillSet(a, b) && !y)
  {
    var n := |a|;
    assert forall i :: 0 <= i < n ==> (a + [x])[i] == a[i] && (b + [y])[i] == b[i];
    assert (a + [x])[n] == x && (b + [y])[n] == y;
    if Later(a, b) {
      var i, j :| 0 <= i < |a| && i < j < |b| && a[i] && b[j];
      assert (a + [x])[i] && (b + [y])[j];
    }
    if StillSet(a, b) {
      var i :| 0 <= i < |a| && a[i] && forall j :: i < j < |b| ==> !b[j];
      assert (a + [x])[i];
    }
    if i :| 0 <= i < n && a[i] && y && !StillSet(a, b) {
      assert exists j :: i < j < |b| && b[j];
    }
  }

  lemma {:induction false} LostSinceMeaning(peers: set<string>, rounds: seq<Round>, cap: nat, r: string)
    ensures LostSince(peers, rounds, cap, r) <==> StillSet(Losses(peers, rounds, cap, r), Asks(rounds, r))
  {
    if rounds != [] {
      var n := |rounds| - 1;
      LostSinceMeaning(peers, rounds[..n], cap, r);
      LaterLast(Losses(peers, rounds[..n], cap, r), Asks(rounds[..n], r),
                r in Lost(Run(Fresh(peers), rounds[..n], cap), rounds[n], cap), r in Requests(rounds[n].jobs));
    }
  }

  /** Over every run from an empty store: a request is carried out twice without a report of its result in
      between exactly when a failed report that found the store too full threw its result away and the
      server asked for it later, or when one poll used its number for two registrations. */
  lemma {:induction false} ExecutedTwiceExactly(peers: set<string>, rounds: seq<Round>, cap: nat, r: string)
    ensures Twice(Run(Fresh(peers), rounds, cap).log, r)
            <==> Later(Losses(peers, rounds, cap, r), Asks(rounds, r)) || true in Clashes(peers, rounds, cap, r)
  {
    if rounds != [] {
      var n := |rounds| - 1;
      var a, q := Run(Fresh(peers), rounds[..n], cap), rounds[n];
      ExecutedTwiceExactly(peers, rounds[..n], cap, r);
      RoundTwice(a, q, cap, r);
      UnreportedExactly(peers, rounds[..n], cap, r);
      RequestsOfWork(q.jobs, a.unsent, r);
      LostSinceMeaning(peers, rounds[..n], cap, r);
      LaterLast(Losses(peers, rounds[..n], cap, r), Asks(rounds[..n], r), r in Lost(a, q, cap), r in Requests(q.jobs));
    }
  }

  lemma FirstRound(peers: set<string>, q: Round, cap: nat)
    requires !q.posted && |q.jobs| <= cap
    ensures Run(Fresh(peers), [q], cap).unsent.Keys == Requests(q.jobs)
  {
    assert [q][..0] == [];
    ResultsComplete(peers + q.joined, map[], q.jobs, q.world);
    var done := Results(peers + q.joined, map[], q.jobs, q.world);
    assert map[] + done == done && done.Keys == Requests(q.jobs);
  }

  lemma FlagsLast(peers: set<string>, rounds: seq<Round>, q: Round, cap: nat, r: string)
    ensures Losses(peers, rounds + [q], cap, r)
            == Losses(peers, rounds, cap, r) + [r in Lost(Run(Fresh(peers), rounds, cap), q, cap)]
    ensures Asks(rounds + [q], r) == Asks(rounds, r) + [r in Requests(q.jobs)]
  {
    assert (rounds + [q])[..|rounds|] == rounds;
  }

  /** A poll that asks for one deletion and whose report does not get through. */
  function FailedPoll(req: string, peer: string, w: World): (q: Round)
    ensures Requests(q.jobs) == {req} && |q.jobs| == 1 && !q.posted
  {
    var q := Round([Job(req, peer)], w, false, {});
    assert Job(req, peer) in q.jobs;
    q
  }

  lemma LostToSecond(peers: set<string>, w: World)
    ensures "r" in Lost(Run(Fresh(peers), [FailedPoll("r", "a", w)], 1), FailedPoll("q", "b", w), 1)
  {
    FirstRound(peers, FailedPoll("r", "a", w), 1);
    var unsent := Run(Fresh(peers), [FailedPoll("r", "a", w)], 1).unsent;
    assert |unsent| == |unsent.Keys| == 1;
  }

  /** With room for one result: two failed reports make the agent carry the first request out again. */
  lemma SecondExecution(peers: set<string>, w: World)
    ensures Twice(Run(Fresh(peers), [FailedPoll("r", "a", w), FailedPoll("q", "b", w), FailedPoll("r", "a", w)], 1).log, "r")
  {
    var x, y := FailedPoll("r", "a", w), FailedPoll("q", "b", w);
    LostToSecond(peers, w);
    AskedAgain(peers, x, y, 1, "r");
    ExecutedTwiceExactly(peers, [x, y, x], 1, "r");
  }

  lemma ThreeRounds(x: Round, y: Round)
    ensures [x] + [y] == [x, y] && [x, y] + [x] == [x, y, x]
  {
  }

  lemma AskedAgain(peers: set<string>, x: Round, y: Round, cap: nat, r: string)
    requires r in Lost(Run(Fresh(peers), [x], cap), y, cap) && r in Requests(x.jobs)
    ensures Later(Losses(peers, [x, y, x], cap, r), Asks([x, y, x], r))
  {
    FlagsLast(peers, [x], y, cap, r);
    FlagsLast(peers, [x, y], x, cap, r);
    ThreeRounds(x, y);
    var losses, asks := Losses(peers, [x], cap, r), Asks([x], r);
    LaterLast(losses, asks, true, r in Requests(y.jobs));
    LaterLast(losses + [true], asks + [r in Requests(y.jobs)], r in Lost(Run(Fresh(peers), [x, y], cap), x, cap), true);
  }
}
