/** What is executed and reported over many polls is true: of the registrations, the online query and the transaction of
    the poll that carried the request out. */
module DeleteTruth {
  import opened Wrappers
  import opened DeleteJobs
  import opened DeleteRuns

  /** The tables between which poll `n` lies. */
  function Before(peers: set<string>, rounds: seq<Round>, cap: nat, n: nat): set<string>
    requires n < |rounds|
  {
    Run(Fresh(peers), rounds[..n], cap).peers + rounds[n].joined
  }

  function Afterwards(peers: set<string>, rounds: seq<Round>, cap: nat, n: nat): set<string>
    requires n < |rounds|
  {
    Run(Fresh(peers), rounds[..n + 1], cap).peers
  }

  /** The registration that a poll's last job with this request number names. */
  ghost predicate LastNamed(jobs: seq<Job>, r: string, peer: string) {
    exists i: nat :: LastOf(jobs, i) && jobs[i] == Job(r, peer)
  }

  lemma {:induction false} SomeLast(jobs: seq<Job>, r: string)
    requires r in Requests(jobs)
    ensures exists peer :: LastNamed(jobs, r, peer)
  {
    var n := |jobs| - 1;
    if jobs[n].req == r {
      assert LastOf(jobs, n) && jobs[n] == Job(r, jobs[n].peer);
      assert LastNamed(jobs, r, jobs[n].peer);
    } else {
      RequestsLast(jobs);
      SomeLast(jobs[..n], r);
      var peer :| LastNamed(jobs[..n], r, peer);
      var i: nat :| LastOf(jobs[..n], i) && jobs[..n][i] == Job(r, peer);
      LastOfLonger(jobs, n, i);
      assert LastNamed(jobs, r, peer);
    }
  }

  lemma LastOfLonger(jobs: seq<Job>, n: nat, i: nat)
    requires |jobs| == n + 1 && LastOf(jobs[..n], i) && jobs[n].req != jobs[i].req
    ensures LastOf(jobs, i) && jobs[i] == jobs[..n][i]
  {
    forall k | i < k < |jobs| ensures jobs[k].req != jobs[i].req {
      assert k < n ==> jobs[k] == jobs[..n][k];
    }
  }

  /** One entry of a poll: only a job that was asked for and not waiting is carried out, and the status is true of the
      registration that the request number stands for last. */
  ghost predicate TrueEntry(e: Event, jobs: seq<Job>, unsent: Statuses, w: World, before: set<string>, after: set<string>)
    requires e.Executed?
  {
    && Job(e.req, e.peer) in jobs && e.req !in unsent
    && exists peer :: LastNamed(jobs, e.req, peer) && Tells(e.status, w, before, after, peer)
  }

  lemma JobTells(peers: set<string>, unsent: Statuses, jobs: seq<Job>, w: World, j: Job)
    requires j in jobs && j.req !in unsent
    ensures var done := Results(peers, unsent, jobs, w);
            && j.req in done
            && TrueEntry(Executed(j.req, j.peer, done[j.req]), jobs, unsent, w, peers, PeersAfter(peers, unsent, jobs, w))
  {
    SomeLast(jobs, j.req);
    var peer :| LastNamed(jobs, j.req, peer);
    var i: nat :| LastOf(jobs, i) && jobs[i] == Job(j.req, peer);
    ResultTells(peers, unsent, jobs, w, i);
    assert j == Job(j.req, j.peer);
  }

  lemma RoundTells(a: Agent, q: Round, cap: nat, i: nat)
    requires |a.log| <= i < |Do(a, q, cap).log| && Do(a, q, cap).log[i].Executed?
    ensures TrueEntry(Do(a, q, cap).log[i], q.jobs, a.unsent, q.world, a.peers + q.joined, Do(a, q, cap).peers)
  {
    var done, settled := RoundLog(a, q, cap);
    var j := NewEntry(a.log, Work(q.jobs, a.unsent), done, settled, i);
    JobTells(a.peers + q.joined, a.unsent, q.jobs, q.world, j);
  }

  lemma RoundLog(a: Agent, q: Round, cap: nat) returns (done: Statuses, settled: seq<Event>)
    ensures done == Results(a.peers + q.joined, a.unsent, q.jobs, q.world)
    ensures forall j :: j in Work(q.jobs, a.unsent) ==> j.req in done
    ensures forall k :: 0 <= k < |settled| ==> !settled[k].Executed?
    ensures Do(a, q, cap).log == a.log + Executions(Work(q.jobs, a.unsent), done) + settled
    ensures Do(a, q, cap).peers == PeersAfter(a.peers + q.joined, a.unsent, q.jobs, q.world)
  {
    ResultsComplete(a.peers + q.joined, a.unsent, q.jobs, q.world);
    done := Results(a.peers + q.joined, a.unsent, q.jobs, q.world);
    settled := Settlement(a.unsent, q.jobs, done, q.posted, cap);
  }

  lemma NewEntry(log: seq<Event>, todo: seq<Job>, done: Statuses, settled: seq<Event>, i: nat) returns (j: Job)
    requires forall j :: j in todo ==> j.req in done
    requires var l := log + Executions(todo, done) + settled; |log| <= i < |l| && l[i].Executed?
    requires forall k :: 0 <= k < |settled| ==> !settled[k].Executed?
    ensures j in todo && (log + Executions(todo, done) + settled)[i] == Executed(j.req, j.peer, done[j.req])
  {
    var executed := Executions(todo, done);
    Entry(log, executed, settled, i);
    j := todo[i - |log|];
  }

  lemma Entry(log: seq<Event>, executed: seq<Event>, settled: seq<Event>, i: nat)
    requires |log| <= i < |log + executed + settled|
    ensures (log + executed + settled)[i]
            == if i < |log| + |executed| then executed[i - |log|] else settled[i - |log| - |executed|]
  {
  }

  /** Over every run, every execution was asked for by one poll, and its status is true of that poll: of the registration
      that the request number stood for last in it. */
  lemma {:induction false} ExecutedTruly(peers: set<string>, rounds: seq<Round>, cap: nat, i: nat) returns (n: nat)
    requires i < |Run(Fresh(peers), rounds, cap).log| && Run(Fresh(peers), rounds, cap).log[i].Executed?
    ensures n < |rounds|
    ensures var e := Run(Fresh(peers), rounds, cap).log[i];
            TrueEntry(e, rounds[n].jobs, Run(Fresh(peers), rounds[..n], cap).unsent, rounds[n].world,
                      Before(peers, rounds, cap, n), Afterwards(peers, rounds, cap, n))
  {
    var last := |rounds| - 1;
    var a, q := Run(Fresh(peers), rounds[..last], cap), rounds[last];
    if i < |a.log| {
      LogGrows(a, q, cap);
      n := ExecutedTruly(peers, rounds[..last], cap, i);
      EarlierRound(rounds, last, n);
    } else {
      n := last;
      RoundTells(a, q, cap, i);
      assert rounds[..n + 1] == rounds;
    }
  }

  lemma EarlierRound(rounds: seq<Round>, last: nat, n: nat)
    requires n < last <= |rounds|
    ensures rounds[..last][..n] == rounds[..n] && rounds[..last][..n + 1] == rounds[..n + 1] && rounds[..last][n] == rounds[n]
  {
  }

  /** In a poll that gives each number one registration, that is the registration the execution is about. */
  lemma OneRegistration(jobs: seq<Job>, r: string, peer: string, other: string)
    requires Consistent(jobs) && Job(r, peer) in jobs && LastNamed(jobs, r, other)
    ensures other == peer
  {
    var i: nat :| LastOf(jobs, i) && jobs[i] == Job(r, other);
    assert jobs[i] in jobs;
  }

  /** Over every run whose polls give each number one registration: a request is recorded as deleted only if its
      registration was there before the poll, is gone after it, and was known to be offline; as online only if it was. */
  lemma ExecutedTrulyOfIts(peers: set<string>, rounds: seq<Round>, cap: nat, i: nat) returns (n: nat)
    requires forall q :: q in rounds ==> Consistent(q.jobs)
    requires i < |Run(Fresh(peers), rounds, cap).log| && Run(Fresh(peers), rounds, cap).log[i].Executed?
    ensures n < |rounds|
    ensures var e := Run(Fresh(peers), rounds, cap).log[i];
            && Job(e.req, e.peer) in rounds[n].jobs
            && Tells(e.status, rounds[n].world, Before(peers, rounds, cap, n), Afterwards(peers, rounds, cap, n), e.peer)
  {
    n := ExecutedTruly(peers, rounds, cap, i);
    var e := Run(Fresh(peers), rounds, cap).log[i];
    var peer :| LastNamed(rounds[n].jobs, e.req, peer)
      && Tells(e.status, rounds[n].world, Before(peers, rounds, cap, n), Afterwards(peers, rounds, cap, n), peer);
    OneRegistration(rounds[n].jobs, e.req, e.peer, peer);
  }

  /** Without that: two registrations under one number, the second online, and the first is recorded as kept because it is
      online, although it has been deleted. */
  lemma SharedNumberMisleads()
    ensures var jobs := [Job("r", "a"), Job("r", "b")];
            var w := World(true, true, Some({"b"}), true);
            var done := Results({"a", "b"}, map[], jobs, w);
            "r" in done && done["r"] == SkippedOnline && PeersAfter({"a", "b"}, map[], jobs, w) == {"b"}
  {
    var jobs := [Job("r", "a"), Job("r", "b")];
    var w := World(true, true, Some({"b"}), true);
    assert LastOf(jobs, 1) && jobs[1] == Job("r", "b");
    ResultTells({"a", "b"}, map[], jobs, w, 1);
    assert jobs[0] == Job("r", "a") && jobs[0] in jobs;
    OnlyAskedGo({"a", "b"}, map[], jobs, w, "a");
    OnlyAskedGo({"a", "b"}, map[], jobs, w, "b");
  }
}
