/** How many unsent results are kept. */
module DeleteStore {
  import opened DeleteJobs
  import opened DeleteRuns
  import opened Sizes

  lemma {:induction false} RequestsSize(jobs: seq<Job>)
    ensures |Requests(jobs)| <= |jobs|
  {
    if jobs != [] {
      RequestsSize(jobs[..|jobs| - 1]);
      RequestsLast(jobs);
    }
  }

  lemma StoreSize(a: Statuses, b: Statuses)
    ensures |a + b| <= |a| + |b|
  {
    assert (a + b).Keys == a.Keys + b.Keys;
    assert |a.Keys + b.Keys| <= |a.Keys| + |b.Keys|;
    assert |a + b| == |(a + b).Keys| && |a| == |a.Keys| && |b| == |b.Keys|;
  }

  lemma StoreAfter(unsent: Statuses, jobs: seq<Job>, done: Statuses, posted: bool, cap: nat)
    requires |unsent| <= cap && |jobs| <= cap && done.Keys == Requests(jobs)
    ensures |UnsentAfter(unsent, jobs, done, posted, cap)| <= cap
  {
    RequestsSize(jobs);
    assert |done| == |done.Keys|;
    if posted {
      var left := unsent - Requests(jobs);
      SubsetSize(left.Keys, unsent.Keys);
      assert |left| == |left.Keys| && |unsent| == |unsent.Keys|;
    } else if |unsent| + |jobs| > cap {
      StoreSize(map[], done);
    } else {
      StoreSize(unsent, done);
    }
  }

  lemma RoundSize(a: Agent, r: Round, cap: nat)
    requires |a.unsent| <= cap && |r.jobs| <= cap
    ensures |Do(a, r, cap).unsent| <= cap
  {
    var done := Results(a.peers + r.joined, a.unsent, r.jobs, r.world);
    ResultsComplete(a.peers + r.joined, a.unsent, r.jobs, r.world);
    StoreAfter(a.unsent, r.jobs, done, r.posted, cap);
  }

  /** Over every run the store of unsent results stays within its limit, if that is at least a batch. */
  lemma {:induction false} StoreBounded(peers: set<string>, rounds: seq<Round>, cap: nat)
    requires forall i :: 0 <= i < |rounds| ==> |rounds[i].jobs| <= cap
    ensures |Run(Agent(peers, map[], []), rounds, cap).unsent| <= cap
  {
    if rounds != [] {
      var n := |rounds| - 1;
      StoreBounded(peers, rounds[..n], cap);
      RoundSize(Run(Agent(peers, map[], []), rounds[..n], cap), rounds[n], cap);
    }
  }
}
