/** Deleting stale registrations on request (agent/jt_ipam_rustdesk_agent.py): one database transaction
    per batch, results kept until they are delivered so that no request is carried out twice. */
module DeleteJobs {
  import opened Wrappers

  datatype Status = Deleted | SkippedOnline | NotFound | Failed

  type Statuses = map<string, Status>

  datatype Job = Job(req: string, peer: string)

  /** How the outside world behaves during one call: may the agent write, does it have an address, what
      the online query answers (None when it fails), does the transaction go through. */
  datatype World = World(writable: bool, address: bool, online: Option<set<string>>, commits: bool)

  // ---- one batch of deletions ----

  predicate Checked(w: World) {
    w.writable && w.address && w.online.Some?
  }

  predicate IsOnline(w: World, id: string)
    requires w.online.Some?
  {
    id in w.online.value
  }

  function StatusOf(peers: set<string>, w: World, id: string): Status {
    if !Checked(w) then Failed
    else if IsOnline(w, id) then SkippedOnline
    else if !w.commits then Failed
    else if id in peers then Deleted
    else NotFound
  }

  function Remaining(peers: set<string>, w: World, ids: seq<string>): set<string> {
    if !Checked(w) || !w.commits then peers
    else set p | p in peers && !(p in ids && !IsOnline(w, p))
  }

  function StatusesOf(peers: set<string>, w: World, ids: seq<string>): Statuses {
    map id | id in ids :: StatusOf(peers, w, id)
  }

  function Offline(ids: seq<string>, online: set<string>): seq<string> {
    if ids == [] then []
    else
      var n := |ids| - 1;
      Offline(ids[..n], online) + if ids[n] in online then [] else [ids[n]]
  }

  lemma {:induction false} OfflineItems(ids: seq<string>, online: set<string>)
    ensures forall id :: id in Offline(ids, online) <==> id in ids && id !in online
  {
    if ids != [] {
      OfflineItems(ids[..|ids| - 1], online);
      assert ids == ids[..|ids| - 1] + [ids[|ids| - 1]];
    }
  }

  ghost predicate Distinct<T>(s: seq<T>) {
    forall i, j :: 0 <= i < j < |s| ==> s[i] != s[j]
  }

  /** `list(dict.fromkeys(...))`: the first occurrences, in order. */
  function Unique<T(==, !new)>(s: seq<T>): (u: seq<T>)
    ensures Distinct(u)
    ensures forall x :: x in u <==> x in s
  {
    if s == [] then []
    else
      var n := |s| - 1;
      var u := Unique(s[..n]);
      assert s == s[..n] + [s[n]];
      if s[n] in u then u else u + [s[n]]
  }

  function Peers(jobs: seq<Job>): (s: seq<string>)
    ensures |s| == |jobs| && forall i :: 0 <= i < |s| ==> s[i] == jobs[i].peer
  {
    seq(|jobs|, i requires 0 <= i < |jobs| => jobs[i].peer)
  }

  /** The jobs whose results are not waiting to be delivered. */
  function Open(jobs: seq<Job>, unsent: Statuses): seq<Job> {
    if jobs == [] then []
    else
      var n := |jobs| - 1;
      Open(jobs[..n], unsent) + if jobs[n].req in unsent then [] else [jobs[n]]
  }

  function Requests(jobs: seq<Job>): set<string> {
    set j | j in jobs :: j.req
  }

  /** Results that were waiting. */
  function Kept(jobs: seq<Job>, unsent: Statuses): Statuses {
    map r | r in unsent && r in Requests(jobs) :: unsent[r]
  }

  /** Results including those of the given jobs; a repeated request keeps its last one. */
  function Filled(done: Statuses, jobs: seq<Job>, res: Statuses): Statuses {
    if jobs == [] then done
    else
      var n := |jobs| - 1;
      var j := jobs[n];
      Filled(done, jobs[..n], res)[j.req := if j.peer in res then res[j.peer] else Failed]
  }

  function Results(peers: set<string>, unsent: Statuses, jobs: seq<Job>, w: World): Statuses {
    var todo := Open(jobs, unsent);
    Filled(Kept(jobs, unsent), todo, StatusesOf(peers, w, Unique(Peers(todo))))
  }

  function Listed(jobs: seq<Job>, done: Statuses): (s: seq<(string, Status)>)
    requires forall j :: j in jobs ==> j.req in done
    ensures |s| == |jobs| && forall i :: 0 <= i < |s| ==> s[i] == (jobs[i].req, done[jobs[i].req])
  {
    seq(|jobs|, i requires 0 <= i < |jobs| => (jobs[i].req, done[jobs[i].req]))
  }

  function UnsentAfter(unsent: Statuses, jobs: seq<Job>, done: Statuses, posted: bool, cap: nat): Statuses {
    if posted then unsent - Requests(jobs)
    else (if |unsent| + |jobs| > cap then map[] else unsent) + done
  }

  function PeersAfter(peers: set<string>, unsent: Statuses, jobs: seq<Job>, w: World): set<string> {
    var todo := Open(jobs, unsent);
    if todo == [] then peers else Remaining(peers, w, Unique(Peers(todo)))
  }

  lemma {:induction false} FilledKeys(done: Statuses, jobs: seq<Job>, res: Statuses, r: string)
    ensures r in Filled(done, jobs, res) <==> r in done || r in Requests(jobs)
    ensures r !in Requests(jobs) && r in done ==> Filled(done, jobs, res)[r] == done[r]
  {
    if jobs != [] {
      var n := |jobs| - 1;
      FilledKeys(done, jobs[..n], res, r);
      RequestsLast(jobs);
    }
  }

  lemma RequestsLast(jobs: seq<Job>)
    requires jobs != []
    ensures Requests(jobs) == Requests(jobs[..|jobs| - 1]) + {jobs[|jobs| - 1].req}
  {
    var n := |jobs| - 1;
    assert jobs == jobs[..n] + [jobs[n]];
  }

  lemma {:induction false} OpenRequests(jobs: seq<Job>, unsent: Statuses, r: string)
    ensures r in Requests(Open(jobs, unsent)) <==> r in Requests(jobs) && r !in unsent
  {
    if jobs != [] {
      var n := |jobs| - 1;
      OpenRequests(jobs[..n], unsent, r);
      RequestsLast(jobs);
      if jobs[n].req !in unsent {
        RequestsLast(Open(jobs, unsent));
        assert Open(jobs, unsent)[..|Open(jobs, unsent)| - 1] == Open(jobs[..n], unsent);
      }
    }
  }

  /** Every job gets a result, and one that was waiting keeps the one it had. */
  lemma ResultsComplete(peers: set<string>, unsent: Statuses, jobs: seq<Job>, w: World)
    ensures var done := Results(peers, unsent, jobs, w);
            && (forall r :: r in done <==> r in Requests(jobs))
            && (forall r :: r in done && r in unsent ==> done[r] == unsent[r])
            && (forall j :: j in jobs ==> j.req in done)
  {
    var todo := Open(jobs, unsent);
    var res := StatusesOf(peers, w, Unique(Peers(todo)));
    forall r
      ensures r in Results(peers, unsent, jobs, w) <==> r in Requests(jobs)
      ensures r in Requests(jobs) && r in unsent ==> Results(peers, unsent, jobs, w)[r] == unsent[r]
    {
      OpenRequests(jobs, unsent, r);
      FilledKeys(Kept(jobs, unsent), todo, res, r);
    }
    forall j | j in jobs ensures j.req in Results(peers, unsent, jobs, w) {
      assert j.req in Requests(jobs);
    }
  }

  /** What each status tells about the registrations before and after, and about the online query. */
  lemma StatusMeaning(peers: set<string>, w: World, ids: seq<string>)
    ensures var st, after := StatusesOf(peers, w, ids), Remaining(peers, w, ids);
            && st.Keys == (set i | i in ids) && after <= peers
            && (forall p :: p in peers - after <==> p in st && st[p] == Deleted)
            && (forall id :: id in st ==> (st[id] == SkippedOnline <==> Checked(w) && IsOnline(w, id)))
            && (forall id :: id in st ==> (st[id] == Failed <==> !Checked(w) || (!w.commits && !IsOnline(w, id))))
            && ((exists id :: id in st && st[id] == Failed) ==> after == peers)
  {
  }

  // ---- what a reported status says ----

  /** What a status tells about a registration, by the world and the table before and after. */
  predicate Tells(st: Status, w: World, before: set<string>, after: set<string>, peer: string) {
    match st
    case Deleted =>
      && peer in before && peer !in after
      && w.writable && w.address && w.online.Some? && peer !in w.online.value && w.commits
    case SkippedOnline =>
      && w.writable && w.address && w.online.Some? && peer in w.online.value
      && (peer in after <==> peer in before)
    case NotFound =>
      && peer !in before && peer !in after
      && w.writable && w.address && w.online.Some? && peer !in w.online.value && w.commits
    case Failed =>
      && (!w.writable || !w.address || w.online.None? || (peer !in w.online.value && !w.commits))
      && (peer in after <==> peer in before)
  }

  /** No later job has the same request number. */
  ghost predicate LastOf(jobs: seq<Job>, i: nat) {
    i < |jobs| && forall k :: i < k < |jobs| ==> jobs[k].req != jobs[i].req
  }

  lemma {:induction false} FilledOpen(done: Statuses, jobs: seq<Job>, unsent: Statuses, res: Statuses, i: nat)
    requires LastOf(jobs, i) && jobs[i].req !in unsent
    ensures var f, j := Filled(done, Open(jobs, unsent), res), jobs[i];
            j.req in f && f[j.req] == if j.peer in res then res[j.peer] else Failed
  {
    var n := |jobs| - 1;
    var before := Open(jobs[..n], unsent);
    OpenLast(jobs, unsent);
    if i < n {
      StillLast(jobs, i);
      FilledOpen(done, jobs[..n], unsent, res, i);
      FilledKeeps(done, before, jobs[n], res, jobs[i].req);
    } else {
      FilledNext(done, before, jobs[n], res);
    }
  }

  lemma FilledKeeps(done: Statuses, todo: seq<Job>, last: Job, res: Statuses, r: string)
    requires r in Filled(done, todo, res) && last.req != r
    ensures var f := Filled(done, todo + [last], res); r in f && f[r] == Filled(done, todo, res)[r]
  {
    FilledNext(done, todo, last, res);
  }

  lemma OpenLast(jobs: seq<Job>, unsent: Statuses)
    requires jobs != []
    ensures var n := |jobs| - 1;
            Open(jobs, unsent) == if jobs[n].req in unsent then Open(jobs[..n], unsent) else Open(jobs[..n], unsent) + [jobs[n]]
  {
  }

  lemma StillLast(jobs: seq<Job>, i: nat)
    requires LastOf(jobs, i) && i < |jobs| - 1
    ensures var n := |jobs| - 1; LastOf(jobs[..n], i) && jobs[..n][i] == jobs[i] && jobs[n].req != jobs[i].req
  {
  }

  lemma FilledNext(done: Statuses, jobs: seq<Job>, j: Job, res: Statuses)
    ensures Filled(done, jobs + [j], res) == Filled(done, jobs, res)[j.req := if j.peer in res then res[j.peer] else Failed]
  {
    assert (jobs + [j])[..|jobs|] == jobs;
  }

  lemma {:induction false} OpenItems(jobs: seq<Job>, unsent: Statuses)
    ensures forall j :: j in Open(jobs, unsent) <==> j in jobs && j.req !in unsent
  {
    if jobs != [] {
      OpenItems(jobs[..|jobs| - 1], unsent);
      assert jobs == jobs[..|jobs| - 1] + [jobs[|jobs| - 1]];
    }
  }

  lemma OpenPeers(jobs: seq<Job>, unsent: Statuses, peer: string)
    ensures peer in Unique(Peers(Open(jobs, unsent))) <==> exists j :: j in jobs && j.req !in unsent && j.peer == peer
  {
    var todo := Open(jobs, unsent);
    OpenItems(jobs, unsent);
    if peer in Peers(todo) {
      var i :| 0 <= i < |todo| && Peers(todo)[i] == peer;
      assert todo[i] in todo;
    }
    if j :| j in jobs && j.req !in unsent && j.peer == peer {
      var i :| 0 <= i < |todo| && todo[i] == j;
      assert Peers(todo)[i] == peer;
    }
  }

  /** What is reported for a job that is not waiting is true of the registration that its request number, if it is used
      for several, stands for last. */
  lemma ResultTells(peers: set<string>, unsent: Statuses, jobs: seq<Job>, w: World, i: nat)
    requires LastOf(jobs, i) && jobs[i].req !in unsent
    ensures var done := Results(peers, unsent, jobs, w);
            jobs[i].req in done && Tells(done[jobs[i].req], w, peers, PeersAfter(peers, unsent, jobs, w), jobs[i].peer)
  {
    var todo := Open(jobs, unsent);
    FilledOpen(Kept(jobs, unsent), jobs, unsent, StatusesOf(peers, w, Unique(Peers(todo))), i);
    OpenItems(jobs, unsent);
    assert jobs[i] in todo;
    OpenPeers(jobs, unsent, jobs[i].peer);
  }

  /** No registration appears, and one goes only if some job that is not waiting asks for it, it is known to be offline,
      and the transaction goes through. */
  lemma OnlyAskedGo(peers: set<string>, unsent: Statuses, jobs: seq<Job>, w: World, peer: string)
    ensures var after := PeersAfter(peers, unsent, jobs, w);
            && after <= peers
            && (peer in peers - after
                <==> peer in peers && (exists j :: j in jobs && j.req !in unsent && j.peer == peer)
                     && w.writable && w.address && w.online.Some? && peer !in w.online.value && w.commits)
  {
    OpenPeers(jobs, unsent, peer);
    OpenItems(jobs, unsent);
    if Open(jobs, unsent) == [] {
      assert forall j :: j in jobs && j.req !in unsent ==> j in Open(jobs, unsent);
    }
  }

  lemma AllTell(peers: set<string>, unsent: Statuses, jobs: seq<Job>, w: World)
    ensures var done, after := Results(peers, unsent, jobs, w), PeersAfter(peers, unsent, jobs, w);
            && (forall i: nat :: LastOf(jobs, i) && jobs[i].req !in unsent ==>
                  jobs[i].req in done && Tells(done[jobs[i].req], w, peers, after, jobs[i].peer))
            && after <= peers
            && (forall p :: p in peers - after ==> exists j :: j in jobs && j.req !in unsent && j.peer == p)
  {
    var done, after := Results(peers, unsent, jobs, w), PeersAfter(peers, unsent, jobs, w);
    forall i: nat | LastOf(jobs, i) && jobs[i].req !in unsent
      ensures jobs[i].req in done && Tells(done[jobs[i].req], w, peers, after, jobs[i].peer)
    {
      ResultTells(peers, unsent, jobs, w, i);
    }
    OnlyAskedGo(peers, unsent, jobs, w, "");
    forall p | p in peers - after ensures exists j :: j in jobs && j.req !in unsent && j.peer == p {
      OnlyAskedGo(peers, unsent, jobs, w, p);
    }
  }

  /** The IDs that are online are kept, the transaction settles the others. */
  lemma Merged(peers: set<string>, w: World, ids: seq<string>, todo: seq<string>, kept: Statuses, out: Statuses,
               left: set<string>)
    requires Checked(w) && forall id :: id in todo <==> id in ids && id !in w.online.value
    requires kept == map id | id in ids && id in w.online.value :: SkippedOnline
    requires forall id :: id in out <==> id in todo
    requires forall id :: id in out ==> out[id] == if !w.commits then Failed else if id in peers then Deleted else NotFound
    requires forall p :: p in left <==> p in peers && !(w.commits && p in todo)
    ensures kept + out == StatusesOf(peers, w, ids) && left == Remaining(peers, w, ids)
  {
  }

  class DeleteWorker {
    const unsentMax: nat
    var peers: set<string>
    var unsent: Statuses

    constructor (peers: set<string>, unsentMax: nat)
      ensures this.peers == peers && this.unsentMax == unsentMax && unsent == map[]
    {
      this.peers, this.unsentMax := peers, unsentMax;
      unsent := map[];
    }

    /** All or nothing: a failed check or transaction leaves every registration in place. */
    method DeletePeers(ids: seq<string>, w: World) returns (res: Statuses)
      requires Distinct(ids)
      modifies this`peers
      ensures res == StatusesOf(old(peers), w, ids)
      ensures peers == Remaining(old(peers), w, ids)
      ensures res.Keys == (set id | id in ids) && peers <= old(peers)
      ensures forall p :: p in old(peers) - peers <==> p in res && res[p] == Deleted
      ensures forall id :: id in res ==> (res[id] == SkippedOnline <==> Checked(w) && IsOnline(w, id))
      ensures forall id :: id in res ==> (res[id] == Failed <==> !Checked(w) || (!w.commits && !IsOnline(w, id)))
      ensures (exists id :: id in res && res[id] == Failed) ==> peers == old(peers)
    {
      StatusMeaning(peers, w, ids);
      if !w.writable || !w.address || w.online.None? {
        return map id | id in ids :: Failed;
      }
      var online := w.online.value;
      res := map id | id in ids && id in online :: SkippedOnline;
      var todo := Offline(ids, online);
      OfflineItems(ids, online);
      OfflineDistinct(ids, online);
      var out, left := Transaction(todo, w.commits);
      Merged(peers, w, ids, todo, res, out, left);
      peers := left;
      res := res + out;
    }

    /** All of the statements take effect or none. */
    method Transaction(todo: seq<string>, commits: bool) returns (out: Statuses, left: set<string>)
      requires Distinct(todo)
      ensures forall id :: id in out <==> id in todo
      ensures forall id :: id in out ==> out[id] == if !commits then Failed else if id in peers then Deleted else NotFound
      ensures forall p :: p in left <==> p in peers && !(commits && p in todo)
    {
      if !commits {
        return map id | id in todo :: Failed, peers;
      }
      out, left := DeleteRows(todo);
    }

    /** One round: results that are waiting are only sent again, the other jobs are carried out. */
    method DeleteOnce(jobs: seq<Job>, w: World, posted: bool) returns (results: seq<(string, Status)>)
      modifies this
      ensures var done := Results(old(peers), old(unsent), jobs, w);
              && (forall j :: j in jobs ==> j.req in done)
              && results == Listed(jobs, done)
              && unsent == UnsentAfter(old(unsent), jobs, done, posted, unsentMax)
      ensures peers == PeersAfter(old(peers), old(unsent), jobs, w)
      ensures |results| == |jobs| && forall i :: 0 <= i < |jobs| ==> results[i].0 == jobs[i].req
      ensures forall i :: 0 <= i < |jobs| && jobs[i].req in old(unsent) ==> results[i].1 == old(unsent)[jobs[i].req]
      ensures forall i :: 0 <= i < |jobs| && LastOf(jobs, i) && jobs[i].req !in old(unsent) ==>
                Tells(results[i].1, w, old(peers), peers, jobs[i].peer)
      ensures peers <= old(peers)
      ensures forall p :: p in old(peers) - peers ==> exists j :: j in jobs && j.req !in old(unsent) && j.peer == p
    {
      var done := CarryOut(jobs, w);
      ResultsComplete(old(peers), unsent, jobs, w);
      results := Listed(jobs, done);
      AllTell(old(peers), unsent, jobs, w);
      Settle(jobs, done, posted);
    }

    method CarryOut(jobs: seq<Job>, w: World) returns (done: Statuses)
      modifies this`peers
      ensures done == Results(old(peers), unsent, jobs, w)
      ensures peers == PeersAfter(old(peers), unsent, jobs, w)
    {
      done := Kept(jobs, unsent);
      var todo := Open(jobs, unsent);
      if todo != [] {
        var res := DeletePeers(Unique(Peers(todo)), w);
        done := FillIn(done, todo, res);
      }
    }

    method FillIn(kept: Statuses, todo: seq<Job>, res: Statuses) returns (done: Statuses)
      ensures done == Filled(kept, todo, res)
    {
      done := kept;
      for i := 0 to |todo|
        invariant done == Filled(kept, todo[..i], res)
      {
        assert todo[..i + 1][..i] == todo[..i];
        done := done[todo[i].req := if todo[i].peer in res then res[todo[i].peer] else Failed];
      }
      assert todo[..|todo|] == todo;
    }

    /** After the POST: delivered results are forgotten, others kept; a full store is emptied first. */
    method Settle(jobs: seq<Job>, done: Statuses, posted: bool)
      modifies this`unsent
      ensures unsent == UnsentAfter(old(unsent), jobs, done, posted, unsentMax)
    {
      if posted {
        unsent := unsent - Requests(jobs);
      } else {
        if |unsent| + |jobs| > unsentMax {
          unsent := map[];
        }
        unsent := unsent + done;
      }
    }

    /** The statements of the transaction; nothing is visible before the commit. */
    method DeleteRows(todo: seq<string>) returns (out: Statuses, left: set<string>)
      requires Distinct(todo)
      ensures forall id :: id in out <==> id in todo
      ensures forall id :: id in out ==> out[id] == if id in peers then Deleted else NotFound
      ensures forall p :: p in left <==> p in peers && p !in todo
    {
      out, left := map[], peers;
      for i := 0 to |todo|
        invariant forall id :: id in out <==> id in todo[..i]
        invariant forall id :: id in out ==> out[id] == if id in peers then Deleted else NotFound
        invariant forall p :: p in left <==> p in peers && p !in todo[..i]
      {
        var id := todo[i];
        assert todo[..i + 1] == todo[..i] + [id];
        out := out[id := if id in left then Deleted else NotFound];
        left := left - {id};
      }
      assert todo[..|todo|] == todo;
    }
  }

  lemma {:induction false} OfflineDistinct(ids: seq<string>, online: set<string>)
    requires Distinct(ids)
    ensures Distinct(Offline(ids, online))
  {
    if ids != [] {
      var n := |ids| - 1;
      OfflineDistinct(ids[..n], online);
      OfflineItems(ids[..n], online);
      var s := Offline(ids[..n], online);
      forall i | 0 <= i < |s| ensures s[i] != ids[n] {
        assert s[i] in ids[..n];
      }
    }
  }
}
