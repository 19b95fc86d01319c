/** The request limit over runs: what housekeeping changes and how many requests one second can see, for
    clock readings that may be late. */
module RateRuns {
  import opened RateGate

  /** `k` requests with one reading. */
  function Burst(ip: string, now: real, k: nat): (s: seq<Step>)
    ensures |s| == k
  {
    seq(k, i => Request(ip, now))
  }

  lemma BurstFirst(ip: string, now: real, k: nat, rest: seq<Step>)
    requires k > 0
    ensures var s := Burst(ip, now, k) + rest;
            s[0] == Request(ip, now) && s[1..] == Burst(ip, now, k - 1) + rest
  {
  }

  // ---- housekeeping ----

  /** A single decision is changed by housekeeping exactly when it dropped a used-up window that is not
      over yet for the reading of the request. */
  lemma TidyChangesExactly(w: Windows, t: real, ip: string, now: real, perSec: nat)
    ensures Granted(Tidied(w, t), ip, now, perSec) != Granted(w, ip, now, perSec) <==>
              ip in w && t - w[ip].start >= 2.0 && now - w[ip].start < 1.0 && w[ip].hits >= perSec >= 1
  {
  }

  /** Housekeeping with reading `t` is invisible to requests with reading `now`, whatever the windows,
      exactly when `now` is at most one second behind. */
  lemma InvisibleExactly(t: real, now: real, perSec: nat)
    requires perSec > 0
    ensures (forall w: Windows, ip :: Granted(Tidied(w, t), ip, now, perSec) == Granted(w, ip, now, perSec))
            <==> now >= t - 1.0
  {
    if now >= t - 1.0 {
      forall w: Windows, ip ensures Granted(Tidied(w, t), ip, now, perSec) == Granted(w, ip, now, perSec) {
        TidyChangesExactly(w, t, ip, now, perSec);
      }
    } else {
      var w: Windows := map["" := Window(t - 2.0, perSec)];
      TidyChangesExactly(w, t, "", now, perSec);
      assert Granted(Tidied(w, t), "", now, perSec) != Granted(w, "", now, perSec);
    }
  }

  /** No request's reading is more than a second behind that of an earlier housekeeping. */
  ghost predicate TidyOnTime(steps: seq<Step>) {
    forall i, j :: 0 <= i < j < |steps| && steps[i].Tidy? && steps[j].Request? ==> steps[j].now >= steps[i].now - 1.0
  }

  /** The windows agree except for ones that are over for all requests to come. */
  ghost predicate Alike(w: Windows, v: Windows, steps: seq<Step>) {
    && (forall ip :: ip in w ==> ip in v && v[ip] == w[ip])
    && (forall ip, j :: ip in v && ip !in w && 0 <= j < |steps| && steps[j].Request? ==> steps[j].now - v[ip].start >= 1.0)
  }

  lemma AlikeRequest(w: Windows, v: Windows, steps: seq<Step>)
    requires steps != [] && steps[0].Request? && Alike(w, v, steps)
    ensures Current(w, steps[0].ip, steps[0].now) == Current(v, steps[0].ip, steps[0].now)
    ensures Alike(Do(w, steps[0]), Do(v, steps[0]), steps[1..])
  {
    assert forall j :: 0 <= j < |steps| - 1 ==> steps[1..][j] == steps[j + 1];
  }

  lemma AlikeTidy(w: Windows, v: Windows, steps: seq<Step>)
    requires steps != [] && steps[0].Tidy? && Alike(w, v, steps) && TidyOnTime(steps)
    ensures Alike(Do(w, steps[0]), v, steps[1..])
  {
    assert forall j :: 0 <= j < |steps| - 1 ==> steps[1..][j] == steps[j + 1];
  }

  lemma {:induction false} AlikeRun(w: Windows, v: Windows, steps: seq<Step>, perSec: nat)
    requires Alike(w, v, steps) && TidyOnTime(steps)
    ensures Decisions(w, steps, perSec) == Decisions(v, Requests(steps), perSec)
    ensures forall ip, from :: Grants(w, steps, ip, from, perSec) == Grants(v, Requests(steps), ip, from, perSec)
    decreases |steps|
  {
    if steps != [] {
      var s := steps[0];
      if s.Request? {
        AlikeRequest(w, v, steps);
        assert Requests(steps)[1..] == Requests(steps[1..]);
        AlikeRun(Do(w, s), Do(v, s), steps[1..], perSec);
      } else {
        AlikeTidy(w, v, steps);
        assert Requests(steps) == Requests(steps[1..]);
        AlikeRun(Do(w, s), v, steps[1..], perSec);
      }
    }
  }

  /** As long as no request is more than a second late, housekeeping at any moments changes no decision;
      the readings of the requests among themselves may come in any order. */
  lemma HousekeepingInvisible(steps: seq<Step>, perSec: nat)
    requires TidyOnTime(steps)
    ensures Decisions(map[], steps, perSec) == Decisions(map[], Requests(steps), perSec)
  {
    AlikeRun(map[], map[], steps, perSec);
  }

  /** The run in which `ip` uses up its limit, housekeeping comes two seconds later, and one more request
      follows. */
  function LateRun(ip: string, t: real, now: real, perSec: nat): seq<Step> {
    Burst(ip, t - 2.0, perSec) + [Tidy(t), Request(ip, now)]
  }

  function Trues(k: nat): (s: seq<bool>)
    ensures |s| == k
  {
    seq(k, i => true)
  }

  lemma {:induction false} BurstRequests(ip: string, now: real, k: nat, rest: seq<Step>)
    ensures Requests(Burst(ip, now, k) + rest) == Burst(ip, now, k) + Requests(rest)
  {
    if k == 0 {
      assert Burst(ip, now, k) + rest == rest && Burst(ip, now, k) + Requests(rest) == Requests(rest);
    } else {
      BurstFirst(ip, now, k, rest);
      BurstRequests(ip, now, k - 1, rest);
      assert Burst(ip, now, k) + Requests(rest) == [Request(ip, now)] + (Burst(ip, now, k - 1) + Requests(rest));
    }
  }

  lemma {:induction false} BurstDecisions(w: Windows, ip: string, now: real, k: nat, rest: seq<Step>, perSec: nat)
    requires ip in w && 0.0 <= now - w[ip].start < 1.0 && w[ip].hits + k <= perSec
    ensures Decisions(w, Burst(ip, now, k) + rest, perSec)
            == Trues(k) + Decisions(w[ip := Window(w[ip].start, w[ip].hits + k)], rest, perSec)
    decreases k
  {
    if k == 0 {
      assert Burst(ip, now, k) + rest == rest && w[ip := Window(w[ip].start, w[ip].hits)] == w;
      assert Trues(k) + Decisions(w, rest, perSec) == Decisions(w, rest, perSec);
    } else {
      BurstFirst(ip, now, k, rest);
      var v, u := w[ip := Window(w[ip].start, w[ip].hits + 1)], w[ip := Window(w[ip].start, w[ip].hits + k)];
      BurstDecisions(v, ip, now, k - 1, rest, perSec);
      assert v[ip := Window(w[ip].start, w[ip].hits + k)] == u;
      OneMoreTrue(k, Decisions(u, rest, perSec));
    }
  }

  lemma OneMoreTrue(k: nat, more: seq<bool>)
    requires k > 0
    ensures [true] + (Trues(k - 1) + more) == Trues(k) + more
  {
  }

  lemma OpeningBurst(ip: string, now: real, k: nat, rest: seq<Step>, perSec: nat)
    requires 0 < k <= perSec
    ensures Decisions(map[], Burst(ip, now, k) + rest, perSec)
            == Trues(k) + Decisions(map[ip := Window(now, k)], rest, perSec)
    ensures Requests(Burst(ip, now, k) + rest) == Burst(ip, now, k) + Requests(rest)
  {
    BurstRequests(ip, now, k, rest);
    BurstFirst(ip, now, k, rest);
    var v, u: Windows := map[ip := Window(now, 1)], map[ip := Window(now, k)];
    assert Do(map[], Request(ip, now)) == v;
    BurstDecisions(v, ip, now, k - 1, rest, perSec);
    assert v[ip := Window(now, k)] == u;
    OneMoreTrue(k, Decisions(u, rest, perSec));
  }

  lemma DecideLast(w: Windows, ip: string, now: real, perSec: nat)
    ensures Decisions(w, [Request(ip, now)], perSec) == [Granted(w, ip, now, perSec)]
  {
    assert [Request(ip, now)][1..] == [];
  }

  /** In that run housekeeping changes the last decision exactly when the last request is more than a
      second late: the assumption of HousekeepingInvisible cannot be weakened for any two readings. */
  lemma LateRequestShows(ip: string, t: real, now: real, perSec: nat)
    requires perSec > 0
    ensures var steps := LateRun(ip, t, now, perSec);
            Decisions(map[], steps, perSec) != Decisions(map[], Requests(steps), perSec) <==> now < t - 1.0
  {
    var last := [Request(ip, now)];
    var w: Windows := map[ip := Window(t - 2.0, perSec)];
    var tail := [Tidy(t), Request(ip, now)];
    OpeningBurst(ip, t - 2.0, perSec, tail, perSec);
    OpeningBurst(ip, t - 2.0, perSec, last, perSec);
    assert tail[1..] == last && last[1..] == [];
    assert Requests(last) == [Request(ip, now)] + Requests([]);
    assert Requests(tail) == last;
    var trues := Trues(perSec);
    assert Tidied(w, t) == map[];
    DecideLast(w, ip, now, perSec);
    DecideLast(map[], ip, now, perSec);
    assert Do(w, tail[0]) == map[] && Decisions(w, tail, perSec) == [] + Decisions(map[], last, perSec);
    assert (trues + [Granted(map[], ip, now, perSec)])[perSec] == Granted(map[], ip, now, perSec);
    assert (trues + [Granted(w, ip, now, perSec)])[perSec] == Granted(w, ip, now, perSec);
  }

  // ---- how many grants a second can see ----

  /** No request's reading is more than `d` behind that of an earlier request. */
  ghost predicate Timely(steps: seq<Step>, d: real) {
    forall i, j :: 0 <= i < j < |steps| && steps[i].Request? && steps[j].Request? ==> steps[j].now >= steps[i].now - d
  }

  /** `x` rounded up. */
  function Ceil(x: real): int {
    -((-x).Floor)
  }

  /** How many windows, at least a second apart, can start in [x, hi). */
  function Fits(x: real, hi: real): (n: nat)
    ensures n == 0 <==> x >= hi
  {
    if x >= hi then 0 else Ceil(hi - x)
  }

  lemma FitsFewer(x: real, y: real, hi: real)
    requires x <= y
    ensures Fits(y, hi) <= Fits(x, hi)
  {
  }

  lemma FitsNext(x: real, hi: real)
    requires x < hi
    ensures Fits(x, hi) == 1 + Fits(x + 1.0, hi)
  {
    var y := -(hi - x);
    assert (y + 1.0).Floor == y.Floor + 1;
    if x + 1.0 < hi {
      assert -(hi - (x + 1.0)) == y + 1.0;
    }
  }

  function Room(w: Window, perSec: nat): nat {
    if w.hits >= perSec then 0 else perSec - w.hits
  }

  /** What windows that start at `x` or later can grant in [from, from + 1): all but the first request of each,
      and that of the one window that starts inside. */
  function Future(x: real, from: real, hi: real, perSec: nat): nat
    requires perSec > 0
  {
    Fits(x, hi) * (perSec - 1) + if x < from + 1.0 then 1 else 0
  }

  /** What the state still allows in [from, from + 1), when windows that start at `hi` or later are out of
      reach. */
  function Allowance(w: Windows, ip: string, from: real, hi: real, perSec: nat): nat
    requires perSec > 0
  {
    if ip !in w || w[ip].start <= from - 1.0 then Future(from - 1.0, from, hi, perSec)
    else if w[ip].start >= hi then 0
    else Room(w[ip], perSec) + Future(w[ip].start + 1.0, from, hi, perSec)
  }

  lemma Scaled(k: nat, m: nat, n: nat)
    requires m <= n
    ensures m * k <= n * k
  {
  }

  lemma FutureFewer(x: real, y: real, from: real, hi: real, perSec: nat)
    requires x <= y && perSec > 0
    ensures Future(y, from, hi, perSec) <= Future(x, from, hi, perSec)
  {
    FitsFewer(x, y, hi);
    Scaled(perSec - 1, Fits(y, hi), Fits(x, hi));
  }

  /** A window that starts at `x` uses up just what the future held. */
  lemma FutureNext(x: real, from: real, hi: real, perSec: nat)
    requires x < hi && perSec > 0
    ensures Future(x, from, hi, perSec)
            == (if Within(x, from) then 1 else 0) + (perSec - 1) + Future(x + 1.0, from, hi, perSec)
  {
    FitsNext(x, hi);
    assert Fits(x, hi) * (perSec - 1) == (perSec - 1) + Fits(x + 1.0, hi) * (perSec - 1);
  }

  lemma AllowanceStay(w: Windows, now: real, ip: string, from: real, d: real, perSec: nat)
    requires d >= 0.0 && perSec > 0 && ip in w && now - w[ip].start < 1.0 && w[ip].start <= now + d
    ensures (if Granted(w, ip, now, perSec) && Within(now, from) then 1 else 0)
            + Allowance(Hit(w, ip, now), ip, from, from + 1.0 + d, perSec) <= Allowance(w, ip, from, from + 1.0 + d, perSec)
  {
  }

  lemma AllowanceOpen(w: Windows, now: real, ip: string, from: real, d: real, perSec: nat)
    requires d >= 0.0 && perSec > 0 && !(ip in w && now - w[ip].start < 1.0)
    ensures (if Granted(w, ip, now, perSec) && Within(now, from) then 1 else 0)
            + Allowance(Hit(w, ip, now), ip, from, from + 1.0 + d, perSec) <= Allowance(w, ip, from, from + 1.0 + d, perSec)
  {
    var hi := from + 1.0 + d;
    assert Hit(w, ip, now)[ip] == Window(now, 1);
    if from - 1.0 < now < hi {
      FutureNext(now, from, hi, perSec);
      FutureFewer(if ip in w && w[ip].start > from - 1.0 then w[ip].start + 1.0 else from - 1.0, now, from, hi, perSec);
    }
  }

  /** The window of `ip` started no more than `d` after any reading to come. */
  ghost predicate Reachable(w: Windows, steps: seq<Step>, ip: string, d: real) {
    forall j :: 0 <= j < |steps| && steps[j].Request? && ip in w ==> w[ip].start <= steps[j].now + d
  }

  lemma ReachableNext(w: Windows, steps: seq<Step>, ip: string, d: real)
    requires d >= 0.0 && steps != [] && steps[0].Request? && Reachable(w, steps, ip, d) && Timely(steps, d)
    ensures Timely(steps[1..], d) && Reachable(Do(w, steps[0]), steps[1..], ip, d)
  {
    assert forall j :: 0 <= j < |steps| - 1 ==> steps[1..][j] == steps[j + 1];
  }

  lemma {:induction false} GrantsBounded(w: Windows, steps: seq<Step>, ip: string, from: real, d: real, perSec: nat)
    requires d >= 0.0 && perSec > 0 && Timely(steps, d) && Reachable(w, steps, ip, d)
    requires forall j :: 0 <= j < |steps| ==> steps[j].Request?
    ensures Grants(w, steps, ip, from, perSec) <= Allowance(w, ip, from, from + 1.0 + d, perSec)
    decreases |steps|
  {
    if steps != [] {
      var s := steps[0];
      ReachableNext(w, steps, ip, d);
      if s.ip == ip {
        if ip in w && s.now - w[ip].start < 1.0 {
          AllowanceStay(w, s.now, ip, from, d, perSec);
        } else {
          AllowanceOpen(w, s.now, ip, from, d, perSec);
        }
      }
      GrantsBounded(Do(w, s), steps[1..], ip, from, d, perSec);
    }
  }

  lemma {:induction false} RequestsOnly(steps: seq<Step>)
    ensures forall s :: s in Requests(steps) <==> s in steps && s.Request?
  {
    if steps != [] {
      RequestsOnly(steps[1..]);
      assert steps == [steps[0]] + steps[1..];
    }
  }

  lemma {:induction false} RequestsTimely(steps: seq<Step>, d: real)
    requires Timely(steps, d)
    ensures Timely(Requests(steps), d)
  {
    if steps != [] {
      assert forall j :: 0 <= j < |steps| - 1 ==> steps[1..][j] == steps[j + 1];
      RequestsTimely(steps[1..], d);
      var rest := Requests(steps[1..]);
      RequestsOnly(steps[1..]);
      if steps[0].Request? {
        forall j | 0 <= j < |rest| ensures rest[j].now >= steps[0].now - d {
          assert rest[j] in steps[1..];
        }
      }
    }
  }

  /** The largest number of grants that a second can see: every window gives all but its first request, and the
      one that starts inside the second gives that as well. */
  function Most(d: real, perSec: nat): nat
    requires d >= 0.0
  {
    if perSec == 0 then 0 else (2 + Ceil(d)) * (perSec - 1) + 1
  }

  lemma CeilNext(d: real)
    requires d >= 0.0
    ensures Ceil(d + 2.0) == Ceil(d) + 2 && Ceil(d) >= 0 && d <= Ceil(d) as real < d + 1.0
  {
    assert (-d - 2.0).Floor == (-d).Floor - 2;
    assert -d - 2.0 == -(d + 2.0);
  }

  lemma {:induction false} NoneGranted(w: Windows, steps: seq<Step>, ip: string, from: real)
    ensures Grants(w, steps, ip, from, 0) == 0
    decreases |steps|
  {
    if steps != [] {
      NoneGranted(Do(w, steps[0]), steps[1..], ip, from);
    }
  }

  /** With requests at most `d` behind earlier requests and a second behind earlier housekeeping, no half-open
      second sees more than that. */
  lemma GrantsPerSecond(steps: seq<Step>, ip: string, from: real, d: real, perSec: nat)
    requires d >= 0.0 && Timely(steps, d) && TidyOnTime(steps)
    ensures Grants(map[], steps, ip, from, perSec) <= Most(d, perSec)
  {
    if perSec == 0 {
      NoneGranted(map[], steps, ip, from);
    } else {
      var rs := Requests(steps);
      AlikeRun(map[], map[], steps, perSec);
      RequestsTimely(steps, d);
      RequestsOnly(steps);
      assert forall j :: 0 <= j < |rs| ==> rs[j] in rs;
      GrantsBounded(map[], rs, ip, from, d, perSec);
      CeilNext(d);
      assert (from + 1.0 + d) - (from - 1.0) == d + 2.0;
    }
  }

  // ---- a run that reaches it ----

  lemma {:induction false} BurstGrants(w: Windows, ip: string, now: real, k: nat, rest: seq<Step>, from: real, perSec: nat)
    requires ip in w && now - w[ip].start < 1.0 && w[ip].hits + k <= perSec && Within(now, from)
    ensures Grants(w, Burst(ip, now, k) + rest, ip, from, perSec)
            == k + Grants(w[ip := Window(w[ip].start, w[ip].hits + k)], rest, ip, from, perSec)
    decreases k
  {
    if k == 0 {
      assert Burst(ip, now, k) + rest == rest && w[ip := Window(w[ip].start, w[ip].hits)] == w;
    } else {
      BurstFirst(ip, now, k, rest);
      var v := w[ip := Window(w[ip].start, w[ip].hits + 1)];
      BurstGrants(v, ip, now, k - 1, rest, from, perSec);
      assert v[ip := Window(w[ip].start, w[ip].hits + k)] == w[ip := Window(w[ip].start, w[ip].hits + k)];
    }
  }

  /** A window opened by a request, and a burst that uses it up. */
  function Opened(ip: string, start: real, now: real, k: nat): seq<Step>
    requires k > 0
  {
    [Request(ip, start)] + Burst(ip, now, k - 1)
  }

  lemma OpenedGrants(w: Windows, ip: string, start: real, now: real, rest: seq<Step>, from: real, k: nat)
    requires k > 0 && now - start < 1.0 && Within(now, from)
    requires ip in w ==> start - w[ip].start >= 1.0
    ensures Grants(w, Opened(ip, start, now, k) + rest, ip, from, k)
            == (if Within(start, from) then k else k - 1) + Grants(w[ip := Window(start, k)], rest, ip, from, k)
  {
    var tail := Burst(ip, now, k - 1) + rest;
    var all := Opened(ip, start, now, k) + rest;
    assert all[0] == Request(ip, start) && all[1..] == tail;
    var v := w[ip := Window(start, 1)];
    assert Do(w, all[0]) == v;
    BurstGrants(v, ip, now, k - 1, rest, from, k);
    assert v[ip := Window(start, k)] == w[ip := Window(start, k)];
  }

  /** Windows that start at j + e, j + 1 + e, ..., used up by requests that read 1 - e. */
  function LateWindows(ip: string, k: nat, e: real, j: nat, m: nat): seq<Step>
    requires k > 0
    decreases m
  {
    if m == 0 then [] else Opened(ip, j as real + e, 1.0 - e, k) + LateWindows(ip, k, e, j + 1, m - 1)
  }

  lemma {:induction false} LateGrants(w: Windows, ip: string, k: nat, e: real, j: nat, m: nat)
    requires k > 0 && j > 0 && 0.0 < e <= 0.5 && ip in w && w[ip].start == (j - 1) as real + e
    ensures Grants(w, LateWindows(ip, k, e, j, m), ip, 0.0, k) == m * (k - 1)
    decreases m
  {
    if m > 0 {
      var rest := LateWindows(ip, k, e, j + 1, m - 1);
      OpenedGrants(w, ip, j as real + e, 1.0 - e, rest, 0.0, k);
      LateGrants(w[ip := Window(j as real + e, k)], ip, k, e, j + 1, m - 1);
      assert m * (k - 1) == (k - 1) + (m - 1) * (k - 1);
    }
  }

  /** A window before the second, one inside it and `m` behind it, all used for the second as far as possible. */
  function FullRun(ip: string, k: nat, e: real, m: nat): seq<Step>
    requires k > 0
  {
    Opened(ip, -1.0 + e, 0.0, k) + (Opened(ip, e, e, k) + LateWindows(ip, k, e, 1, m))
  }

  lemma FullRunGrants(ip: string, k: nat, e: real, m: nat)
    requires k > 0 && 0.0 < e <= 0.5
    ensures Grants(map[], FullRun(ip, k, e, m), ip, 0.0, k) == (2 + m) * (k - 1) + 1
  {
    var late := LateWindows(ip, k, e, 1, m);
    OpenedGrants(map[], ip, -1.0 + e, 0.0, Opened(ip, e, e, k) + late, 0.0, k);
    var w: Windows := map[ip := Window(-1.0 + e, k)];
    OpenedGrants(w, ip, e, e, late, 0.0, k);
    var v: Windows := map[ip := Window(e, k)];
    assert w[ip := Window(e, k)] == v;
    LateGrants(v, ip, k, e, 1, m);
    assert (2 + m) * (k - 1) == (k - 1) + (k - 1) + m * (k - 1);
  }

  /** Requests with readings from `lo` to `hi`. */
  ghost predicate ReadingsIn(steps: seq<Step>, lo: real, hi: real) {
    forall i :: 0 <= i < |steps| ==> steps[i].Request? && lo <= steps[i].now <= hi
  }

  lemma TimelyAppend(a: seq<Step>, b: seq<Step>, d: real, hi: real, lo: real, low: real, high: real)
    requires Timely(a, d) && Timely(b, d) && ReadingsIn(a, low, hi) && ReadingsIn(b, lo, high) && lo >= hi - d
    ensures Timely(a + b, d)
  {
  }

  lemma {:induction false} LateReadings(ip: string, k: nat, e: real, j: nat, m: nat)
    requires k > 0 && j > 0 && 0.0 < e <= 0.5
    ensures ReadingsIn(LateWindows(ip, k, e, j, m), 1.0 - e, (j + m) as real - 1.0 + e)
    decreases m
  {
    if m > 0 {
      LateReadings(ip, k, e, j + 1, m - 1);
    }
  }

  lemma FullRunTimely(ip: string, k: nat, e: real, m: nat, d: real)
    requires k > 0 && 0.0 < e <= 0.5 && d >= 0.0 && m as real + e <= 1.0 - e + d
    ensures Timely(FullRun(ip, k, e, m), d) && TidyOnTime(FullRun(ip, k, e, m))
  {
    var a, b, c := Opened(ip, -1.0 + e, 0.0, k), Opened(ip, e, e, k), LateWindows(ip, k, e, 1, m);
    LateReadings(ip, k, e, 1, m);
    assert ReadingsIn(a, -1.0 + e, 0.0) && ReadingsIn(b, e, e);
    if m == 0 {
      assert b + c == b;
    } else {
      assert Timely(c, d);
      TimelyAppend(b, c, d, e, 1.0 - e, e, m as real + e);
    }
    assert ReadingsIn(b + c, e, if m == 0 then e else m as real + e);
    TimelyAppend(a, b + c, d, 0.0, e, -1.0 + e, if m == 0 then e else m as real + e);
  }

  ghost predicate NeverMoreThan(n: nat, d: real, perSec: nat) {
    forall steps, ip, from :: Timely(steps, d) && TidyOnTime(steps) ==> Grants(map[], steps, ip, from, perSec) <= n
  }

  /** A run with requests at most `d` late in which one second sees that many grants. */
  lemma MostIsReached(ip: string, d: real, perSec: nat) returns (steps: seq<Step>)
    requires d >= 0.0
    ensures Timely(steps, d) && TidyOnTime(steps) && Grants(map[], steps, ip, 0.0, perSec) == Most(d, perSec)
  {
    if perSec == 0 {
      steps := [];
    } else {
      CeilNext(d);
      var e := (d + 1.0 - Ceil(d) as real) / 2.0;
      steps := FullRun(ip, perSec, e, Ceil(d));
      FullRunTimely(ip, perSec, e, Ceil(d), d);
      FullRunGrants(ip, perSec, e, Ceil(d));
    }
  }

  /** That number is the largest: over all runs with requests at most `d` late, `n` is never exceeded in a half-open
      second exactly when it is at least that. */
  lemma MostExactly(n: nat, d: real, perSec: nat)
    requires d >= 0.0
    ensures NeverMoreThan(n, d, perSec) <==> n >= Most(d, perSec)
  {
    if n >= Most(d, perSec) {
      forall steps, ip, from | Timely(steps, d) && TidyOnTime(steps)
        ensures Grants(map[], steps, ip, from, perSec) <= n
      {
        GrantsPerSecond(steps, ip, from, d, perSec);
      }
    } else {
      var steps := MostIsReached("", d, perSec);
      assert Grants(map[], steps, "", 0.0, perSec) > n;
    }
  }

  /** At most twice the limit is granted in any half-open second, in all runs, exactly when requests are never
      late, or the limit is one, or it is two and requests are at most a second late. */
  lemma AtMostTwiceExactly(d: real, perSec: nat)
    requires d >= 0.0
    ensures NeverMoreThan(2 * perSec, d, perSec) <==> d == 0.0 || perSec <= 1 || (perSec == 2 && d <= 1.0)
  {
    MostExactly(2 * perSec, d, perSec);
    CeilNext(d);
    if perSec > 0 {
      TwiceArithmetic(Ceil(d), perSec);
    }
  }

  lemma TwiceArithmetic(c: nat, k: nat)
    requires k > 0
    ensures (2 + c) * (k - 1) + 1 <= 2 * k <==> c == 0 || k == 1 || (k == 2 && c <= 1)
  {
    var m: nat := k - 1;
    assert (2 + c) * m == 2 * m + c * m;
    ProductAtMostOne(c, m);
  }

  lemma ProductAtMostOne(c: nat, m: nat)
    ensures c * m <= 1 <==> c == 0 || m == 0 || (c == 1 && m == 1)
  {
    if c > 1 && m > 0 {
      Scaled(m, 2, c);
    } else if m > 1 && c == 1 {
      assert c * m == m;
    }
  }

  /** With readings in the order of the lock: less than twice the limit. */
  lemma LessThanTwiceTheLimit(steps: seq<Step>, ip: string, from: real, perSec: nat)
    requires forall i, j :: 0 <= i < j < |steps| ==> steps[i].now <= steps[j].now
    ensures perSec > 0 ==> Grants(map[], steps, ip, from, perSec) < 2 * perSec
  {
    GrantsPerSecond(steps, ip, from, 0.0, perSec);
  }

  // ---- two stalled threads ----

  /** With a limit of one, housekeeping two seconds ahead lets a late request through. */
  lemma StalledRequestPasses()
    ensures var steps := [Request("a", 0.0), Tidy(2.0), Request("a", 0.0)];
            Decisions(map[], steps, 1) == [true, true] && Decisions(map[], Requests(steps), 1) == [true, false]
  {
    var steps := [Request("a", 0.0), Tidy(2.0), Request("a", 0.0)];
    var w: Windows := map["a" := Window(0.0, 1)];
    assert steps[1..] == [Tidy(2.0), Request("a", 0.0)] && steps[1..][1..] == [Request("a", 0.0)];
    assert Do(map[], steps[0]) == w && Do(w, Tidy(2.0)) == map[];
    assert Decisions(map[], [Request("a", 0.0)], 1) == [true];
    var rs := [Request("a", 0.0), Request("a", 0.0)];
    assert Requests(steps[1..]) == [Request("a", 0.0)];
    assert Requests(steps) == rs;
    assert rs[1..] == [Request("a", 0.0)];
    assert Decisions(w, [Request("a", 0.0)], 1) == [false];
  }

  /** Then even three requests of one half-open second are granted under a limit of one. */
  lemma StalledRequestsExceedTwice()
    ensures Grants(map[], [Request("a", 0.0), Tidy(2.0), Request("a", 0.0), Tidy(2.0), Request("a", 0.0)], "a", 0.0, 1) == 3
  {
    var a := [Request("a", 0.0)];
    var b := [Request("a", 0.0), Tidy(2.0)] + a;
    var c := [Request("a", 0.0), Tidy(2.0)] + b;
    assert c == [Request("a", 0.0), Tidy(2.0), Request("a", 0.0), Tidy(2.0), Request("a", 0.0)];
    TwoSteps(b);
    TwoSteps(a);
    assert a[1..] == [];
    assert Grants(map[], a, "a", 0.0, 1) == 1 + Grants(Do(map[], a[0]), [], "a", 0.0, 1);
  }

  lemma TwoSteps(rest: seq<Step>)
    ensures Grants(map[], [Request("a", 0.0), Tidy(2.0)] + rest, "a", 0.0, 1) == 1 + Grants(map[], rest, "a", 0.0, 1)
  {
    var s := [Request("a", 0.0), Tidy(2.0)] + rest;
    var w: Windows := map["a" := Window(0.0, 1)];
    assert s[1..] == [Tidy(2.0)] + rest && s[1..][1..] == rest;
    assert Do(map[], s[0]) == w && Do(w, Tidy(2.0)) == map[];
  }
}
