/** The per-source request limit of the receiver (agent/jt_ipam_rustdesk_agent.py).  Every thread reads the
    clock before it takes the lock, so readings need not increase in the order of the steps. */
module RateGate {
  import opened Integers
  import opened Wrappers

  /** A one-second window: when it was opened and how many requests it has seen, refused ones too. */
  datatype Window = Window(start: real, hits: nat)

  type Windows = map<string, Window>

  datatype Step = Request(ip: string, now: real) | Tidy(now: real)

  function Current(w: Windows, ip: string, now: real): Window {
    if ip in w && now - w[ip].start < 1.0 then w[ip] else Window(now, 0)
  }

  function Hit(w: Windows, ip: string, now: real): Windows {
    var c := Current(w, ip, now);
    w[ip := Window(c.start, c.hits + 1)]
  }

  predicate Granted(w: Windows, ip: string, now: real, perSec: nat) {
    Current(w, ip, now).hits + 1 <= perSec
  }

  function Tidied(w: Windows, now: real): Windows {
    map ip | ip in w && now - w[ip].start < 2.0 :: w[ip]
  }

  class RateLimiter {
    const perSec: nat
    var windows: Windows

    constructor (perSec: nat)
      ensures this.perSec == perSec && windows == map[]
    {
      this.perSec := perSec;
      windows := map[];
    }

    method RateOk(ip: string, now: real) returns (ok: bool)
      modifies this
      ensures windows == Hit(old(windows), ip, now)
      ensures ok <==> Granted(old(windows), ip, now, perSec)
    {
      if ip !in windows || now - windows[ip].start >= 1.0 {
        windows := windows[ip := Window(now, 0)];
      }
      windows := windows[ip := Window(windows[ip].start, windows[ip].hits + 1)];
      ok := windows[ip].hits <= perSec;
    }

    method Housekeeping(now: real)
      modifies this
      ensures windows == Tidied(old(windows), now)
    {
      var stale := set ip | ip in windows && now - windows[ip].start >= 2.0;
      while stale != {}
        invariant stale <= windows.Keys
        invariant stale == set ip | ip in windows && now - windows[ip].start >= 2.0
        invariant windows == map ip | ip in old(windows) && (ip in stale || now - old(windows)[ip].start < 2.0) :: old(windows)[ip]
        decreases stale
      {
        var ip :| ip in stale;
        windows := windows - {ip};
        stale := stale - {ip};
      }
    }
  }

  // ---- runs ----

  function Do(w: Windows, s: Step): Windows {
    match s
    case Request(ip, now) => Hit(w, ip, now)
    case Tidy(now) => Tidied(w, now)
  }

  predicate GrantsTo(w: Windows, s: Step, ip: string, perSec: nat) {
    s.Request? && s.ip == ip && Granted(w, ip, s.now, perSec)
  }

  predicate Within(t: real, from: real) {
    from <= t < from + 1.0
  }

  /** Requests from `ip` granted with a reading in [from, from + 1). */
  function Grants(w: Windows, steps: seq<Step>, ip: string, from: real, perSec: nat): nat
    decreases |steps|
  {
    if steps == [] then 0
    else (if GrantsTo(w, steps[0], ip, perSec) && Within(steps[0].now, from) then 1 else 0)
         + Grants(Do(w, steps[0]), steps[1..], ip, from, perSec)
  }

  function Decisions(w: Windows, steps: seq<Step>, perSec: nat): seq<bool>
    decreases |steps|
  {
    if steps == [] then []
    else (if steps[0].Request? then [Granted(w, steps[0].ip, steps[0].now, perSec)] else [])
         + Decisions(Do(w, steps[0]), steps[1..], perSec)
  }

  function Requests(steps: seq<Step>): seq<Step> {
    if steps == [] then []
    else (if steps[0].Request? then [steps[0]] else []) + Requests(steps[1..])
  }

  // ---- one window, for clock readings in any order ----

  function After(steps: seq<Step>): Windows {
    if steps == [] then map[] else Do(After(steps[..|steps| - 1]), steps[|steps| - 1])
  }

  /** The step that opened the window of `ip`, if there is a window. */
  function OpenedAt(steps: seq<Step>, ip: string): Option<nat> {
    if steps == [] then None
    else
      var n := |steps| - 1;
      var w := After(steps[..n]);
      match steps[n]
      case Request(a, now) =>
        if a == ip && !(ip in w && now - w[ip].start < 1.0) then Some(n) else OpenedAt(steps[..n], ip)
      case Tidy(now) => if ip in w && now - w[ip].start >= 2.0 then None else OpenedAt(steps[..n], ip)
  }

  /** Requests from `ip` granted by step `k` or later. */
  function GrantsFrom(steps: seq<Step>, k: nat, ip: string, perSec: nat): nat {
    if |steps| <= k then 0
    else
      var n := |steps| - 1;
      GrantsFrom(steps[..n], k, ip, perSec) + if GrantsTo(After(steps[..n]), steps[n], ip, perSec) then 1 else 0
  }

  /** A window was opened by a request with its starting time, and exactly its first `perSec` requests
      have been granted since: whatever the order of the readings, no window grants more. */
  lemma {:induction false} WindowCountsGrants(steps: seq<Step>, ip: string, perSec: nat)
    ensures var w, k := After(steps), OpenedAt(steps, ip);
            && (ip in w <==> k.Some?)
            && (k.Some? ==>
                  && k.value < |steps|
                  && steps[k.value] == Request(ip, w[ip].start)
                  && GrantsFrom(steps, k.value, ip, perSec) == Min(w[ip].hits, perSec))
  {
    if steps != [] {
      var n := |steps| - 1;
      WindowCountsGrants(steps[..n], ip, perSec);
    }
  }

  /** A request is refused exactly when a window less than a second old has granted the limit. */
  lemma RefusedExactly(steps: seq<Step>, ip: string, now: real, perSec: nat)
    requires perSec > 0
    ensures var k := OpenedAt(steps, ip);
            !Granted(After(steps), ip, now, perSec) <==>
              k.Some? && k.value < |steps| && now - steps[k.value].now < 1.0 && GrantsFrom(steps, k.value, ip, perSec) == perSec
  {
    WindowCountsGrants(steps, ip, perSec);
  }
}
