/** The receiver's memory of recent audit nonces (agent/jt_ipam_rustdesk_agent.py).  Clock readings are
    taken before the lock, so they need not increase in the order in which the lock is taken. */
module NonceGate {
  import opened Integers
  import opened Wrappers
  import opened PyDict
  import opened EventQueue

  /** nonce -> time of expiry */
  type Table = Dict<string, real>

  /** Each step carries the clock reading of the thread that makes it. */
  datatype Step = Offer(nonce: string, now: real) | Housekeep(now: real)

  predicate Fresh(t: Table, nonce: string, now: real) {
    match Get(t, nonce)
    case None => true
    case Some(expiry) => expiry <= now
  }

  function Remembered(t: Table, nonce: string, now: real, cap: int, ttl: real): Table {
    var p := Pop(t, nonce);
    Put(p[Excess(|p|, cap)..], nonce, now + ttl)
  }

  /** Housekeeping stops at the first entry that has not expired. */
  function Purged(t: Table, now: real): Table {
    if t != [] && t[0].val <= now then Purged(t[1..], now) else t
  }

  class NonceTable {
    const cap: int
    const ttl: real
    var nonces: Table

    constructor (cap: int, ttl: real)
      ensures this.cap == cap && this.ttl == ttl && nonces == []
    {
      this.cap, this.ttl := cap, ttl;
      nonces := [];
    }

    /** Whether the event carrying this nonce may be queued. */
    method AcceptOnce(nonce: string, now: real) returns (ok: bool)
      modifies this
      ensures ok <==> Fresh(old(nonces), nonce, now)
      ensures nonces == if ok then Remembered(old(nonces), nonce, now, cap, ttl) else old(nonces)
    {
      var expiry := Get(nonces, nonce);
      if expiry.Some? && expiry.value > now {
        return false;
      }
      nonces := Pop(nonces, nonce);
      ghost var p := nonces;
      ghost var k: nat := 0;
      while nonces != [] && |nonces| >= cap
        invariant k <= Excess(|p|, cap) && nonces == p[k..]
        decreases |nonces|
      {
        nonces := nonces[1..];
        k := k + 1;
      }
      nonces := Put(nonces, nonce, now + ttl);
      return true;
    }

    method Housekeeping(now: real)
      modifies this
      ensures nonces == Purged(old(nonces), now)
    {
      while nonces != []
        invariant Purged(nonces, now) == Purged(old(nonces), now)
        decreases |nonces|
      {
        if nonces[0].val > now {
          break;
        }
        nonces := nonces[1..];
      }
    }
  }

  // ---- runs ----

  function Do(t: Table, s: Step, cap: int, ttl: real): Table {
    match s
    case Offer(nonce, now) => if Fresh(t, nonce, now) then Remembered(t, nonce, now, cap, ttl) else t
    case Housekeep(now) => Purged(t, now)
  }

  function After(steps: seq<Step>, cap: int, ttl: real): Table {
    if steps == [] then []
    else Do(After(steps[..|steps| - 1], cap, ttl), steps[|steps| - 1], cap, ttl)
  }

  /** Step `j` offers a nonce and the offer is accepted. */
  predicate AcceptedAt(steps: seq<Step>, j: nat, cap: int, ttl: real)
    requires j < |steps|
  {
    steps[j].Offer? && Fresh(After(steps[..j], cap, ttl), steps[j].nonce, steps[j].now)
  }

  /** How many of the steps i <= k < j are accepted offers. */
  function AcceptedBetween(steps: seq<Step>, i: nat, j: nat, cap: int, ttl: real): nat
    requires i <= j <= |steps|
    decreases j
  {
    if i == j then 0
    else AcceptedBetween(steps, i, j - 1, cap, ttl) + if AcceptedAt(steps, j - 1, cap, ttl) then 1 else 0
  }

  ghost predicate LateHousekeeping(steps: seq<Step>, i: nat, j: nat, t: real)
    requires j <= |steps|
  {
    exists k :: i <= k < j && steps[k].Housekeep? && steps[k].now >= t
  }

  ghost predicate NoneAccepted(steps: seq<Step>, nonce: string, i: nat, j: nat, cap: int, ttl: real)
    requires j <= |steps|
  {
    forall k :: i <= k < j && steps[k].Offer? && steps[k].nonce == nonce ==> !AcceptedAt(steps, k, cap, ttl)
  }

  /** Clock readings increase in the order in which the lock is taken. */
  ghost predicate InLockOrder(steps: seq<Step>) {
    forall i, j :: 0 <= i < j < |steps| ==> steps[i].now <= steps[j].now
  }

  lemma AfterNext(steps: seq<Step>, j: nat, next: nat, cap: int, ttl: real)
    requires j < |steps| && next == j + 1
    ensures After(steps[..next], cap, ttl) == Do(After(steps[..j], cap, ttl), steps[j], cap, ttl)
  {
    assert steps[..next][..j] == steps[..j];
  }

  lemma {:induction false} PurgedIsSuffix(t: Table, now: real) returns (k: nat)
    ensures k <= |t| && Purged(t, now) == t[k..] && (k < |t| ==> t[k].val > now)
    ensures forall i :: 0 <= i < k ==> t[i].val <= now
  {
    if t != [] && t[0].val <= now {
      var k' := PurgedIsSuffix(t[1..], now);
      k := k' + 1;
      forall i | 0 <= i < k ensures t[i].val <= now {
        if i > 0 { assert t[i] == t[1..][i - 1]; }
      }
    } else {
      k := 0;
    }
  }

  lemma DoUnique(t: Table, s: Step, cap: int, ttl: real)
    requires UniqueKeys(t)
    ensures UniqueKeys(Do(t, s, cap, ttl))
  {
    match s
    case Offer(nonce, now) =>
      PopItems(t, nonce);
      var p := Pop(t, nonce);
      PutUnique(p[Excess(|p|, cap)..], nonce, now + ttl);
    case Housekeep(now) =>
      var k := PurgedIsSuffix(t, now);
  }

  lemma {:induction false} AfterUnique(steps: seq<Step>, cap: int, ttl: real)
    ensures UniqueKeys(After(steps, cap, ttl))
  {
    if steps != [] {
      AfterUnique(steps[..|steps| - 1], cap, ttl);
      DoUnique(After(steps[..|steps| - 1], cap, ttl), steps[|steps| - 1], cap, ttl);
    }
  }

  /** Accepting puts the nonce at the very end; the rest is what capacity left of the other entries. */
  lemma RememberedShape(t: Table, nonce: string, now: real, cap: int, ttl: real)
    requires UniqueKeys(t)
    ensures var p := Pop(t, nonce);
            Remembered(t, nonce, now, cap, ttl) == p[Excess(|p|, cap)..] + [Item(nonce, now + ttl)]
  {
    PopItems(t, nonce);
    var p := Pop(t, nonce);
    var q := p[Excess(|p|, cap)..];
    assert forall x :: x in q ==> x in p;
    PutAbsent(q, nonce, now + ttl);
  }

  /** `nonce` is still there with this expiry, followed by at most `behind` younger entries. */
  ghost predicate Kept(t: Table, nonce: string, expiry: real, behind: nat) {
    exists p :: 0 <= p < |t| && t[p] == Item(nonce, expiry) && |t| - 1 - p <= behind
  }

  /** One step of somebody else keeps the entry, unless housekeeping saw it expired or the younger
      entries fill the whole table. */
  lemma KeptStep(t: Table, u: Table, s: Step, cap: int, ttl: real, nonce: string, expiry: real, behind: nat, more: nat)
    requires UniqueKeys(t) && Kept(t, nonce, expiry, behind) && u == Do(t, s, cap, ttl)
    requires s.Offer? && s.nonce == nonce ==> !Fresh(t, nonce, s.now)
    requires s.Housekeep? ==> s.now < expiry
    requires more == behind + (if s.Offer? && Fresh(t, s.nonce, s.now) then 1 else 0) && more < Max(1, cap)
    ensures Kept(u, nonce, expiry, more)
  {
    match s
    case Offer(m, now) =>
      if Fresh(t, m, now) {
        KeptOffer(t, m, now, cap, ttl, nonce, expiry, behind);
      }
    case Housekeep(now) =>
      KeptPurge(t, now, nonce, expiry, behind);
  }

  lemma KeptOffer(t: Table, m: string, now: real, cap: int, ttl: real, nonce: string, expiry: real, behind: nat)
    requires UniqueKeys(t) && Kept(t, nonce, expiry, behind) && m != nonce && behind + 1 < Max(1, cap)
    ensures Kept(Remembered(t, m, now, cap, ttl), nonce, expiry, behind + 1)
  {
    RememberedShape(t, m, now, cap, ttl);
    KeptPop(t, m, nonce, expiry, behind);
    var q := Pop(t, m);
    KeptSuffix(q, Excess(|q|, cap), Item(m, now + ttl), nonce, expiry, behind);
  }

  lemma KeptPop(t: Table, m: string, nonce: string, expiry: real, behind: nat)
    requires Kept(t, nonce, expiry, behind) && m != nonce
    ensures Kept(Pop(t, m), nonce, expiry, behind)
  {
    var p :| 0 <= p < |t| && t[p] == Item(nonce, expiry) && |t| - 1 - p <= behind;
    var i, q := Index(t, m), Pop(t, m);
    if i < p {
      assert q[p - 1] == t[p] && |q| == |t| - 1;
    } else {
      assert q[p] == t[p] && |q| <= |t|;
    }
  }

  lemma KeptSuffix(q: Table, k: nat, e: Item<string, real>, nonce: string, expiry: real, behind: nat)
    requires k <= |q| && Kept(q, nonce, expiry, behind) && (k == 0 || |q| - k > behind)
    ensures Kept(q[k..] + [e], nonce, expiry, behind + 1)
  {
    var p :| 0 <= p < |q| && q[p] == Item(nonce, expiry) && |q| - 1 - p <= behind;
    assert (q[k..] + [e])[p - k] == q[p];
  }

  lemma KeptPurge(t: Table, now: real, nonce: string, expiry: real, behind: nat)
    requires Kept(t, nonce, expiry, behind) && now < expiry
    ensures Kept(Purged(t, now), nonce, expiry, behind)
  {
    var p :| 0 <= p < |t| && t[p] == Item(nonce, expiry) && |t| - 1 - p <= behind;
    var k := PurgedIsSuffix(t, now);
    assert Purged(t, now)[p - k] == t[p];
  }

  /** From the acceptance at step `i` on, the nonce stays remembered, unless one of the two things
      happens that make the table forget it. */
  lemma {:induction false} KeptSince(steps: seq<Step>, i: nat, j: nat, cap: int, ttl: real)
    requires i < j <= |steps| && AcceptedAt(steps, i, cap, ttl)
    requires NoneAccepted(steps, steps[i].nonce, i + 1, j, cap, ttl)
    ensures Standing(steps, i, j, cap, ttl)
    decreases j
  {
    if j == i + 1 {
      KeptAtFirst(steps, i, j, cap, ttl);
    } else {
      var p := j - 1;
      KeptSince(steps, i, p, cap, ttl);
      KeptNext(steps, i, p, j, cap, ttl);
    }
  }

  lemma KeptAtFirst(steps: seq<Step>, i: nat, j: nat, cap: int, ttl: real)
    requires i < |steps| && j == i + 1 && AcceptedAt(steps, i, cap, ttl)
    ensures Standing(steps, i, j, cap, ttl)
  {
    AfterNext(steps, i, j, cap, ttl);
    AfterUnique(steps[..i], cap, ttl);
    RememberedShape(After(steps[..i], cap, ttl), steps[i].nonce, steps[i].now, cap, ttl);
    var r := After(steps[..j], cap, ttl);
    assert r[|r| - 1] == Item(steps[i].nonce, steps[i].now + ttl);
  }

  /** The three ways in which a nonce can stand: remembered, forgotten by late housekeeping, or possibly
      pushed out by those accepted behind it. */
  ghost predicate Stands(t: Table, nonce: string, expiry: real, late: bool, behind: nat, cap: int) {
    Kept(t, nonce, expiry, behind) || late || behind >= Max(1, cap)
  }

  /** How the nonce accepted at step `i` stands before step `j`. */
  ghost predicate Standing(steps: seq<Step>, i: nat, j: nat, cap: int, ttl: real)
    requires i < j <= |steps| && steps[i].Offer?
  {
    Stands(After(steps[..j], cap, ttl), steps[i].nonce, steps[i].now + ttl,
           LateHousekeeping(steps, i + 1, j, steps[i].now + ttl), AcceptedBetween(steps, i + 1, j, cap, ttl), cap)
  }

  lemma StandsNext(t: Table, s: Step, u: Table, nonce: string, expiry: real, late: bool, later: bool, behind: nat,
                   more: nat, cap: int, ttl: real)
    requires UniqueKeys(t) && u == Do(t, s, cap, ttl) && Stands(t, nonce, expiry, late, behind, cap)
    requires s.Offer? && s.nonce == nonce ==> !Fresh(t, nonce, s.now)
    requires (late || (s.Housekeep? && s.now >= expiry)) ==> later
    requires more == behind + if s.Offer? && Fresh(t, s.nonce, s.now) then 1 else 0
    ensures Stands(u, nonce, expiry, later, more, cap)
  {
    if !later && more < Max(1, cap) {
      KeptStep(t, u, s, cap, ttl, nonce, expiry, behind, more);
    }
  }

  lemma BetweenNext(steps: seq<Step>, i: nat, j: nat, next: nat, cap: int, ttl: real)
    requires i <= j < |steps| && next == j + 1
    ensures AcceptedBetween(steps, i, next, cap, ttl)
            == AcceptedBetween(steps, i, j, cap, ttl) + if AcceptedAt(steps, j, cap, ttl) then 1 else 0
  {
  }

  lemma LateNext(steps: seq<Step>, i: nat, j: nat, next: nat, t: real)
    requires i <= j < |steps| && next == j + 1
    ensures LateHousekeeping(steps, i, next, t) <==> LateHousekeeping(steps, i, j, t) || (steps[j].Housekeep? && steps[j].now >= t)
  {
  }

  lemma KeptNext(steps: seq<Step>, i: nat, j: nat, next: nat, cap: int, ttl: real)
    requires i < j < |steps| && next == j + 1 && steps[i].Offer? && Standing(steps, i, j, cap, ttl)
    requires steps[j].Offer? && steps[j].nonce == steps[i].nonce ==> !AcceptedAt(steps, j, cap, ttl)
    ensures Standing(steps, i, next, cap, ttl)
  {
    var expiry := steps[i].now + ttl;
    var t, u := After(steps[..j], cap, ttl), After(steps[..next], cap, ttl);
    var late, later := LateHousekeeping(steps, i + 1, j, expiry), LateHousekeeping(steps, i + 1, next, expiry);
    var behind, more := AcceptedBetween(steps, i + 1, j, cap, ttl), AcceptedBetween(steps, i + 1, next, cap, ttl);
    assert Stands(u, steps[i].nonce, expiry, later, more, cap) by {
      AfterNext(steps, j, next, cap, ttl);
      AfterUnique(steps[..j], cap, ttl);
      BetweenNext(steps, i + 1, j, next, cap, ttl);
      LateNext(steps, i + 1, j, next, expiry);
      StandsNext(t, steps[j], u, steps[i].nonce, expiry, late, later, behind, more, cap, ttl);
    }
  }

  // ---- main results ----

  /** Two successive acceptances of one nonce, whatever the order of the clock readings: the second
      comes a full TTL after the first, or housekeeping with a clock past the expiry ran in between,
      or at least a table's worth of other nonces was accepted in between. */
  lemma AcceptedTwice(steps: seq<Step>, i: nat, j: nat, cap: int, ttl: real)
    requires i < j < |steps| && AcceptedAt(steps, i, cap, ttl) && AcceptedAt(steps, j, cap, ttl)
    requires steps[i].nonce == steps[j].nonce && NoneAccepted(steps, steps[i].nonce, i + 1, j, cap, ttl)
    ensures || steps[j].now >= steps[i].now + ttl
            || LateHousekeeping(steps, i + 1, j, steps[i].now + ttl)
            || AcceptedBetween(steps, i + 1, j, cap, ttl) >= Max(1, cap)
  {
    KeptSince(steps, i, j, cap, ttl);
    AfterUnique(steps[..j], cap, ttl);
    var t := After(steps[..j], cap, ttl);
    var expiry := steps[i].now + ttl;
    var behind := AcceptedBetween(steps, i + 1, j, cap, ttl);
    if Kept(t, steps[i].nonce, expiry, behind) {
      var p :| 0 <= p < |t| && t[p] == Item(steps[i].nonce, expiry) && |t| - 1 - p <= behind;
      assert Index(t, steps[i].nonce) == p;
    }
  }

  /** With clock readings in lock order only the capacity can make the table forget too early. */
  lemma AcceptedTwiceInLockOrder(steps: seq<Step>, i: nat, j: nat, cap: int, ttl: real)
    requires InLockOrder(steps)
    requires i < j < |steps| && AcceptedAt(steps, i, cap, ttl) && AcceptedAt(steps, j, cap, ttl)
    requires steps[i].nonce == steps[j].nonce && NoneAccepted(steps, steps[i].nonce, i + 1, j, cap, ttl)
    ensures steps[j].now >= steps[i].now + ttl || AcceptedBetween(steps, i + 1, j, cap, ttl) >= Max(1, cap)
  {
    AcceptedTwice(steps, i, j, cap, ttl);
  }

  /** Without that order the TTL alone is not enough: housekeeping with a later clock reading can
      forget the nonce before a thread with an earlier one offers it again. */
  lemma StaleClockAcceptsTwice(nonce: string, ttl: real)
    requires ttl > 0.0
    ensures var steps := [Offer(nonce, 0.0), Housekeep(ttl), Offer(nonce, 0.0)];
            AcceptedAt(steps, 0, 5, ttl) && AcceptedAt(steps, 2, 5, ttl)
  {
    var steps := [Offer(nonce, 0.0), Housekeep(ttl), Offer(nonce, 0.0)];
    AfterNext(steps, 0, 1, 5, ttl);
    AfterNext(steps, 1, 2, 5, ttl);
    assert After(steps[..1], 5, ttl) == [Item(nonce, 0.0 + ttl)];
    assert Purged([Item(nonce, ttl)], ttl) == Purged([Item(nonce, ttl)][1..], ttl);
  }

  // ---- when exactly a nonce is forgotten ----

  /** Step `s` takes `nonce` out of the table: housekeeping finds it and everything before it expired, or
      another nonce is accepted and the capacity pushes this one out. */
  predicate Forgets(t: Table, s: Step, nonce: string, cap: int) {
    Has(t, nonce) &&
      match s
      case Housekeep(now) => forall p :: 0 <= p <= Index(t, nonce) < |t| ==> t[p].val <= now
      case Offer(m, now) =>
        m != nonce && Fresh(t, m, now) && Index(Pop(t, m), nonce) < Excess(|Pop(t, m)|, cap)
  }

  lemma SuffixKeeps(t: Table, k: nat, nonce: string)
    requires UniqueKeys(t) && k <= |t| && Has(t, nonce)
    ensures Get(t[k..], nonce) == if Index(t, nonce) < k then None else Get(t, nonce)
  {
    var p := Index(t, nonce);
    var rest := t[k..];
    if p < k {
      AbsentKey(rest, nonce);
    } else {
      assert rest[p - k] == t[p];
      GetIn(rest, nonce, t[p].val);
    }
  }

  lemma GetLast(t: Table, e: Item<string, real>, nonce: string)
    requires e.key != nonce
    ensures Get(t + [e], nonce) == Get(t, nonce)
  {
    var p := Index(t + [e], nonce);
    assert p < |t| ==> (t + [e])[p] == t[p];
    assert Index(t, nonce) < |t| ==> (t + [e])[Index(t, nonce)] == t[Index(t, nonce)];
  }

  lemma ForgetsExactly(t: Table, s: Step, nonce: string, cap: int, ttl: real)
    requires UniqueKeys(t) && (s.Offer? && s.nonce == nonce ==> !Fresh(t, nonce, s.now))
    ensures Get(Do(t, s, cap, ttl), nonce) == if Forgets(t, s, nonce, cap) then None else Get(t, nonce)
  {
    match s
    case Housekeep(now) =>
      var k := PurgedIsSuffix(t, now);
      if Has(t, nonce) {
        SuffixKeeps(t, k, nonce);
      } else {
        AbsentKey(t[k..], nonce);
      }
    case Offer(m, now) =>
      if m != nonce && Fresh(t, m, now) {
        ForgetsOffer(t, m, now, nonce, cap, ttl);
      }
  }

  lemma ForgetsOffer(t: Table, m: string, now: real, nonce: string, cap: int, ttl: real)
    requires UniqueKeys(t) && m != nonce
    ensures Get(Remembered(t, m, now, cap, ttl), nonce)
            == if Has(t, nonce) && Index(Pop(t, m), nonce) < Excess(|Pop(t, m)|, cap) then None else Get(t, nonce)
  {
    var p := Pop(t, m);
    var k := Excess(|p|, cap);
    PopItems(t, m);
    GetPop(t, m, nonce);
    RememberedShape(t, m, now, cap, ttl);
    GetLast(p[k..], Item(m, now + ttl), nonce);
    if Has(t, nonce) {
      SuffixKeeps(p, k, nonce);
    } else {
      AbsentKey(p[k..], nonce);
    }
  }

  ghost predicate ForgottenBetween(steps: seq<Step>, i: nat, j: nat, nonce: string, cap: int, ttl: real)
    requires j <= |steps|
  {
    exists k :: i <= k < j && ForgetsAt(steps, k, nonce, cap, ttl)
  }

  ghost predicate ForgetsAt(steps: seq<Step>, k: nat, nonce: string, cap: int, ttl: real)
    requires k < |steps|
  {
    Forgets(After(steps[..k], cap, ttl), steps[k], nonce, cap)
  }

  /** Before step `j` the nonce accepted at step `i` is there with its expiry, or a step in between forgot it. */
  ghost predicate Remembers(steps: seq<Step>, i: nat, j: nat, cap: int, ttl: real)
    requires i < j <= |steps| && steps[i].Offer?
  {
    Get(After(steps[..j], cap, ttl), steps[i].nonce)
    == if ForgottenBetween(steps, i + 1, j, steps[i].nonce, cap, ttl) then None else Some(steps[i].now + ttl)
  }

  lemma {:induction false} MemorySince(steps: seq<Step>, i: nat, j: nat, cap: int, ttl: real)
    requires i < j <= |steps| && AcceptedAt(steps, i, cap, ttl)
    requires NoneAccepted(steps, steps[i].nonce, i + 1, j, cap, ttl)
    ensures Remembers(steps, i, j, cap, ttl)
    decreases j
  {
    var n := j - 1;
    if n == i {
      MemoryFirst(steps, i, j, cap, ttl);
    } else {
      MemorySince(steps, i, n, cap, ttl);
      MemoryNext(steps, i, n, j, cap, ttl);
    }
  }

  lemma MemoryFirst(steps: seq<Step>, i: nat, j: nat, cap: int, ttl: real)
    requires i < |steps| && j == i + 1 && AcceptedAt(steps, i, cap, ttl)
    ensures Remembers(steps, i, j, cap, ttl)
  {
    AfterNext(steps, i, j, cap, ttl);
    AfterUnique(steps[..i], cap, ttl);
    RememberedGet(After(steps[..i], cap, ttl), steps[i].nonce, steps[i].now, cap, ttl);
    assert !ForgottenBetween(steps, i + 1, j, steps[i].nonce, cap, ttl);
  }

  lemma MemoryNext(steps: seq<Step>, i: nat, n: nat, j: nat, cap: int, ttl: real)
    requires i < n < |steps| && j == n + 1 && steps[i].Offer? && Remembers(steps, i, n, cap, ttl)
    requires steps[n].Offer? && steps[n].nonce == steps[i].nonce ==> !AcceptedAt(steps, n, cap, ttl)
    ensures Remembers(steps, i, j, cap, ttl)
  {
    var t := After(steps[..n], cap, ttl);
    AfterNext(steps, n, j, cap, ttl);
    AfterUnique(steps[..n], cap, ttl);
    ForgetsExactly(t, steps[n], steps[i].nonce, cap, ttl);
    ForgottenNext(steps, i + 1, n, j, steps[i].nonce, cap, ttl);
  }

  lemma RememberedGet(t: Table, nonce: string, now: real, cap: int, ttl: real)
    requires UniqueKeys(t)
    ensures Get(Remembered(t, nonce, now, cap, ttl), nonce) == Some(now + ttl)
  {
    RememberedShape(t, nonce, now, cap, ttl);
    DoUnique(t, Offer(nonce, now), cap, ttl);
    var p := Pop(t, nonce);
    PopItems(t, nonce);
    var q := p[Excess(|p|, cap)..];
    GetPut(q, nonce, now + ttl, nonce);
  }

  lemma ForgottenNext(steps: seq<Step>, i: nat, n: nat, j: nat, nonce: string, cap: int, ttl: real)
    requires i <= n < |steps| && j == n + 1
    ensures ForgottenBetween(steps, i, j, nonce, cap, ttl)
            <==> ForgottenBetween(steps, i, n, nonce, cap, ttl)
                 || ForgetsAt(steps, n, nonce, cap, ttl)
  {
  }

  /** A nonce offered again within its TTL is accepted exactly when a step in between forgot it. */
  lemma EarlyAcceptedExactly(steps: seq<Step>, i: nat, j: nat, cap: int, ttl: real)
    requires i < j < |steps| && AcceptedAt(steps, i, cap, ttl)
    requires steps[j].Offer? && steps[j].nonce == steps[i].nonce && steps[j].now < steps[i].now + ttl
    requires NoneAccepted(steps, steps[i].nonce, i + 1, j, cap, ttl)
    ensures AcceptedAt(steps, j, cap, ttl) <==> ForgottenBetween(steps, i + 1, j, steps[i].nonce, cap, ttl)
  {
    MemorySince(steps, i, j, cap, ttl);
  }

  ghost predicate FromAccept(steps: seq<Step>, it: Item<string, real>, cap: int, ttl: real) {
    exists i :: 0 <= i < |steps| && AcceptedAt(steps, i, cap, ttl)
      && steps[i].nonce == it.key && it.val == steps[i].now + ttl
  }

  lemma AcceptedAtPrefix(steps: seq<Step>, i: nat, j: nat, cap: int, ttl: real)
    requires i < j <= |steps|
    ensures AcceptedAt(steps[..j], i, cap, ttl) == AcceptedAt(steps, i, cap, ttl)
  {
    assert steps[..j][..i] == steps[..i];
  }

  lemma {:induction false} EntriesFromAccepts(steps: seq<Step>, cap: int, ttl: real)
    ensures forall it :: it in After(steps, cap, ttl) ==> FromAccept(steps, it, cap, ttl)
  {
    if steps != [] {
      var n := |steps| - 1;
      var t := After(steps[..n], cap, ttl);
      EntriesFromAccepts(steps[..n], cap, ttl);
      AfterUnique(steps[..n], cap, ttl);
      forall it | it in After(steps, cap, ttl) ensures FromAccept(steps, it, cap, ttl) {
        if it in t {
          OldEntry(steps, n, it, cap, ttl);
        } else {
          NewEntries(t, steps[n], it, cap, ttl);
          assert AcceptedAt(steps, n, cap, ttl);
        }
      }
    }
  }

  lemma OldEntry(steps: seq<Step>, n: nat, it: Item<string, real>, cap: int, ttl: real)
    requires n <= |steps| && FromAccept(steps[..n], it, cap, ttl)
    ensures FromAccept(steps, it, cap, ttl)
  {
    var i :| 0 <= i < n && AcceptedAt(steps[..n], i, cap, ttl)
      && steps[i].nonce == it.key && it.val == steps[i].now + ttl;
    AcceptedAtPrefix(steps, i, n, cap, ttl);
  }

  lemma NewEntries(t: Table, s: Step, it: Item<string, real>, cap: int, ttl: real)
    requires UniqueKeys(t) && it in Do(t, s, cap, ttl) && it !in t
    ensures s.Offer? && Fresh(t, s.nonce, s.now) && it == Item(s.nonce, s.now + ttl)
  {
    match s
    case Offer(nonce, now) =>
      if Fresh(t, nonce, now) {
        RememberedItems(t, nonce, now, cap, ttl, it);
      }
    case Housekeep(now) =>
      var k := PurgedIsSuffix(t, now);
  }

  lemma RememberedItems(t: Table, nonce: string, now: real, cap: int, ttl: real, it: Item<string, real>)
    requires UniqueKeys(t) && it in Remembered(t, nonce, now, cap, ttl)
    ensures it in t || it == Item(nonce, now + ttl)
  {
    RememberedShape(t, nonce, now, cap, ttl);
    PopItems(t, nonce);
    var p := Pop(t, nonce);
    if it in p[Excess(|p|, cap)..] {
      assert it in p;
    }
  }

  /** Nothing but a repetition within the TTL is ever refused. */
  lemma OnlyRepetitionsRefused(steps: seq<Step>, j: nat, cap: int, ttl: real)
    requires j < |steps| && steps[j].Offer? && !AcceptedAt(steps, j, cap, ttl)
    ensures exists i :: 0 <= i < j && AcceptedAt(steps, i, cap, ttl)
              && steps[i].nonce == steps[j].nonce && steps[j].now < steps[i].now + ttl
  {
    var t := After(steps[..j], cap, ttl);
    EntriesFromAccepts(steps[..j], cap, ttl);
    var it := t[Index(t, steps[j].nonce)];
    assert it in t && FromAccept(steps[..j], it, cap, ttl);
    var i :| 0 <= i < j && AcceptedAt(steps[..j], i, cap, ttl)
      && steps[..j][i].nonce == it.key && it.val == steps[..j][i].now + ttl;
    AcceptedAtPrefix(steps, i, j, cap, ttl);
  }

  ghost predicate ByExpiry(t: Table) {
    forall i, j :: 0 <= i < j < |t| ==> t[i].val <= t[j].val
  }

  lemma OrderedStep(t: Table, s: Step, cap: int, ttl: real)
    requires UniqueKeys(t) && ByExpiry(t) && forall it :: it in t ==> it.val <= s.now + ttl
    ensures ByExpiry(Do(t, s, cap, ttl)) && forall it :: it in Do(t, s, cap, ttl) ==> it.val <= s.now + ttl
  {
    match s
    case Offer(nonce, now) => OrderedOffer(t, nonce, now, cap, ttl);
    case Housekeep(now) => var k := PurgedIsSuffix(t, now);
  }

  lemma PopOrdered(t: Table, nonce: string)
    requires ByExpiry(t)
    ensures ByExpiry(Pop(t, nonce))
  {
  }

  lemma SuffixOrdered(p: Table, k: nat, e: Item<string, real>)
    requires k <= |p| && ByExpiry(p) && forall it :: it in p ==> it.val <= e.val
    ensures ByExpiry(p[k..] + [e]) && forall it :: it in p[k..] + [e] ==> it.val <= e.val
  {
    assert forall it :: it in p[k..] ==> it in p;
  }

  lemma OrderedOffer(t: Table, nonce: string, now: real, cap: int, ttl: real)
    requires UniqueKeys(t) && ByExpiry(t) && forall it :: it in t ==> it.val <= now + ttl
    ensures var r := Remembered(t, nonce, now, cap, ttl);
            ByExpiry(r) && forall it :: it in r ==> it.val <= now + ttl
  {
    var p := Pop(t, nonce);
    PopItems(t, nonce);
    PopOrdered(t, nonce);
    RememberedShape(t, nonce, now, cap, ttl);
    SuffixOrdered(p, Excess(|p|, cap), Item(nonce, now + ttl));
  }

  lemma {:induction false} OrderedByExpiry(steps: seq<Step>, cap: int, ttl: real)
    requires InLockOrder(steps)
    ensures ByExpiry(After(steps, cap, ttl))
    ensures forall it :: it in After(steps, cap, ttl) ==> it.val <= steps[|steps| - 1].now + ttl
  {
    if steps != [] {
      var n := |steps| - 1;
      OrderedByExpiry(steps[..n], cap, ttl);
      AfterUnique(steps[..n], cap, ttl);
      assert n > 0 ==> steps[n - 1].now <= steps[n].now;
      OrderedStep(After(steps[..n], cap, ttl), steps[n], cap, ttl);
    }
  }

  /** With clock readings in lock order, housekeeping forgets exactly what has expired although it
      only looks at the front of the table. */
  lemma HousekeepingExact(steps: seq<Step>, now: real, cap: int, ttl: real)
    requires InLockOrder(steps)
    ensures forall it :: it in Purged(After(steps, cap, ttl), now) <==> it in After(steps, cap, ttl) && it.val > now
  {
    OrderedByExpiry(steps, cap, ttl);
    var t := After(steps, cap, ttl);
    var k := PurgedIsSuffix(t, now);
    var p := Purged(t, now);
    assert p != [] ==> p[0].val > now;
    forall it | it in t && it.val > now ensures it in p {
      var i :| 0 <= i < |t| && t[i] == it;
      assert p[i - k] == it;
    }
  }

  lemma TableBounded(steps: seq<Step>, cap: int, ttl: real)
    ensures |After(steps, cap, ttl)| <= Max(1, cap)
  {
    if steps != [] {
      var n := |steps| - 1;
      TableBounded(steps[..n], cap, ttl);
      AfterUnique(steps[..n], cap, ttl);
      var t := After(steps[..n], cap, ttl);
      match steps[n]
      case Offer(nonce, now) => RememberedShape(t, nonce, now, cap, ttl);
      case Housekeep(now) => var k := PurgedIsSuffix(t, now);
    }
  }
}
