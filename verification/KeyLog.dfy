/** Counting rejected and accepted keys between polls (agent/jt_ipam_rustdesk_agent.py, `_keylog_add`,
    `_keylog_take`, `_keylog_restore`, `poll_once`).  Times are texts of one fixed format that are only
    compared; here they are numbers. */
module KeyLog {
  import opened Integers
  import opened Wrappers
  import opened PyDict

  datatype Scope = Relay | Hbbs

  datatype Who = Who(scope: Scope, ip: string)

  datatype Failure = Failure(who: Who, n: nat, first: int, last: int, target: string)

  /** `dropped` counts lines for which there was no room. */
  datatype Log = Log(fails: Dict<Who, Failure>, oks: Dict<string, int>, dropped: nat)

  const EMPTY := Log([], [], 0)

  /** A log line that matters; an empty target stands for none. */
  datatype Line = Ok(ip: string, ts: int) | Fail(who: Who, target: string, ts: int)

  function AddOk(l: Log, ip: string, ts: int, cap: nat): Log {
    if Has(l.oks, ip) then l.(oks := Put(l.oks, ip, Max(Get(l.oks, ip).value, ts)))
    else if |l.oks| < cap then l.(oks := Put(l.oks, ip, ts))
    else l.(dropped := l.dropped + 1)
  }

  function Merged(f: Failure, g: Failure): Failure {
    var later := g.last >= f.last;
    Failure(f.who, f.n + g.n, Min(f.first, g.first), if later then g.last else f.last,
            if later && g.target != "" then g.target else f.target)
  }

  function AddFail(l: Log, g: Failure, cap: nat): Log {
    match Get(l.fails, g.who)
    case Some(f) => l.(fails := Put(l.fails, g.who, Merged(f, g)))
    case None =>
      if |l.fails| >= cap then l.(dropped := l.dropped + g.n)
      else l.(fails := Put(l.fails, g.who, g))
  }

  function AddLine(l: Log, line: Line, cap: nat): Log {
    match line
    case Ok(ip, ts) => AddOk(l, ip, ts, cap)
    case Fail(who, target, ts) => AddFail(l, Failure(who, 1, ts, ts, target), cap)
  }

  function AddLines(l: Log, lines: seq<Line>, cap: nat): Log {
    if lines == [] then l else AddLine(AddLines(l, lines[..|lines| - 1], cap), lines[|lines| - 1], cap)
  }

  function AddFails(l: Log, gs: seq<Failure>, cap: nat): Log {
    if gs == [] then l else AddFail(AddFails(l, gs[..|gs| - 1], cap), gs[|gs| - 1], cap)
  }

  function AddOks(l: Log, os: Dict<string, int>, cap: nat): Log {
    if os == [] then l
    else AddOk(AddOks(l, os[..|os| - 1], cap), os[|os| - 1].key, os[|os| - 1].val, cap)
  }

  /** What is sent with a poll. */
  datatype Taken = Taken(fails: seq<Failure>, oks: Dict<string, int>, dropped: nat)

  function Take(l: Log): Taken {
    Taken(Vals(l.fails), l.oks, l.dropped)
  }

  function Restored(l: Log, t: Taken, cap: nat): Log {
    var m := AddOks(AddFails(l, t.fails, cap), t.oks, cap);
    m.(dropped := m.dropped + t.dropped)
  }

  class KeyCounter {
    const cap: nat
    var fails: Dict<Who, Failure>
    var oks: Dict<string, int>
    var dropped: nat

    constructor (cap: nat)
      ensures this.cap == cap && State() == EMPTY
    {
      this.cap := cap;
      fails, oks, dropped := [], [], 0;
    }

    ghost function State(): Log
      reads this
    {
      Log(fails, oks, dropped)
    }

    method AddOkLine(ip: string, ts: int)
      modifies this
      ensures State() == AddOk(old(State()), ip, ts, cap)
    {
      if Has(oks, ip) {
        oks := Put(oks, ip, Max(Get(oks, ip).value, ts));
      } else if |oks| < cap {
        oks := Put(oks, ip, ts);
      } else {
        dropped := dropped + 1;
      }
    }

    method AddFailure(who: Who, target: string, ts: int, n: nat, first: int)
      modifies this
      ensures State() == AddFail(old(State()), Failure(who, n, first, ts, target), cap)
    {
      var cur := Get(fails, who);
      if cur.None? {
        if |fails| >= cap {
          dropped := dropped + n;
          return;
        }
        fails := Put(fails, who, Failure(who, n, first, ts, target));
        return;
      }
      var f := cur.value;
      f := f.(n := f.n + n, first := Min(f.first, first));
      if ts >= f.last {
        f := f.(last := ts, target := if target != "" then target else f.target);
      }
      fails := Put(fails, who, f);
    }

    method Collect(lines: seq<Line>)
      modifies this
      ensures State() == AddLines(old(State()), lines, cap)
    {
      for i := 0 to |lines|
        invariant State() == AddLines(old(State()), lines[..i], cap)
      {
        assert lines[..i + 1][..i] == lines[..i];
        match lines[i]
        case Ok(ip, ts) => AddOkLine(ip, ts);
        case Fail(who, target, ts) => AddFailure(who, target, ts, 1, ts);
      }
      assert lines[..|lines|] == lines;
    }

    method TakeAll() returns (t: Taken)
      modifies this
      ensures t == Take(old(State())) && State() == EMPTY
    {
      t := Taken(Vals(fails), oks, dropped);
      fails, oks, dropped := [], [], 0;
    }

    method Restore(t: Taken)
      modifies this
      ensures State() == Restored(old(State()), t, cap)
    {
      for i := 0 to |t.fails|
        invariant State() == AddFails(old(State()), t.fails[..i], cap)
      {
        assert t.fails[..i + 1][..i] == t.fails[..i];
        var f := t.fails[i];
        AddFailure(f.who, f.target, f.last, f.n, f.first);
      }
      assert t.fails[..|t.fails|] == t.fails;
      ghost var m := State();
      for i := 0 to |t.oks|
        invariant State() == AddOks(m, t.oks[..i], cap)
      {
        assert t.oks[..i + 1][..i] == t.oks[..i];
        AddOkLine(t.oks[i].key, t.oks[i].val);
      }
      assert t.oks[..|t.oks|] == t.oks;
      dropped := dropped + t.dropped;
    }

    /** One poll: collect, take, send; what could not be delivered is put back. */
    method Poll(lines: seq<Line>, delivered: bool) returns (t: Taken)
      requires Sound(State(), cap)
      modifies this
      ensures Sound(State(), cap)
      ensures t == Take(AddLines(old(State()), lines, cap))
      ensures State() == if delivered then EMPTY else AddLines(old(State()), lines, cap)
    {
      Collect(lines);
      AddLinesSound(old(State()), lines, cap);
      ghost var before := State();
      t := TakeAll();
      if !delivered {
        RestoreUndoesTake(before, cap);
        Restore(t);
      }
    }
  }

  // ---- invariants ----

  ghost predicate Sound(l: Log, cap: nat) {
    && UniqueKeys(l.fails) && UniqueKeys(l.oks)
    && |l.fails| <= cap && |l.oks| <= cap
    && forall it :: it in l.fails ==> it.val.who == it.key && it.val.n > 0 && it.val.first <= it.val.last
  }

  lemma PutItems<K, V>(d: Dict<K, V>, k: K, v: V)
    requires UniqueKeys(d)
    ensures forall x :: x in Put(d, k, v) ==> x in d || x == Item(k, v)
  {
  }

  lemma AddFailSound(l: Log, g: Failure, cap: nat)
    requires Sound(l, cap) && g.n > 0 && g.first <= g.last
    ensures Sound(AddFail(l, g, cap), cap)
  {
    match Get(l.fails, g.who)
    case Some(f) =>
      GetIn(l.fails, g.who, f);
      PutUnique(l.fails, g.who, Merged(f, g));
      PutItems(l.fails, g.who, Merged(f, g));
    case None =>
      PutUnique(l.fails, g.who, g);
      PutItems(l.fails, g.who, g);
  }

  lemma AddOkSound(l: Log, ip: string, ts: int, cap: nat)
    requires Sound(l, cap)
    ensures Sound(AddOk(l, ip, ts, cap), cap)
  {
    PutUnique(l.oks, ip, ts);
    if Has(l.oks, ip) {
      PutUnique(l.oks, ip, Max(Get(l.oks, ip).value, ts));
    }
  }

  lemma {:induction false} AddLinesSound(l: Log, lines: seq<Line>, cap: nat)
    requires Sound(l, cap)
    ensures Sound(AddLines(l, lines, cap), cap)
  {
    if lines != [] {
      var n := |lines| - 1;
      var m := AddLines(l, lines[..n], cap);
      AddLinesSound(l, lines[..n], cap);
      match lines[n]
      case Ok(ip, ts) => AddOkSound(m, ip, ts, cap);
      case Fail(who, target, ts) => AddFailSound(m, Failure(who, 1, ts, ts, target), cap);
    }
  }

  // ---- taking and restoring ----

  lemma AbsentInPrefix<K, V>(d: Dict<K, V>, i: nat)
    requires UniqueKeys(d) && i < |d|
    ensures Get(d[..i], d[i].key) == None && Put(d[..i], d[i].key, d[i].val) == d[..i + 1]
  {
    AbsentKey(d[..i], d[i].key);
  }

  lemma {:induction false} AddFailsBack(l: Log, i: nat, cap: nat)
    requires Sound(l, cap) && i <= |l.fails|
    ensures AddFails(EMPTY, Vals(l.fails)[..i], cap) == Log(l.fails[..i], [], 0)
  {
    if i > 0 {
      AddFailsBack(l, i - 1, cap);
      AbsentInPrefix(l.fails, i - 1);
      assert Vals(l.fails)[..i][..i - 1] == Vals(l.fails)[..i - 1];
      assert l.fails[i - 1] in l.fails;
    }
  }

  lemma {:induction false} AddOksBack(l: Log, i: nat, cap: nat)
    requires Sound(l, cap) && i <= |l.oks|
    ensures AddOks(Log(l.fails, [], 0), l.oks[..i], cap) == Log(l.fails, l.oks[..i], 0)
  {
    if i > 0 {
      AddOksBack(l, i - 1, cap);
      AbsentInPrefix(l.oks, i - 1);
      assert l.oks[..i][..i - 1] == l.oks[..i - 1];
    }
  }

  /** Putting back what was taken gives exactly the former state. */
  lemma RestoreUndoesTake(l: Log, cap: nat)
    requires Sound(l, cap)
    ensures Restored(EMPTY, Take(l), cap) == l
  {
    AddFailsBack(l, |l.fails|, cap);
    AddOksBack(l, |l.oks|, cap);
    assert Vals(l.fails)[..|l.fails|] == Vals(l.fails) && l.fails[..|l.fails|] == l.fails;
    assert l.oks[..|l.oks|] == l.oks;
  }
}
