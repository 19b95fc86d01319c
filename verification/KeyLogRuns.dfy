/** What the key counters mean over many polls. */
module KeyLogRuns {
  import opened Integers
  import opened Wrappers
  import opened PyDict
  import opened KeyLog

  // ---- failed deliveries leave no trace ----

  /** The lines found by one poll and whether its report was delivered. */
  datatype Poll = Poll(lines: seq<Line>, delivered: bool)

  function Do(l: Log, p: Poll, cap: nat): Log {
    var m := AddLines(l, p.lines, cap);
    if p.delivered then EMPTY else Restored(EMPTY, Take(m), cap)
  }

  function After(polls: seq<Poll>, cap: nat): Log {
    if polls == [] then EMPTY else Do(After(polls[..|polls| - 1], cap), polls[|polls| - 1], cap)
  }

  /** The lines found since the last delivered report. */
  function Since(polls: seq<Poll>): seq<Line> {
    if polls == [] then []
    else
      var n := |polls| - 1;
      if polls[n].delivered then [] else Since(polls[..n]) + polls[n].lines
  }

  /** The lines that each delivered report covers. */
  function Covered(polls: seq<Poll>): seq<seq<Line>> {
    if polls == [] then []
    else
      var n := |polls| - 1;
      Covered(polls[..n]) + if polls[n].delivered then [Since(polls[..n]) + polls[n].lines] else []
  }

  function AllLines(polls: seq<Poll>): seq<Line> {
    if polls == [] then [] else AllLines(polls[..|polls| - 1]) + polls[|polls| - 1].lines
  }

  function Join(parts: seq<seq<Line>>): seq<Line> {
    if parts == [] then [] else Join(parts[..|parts| - 1]) + parts[|parts| - 1]
  }

  lemma {:induction false} AddLinesAppend(l: Log, a: seq<Line>, b: seq<Line>, cap: nat)
    ensures AddLines(l, a + b, cap) == AddLines(AddLines(l, a, cap), b, cap)
  {
    if b == [] {
      assert a + b == a;
    } else {
      var n := |b| - 1;
      assert (a + b)[..|a + b| - 1] == a + b[..n];
      AddLinesAppend(l, a, b[..n], cap);
    }
  }

  lemma EmptySound(cap: nat)
    ensures Sound(EMPTY, cap)
  {
  }

  /** Whatever deliveries failed, the counters are those of counting, in one go, the lines found since
      the last report that arrived. */
  lemma {:induction false} FailedPollsInvisible(polls: seq<Poll>, cap: nat)
    ensures After(polls, cap) == AddLines(EMPTY, Since(polls), cap)
    ensures Sound(After(polls, cap), cap)
  {
    EmptySound(cap);
    AddLinesSound(EMPTY, Since(polls), cap);
    if polls != [] {
      var n := |polls| - 1;
      FailedPollsInvisible(polls[..n], cap);
      AddLinesAppend(EMPTY, Since(polls[..n]), polls[n].lines, cap);
      if !polls[n].delivered {
        RestoreUndoesTake(AddLines(EMPTY, Since(polls), cap), cap);
      }
    }
  }

  /** The report of a poll counts exactly the lines found since the last delivered report. */
  lemma ReportCounts(polls: seq<Poll>, lines: seq<Line>, cap: nat)
    ensures Take(AddLines(After(polls, cap), lines, cap)) == Take(AddLines(EMPTY, Since(polls) + lines, cap))
  {
    FailedPollsInvisible(polls, cap);
    AddLinesAppend(EMPTY, Since(polls), lines, cap);
  }

  /** Every line found is covered by exactly one delivered report or still pending, in order. */
  lemma {:induction false} LinesCoveredOnce(polls: seq<Poll>)
    ensures Join(Covered(polls)) + Since(polls) == AllLines(polls)
  {
    if polls != [] {
      var n := |polls| - 1;
      LinesCoveredOnce(polls[..n]);
      var c, s := Covered(polls[..n]), Since(polls[..n]);
      if polls[n].delivered {
        assert (c + [s + polls[n].lines])[..|c|] == c;
        assert Join(c) + (s + polls[n].lines) == (Join(c) + s) + polls[n].lines;
      } else {
        assert c + [] == c;
        assert Join(c) + (s + polls[n].lines) == (Join(c) + s) + polls[n].lines;
      }
    }
  }

  // ---- what one report says about the lines it covers ----

  datatype Key = OkKey(ip: string) | FailKey(who: Who)

  function KeyOf(line: Line): Key {
    if line.Ok? then OkKey(line.ip) else FailKey(line.who)
  }

  predicate Present(l: Log, k: Key) {
    if k.OkKey? then Has(l.oks, k.ip) else Has(l.fails, k.who)
  }

  predicate Full(l: Log, k: Key, cap: nat) {
    if k.OkKey? then |l.oks| >= cap else |l.fails| >= cap
  }

  function Count(lines: seq<Line>, k: Key): nat {
    if lines == [] then 0
    else
      var n := |lines| - 1;
      Count(lines[..n], k) + if KeyOf(lines[n]) == k then 1 else 0
  }

  /** Lines for whose key there is no entry. */
  function Missing(lines: seq<Line>, l: Log): nat {
    if lines == [] then 0
    else
      var n := |lines| - 1;
      Missing(lines[..n], l) + if Present(l, KeyOf(lines[n])) then 0 else 1
  }

  /** The most recently written target that is not empty. */
  function LastTarget(lines: seq<Line>, who: Who): string {
    if lines == [] then ""
    else
      var n := |lines| - 1;
      if lines[n].Fail? && lines[n].who == who && lines[n].target != "" then lines[n].target
      else LastTarget(lines[..n], who)
  }

  ghost predicate Chronological(lines: seq<Line>) {
    forall i, j :: 0 <= i < j < |lines| ==> lines[i].ts <= lines[j].ts
  }

  ghost predicate Times(lines: seq<Line>, k: Key, first: int, last: int) {
    && (forall i :: 0 <= i < |lines| && KeyOf(lines[i]) == k ==> first <= lines[i].ts <= last)
    && SeenAt(lines, k, first) && SeenAt(lines, k, last)
  }

  ghost predicate SeenAt(lines: seq<Line>, k: Key, t: int) {
    exists i :: 0 <= i < |lines| && KeyOf(lines[i]) == k && lines[i].ts == t
  }

  /** What one more line makes of somebody's entry. */
  function FailureAfter(l: Log, line: Line, who: Who, cap: nat): Option<Failure> {
    if KeyOf(line) != FailKey(who) then Get(l.fails, who)
    else
      var g := Failure(who, 1, line.ts, line.ts, line.target);
      match Get(l.fails, who)
      case Some(f) => Some(Merged(f, g))
      case None => if |l.fails| >= cap then None else Some(g)
  }

  lemma AddLineGet(l: Log, line: Line, who: Who, cap: nat)
    requires Sound(l, cap)
    ensures Get(AddLine(l, line, cap).fails, who) == FailureAfter(l, line, who, cap)
  {
    match line
    case Ok(ip, ts) =>
    case Fail(w, target, ts) =>
      var g := Failure(w, 1, ts, ts, target);
      match Get(l.fails, w)
      case Some(f) => GetPut(l.fails, w, Merged(f, g), who);
      case None => GetPut(l.fails, w, g, who);
  }

  lemma AddLineOk(l: Log, line: Line, ip: string, cap: nat)
    requires Sound(l, cap)
    ensures Get(AddLine(l, line, cap).oks, ip) ==
      if KeyOf(line) != OkKey(ip) then Get(l.oks, ip)
      else
        match Get(l.oks, ip)
        case Some(t) => Some(Max(t, line.ts))
        case None => if |l.oks| >= cap then None else Some(line.ts)
  {
    match line
    case Ok(i, ts) =>
      if Has(l.oks, i) {
        GetPut(l.oks, i, Max(Get(l.oks, i).value, ts), ip);
      } else {
        GetPut(l.oks, i, ts, ip);
      }
    case Fail(w, target, ts) =>
  }

  lemma AddLinePresent(l: Log, line: Line, k: Key, cap: nat)
    requires Sound(l, cap)
    ensures Present(AddLine(l, line, cap), k)
            <==> Present(l, k) || (k == KeyOf(line) && !Full(l, k, cap))
  {
    match k
    case OkKey(ip) => AddLineOk(l, line, ip, cap);
    case FailKey(who) => AddLineGet(l, line, who, cap);
  }

  /** A key that occurs in the lines but has no entry met a full table. */
  lemma {:induction false} AbsentMeansFull(lines: seq<Line>, k: Key, cap: nat)
    ensures var l := AddLines(EMPTY, lines, cap);
            && (Present(l, k) ==> Count(lines, k) > 0)
            && (Count(lines, k) > 0 && !Present(l, k) ==> Full(l, k, cap))
  {
    if lines != [] {
      var n := |lines| - 1;
      AbsentMeansFull(lines[..n], k, cap);
      EmptySound(cap);
      AddLinesSound(EMPTY, lines[..n], cap);
      AddLinePresent(AddLines(EMPTY, lines[..n], cap), lines[n], k, cap);
    }
  }

  lemma {:induction false} MissingSame(lines: seq<Line>, l: Log, m: Log)
    requires forall k :: Count(lines, k) > 0 ==> Present(l, k) == Present(m, k)
    ensures Missing(lines, l) == Missing(lines, m)
  {
    if lines != [] {
      var n := |lines| - 1;
      assert Count(lines, KeyOf(lines[n])) > 0;
      forall k | Count(lines[..n], k) > 0 ensures Present(l, k) == Present(m, k) {
        assert Count(lines, k) > 0;
      }
      MissingSame(lines[..n], l, m);
    }
  }

  /** `dropped` is the number of lines for whose key there is no entry. */
  lemma {:induction false} DroppedExactly(lines: seq<Line>, cap: nat)
    ensures AddLines(EMPTY, lines, cap).dropped == Missing(lines, AddLines(EMPTY, lines, cap))
  {
    if lines != [] {
      var n := |lines| - 1;
      var l, m := AddLines(EMPTY, lines[..n], cap), AddLines(EMPTY, lines, cap);
      DroppedExactly(lines[..n], cap);
      EmptySound(cap);
      AddLinesSound(EMPTY, lines[..n], cap);
      forall k | Count(lines[..n], k) > 0 ensures Present(l, k) == Present(m, k) {
        AddLinePresent(l, lines[n], k, cap);
        AbsentMeansFull(lines[..n], k, cap);
      }
      MissingSame(lines[..n], l, m);
      AddLinePresent(l, lines[n], KeyOf(lines[n]), cap);
    }
  }

  lemma TimesExtended(lines: seq<Line>, k: Key, first: int, last: int)
    requires lines != []
    requires var n := |lines| - 1;
             if KeyOf(lines[n]) != k then Times(lines[..n], k, first, last)
             else (Count(lines[..n], k) == 0 && first == last == lines[n].ts)
                  || exists a, b :: Times(lines[..n], k, a, b) && first == Min(a, lines[n].ts) && last == Max(b, lines[n].ts)
    ensures Times(lines, k, first, last)
  {
    var n := |lines| - 1;
    if KeyOf(lines[n]) == k {
      if Count(lines[..n], k) == 0 && first == last == lines[n].ts {
        NoneCounted(lines[..n], k);
      } else {
        var a, b :| Times(lines[..n], k, a, b) && first == Min(a, lines[n].ts) && last == Max(b, lines[n].ts);
        SeenLonger(lines, k, a);
        SeenLonger(lines, k, b);
      }
    } else {
      SeenLonger(lines, k, first);
      SeenLonger(lines, k, last);
    }
  }

  lemma SeenLonger(lines: seq<Line>, k: Key, t: int)
    requires lines != [] && SeenAt(lines[..|lines| - 1], k, t)
    ensures SeenAt(lines, k, t)
  {
    var i :| 0 <= i < |lines| - 1 && KeyOf(lines[..|lines| - 1][i]) == k && lines[..|lines| - 1][i].ts == t;
    assert lines[i].ts == t;
  }

  lemma {:induction false} NoneCounted(lines: seq<Line>, k: Key)
    requires Count(lines, k) == 0
    ensures forall i :: 0 <= i < |lines| ==> KeyOf(lines[i]) != k
  {
    if lines != [] {
      NoneCounted(lines[..|lines| - 1], k);
      forall i | 0 <= i < |lines| ensures KeyOf(lines[i]) != k {
        if i < |lines| - 1 { assert lines[i] == lines[..|lines| - 1][i]; }
      }
    }
  }

  lemma {:induction false} FailureCounted(lines: seq<Line>, who: Who, cap: nat)
    ensures var e := Get(AddLines(EMPTY, lines, cap).fails, who);
            e.Some? ==> e.value.who == who && e.value.n == Count(lines, FailKey(who))
                        && Times(lines, FailKey(who), e.value.first, e.value.last)
  {
    var l := AddLines(EMPTY, lines, cap);
    if lines != [] && Get(l.fails, who).Some? {
      var n := |lines| - 1;
      var f := Get(l.fails, who).value;
      FailureCounted(lines[..n], who, cap);
      LastFailure(lines, who, cap);
      AbsentMeansFull(lines[..n], FailKey(who), cap);
      TimesExtended(lines, FailKey(who), f.first, f.last);
    }
  }

  lemma LastFailure(lines: seq<Line>, who: Who, cap: nat)
    requires lines != []
    ensures var n := |lines| - 1;
            Get(AddLines(EMPTY, lines, cap).fails, who)
            == FailureAfter(AddLines(EMPTY, lines[..n], cap), lines[n], who, cap)
  {
    var n := |lines| - 1;
    EmptySound(cap);
    AddLinesSound(EMPTY, lines[..n], cap);
    AddLineGet(AddLines(EMPTY, lines[..n], cap), lines[n], who, cap);
  }

  lemma {:induction false} FailureTarget(lines: seq<Line>, who: Who, cap: nat)
    requires Chronological(lines)
    ensures var e := Get(AddLines(EMPTY, lines, cap).fails, who);
            e.Some? ==> e.value.target == LastTarget(lines, who)
  {
    if lines != [] && Get(AddLines(EMPTY, lines, cap).fails, who).Some? {
      var n := |lines| - 1;
      ChronologicalPrefix(lines);
      FailureTarget(lines[..n], who, cap);
      FailureCounted(lines[..n], who, cap);
      LastFailure(lines, who, cap);
      AbsentMeansFull(lines[..n], FailKey(who), cap);
      NoneNamed(lines[..n], who);
      assert forall i :: 0 <= i < n ==> lines[..n][i] == lines[i] && lines[i].ts <= lines[n].ts;
    }
  }

  /** An entry for failures tells how many lines there were for it, the earliest and the latest time,
      and, for a log in chronological order, the last target named. */
  lemma FailureEntry(lines: seq<Line>, who: Who, cap: nat)
    ensures var e := Get(AddLines(EMPTY, lines, cap).fails, who);
            e.Some? ==>
              && e.value.who == who
              && e.value.n == Count(lines, FailKey(who))
              && Times(lines, FailKey(who), e.value.first, e.value.last)
              && (Chronological(lines) ==> e.value.target == LastTarget(lines, who))
  {
    FailureCounted(lines, who, cap);
    if Chronological(lines) {
      FailureTarget(lines, who, cap);
    }
  }

  lemma ChronologicalPrefix(lines: seq<Line>)
    requires Chronological(lines) && lines != []
    ensures Chronological(lines[..|lines| - 1])
  {
  }

  lemma {:induction false} NoneNamed(lines: seq<Line>, who: Who)
    ensures Count(lines, FailKey(who)) == 0 ==> LastTarget(lines, who) == ""
  {
    if lines != [] {
      NoneNamed(lines[..|lines| - 1], who);
    }
  }

  /** An entry for accepted keys is the latest time of its lines. */
  lemma {:induction false} OkEntry(lines: seq<Line>, ip: string, cap: nat)
    ensures var e := Get(AddLines(EMPTY, lines, cap).oks, ip);
            e.Some? ==> exists first :: Times(lines, OkKey(ip), first, e.value)
  {
    var l := AddLines(EMPTY, lines, cap);
    if lines != [] && Get(l.oks, ip).Some? {
      var n := |lines| - 1;
      var last := Get(l.oks, ip).value;
      var before := AddLines(EMPTY, lines[..n], cap);
      OkEntry(lines[..n], ip, cap);
      EmptySound(cap);
      AddLinesSound(EMPTY, lines[..n], cap);
      AddLineOk(before, lines[n], ip, cap);
      AbsentMeansFull(lines[..n], OkKey(ip), cap);
      if Get(before.oks, ip).None? {
        TimesExtended(lines, OkKey(ip), last, last);
      } else {
        var first :| Times(lines[..n], OkKey(ip), first, Get(before.oks, ip).value);
        TimesExtended(lines, OkKey(ip), if KeyOf(lines[n]) == OkKey(ip) then Min(first, lines[n].ts) else first, last);
      }
    }
  }

  // ---- nothing is counted twice or not at all ----

  function Sum(d: Dict<Who, Failure>): nat {
    if d == [] then 0 else Sum(d[..|d| - 1]) + d[|d| - 1].val.n
  }

  /** Lines of the given kind for whose key there is an entry. */
  function Kept(lines: seq<Line>, l: Log, failures: bool): nat {
    if lines == [] then 0
    else
      var n := |lines| - 1;
      Kept(lines[..n], l, failures) + if Present(l, KeyOf(lines[n])) && lines[n].Fail? == failures then 1 else 0
  }

  lemma {:induction false} SumUpdate(d: Dict<Who, Failure>, i: nat, v: Item<Who, Failure>)
    requires i < |d|
    ensures Sum(d[i := v]) == Sum(d) - d[i].val.n + v.val.n
  {
    var n := |d| - 1;
    if i < n {
      SumUpdate(d[..n], i, v);
      assert d[i := v][..n] == d[..n][i := v];
    } else {
      assert d[i := v][..n] == d[..n];
    }
  }

  lemma SumAppend(d: Dict<Who, Failure>, v: Item<Who, Failure>)
    ensures Sum(d + [v]) == Sum(d) + v.val.n
  {
    assert (d + [v])[..|d|] == d;
  }

  lemma SumAddLine(l: Log, line: Line, cap: nat)
    ensures Sum(AddLine(l, line, cap).fails)
            == Sum(l.fails) + if line.Fail? && Present(AddLine(l, line, cap), KeyOf(line)) then 1 else 0
  {
    if line.Fail? {
      var g := Failure(line.who, 1, line.ts, line.ts, line.target);
      var i := Index(l.fails, line.who);
      if i < |l.fails| {
        SumUpdate(l.fails, i, Item(line.who, Merged(l.fails[i].val, g)));
        var p := l.fails[i := Item(line.who, Merged(l.fails[i].val, g))];
        PresentAt(p, line.who, i);
      } else if |l.fails| < cap {
        SumAppend(l.fails, Item(line.who, g));
        PresentAt(l.fails + [Item(line.who, g)], line.who, |l.fails|);
      }
    }
  }

  lemma PresentAt(d: Dict<Who, Failure>, who: Who, i: nat)
    requires i < |d| && d[i].key == who
    ensures Has(d, who)
  {
  }

  lemma {:induction false} KeptSame(lines: seq<Line>, l: Log, m: Log, failures: bool)
    requires forall k :: Count(lines, k) > 0 ==> Present(l, k) == Present(m, k)
    ensures Kept(lines, l, failures) == Kept(lines, m, failures)
  {
    if lines != [] {
      var n := |lines| - 1;
      assert Count(lines, KeyOf(lines[n])) > 0;
      forall k | Count(lines[..n], k) > 0 ensures Present(l, k) == Present(m, k) {
        assert Count(lines, k) > 0;
      }
      KeptSame(lines[..n], l, m, failures);
    }
  }

  lemma {:induction false} SumIsKept(lines: seq<Line>, cap: nat)
    ensures Sum(AddLines(EMPTY, lines, cap).fails) == Kept(lines, AddLines(EMPTY, lines, cap), true)
  {
    if lines != [] {
      var n := |lines| - 1;
      var l, m := AddLines(EMPTY, lines[..n], cap), AddLines(EMPTY, lines, cap);
      SumIsKept(lines[..n], cap);
      EmptySound(cap);
      AddLinesSound(EMPTY, lines[..n], cap);
      forall k | Count(lines[..n], k) > 0 ensures Present(l, k) == Present(m, k) {
        AddLinePresent(l, lines[n], k, cap);
        AbsentMeansFull(lines[..n], k, cap);
      }
      KeptSame(lines[..n], l, m, true);
      SumAddLine(l, lines[n], cap);
    }
  }

  lemma {:induction false} KeptOrMissing(lines: seq<Line>, l: Log)
    ensures Kept(lines, l, true) + Kept(lines, l, false) + Missing(lines, l) == |lines|
  {
    if lines != [] {
      KeptOrMissing(lines[..|lines| - 1], l);
    }
  }

  /** Conservation: the failures counted, the accepted keys with an entry and what was dropped add up to
      the lines found. */
  lemma LinesConserved(lines: seq<Line>, cap: nat)
    ensures var l := AddLines(EMPTY, lines, cap);
            Sum(l.fails) + Kept(lines, l, false) + l.dropped == |lines|
  {
    SumIsKept(lines, cap);
    DroppedExactly(lines, cap);
    KeptOrMissing(lines, AddLines(EMPTY, lines, cap));
  }
}
