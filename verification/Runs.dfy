/** Address sets as runs of consecutive addresses: the server compresses them
    (backend/app/services/scan_plan.py), the scan agent clips, slices and searches them without ever
    expanding them (agent/jt_ipam_agent.py).  Addresses are numbers. */
module Runs {
  import opened Wrappers

  /** The addresses `first` to `last`, both included. */
  datatype Run = Run(first: int, last: int)

  function Range(a: int, n: nat): (s: seq<int>)
    ensures |s| == n && forall i :: 0 <= i < n ==> s[i] == a + i
  {
    seq(n, i => a + i)
  }

  function Size(r: Run): nat {
    if r.first <= r.last then r.last - r.first + 1 else 0
  }

  /** The addresses one after the other, run by run. */
  function Expand(runs: seq<Run>): seq<int> {
    if runs == [] then [] else Range(runs[0].first, Size(runs[0])) + Expand(runs[1..])
  }

  ghost predicate Covers(runs: seq<Run>, n: int) {
    exists r :: r in runs && r.first <= n <= r.last
  }

  ghost predicate Proper(runs: seq<Run>) {
    forall r :: r in runs ==> r.first <= r.last
  }

  /** Python's order on pairs. */
  predicate Leq(r: Run, s: Run) {
    r.first < s.first || (r.first == s.first && r.last <= s.last)
  }

  ghost predicate Sorted(runs: seq<Run>) {
    forall i, j :: 0 <= i < j < |runs| ==> Leq(runs[i], runs[j])
  }

  /** Runs in increasing order with at least one address missing between two of them. */
  ghost predicate Separated(runs: seq<Run>) {
    forall i, j :: 0 <= i < j < |runs| ==> runs[i].last + 1 < runs[j].first
  }

  lemma {:induction false} ExpandCovers(runs: seq<Run>, n: int)
    ensures n in Expand(runs) <==> Covers(runs, n)
  {
    if runs != [] {
      ExpandCovers(runs[1..], n);
      var r, rest := runs[0], runs[1..];
      assert runs == [r] + rest;
      if r.first <= n <= r.last {
        assert Range(r.first, Size(r))[n - r.first] == n;
      }
      if Covers(rest, n) {
        var x :| x in rest && x.first <= n <= x.last;
        assert x in runs;
      }
    }
  }

  lemma {:induction false} ExpandAppend(runs: seq<Run>, more: seq<Run>)
    ensures Expand(runs + more) == Expand(runs) + Expand(more)
  {
    if runs == [] {
      assert runs + more == more;
    } else {
      assert (runs + more)[1..] == runs[1..] + more;
      ExpandAppend(runs[1..], more);
    }
  }

  lemma ExpandOne(runs: seq<Run>, r: Run)
    ensures Expand(runs + [r]) == Expand(runs) + Range(r.first, Size(r))
  {
    ExpandAppend(runs, [r]);
    assert Expand([r]) == Range(r.first, Size(r)) + Expand([]);
  }

  // ---- sorting ----

  function Insert(r: Run, runs: seq<Run>): seq<Run> {
    if runs == [] then [r]
    else if Leq(r, runs[0]) then [r] + runs
    else [runs[0]] + Insert(r, runs[1..])
  }

  function Sort(runs: seq<Run>): seq<Run> {
    if runs == [] then [] else Insert(runs[0], Sort(runs[1..]))
  }

  lemma {:induction false} InsertElements(r: Run, runs: seq<Run>)
    ensures forall x :: x in Insert(r, runs) <==> x == r || x in runs
    ensures |Insert(r, runs)| == |runs| + 1
  {
    if runs != [] {
      assert runs == [runs[0]] + runs[1..];
      InsertElements(r, runs[1..]);
    }
  }

  lemma {:induction false} InsertSorted(r: Run, runs: seq<Run>)
    requires Sorted(runs)
    ensures Sorted(Insert(r, runs))
  {
    if runs != [] && !Leq(r, runs[0]) {
      InsertSorted(r, runs[1..]);
      InsertElements(r, runs[1..]);
      var t := Insert(r, runs[1..]);
      forall j | 0 <= j < |t| ensures Leq(runs[0], t[j]) {
        assert t[j] in t;
      }
    }
  }

  lemma {:induction false} SortElements(runs: seq<Run>)
    ensures Sorted(Sort(runs)) && |Sort(runs)| == |runs|
    ensures forall r :: r in Sort(runs) <==> r in runs
  {
    if runs != [] {
      assert runs == [runs[0]] + runs[1..];
      SortElements(runs[1..]);
      InsertSorted(runs[0], Sort(runs[1..]));
      InsertElements(runs[0], Sort(runs[1..]));
    }
  }

  // ---- clipping what the server sent ----

  function Clip(r: Run, lo: int, hi: int): Run {
    Run(if r.first >= lo then r.first else lo, if r.last <= hi then r.last else hi)
  }

  /** `None` stands for an item that is not a pair of IPv4 addresses. */
  function Clipped(raw: seq<Option<Run>>, lo: int, hi: int): seq<Run> {
    if raw == [] then []
    else
      var n := |raw| - 1;
      Clipped(raw[..n], lo, hi) +
      if raw[n].None? || Clip(raw[n].value, lo, hi).first > Clip(raw[n].value, lo, hi).last then []
      else [Clip(raw[n].value, lo, hi)]
  }

  method ParseRuns(raw: seq<Option<Run>>, lo: int, hi: int) returns (runs: seq<Run>)
    ensures runs == Sort(Clipped(raw, lo, hi))
  {
    var out := [];
    for i := 0 to |raw|
      invariant out == Clipped(raw[..i], lo, hi)
    {
      assert raw[..i + 1][..i] == raw[..i];
      if raw[i].Some? {
        var r := Clip(raw[i].value, lo, hi);
        if r.first <= r.last {
          out := out + [r];
        }
      }
    }
    assert raw[..|raw|] == raw;
    runs := Sort(out);
  }

  ghost predicate RawCovers(raw: seq<Option<Run>>, n: int) {
    exists item :: item in raw && item.Some? && item.value.first <= n <= item.value.last
  }

  lemma {:induction false} ClippedCovers(raw: seq<Option<Run>>, lo: int, hi: int, n: int)
    ensures Covers(Clipped(raw, lo, hi), n) <==> lo <= n <= hi && RawCovers(raw, n)
    ensures Proper(Clipped(raw, lo, hi))
  {
    if raw != [] {
      var k := |raw| - 1;
      assert raw == raw[..k] + [raw[k]];
      ClippedCovers(raw[..k], lo, hi, n);
      var c, d := Clipped(raw[..k], lo, hi), Clipped(raw, lo, hi);
      if Covers(c, n) {
        var r :| r in c && r.first <= n <= r.last;
        assert r in d;
      }
      if raw[k].Some? {
        var r := Clip(raw[k].value, lo, hi);
        if r.first <= n <= r.last { assert r in d; }
      }
    }
  }

  /** The agent ends up with exactly the addresses that the server sent and the subnet can use. */
  lemma ParsedCovers(raw: seq<Option<Run>>, lo: int, hi: int, n: int)
    ensures var runs := Sort(Clipped(raw, lo, hi));
            && Sorted(runs) && Proper(runs)
            && (Covers(runs, n) <==> lo <= n <= hi && RawCovers(raw, n))
  {
    ClippedCovers(raw, lo, hi, n);
    SortElements(Clipped(raw, lo, hi));
  }

  // ---- slicing ----

  /** At most `count` elements from position `start` on. */
  function Slice(s: seq<int>, start: nat, count: nat): seq<int> {
    if start >= |s| then [] else if start + count >= |s| then s[start..] else s[start..start + count]
  }

  /** The slice found run by run. */
  function SliceRuns(runs: seq<Run>, skip: nat, count: nat): seq<int>
    decreases |runs|
  {
    if runs == [] then []
    else
      var n := Size(runs[0]);
      if skip >= n then SliceRuns(runs[1..], skip - n, count)
      else
        var take := if n - skip <= count then n - skip else count;
        Range(runs[0].first + skip, take) + if take >= count then [] else SliceRuns(runs[1..], 0, count - take)
  }

  method RunsSlice(runs: seq<Run>, start: nat, count: nat) returns (out: seq<int>)
    requires Proper(runs)
    ensures out == Slice(Expand(runs), start, count)
  {
    out := [];
    var skip: nat, left: nat := start, count;
    SliceRunsIsSlice(runs, start, count);
    assert runs[0..] == runs;
    for i := 0 to |runs|
      invariant |out| + left == count && (left > 0 || count == 0)
      invariant out + SliceRuns(runs[i..], skip, left) == SliceRuns(runs, start, count)
    {
      var r := runs[i];
      assert r in runs;
      var n := r.last - r.first + 1;
      if skip >= n {
        var further := skip - n;
        PassRun(runs, i, skip, further, left);
        skip := further;
      } else {
        var take := if n - skip <= left then n - skip else left;
        var some, rest := out + Range(r.first + skip, take), left - take;
        TakeRun(runs, i, skip, take, out, some, left, rest);
        out, skip, left := some, 0, rest;
        if left == 0 {
          return;
        }
      }
    }
    assert runs[|runs|..] == [];
  }

  lemma PassRun(runs: seq<Run>, i: nat, skip: nat, left: nat, count: nat)
    requires i < |runs| && skip >= Size(runs[i]) && left == skip - Size(runs[i])
    ensures SliceRuns(runs[i..], skip, count) == SliceRuns(runs[i + 1..], left, count)
  {
    assert runs[i..][1..] == runs[i + 1..];
  }

  lemma TakeRun(runs: seq<Run>, i: nat, skip: nat, take: nat, out: seq<int>, some: seq<int>, left: nat, rest: nat)
    requires i < |runs| && skip < Size(runs[i])
    requires take == (if Size(runs[i]) - skip <= left then Size(runs[i]) - skip else left) && rest == left - take
    requires some == out + Range(runs[i].first + skip, take)
    ensures rest == 0 ==> out + SliceRuns(runs[i..], skip, left) == some
    ensures rest > 0 ==> out + SliceRuns(runs[i..], skip, left) == some + SliceRuns(runs[i + 1..], 0, rest)
  {
    var more := if rest == 0 then [] else SliceRuns(runs[i + 1..], 0, rest);
    assert runs[i..][1..] == runs[i + 1..];
    TakeFirst(runs[i], runs[i + 1..], runs[i..], skip, take, left);
    Regroup(out, Range(runs[i].first + skip, take), more, some);
  }

  lemma Regroup(a: seq<int>, b: seq<int>, c: seq<int>, ab: seq<int>)
    requires ab == a + b
    ensures a + (b + c) == ab + c && ab + [] == ab
  {
  }

  lemma TakeFirst(r: Run, others: seq<Run>, runs: seq<Run>, skip: nat, take: nat, left: nat)
    requires runs != [] && r == runs[0] && others == runs[1..] && skip < Size(r)
    requires take == if Size(r) - skip <= left then Size(r) - skip else left
    ensures SliceRuns(runs, skip, left)
            == Range(r.first + skip, take) + if take >= left then [] else SliceRuns(others, 0, left - take)
  {
  }

  lemma {:induction false} SliceRunsIsSlice(runs: seq<Run>, skip: nat, count: nat)
    ensures SliceRuns(runs, skip, count) == Slice(Expand(runs), skip, count)
    decreases |runs|
  {
    if runs != [] {
      var n := Size(runs[0]);
      var s, t := Range(runs[0].first, n), Expand(runs[1..]);
      assert Expand(runs) == s + t;
      if skip >= n {
        SliceRunsIsSlice(runs[1..], skip - n, count);
        SliceBehind(s, t, skip, count);
      } else {
        var take := if n - skip <= count then n - skip else count;
        TakeFirst(runs[0], runs[1..], runs, skip, take, count);
        SliceAcross(s, t, runs[0].first, skip, take, count);
        if take < count {
          SliceRunsIsSlice(runs[1..], 0, count - take);
        }
      }
    }
  }

  lemma SliceBehind(s: seq<int>, t: seq<int>, skip: nat, count: nat)
    requires skip >= |s|
    ensures Slice(s + t, skip, count) == Slice(t, skip - |s|, count)
  {
  }

  lemma SliceAcross(s: seq<int>, t: seq<int>, first: int, skip: nat, take: nat, count: nat)
    requires skip < |s| && s == Range(first, |s|)
    requires take == if |s| - skip <= count then |s| - skip else count
    ensures Slice(s + t, skip, count) == Range(first + skip, take) + if take >= count then [] else Slice(t, 0, count - take)
  {
    assert s[skip..skip + take] == Range(first + skip, take);
  }

  // ---- membership by binary search ----

  /** `bisect.bisect_right` on the part `s[lo..hi]`. */
  function BisectRight(s: seq<int>, x: int, lo: nat, hi: nat): (i: nat)
    requires lo <= hi <= |s| && forall i, j :: 0 <= i < j < |s| ==> s[i] <= s[j]
    requires (forall k :: 0 <= k < lo ==> s[k] <= x) && (forall k :: hi <= k < |s| ==> x < s[k])
    ensures lo <= i <= hi
    ensures (forall k :: 0 <= k < i ==> s[k] <= x) && (forall k :: i <= k < |s| ==> x < s[k])
    decreases hi - lo
  {
    if lo < hi then
      var mid := (lo + hi) / 2;
      if x < s[mid] then BisectRight(s, x, lo, mid) else BisectRight(s, x, mid + 1, hi)
    else lo
  }

  function Starts(runs: seq<Run>): (s: seq<int>)
    ensures |s| == |runs| && forall i :: 0 <= i < |s| ==> s[i] == runs[i].first
  {
    seq(|runs|, i requires 0 <= i < |runs| => runs[i].first)
  }

  /** How many runs start at or before `n`. */
  function Started(runs: seq<Run>, n: int): (k: nat)
    requires Sorted(runs)
    ensures k <= |runs| && forall i :: 0 <= i < |runs| ==> (runs[i].first <= n <==> i < k)
  {
    var s := Starts(runs);
    var k := BisectRight(s, n, 0, |s|);
    assert forall i :: 0 <= i < |runs| ==> s[i] == runs[i].first;
    k
  }

  /** Only the last run that starts at or before `n` is looked at. */
  predicate InRuns(runs: seq<Run>, n: int)
    requires Sorted(runs)
  {
    var k := Started(runs, n);
    k > 0 && runs[k - 1].first <= n <= runs[k - 1].last
  }

  /** Run `i` reaches past the end of the later run `j` into a hole behind it. */
  predicate Shadows(runs: seq<Run>, i: nat, j: nat)
    requires i < j < |runs|
  {
    runs[j].last < runs[i].last && (j + 1 < |runs| ==> runs[j].last + 1 < runs[j + 1].first)
  }

  predicate NoShadow(runs: seq<Run>) {
    forall i, j :: 0 <= i < j < |runs| ==> !Shadows(runs, i, j)
  }

  lemma InRunsSound(runs: seq<Run>, n: int)
    requires Sorted(runs) && InRuns(runs, n)
    ensures Covers(runs, n)
  {
    assert runs[Started(runs, n) - 1] in runs;
  }

  lemma InRunsComplete(runs: seq<Run>, n: int)
    requires Sorted(runs) && NoShadow(runs) && Covers(runs, n)
    ensures InRuns(runs, n)
  {
    var r :| r in runs && r.first <= n <= r.last;
    var i :| 0 <= i < |runs| && runs[i] == r;
    var j := Started(runs, n) - 1;
    if i < j {
      assert !Shadows(runs, i, j);
    }
  }

  lemma ShadowMissed(runs: seq<Run>, i: nat, j: nat)
    requires Sorted(runs) && Proper(runs) && i < j < |runs| && Shadows(runs, i, j)
    ensures Covers(runs, runs[j].last + 1) && !InRuns(runs, runs[j].last + 1)
  {
    assert runs[i] in runs && runs[j] in runs && Leq(runs[i], runs[j]);
    assert Started(runs, runs[j].last + 1) == j + 1;
  }

  /** The search does not find 4 although the first run covers it. */
  lemma ShadowExample()
    ensures var runs := [Run(1, 9), Run(2, 3)];
            Sorted(runs) && Covers(runs, 4) && !InRuns(runs, 4)
  {
    var runs := [Run(1, 9), Run(2, 3)];
    ShadowMissed(runs, 0, 1);
  }

  ghost predicate Searchable(runs: seq<Run>)
    requires Sorted(runs)
  {
    forall n :: InRuns(runs, n) <==> Covers(runs, n)
  }

  /** The search answers membership for every address exactly when no run shadows a hole. */
  lemma InRunsExact(runs: seq<Run>)
    requires Sorted(runs) && Proper(runs)
    ensures Searchable(runs) <==> NoShadow(runs)
  {
    if NoShadow(runs) {
      forall n ensures InRuns(runs, n) <==> Covers(runs, n) {
        if InRuns(runs, n) { InRunsSound(runs, n); }
        if Covers(runs, n) { InRunsComplete(runs, n); }
      }
    } else {
      var i, j :| 0 <= i < j < |runs| && Shadows(runs, i, j);
      ShadowMissed(runs, i, j);
    }
  }

  // ---- the server's side ----

  function Extended(runs: seq<Run>, n: int): seq<Run>
    requires runs != []
  {
    runs[|runs| - 1 := Run(runs[|runs| - 1].first, n)]
  }

  lemma ExtendedNext(runs: seq<Run>, n: int)
    requires runs != [] && runs[|runs| - 1].first <= runs[|runs| - 1].last && n == runs[|runs| - 1].last + 1
    ensures Expand(Extended(runs, n)) == Expand(runs) + [n]
  {
    var r, before := runs[|runs| - 1], runs[..|runs| - 1];
    assert runs == before + [r];
    assert Extended(runs, n) == before + [Run(r.first, n)];
    LastGrows(before, r, n, runs, Extended(runs, n));
  }

  lemma LastGrows(before: seq<Run>, r: Run, n: int, runs: seq<Run>, longer: seq<Run>)
    requires r.first <= r.last && n == r.last + 1
    requires runs == before + [r] && longer == before + [Run(r.first, n)]
    ensures Expand(longer) == Expand(runs) + [n]
  {
    ExpandOne(before, r);
    ExpandOne(before, Run(r.first, n));
    assert Range(r.first, Size(r) + 1) == Range(r.first, Size(r)) + [n];
  }

  lemma ExtendedSeparated(runs: seq<Run>, n: int)
    requires runs != [] && Separated(runs) && Proper(runs) && n == runs[|runs| - 1].last + 1
    ensures Separated(Extended(runs, n)) && Proper(Extended(runs, n))
  {
    assert runs[|runs| - 1] in runs;
  }

  lemma ExpandSingle(runs: seq<Run>, n: int)
    ensures Expand(runs + [Run(n, n)]) == Expand(runs) + [n]
  {
    ExpandOne(runs, Run(n, n));
    assert Range(n, 1) == [n];
  }

  ghost predicate Increasing(s: seq<int>) {
    forall i, j :: 0 <= i < j < |s| ==> s[i] < s[j]
  }

  function InsertInt(n: int, s: seq<int>): seq<int> {
    if s == [] || n < s[0] then [n] + s
    else if n == s[0] then s
    else [s[0]] + InsertInt(n, s[1..])
  }

  /** `sorted(set(ints))` */
  function SortedSet(ints: seq<int>): seq<int> {
    if ints == [] then [] else InsertInt(ints[0], SortedSet(ints[1..]))
  }

  lemma {:induction false} InsertIntIncreasing(n: int, s: seq<int>)
    requires Increasing(s)
    ensures Increasing(InsertInt(n, s))
    ensures forall x :: x in InsertInt(n, s) <==> x == n || x in s
  {
    if s != [] && n > s[0] {
      InsertIntIncreasing(n, s[1..]);
      var rest := InsertInt(n, s[1..]);
      assert s == [s[0]] + s[1..];
      forall i | 0 <= i < |rest| ensures s[0] < rest[i] {
        assert rest[i] in rest;
      }
    }
  }

  lemma {:induction false} SortedSetIncreasing(ints: seq<int>)
    ensures Increasing(SortedSet(ints))
    ensures forall x :: x in SortedSet(ints) <==> x in ints
  {
    if ints != [] {
      SortedSetIncreasing(ints[1..]);
      InsertIntIncreasing(ints[0], SortedSet(ints[1..]));
    }
  }

  /** Compresses any addresses, in any order and with repetitions, into runs: expanded, these are the
      addresses in increasing order, each once, and no two runs could be joined. */
  method ToRuns(ints: seq<int>) returns (out: seq<Run>)
    ensures Increasing(Expand(out)) && (forall n :: n in Expand(out) <==> n in ints)
    ensures Separated(out) && Proper(out)
  {
    var sorted := SortedSet(ints);
    SortedSetIncreasing(ints);
    out := [];
    for k := 0 to |sorted|
      invariant Compresses(out, sorted[..k])
    {
      var n := sorted[k];
      assert sorted[..k + 1] == sorted[..k] + [n];
      if out != [] && n == out[|out| - 1].last + 1 {
        CompressNext(out, sorted[..k], n);
        out := Extended(out, n);
      } else {
        CompressGap(out, sorted[..k], n);
        out := out + [Run(n, n)];
      }
    }
    assert sorted[..|sorted|] == sorted;
  }

  ghost predicate Compresses(runs: seq<Run>, ints: seq<int>) {
    && Expand(runs) == ints && Separated(runs) && Proper(runs)
    && if runs == [] then ints == [] else ints != [] && runs[|runs| - 1].last == ints[|ints| - 1]
  }

  lemma CompressNext(runs: seq<Run>, ints: seq<int>, n: int)
    requires Compresses(runs, ints) && runs != [] && n == runs[|runs| - 1].last + 1
    ensures Compresses(Extended(runs, n), ints + [n])
  {
    assert runs[|runs| - 1] in runs;
    ExtendedNext(runs, n);
    ExtendedSeparated(runs, n);
  }

  lemma CompressGap(runs: seq<Run>, ints: seq<int>, n: int)
    requires Compresses(runs, ints) && (ints != [] ==> ints[|ints| - 1] < n)
    requires runs == [] || n != runs[|runs| - 1].last + 1
    ensures Compresses(runs + [Run(n, n)], ints + [n])
  {
    ExpandSingle(runs, n);
    assert forall r :: r in runs ==> r.last < n;
  }

  lemma CoversAppend(runs: seq<Run>, r: Run, n: int)
    ensures Covers(runs + [r], n) <==> Covers(runs, n) || r.first <= n <= r.last
  {
    if Covers(runs, n) {
      var x :| x in runs && x.first <= n <= x.last;
      assert x in runs + [r];
    }
    assert r in runs + [r];
  }

  /** Merges overlapping and adjacent ranges; only their ends are looked at. */
  method MergeRanges(ranges: seq<Run>) returns (out: seq<Run>)
    ensures forall n :: Covers(out, n) <==> Covers(ranges, n)
    ensures Separated(out)
  {
    var spans := Sort(ranges);
    SortElements(ranges);
    out := [];
    for k := 0 to |spans|
      invariant forall n :: Covers(out, n) <==> Covers(spans[..k], n)
      invariant Separated(out)
      invariant out != [] && k < |spans| ==> out[|out| - 1].first <= spans[k].first
    {
      var s := spans[k];
      assert spans[..k + 1] == spans[..k] + [s];
      if k + 1 < |spans| {
        assert Leq(s, spans[k + 1]);
      }
      ghost var was := out;
      if out != [] && s.first <= out[|out| - 1].last + 1 {
        var r := out[|out| - 1];
        ghost var before := out[..|out| - 1];
        assert was == before + [r];
        out := out[|out| - 1 := Run(r.first, if r.last >= s.last then r.last else s.last)];
        assert out == before + [out[|out| - 1]];
        forall n ensures Covers(out, n) <==> Covers(spans[..k + 1], n) {
          CoversAppend(before, r, n);
          CoversAppend(before, out[|out| - 1], n);
          CoversAppend(spans[..k], s, n);
        }
      } else {
        out := out + [s];
        forall n ensures Covers(out, n) <==> Covers(spans[..k + 1], n) {
          CoversAppend(was, s, n);
          CoversAppend(spans[..k], s, n);
        }
      }
    }
    assert spans[..|spans|] == spans;
  }

  /** Whatever the server compressed, clipped and sorted by the agent, can be searched. */
  lemma SeparatedSearchable(runs: seq<Run>)
    requires Separated(runs) && Proper(runs)
    ensures NoShadow(runs) && Sorted(runs)
  {
    forall i, j | 0 <= i < j < |runs| ensures runs[i].last <= runs[j].last && Leq(runs[i], runs[j]) {
      assert runs[i] in runs && runs[j] in runs;
    }
  }

  lemma {:induction false} InsertFirst(r: Run, runs: seq<Run>)
    requires forall x :: x in runs ==> Leq(r, x)
    ensures Insert(r, runs) == [r] + runs
  {
    if runs != [] {
      assert runs[0] in runs;
    }
  }

  lemma {:induction false} SortOfSorted(runs: seq<Run>)
    requires Sorted(runs)
    ensures Sort(runs) == runs
  {
    if runs != [] {
      SortOfSorted(runs[1..]);
      InsertFirst(runs[0], runs[1..]);
    }
  }

  function Sent(runs: seq<Run>): (raw: seq<Option<Run>>)
    ensures |raw| == |runs| && forall i :: 0 <= i < |runs| ==> raw[i] == Some(runs[i])
  {
    seq(|runs|, i requires 0 <= i < |runs| => Some(runs[i]))
  }

  lemma {:induction false} ClippedSeparated(runs: seq<Run>, lo: int, hi: int)
    requires Separated(runs)
    ensures Separated(Clipped(Sent(runs), lo, hi))
    ensures forall r :: r in Clipped(Sent(runs), lo, hi) ==> exists s :: s in runs && s.first <= r.first && r.last <= s.last
  {
    if runs != [] {
      var k := |runs| - 1;
      ClippedSeparated(runs[..k], lo, hi);
      assert Sent(runs)[..k] == Sent(runs[..k]);
      var c, d := Clipped(Sent(runs[..k]), lo, hi), Clipped(Sent(runs), lo, hi);
      forall r | r in c ensures r.last + 1 < runs[k].first {
        var s :| s in runs[..k] && s.first <= r.first && r.last <= s.last;
      }
      forall r | r in d ensures exists s :: s in runs && s.first <= r.first && r.last <= s.last {
        if r in c {
          var s :| s in runs[..k] && s.first <= r.first && r.last <= s.last;
          assert s in runs;
        } else {
          assert runs[k] in runs && runs[k].first <= r.first && r.last <= runs[k].last;
        }
      }
    }
  }

  lemma SentCovers(runs: seq<Run>, n: int)
    ensures RawCovers(Sent(runs), n) <==> Covers(runs, n)
  {
    if Covers(runs, n) {
      var i :| 0 <= i < |runs| && runs[i].first <= n <= runs[i].last;
      assert Sent(runs)[i] in Sent(runs);
    }
  }

  /** From the server's runs to the agent's search: the agent holds exactly the usable part, and its
      binary search answers membership correctly. */
  lemma SentRunsSearchable(runs: seq<Run>, lo: int, hi: int)
    requires Separated(runs)
    ensures var known := Sort(Clipped(Sent(runs), lo, hi));
            && Sorted(known) && Proper(known) && Searchable(known)
            && forall n :: Covers(known, n) <==> lo <= n <= hi && Covers(runs, n)
  {
    var c := Clipped(Sent(runs), lo, hi);
    ClippedSeparated(runs, lo, hi);
    ClippedCovers(Sent(runs), lo, hi, lo);
    SeparatedSearchable(c);
    SortOfSorted(c);
    InRunsExact(c);
    forall n ensures Covers(c, n) <==> lo <= n <= hi && Covers(runs, n) {
      ClippedCovers(Sent(runs), lo, hi, n);
      SentCovers(runs, n);
    }
  }
}
