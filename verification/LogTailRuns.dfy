/** What the log reader returns over its whole life, for files with lines of any length. */
module LogTailRuns {
  import opened Wrappers
  import opened Bits
  import opened LogTail

  // ---- lines and bytes ----

  lemma {:induction false} UnfinishedIsSuffix(s: Bytes)
    ensures |Unfinished(s)| <= |s| && s[|s| - |Unfinished(s)|..] == Unfinished(s) && NEWLINE !in Unfinished(s)
  {
    if s != [] && s[|s| - 1] != NEWLINE {
      var n := |s| - 1;
      UnfinishedIsSuffix(s[..n]);
      assert s == s[..n] + [s[n]];
    }
  }

  /** `s` without the line that has no line break yet. */
  function Finished(s: Bytes): Bytes {
    UnfinishedIsSuffix(s);
    s[..|s| - |Unfinished(s)|]
  }

  lemma {:induction false} FinishedLines(s: Bytes)
    ensures Lines(Finished(s)) == Lines(s) && Unfinished(Finished(s)) == []
  {
    if s != [] {
      var n := |s| - 1;
      if s[n] == NEWLINE {
        assert Finished(s) == s;
      } else {
        FinishedLines(s[..n]);
        UnfinishedIsSuffix(s[..n]);
        assert Finished(s) == Finished(s[..n]);
      }
    }
  }

  /** How many bytes some lines take up, line breaks included. */
  function Size(lines: seq<Bytes>): nat {
    if lines == [] then 0 else Size(lines[..|lines| - 1]) + |lines[|lines| - 1]| + 1
  }

  lemma {:induction false} LinesSize(s: Bytes)
    ensures Size(Lines(s)) + |Unfinished(s)| == |s|
  {
    if s != [] {
      var n := |s| - 1;
      LinesSize(s[..n]);
      if s[n] == NEWLINE {
        var l := Lines(s);
        assert l[..|l| - 1] == Lines(s[..n]);
      }
    }
  }

  lemma {:induction false} LongHasLines(s: Bytes)
    requires |Unfinished(s)| < |s|
    ensures Lines(s) != []
  {
    if s[|s| - 1] != NEWLINE {
      LongHasLines(s[..|s| - 1]);
    }
  }

  // ---- what the reader keeps ----

  /** The bytes read so far less those that were thrown away: a beginning of a line that grew too long. */
  function KeptNext(kept: Bytes, data: Bytes): Bytes {
    if |Unfinished(kept + data)| > MAX_REST then Finished(kept + data) else kept + data
  }

  /** `t` stands in the file and remembers the unfinished line of `kept`. */
  ghost predicate Keeps(t: Tail, v: View, kept: Bytes) {
    t.ino == v.ino && t.pos <= |v.content| && !t.skipFirst && t.rest == Unfinished(kept) && |t.rest| <= MAX_REST
  }

  function KeptAfter(kept: Bytes, t: Tail, v: View): Bytes {
    if v.size == t.pos then kept else KeptNext(kept, Piece(t, v))
  }

  lemma AdvancedKeeps(t: Tail, v: View, kept: Bytes)
    requires t.ino == v.ino && t.pos <= |v.content| && t.rest == Unfinished(kept)
    ensures Keeps(Advanced(t, v), v, KeptNext(kept, Piece(t, v)))
    ensures Lines(KeptNext(kept, Piece(t, v))) == Lines(kept) + Lines(t.rest + Piece(t, v))
    ensures Advanced(t, v).pos == t.pos + |Piece(t, v)|
  {
    var data := Piece(t, v);
    LinesAppend(kept, data);
    UnfinishedAppend(kept, data);
    FinishedLines(kept + data);
  }

  /** Whatever the length of its lines: one more call on the same file returns exactly the lines that it adds
      to the kept bytes. */
  lemma KeepStep(t: Tail, v: View, kept: Bytes)
    requires Keeps(t, v, kept) && t.pos <= v.size
    ensures var u, k := AfterRead(Some(t), v), KeptAfter(kept, t, v);
            Keeps(u, v, k) && t.pos <= u.pos && Lines(k) == Lines(kept) + ReadLines(Some(t), v)
    ensures Proper(v) && v.size <= t.pos + MAX_READ ==> v.size <= AfterRead(Some(t), v).pos
  {
    if v.size != t.pos {
      AdvancedKeeps(t, v, kept);
    } else {
      assert Lines(kept) + [] == Lines(kept);
    }
  }

  function KeptOver(kept: Bytes, t: Tail, views: seq<View>): Bytes {
    if views == [] then kept
    else
      var n := |views| - 1;
      KeptAfter(KeptOver(kept, t, views[..n]), TailAfter(t, views[..n]), views[n])
  }

  lemma KeepsGrowth(t: Tail, v: View, w: View, kept: Bytes)
    requires Keeps(t, v, kept) && Grows(v, w)
    ensures Keeps(t, w, kept) && t.pos <= w.size
  {
  }

  /** However often and whenever a file that only grows is read, and whatever its lines: the lines returned so
      far are exactly the lines of the kept bytes, and the unfinished one is remembered. */
  lemma {:induction false} KeepRun(t: Tail, v: View, views: seq<View>, kept: Bytes)
    requires Keeps(t, v, kept) && AppendOnly(v, views)
    ensures Keeps(TailAfter(t, views), Latest(v, views), KeptOver(kept, t, views))
    ensures Lines(KeptOver(kept, t, views)) == LinesOver(Lines(kept), t, views)
    ensures t.pos <= TailAfter(t, views).pos
  {
    if views != [] {
      var n := |views| - 1;
      KeepRun(t, v, views[..n], kept);
      var u, k := TailAfter(t, views[..n]), KeptOver(kept, t, views[..n]);
      KeepsGrowth(u, Latest(v, views[..n]), views[n], k);
      KeepStep(u, views[n], k);
    }
  }

  // ---- when nothing is thrown away ----

  /** The bytes from `start` to the position of `t`. */
  function Consumed(t: Tail, v: View, start: nat): Bytes
    requires start <= t.pos <= |v.content|
  {
    v.content[start..t.pos]
  }

  /** `t` remembers the unfinished line of what it consumed and `out` is every complete line of it. */
  ghost predicate Account(t: Tail, v: View, start: nat, out: seq<Bytes>) {
    && t.ino == v.ino && start <= t.pos <= |v.content| && !t.skipFirst
    && t.rest == Unfinished(Consumed(t, v, start)) && |t.rest| <= MAX_REST
    && out == Lines(Consumed(t, v, start))
  }

  /** No call finds more than the limit after the last line break. */
  ghost predicate KeepsUp(t: Tail, v: View, views: seq<View>, start: nat) {
    views != [] ==>
      var n := |views| - 1;
      var u := TailAfter(t, views);
      && KeepsUp(t, v, views[..n], start)
      && start <= u.pos <= |views[n].content|
      && |Unfinished(Consumed(u, views[n], start))| <= MAX_REST
  }

  /** Throwing a line beginning away makes what is kept shorter than what was consumed. */
  lemma KeptNextSize(kept: Bytes, data: Bytes)
    ensures |KeptNext(kept, data)| <= |kept| + |data|
    ensures |KeptNext(kept, data)| == |kept| + |data| <==> |Unfinished(kept + data)| <= MAX_REST
    ensures |Unfinished(kept + data)| <= MAX_REST ==> KeptNext(kept, data) == kept + data
  {
    UnfinishedIsSuffix(kept + data);
  }

  /** One call keeps everything exactly when what follows the last line break is within the limit. */
  lemma NothingCutStep(t: Tail, v: View, w: View, start: nat, kept: Bytes)
    requires Keeps(t, v, kept) && Grows(v, w) && start <= t.pos
    ensures var u, k := AfterRead(Some(t), w), KeptAfter(kept, t, w);
            && start <= u.pos <= |w.content|
            && |k| - |kept| <= u.pos - t.pos
            && (kept == Consumed(t, v, start) ==>
                  (k == Consumed(u, w, start) <==> |Unfinished(Consumed(u, w, start))| <= MAX_REST)
                  && (k == Consumed(u, w, start) <==> |k| == u.pos - start))
  {
    var u := AfterRead(Some(t), w);
    assert w.content[start..t.pos] == v.content[start..t.pos];
    if w.size != t.pos {
      var data := Piece(t, w);
      KeptNextSize(kept, data);
      assert Consumed(u, w, start) == w.content[start..t.pos] + data;
    }
  }

  lemma {:induction false} NothingCutRun(t: Tail, v: View, views: seq<View>, start: nat, kept: Bytes)
    requires Keeps(t, v, kept) && AppendOnly(v, views) && start <= t.pos && |kept| <= t.pos - start
    ensures var u, w, k := TailAfter(t, views), Latest(v, views), KeptOver(kept, t, views);
            && start <= u.pos <= |w.content|
            && |k| - |kept| <= u.pos - t.pos
            && (kept == Consumed(t, v, start) ==>
                  (k == Consumed(u, w, start) <==> KeepsUp(t, v, views, start))
                  && (k == Consumed(u, w, start) <==> |k| == u.pos - start))
  {
    if views != [] {
      var n := |views| - 1;
      NothingCutRun(t, v, views[..n], start, kept);
      KeepRun(t, v, views[..n], kept);
      NothingCutStep(TailAfter(t, views[..n]), Latest(v, views[..n]), views[n], start, KeptOver(kept, t, views[..n]));
    }
  }

  /** The account is right exactly when nothing was thrown away. */
  lemma AccountExactly(u: Tail, w: View, start: nat, k: Bytes, out: seq<Bytes>)
    requires Keeps(u, w, k) && start <= u.pos && out == Lines(k)
    ensures Account(u, w, start, out) ==> |k| == u.pos - start
    ensures k == Consumed(u, w, start) ==> Account(u, w, start, out)
  {
    LinesSize(k);
    LinesSize(Consumed(u, w, start));
  }

  /** Over every run on a growing file the lines returned are exactly the complete lines of the bytes consumed,
      none lost, repeated or cut, and the unfinished one is remembered, if and only if no call finds more than
      65536 bytes after the last line break. */
  lemma FollowRunExactly(t: Tail, v: View, views: seq<View>, start: nat, out: seq<Bytes>)
    requires Account(t, v, start, out) && AppendOnly(v, views)
    ensures Account(TailAfter(t, views), Latest(v, views), start, LinesOver(out, t, views)) <==> KeepsUp(t, v, views, start)
  {
    var kept := Consumed(t, v, start);
    KeepRun(t, v, views, kept);
    NothingCutRun(t, v, views, start, kept);
    AccountExactly(TailAfter(t, views), Latest(v, views), start, KeptOver(kept, t, views), LinesOver(out, t, views));
  }

  // ---- the first call, and rotation ----

  /** A long piece without a line break is thrown away as a whole. */
  lemma NothingFinished(read: Bytes)
    requires |read| > MAX_REST && Lines(read) == []
    ensures KeptNext([], read) == []
  {
    assert [] + read == read;
    UnfinishedIsSuffix(read);
    if |Unfinished(read)| < |read| {
      LongHasLines(read);
    }
  }

  /** Where a call begins to read (a new path at the last 256 KiB, a file that was replaced or has become shorter at its
      beginning, any other where the last call stopped) and where it stops: after 4 MiB, or at the end. */
  lemma PositionExactly(t: Option<Tail>, v: View)
    requires Proper(v)
    ensures var start := if t.None? then (if v.size > 262144 then v.size - 262144 else 0)
                         else if v.ino != t.value.ino || v.size < t.value.pos then 0 else t.value.pos;
            AfterRead(t, v).pos
            == if v.size == start then start
               else if start + 4194304 <= |v.content| then start + 4194304 else |v.content|
    ensures AfterRead(t, v).ino == v.ino
  {
  }

  /** The first call begins at the last 256 KiB of the file; if that is not its beginning and a line ends in
      what it reads, the first of the lines, which may be cut, is dropped.  If none ends there, everything is
      thrown away. */
  lemma FirstRead(v: View)
    requires Proper(v)
    ensures var o, t := Opened(None, v), AfterRead(None, v);
            && o.pos == (if v.size > 262144 then v.size - 262144 else 0)
            && o.pos <= t.pos <= |v.content|
            && var read := v.content[o.pos..t.pos];
            && Keeps(t, v, KeptNext([], read))
            && Lines(KeptNext([], read)) == Lines(read)
            && ReadLines(None, v) == (if o.pos > 0 && Lines(read) != [] then Lines(read)[1..] else Lines(read))
            && (o.pos > 0 && Lines(read) == [] ==> KeptNext([], read) == [])
  {
    var o, t := Opened(None, v), AfterRead(None, v);
    if v.size != o.pos {
      FirstPiece(o, v);
      FirstLines(o, v, Piece(o, v));
    } else {
      assert v.content[o.pos..t.pos] == [];
    }
  }

  lemma FirstLines(o: Tail, v: View, read: Bytes)
    requires Proper(v) && o == Opened(None, v) && v.size != o.pos && read == Piece(o, v)
    ensures ReadLines(None, v) == if o.pos > 0 && Lines(read) != [] then Lines(read)[1..] else Lines(read)
    ensures o.pos > 0 && Lines(read) == [] ==> KeptNext([], read) == []
  {
    assert [] + read == read;
    if o.pos > 0 && Lines(read) == [] {
      NothingFinished(read);
    }
  }

  lemma FirstPiece(o: Tail, v: View)
    requires Proper(v) && o == Opened(None, v) && v.size != o.pos
    ensures var t, read := Advanced(o, v), Piece(o, v);
            && o.pos <= t.pos <= |v.content| && read == v.content[o.pos..t.pos]
            && Keeps(t, v, KeptNext([], read)) && Lines(KeptNext([], read)) == Lines(read)
  {
    var none: Bytes := [];
    AdvancedKeeps(o, v, none);
    KeptLines(Piece(o, v));
  }

  lemma KeptLines(read: Bytes)
    ensures Lines(KeptNext([], read)) == Lines(read)
  {
    assert [] + read == read;
    FinishedLines(read);
  }

  lemma {:induction false} LinesOverFrom(before: seq<Bytes>, out: seq<Bytes>, t: Tail, views: seq<View>)
    ensures LinesOver(before + out, t, views) == before + LinesOver(out, t, views)
  {
    if views != [] {
      var n := |views| - 1;
      LinesOverFrom(before, out, t, views[..n]);
      Regroup(before, LinesOver(out, t, views[..n]), ReadLines(Some(TailAfter(t, views[..n])), views[n]));
    }
  }

  lemma Regroup(a: seq<Bytes>, b: seq<Bytes>, c: seq<Bytes>)
    ensures (a + b) + c == a + (b + c)
  {
  }

  /** The line dropped by the first call. */
  function Dropped(v: View): seq<Bytes> {
    var o, t := Opened(None, v), AfterRead(None, v);
    if o.pos > 0 && o.pos <= t.pos <= |v.content| && Lines(v.content[o.pos..t.pos]) != []
    then Lines(v.content[o.pos..t.pos])[..1] else []
  }

  /** Over a whole life of the reader on one growing file: what the first call dropped, followed by everything
      returned, is the complete lines of the file from the starting point to the position reached, if and only
      if neither the first call nor a later one finds more than 65536 bytes after the last line break. */
  lemma WholeRun(v: View, views: seq<View>)
    requires Proper(v) && AppendOnly(v, views)
    ensures var t, start := AfterRead(None, v), Opened(None, v).pos;
            && start <= t.pos <= |v.content|
            && (Account(TailAfter(t, views), Latest(v, views), start,
                        Dropped(v) + LinesOver(ReadLines(None, v), t, views))
                <==> |Unfinished(v.content[start..t.pos])| <= MAX_REST && KeepsUp(t, v, views, start))
  {
    FirstRead(v);
    var t, start := AfterRead(None, v), Opened(None, v).pos;
    var read := v.content[start..t.pos];
    assert Dropped(v) + ReadLines(None, v) == Lines(read);
    LinesOverFrom(Dropped(v), ReadLines(None, v), t, views);
    RunAfter(t, v, views, start);
  }

  /** The run after a call that read everything from `start` on. */
  lemma RunAfter(t: Tail, v: View, views: seq<View>, start: nat)
    requires start <= t.pos <= |v.content| && AppendOnly(v, views)
    requires Keeps(t, v, KeptNext([], Consumed(t, v, start)))
    requires Lines(KeptNext([], Consumed(t, v, start))) == Lines(Consumed(t, v, start))
    ensures Account(TailAfter(t, views), Latest(v, views), start, LinesOver(Lines(Consumed(t, v, start)), t, views))
            <==> |Unfinished(Consumed(t, v, start))| <= MAX_REST && KeepsUp(t, v, views, start)
  {
    var read := Consumed(t, v, start);
    var kept := KeptNext([], read);
    assert [] + read == read;
    KeptNextSize([], read);
    KeepRun(t, v, views, kept);
    NothingCutRun(t, v, views, start, kept);
    AccountExactly(TailAfter(t, views), Latest(v, views), start, KeptOver(kept, t, views), LinesOver(Lines(read), t, views));
  }

  /** A file that was replaced, or has become shorter than what was read, is read from its beginning: the lines
      returned are those of what is read, and everything said about a growing file holds again from there
      exactly when what follows the last line break is within the limit. */
  lemma AfterRotation(t: Tail, v: View)
    requires (v.ino != t.ino || v.size < t.pos) && Proper(v)
    ensures var u := AfterRead(Some(t), v);
            && u.pos <= |v.content|
            && ReadLines(Some(t), v) == Lines(v.content[..u.pos])
            && (Account(u, v, 0, ReadLines(Some(t), v)) <==> |Unfinished(v.content[..u.pos])| <= 65536)
  {
    var o := Tail(v.ino, 0, [], false);
    assert Opened(Some(t), v) == o;
    var u := AfterRead(Some(t), v);
    assert v.content[..u.pos] == v.content[0..u.pos];
    if v.size != 0 {
      var data := Piece(o, v);
      assert data == v.content[..u.pos] && [] + data == data;
      AdvancedKeeps(o, v, []);
      FinishedLines(data);
      KeptNextSize([], data);
      AccountExactly(u, v, 0, KeptNext([], data), ReadLines(Some(t), v));
    } else {
      assert v.content[..0] == [];
    }
  }

  // ---- a line that is lost ----

  lemma {:induction false} NoBreak(s: Bytes)
    requires NEWLINE !in s
    ensures Lines(s) == [] && Unfinished(s) == s
  {
    if s != [] {
      var n := |s| - 1;
      NoBreak(s[..n]);
      assert s == s[..n] + [s[n]];
    }
  }

  lemma BreakEnds(s: Bytes)
    ensures Lines(s + [NEWLINE]) == Lines(s) + [Unfinished(s)] && Unfinished(s + [NEWLINE]) == []
  {
    assert (s + [NEWLINE])[..|s|] == s;
  }

  /** A file that is empty when it is first seen, then holds `line`, then `line` and a line break. */
  function Empty(ino: nat): View {
    View(ino, 0, [])
  }

  function Growing(ino: nat, line: Bytes): seq<View> {
    [View(ino, |line|, line), View(ino, |line| + 1, line + [NEWLINE])]
  }

  /** A call that starts with nothing remembered. */
  lemma ReadFresh(t: Tail, v: View, piece: Bytes)
    requires t.ino == v.ino && t.rest == [] && !t.skipFirst && t.pos < v.size && piece == Piece(t, v)
    ensures AfterRead(Some(t), v)
            == Tail(t.ino, t.pos + |piece|, if |Unfinished(piece)| > MAX_REST then [] else Unfinished(piece), false)
    ensures ReadLines(Some(t), v) == Lines(piece)
  {
    assert [] + piece == piece;
  }

  lemma ReadWithoutBreak(t: Tail, v: View)
    requires t == Tail(v.ino, 0, [], false) && v.size == |v.content|
    requires NEWLINE !in v.content && MAX_REST < |v.content| <= MAX_READ
    ensures AfterRead(Some(t), v) == Tail(v.ino, v.size, [], false) && ReadLines(Some(t), v) == []
  {
    assert Piece(t, v) == v.content;
    ReadFresh(t, v, v.content);
    NoBreak(v.content);
  }

  lemma ReadBreak(t: Tail, v: View)
    requires v.size > 0 && t == Tail(v.ino, v.size - 1, [], false)
    requires v.size == |v.content| && v.content[v.size - 1] == NEWLINE
    ensures AfterRead(Some(t), v) == Tail(v.ino, v.size, [], false) && ReadLines(Some(t), v) == [[]]
  {
    var piece: Bytes := [NEWLINE];
    assert Piece(t, v) == piece;
    ReadFresh(t, v, piece);
    assert [] + piece == piece;
    BreakEnds([]);
  }

  lemma OneMore(out: seq<Bytes>, t: Tail, views: seq<View>, v: View)
    ensures TailAfter(t, views + [v]) == AfterRead(Some(TailAfter(t, views)), v)
    ensures LinesOver(out, t, views + [v]) == LinesOver(out, t, views) + ReadLines(Some(TailAfter(t, views)), v)
  {
    assert (views + [v])[..|views|] == views;
  }

  lemma TwoReads(t: Tail, v: View, w: View)
    ensures TailAfter(t, [v, w]) == AfterRead(Some(AfterRead(Some(t), v)), w)
    ensures LinesOver([], t, [v, w]) == ReadLines(Some(t), v) + ReadLines(Some(AfterRead(Some(t), v)), w)
  {
    OneMore([], t, [], v);
    OneMore([], t, [v], w);
    assert [] + [v] == [v] && [v] + [w] == [v, w];
    assert TailAfter(t, []) == t && [] + ReadLines(Some(t), v) == ReadLines(Some(t), v);
  }

  /** A line above the limit that is read before its line break comes: an empty line is returned instead. */
  lemma LongLineLost(ino: nat, line: Bytes)
    requires 10 !in line && 65536 < |line| <= 4194304
    ensures var t, views := AfterRead(None, Empty(ino)), Growing(ino, line);
            && Account(t, Empty(ino), 0, []) && AppendOnly(Empty(ino), views)
            && LinesOver([], t, views) == [[]] && Lines(views[1].content) == [line]
            && !Account(TailAfter(t, views), views[1], 0, LinesOver([], t, views))
  {
    var t, views := AfterRead(None, Empty(ino)), Growing(ino, line);
    assert t == Tail(ino, 0, [], false);
    ReadWithoutBreak(t, views[0]);
    ReadBreak(Tail(ino, |line|, [], false), views[1]);
    TwoReads(t, views[0], views[1]);
    assert LinesOver([], t, views) == [[]];
    NoBreak(line);
    BreakEnds(line);
    assert views[..1] == [views[0]] && [views[0]][..0] == [];
    assert views[1].content[0..|line| + 1] == views[1].content;
  }

  /** 65537 letters and a line break. */
  lemma LongLineExample()
    ensures var line: Bytes := seq(65537, i => 97);
            var t, views := AfterRead(None, Empty(1)), Growing(1, line);
            LinesOver([], t, views) == [[]] && !Account(TailAfter(t, views), views[1], 0, LinesOver([], t, views))
  {
    LongLineLost(1, seq(65537, i => 97));
  }

  // ---- short lines ----

  /** No line is longer than what the reader is willing to keep. */
  ghost predicate ShortLines(content: Bytes) {
    forall i, j :: 0 <= i <= j <= |content| && j - i > 65536 ==> 10 in content[i..j]
  }

  lemma SliceEnd(s: Bytes, a: nat, b: nat, k: nat, from: nat)
    requires a <= b <= |s| && k <= b - a && from == a + k
    ensures s[a..b][k..] == s[from..b]
  {
  }

  lemma UnfinishedShort(content: Bytes, start: nat, pos: nat)
    requires start <= pos <= |content| && ShortLines(content)
    ensures |Unfinished(content[start..pos])| <= MAX_REST
  {
    var s := content[start..pos];
    var u := Unfinished(s);
    UnfinishedIsSuffix(s);
    SliceEnd(content, start, pos, |s| - |u|, pos - |u|);
  }

  lemma ShortPrefix(a: Bytes, b: Bytes)
    requires a <= b && ShortLines(b)
    ensures ShortLines(a)
  {
    forall i, j | 0 <= i <= j <= |a| && j - i > MAX_REST ensures NEWLINE in a[i..j] {
      assert a[i..j] == b[i..j];
    }
  }

  /** With lines within the limit the reader always keeps up. */
  lemma {:induction false} ShortLinesKeepUp(t: Tail, v: View, views: seq<View>, start: nat, out: seq<Bytes>)
    requires Account(t, v, start, out) && AppendOnly(v, views) && ShortLines(Latest(v, views).content)
    ensures KeepsUp(t, v, views, start)
  {
    if views != [] {
      var n := |views| - 1;
      ShortPrefix(Latest(v, views[..n]).content, views[n].content);
      ShortLinesKeepUp(t, v, views[..n], start, out);
      KeepRun(t, v, views, Consumed(t, v, start));
      UnfinishedShort(views[n].content, start, TailAfter(t, views).pos);
    }
  }
}
