/** Following a growing log file (agent/jt_ipam_rustdesk_agent.py, `_keylog_read`). */
module LogTail {
  import opened Wrappers
  import opened Bits

  const BACKFILL: nat := 256 * 1024
  const MAX_READ: nat := 4 * 1024 * 1024
  const MAX_REST: nat := 65536
  const NEWLINE: byte := 10

  /** What is remembered of one path. */
  datatype Tail = Tail(ino: nat, pos: nat, rest: Bytes, skipFirst: bool)

  /** The file as one call finds it: inode and size from stat, then the content that read sees, which
      may have grown meanwhile. */
  datatype View = View(ino: nat, size: nat, content: Bytes)

  ghost predicate Proper(v: View) {
    v.size <= |v.content|
  }

  // ---- lines ----

  /** The complete lines of `s`, without their line breaks. */
  function Lines(s: Bytes): seq<Bytes> {
    if s == [] then []
    else
      var n := |s| - 1;
      if s[n] == NEWLINE then Lines(s[..n]) + [Unfinished(s[..n])] else Lines(s[..n])
  }

  /** What follows the last line break. */
  function Unfinished(s: Bytes): Bytes {
    if s == [] then []
    else
      var n := |s| - 1;
      if s[n] == NEWLINE then [] else Unfinished(s[..n]) + [s[n]]
  }

  lemma {:induction false} UnfinishedAppend(a: Bytes, b: Bytes)
    ensures Unfinished(a + b) == Unfinished(Unfinished(a) + b)
    decreases |b|
  {
    if b == [] {
      assert a + b == a && Unfinished(a) + b == Unfinished(a);
      UnfinishedStable(a);
    } else {
      var n := |b| - 1;
      var u := Unfinished(a) + b;
      assert (a + b)[..|a + b| - 1] == a + b[..n];
      assert u[..|u| - 1] == Unfinished(a) + b[..n];
      UnfinishedAppend(a, b[..n]);
    }
  }

  /** Lines can be found piece by piece if the unfinished part is put in front of the next piece. */
  lemma {:induction false} LinesAppend(a: Bytes, b: Bytes)
    ensures Lines(a + b) == Lines(a) + Lines(Unfinished(a) + b)
    decreases |b|
  {
    if b == [] {
      assert a + b == a && Unfinished(a) + b == Unfinished(a);
      UnfinishedStable(a);
    } else {
      var n := |b| - 1;
      var u := Unfinished(a) + b;
      assert (a + b)[..|a + b| - 1] == a + b[..n];
      assert u[..|u| - 1] == Unfinished(a) + b[..n];
      LinesAppend(a, b[..n]);
      UnfinishedAppend(a, b[..n]);
    }
  }

  lemma {:induction false} UnfinishedStable(a: Bytes)
    ensures Unfinished(Unfinished(a)) == Unfinished(a) && Lines(Unfinished(a)) == []
  {
    if a != [] && a[|a| - 1] != NEWLINE {
      var u := Unfinished(a);
      UnfinishedStable(a[..|a| - 1]);
      assert u[..|u| - 1] == Unfinished(a[..|a| - 1]);
    }
  }

  // ---- one call ----

  function Opened(t: Option<Tail>, v: View): Tail {
    if t.None? then
      var pos := if v.size > BACKFILL then v.size - BACKFILL else 0;
      Tail(v.ino, pos, [], pos > 0)
    else if t.value.ino != v.ino || v.size < t.value.pos then Tail(v.ino, 0, [], false)
    else t.value
  }

  function Piece(t: Tail, v: View): Bytes {
    if t.pos >= |v.content| then []
    else if t.pos + MAX_READ >= |v.content| then v.content[t.pos..]
    else v.content[t.pos..t.pos + MAX_READ]
  }

  function Advanced(t: Tail, v: View): Tail {
    var data := Piece(t, v);
    var rest := Unfinished(t.rest + data);
    Tail(t.ino, t.pos + |data|, if |rest| > MAX_REST then [] else rest, false)
  }

  function Returned(t: Tail, v: View): seq<Bytes> {
    var lines := Lines(t.rest + Piece(t, v));
    if t.skipFirst && lines != [] then lines[1..] else lines
  }

  function AfterRead(t: Option<Tail>, v: View): Tail {
    var o := Opened(t, v);
    if v.size == o.pos then o else Advanced(o, v)
  }

  function ReadLines(t: Option<Tail>, v: View): seq<Bytes> {
    var o := Opened(t, v);
    if v.size == o.pos then [] else Returned(o, v)
  }

  lemma ReadAfter(t: Option<Tail>, v: View, o: Tail, data: Bytes, rest: Bytes, lines: seq<Bytes>)
    requires o == Opened(t, v) && v.size != o.pos && data == Piece(o, v)
    requires var r := Unfinished(o.rest + data); rest == if |r| > MAX_REST then [] else r
    requires var l := Lines(o.rest + data); lines == if o.skipFirst && l != [] then l[1..] else l
    ensures AfterRead(t, v) == Tail(o.ino, o.pos + |data|, rest, false)
    ensures ReadLines(t, v) == lines
  {
  }

  class TailReader {
    var tail: Option<Tail>

    constructor ()
      ensures tail == None
    {
      tail := None;
    }

    method Read(v: View) returns (lines: seq<Bytes>)
      modifies this
      ensures tail == Some(AfterRead(old(tail), v))
      ensures lines == ReadLines(old(tail), v)
    {
      var t;
      if tail.None? {
        var pos := if v.size > BACKFILL then v.size - BACKFILL else 0;
        t := Tail(v.ino, pos, [], pos > 0);
      } else {
        t := tail.value;
        if t.ino != v.ino || v.size < t.pos {
          t := Tail(v.ino, 0, [], false);
        }
      }
      tail := Some(t);
      if v.size == t.pos {
        return [];
      }
      var data := Piece(t, v);
      var buf := t.rest + data;
      lines := Lines(buf);
      var rest := Unfinished(buf);
      if |rest| > MAX_REST {
        rest := [];
      }
      if t.skipFirst && lines != [] {
        lines := lines[1..];
      }
      tail := Some(Tail(t.ino, t.pos + |data|, rest, false));
      ReadAfter(old(tail), v, t, data, rest, lines);
    }

    /** The file could not be read: next time it is met as a new one. */
    method Forget()
      modifies this
      ensures tail == None
    {
      tail := None;
    }
  }

  // ---- runs ----

  function TailAfter(t: Tail, views: seq<View>): Tail {
    if views == [] then t
    else
      var n := |views| - 1;
      AfterRead(Some(TailAfter(t, views[..n])), views[n])
  }

  /** What was returned before, followed by the lines that these calls return. */
  function LinesOver(out: seq<Bytes>, t: Tail, views: seq<View>): seq<Bytes> {
    if views == [] then out
    else
      var n := |views| - 1;
      LinesOver(out, t, views[..n]) + ReadLines(Some(TailAfter(t, views[..n])), views[n])
  }

  /** The same file later: everything read of it before is still there. */
  ghost predicate Grows(v: View, w: View) {
    v.ino == w.ino && v.content <= w.content && |v.content| <= w.size <= |w.content|
  }

  function Latest(v: View, views: seq<View>): View {
    if views == [] then v else views[|views| - 1]
  }

  /** One file that only grows, looked at again and again after `v`. */
  ghost predicate AppendOnly(v: View, views: seq<View>) {
    views != [] ==>
      var n := |views| - 1;
      AppendOnly(v, views[..n]) && Grows(Latest(v, views[..n]), views[n])
  }
}
