/** The loops of the Guacamole client (scripts/guacd/guacli.py) as Python runs them: positions may be negative,
    slices are clipped, and a negative length takes the scan backwards, possibly for ever. */
module GuacamoleReader {
  import opened Wrappers
  import opened Guacamole
  import opened FiniteLoops

  // ---- one round of the scan ----

  datatype Round = NoMore | Failed | Read(text: string, last: bool, next: int)

  /** Where a search or a slice from `i` begins in a text of length `n`. */
  function Clamped(i: int, n: nat): nat {
    if i >= 0 then i else if n + i > 0 then n + i else 0
  }

  /** `s[a:b]` for a `b` that is not before the beginning when counted from the end. */
  function SliceTo(s: string, a: nat, b: int): string
    requires a <= |s| && -|s| <= b <= |s|
  {
    var to := if b < 0 then |s| + b else b;
    if to <= a then "" else s[a..to]
  }

  function RoundAt(toInt: ToInt, buf: string, i: int): (r: Round)
    requires i <= |buf|
    ensures r.Read? ==> r.next <= |buf|
  {
    var p := Clamped(i, |buf|);
    var dot := p + FindDot(buf[p..]);
    if dot == |buf| then NoMore
    else
      match toInt(buf[p..dot])
      case None => Failed
      case Some(n) => ValueBehind(buf, dot, dot + 1 + n)
  }

  /** The value behind the dot, up to `end`, where its terminator stands. */
  function ValueBehind(buf: string, dot: nat, end: int): (r: Round)
    requires dot < |buf|
    ensures r.Read? ==> r.next <= |buf|
  {
    if end >= |buf| then NoMore
    else if end < -|buf| then Failed
    else Read(SliceTo(buf, dot + 1, end), buf[if end < 0 then |buf| + end else end] == ';', end + 1)
  }

  // ---- the loop ----

  /** `pos` is where the caller goes on after an instruction. */
  datatype Outcome = Running | Waiting | Error | Got(parts: seq<string>, pos: int)

  /** What `rounds` rounds from `i` come to. */
  function Loop(toInt: ToInt, buf: string, i: int, rounds: nat): (r: Outcome)
    requires i <= |buf|
    ensures r.Got? ==> r.pos <= |buf|
    decreases rounds
  {
    if rounds == 0 then Running
    else
      match RoundAt(toInt, buf, i)
      case NoMore => Waiting
      case Failed => Error
      case Read(text, last, next) =>
        if last then Got([text], next) else Prefixed([text], Loop(toInt, buf, next, rounds - 1))
  }

  function Prefixed(parts: seq<string>, r: Outcome): Outcome {
    if r.Got? then Got(parts + r.parts, r.pos) else r
  }

  lemma PrefixedTwice(a: seq<string>, b: seq<string>, r: Outcome)
    ensures Prefixed(a, Prefixed(b, r)) == Prefixed(a + b, r)
  {
    if r.Got? {
      assert a + (b + r.parts) == (a + b) + r.parts;
    }
  }

  lemma PrefixedNothing(r: Outcome)
    ensures Prefixed([], r) == r
  {
    if r.Got? {
      assert [] + r.parts == r.parts;
    }
  }

  /** The source's loop, stopped after `rounds` rounds if it has not ended by then. */
  method Scan(toInt: ToInt, buf: string, start: int, rounds: nat) returns (r: Outcome)
    requires start <= |buf|
    ensures r == Loop(toInt, buf, start, rounds)
  {
    var i, left, out: seq<string> := start, rounds, [];
    PrefixedNothing(Loop(toInt, buf, start, rounds));
    while left > 0
      invariant i <= |buf|
      invariant Loop(toInt, buf, start, rounds) == Prefixed(out, Loop(toInt, buf, i, left))
      decreases left
    {
      var h := NextValue(toInt, buf, i);
      if h.NoMore? {
        return Waiting;
      }
      if h.Failed? {
        return Error;
      }
      var more, fewer := out + [h.text], left - 1;
      if h.last {
        return Got(more, h.next);
      }
      ScanStep(toInt, buf, i, h, left, fewer, out, more);
      out, i, left := more, h.next, fewer;
    }
    return Running;
  }

  lemma ScanStep(toInt: ToInt, buf: string, i: int, h: Round, left: nat, fewer: nat, out: seq<string>, more: seq<string>)
    requires i <= |buf| && h == RoundAt(toInt, buf, i) && h.Read? && !h.last
    requires left == fewer + 1 && more == out + [h.text]
    ensures Prefixed(out, Loop(toInt, buf, i, left)) == Prefixed(more, Loop(toInt, buf, h.next, fewer))
  {
    PrefixedTwice(out, [h.text], Loop(toInt, buf, h.next, fewer));
  }

  method NextValue(toInt: ToInt, buf: string, i: int) returns (h: Round)
    requires i <= |buf|
    ensures h == RoundAt(toInt, buf, i)
  {
    var p := Clamped(i, |buf|);
    var dot := p + FindDot(buf[p..]);
    if dot == |buf| {
      return NoMore;
    }
    var n := toInt(buf[p..dot]);
    if n.None? {
      return Failed;
    }
    return ValueBehind(buf, dot, dot + 1 + n.value);
  }

  // ---- lengths that are not negative ----

  lemma ForwardRound(toInt: ToInt, buf: string, i: nat)
    requires i <= |buf| && !HeadOf(toInt, buf[i..]).Negative?
    ensures RoundAt(toInt, buf, i) == RoundOf(HeadOf(toInt, buf[i..]), i)
  {
    ForwardFrom(toInt, buf, i, buf[i..]);
  }

  lemma ForwardFrom(toInt: ToInt, buf: string, i: nat, s: string)
    requires i <= |buf| && s == buf[i..] && !HeadOf(toInt, s).Negative?
    ensures RoundAt(toInt, buf, i) == RoundOf(HeadOf(toInt, s), i)
  {
    var d := FindDot(s);
    if d < |s| {
      var n := toInt(s[..d]);
      assert s[..d] == buf[i..i + d];
      var h, r := HeadOf(toInt, s), RoundAt(toInt, buf, i);
      assert h == HeadRead(s, d, n);
      RoundRead(toInt, buf, i, i + d, n);
      SameRead(buf, i, s, d, i + d, n, h, r);
    }
  }

  function HeadRead(s: string, d: nat, n: Option<int>): Head
    requires d < |s|
  {
    if n.None? then BadLength
    else if n.value < 0 then Negative
    else if d + 1 + n.value >= |s| then Partial
    else Value(s[d + 1..d + 1 + n.value], s[d + 1 + n.value] == ';', d + 2 + n.value)
  }

  function RoundFrom(buf: string, dot: nat, n: Option<int>): Round
    requires dot < |buf| && (n.Some? ==> n.value >= 0)
  {
    if n.None? then Failed
    else if dot + 1 + n.value >= |buf| then NoMore
    else Read(SliceTo(buf, dot + 1, dot + 1 + n.value), buf[dot + 1 + n.value] == ';', dot + n.value + 2)
  }

  lemma RoundRead(toInt: ToInt, buf: string, i: nat, dot: nat, n: Option<int>)
    requires i <= |buf| && dot == i + FindDot(buf[i..]) < |buf| && n == toInt(buf[i..dot]) && (n.Some? ==> n.value >= 0)
    ensures RoundAt(toInt, buf, i) == RoundFrom(buf, dot, n)
  {
  }

  lemma SameRead(buf: string, i: nat, s: string, d: nat, dot: nat, n: Option<int>, h: Head, r: Round)
    requires i <= |buf| && s == buf[i..] && d < |s| && dot == i + d && (n.Some? ==> n.value >= 0)
    requires h == HeadRead(s, d, n) && r == RoundFrom(buf, dot, n)
    ensures r == RoundOf(h, i)
  {
    if n.Some? {
      ForwardValue(buf, i, s, d, dot, n.value);
    }
  }

  lemma ForwardValue(buf: string, i: nat, s: string, d: nat, dot: nat, n: nat)
    requires i <= |buf| && s == buf[i..] && d < |s| && dot == i + d
    ensures dot + 1 + n >= |buf| <==> d + 1 + n >= |s|
    ensures dot + 1 + n < |buf| ==> SliceTo(buf, dot + 1, dot + 1 + n) == s[d + 1..d + 1 + n]
    ensures dot + 1 + n < |buf| ==> buf[dot + 1 + n] == s[d + 1 + n]
  {
  }

  function RoundOf(h: Head, i: nat): Round
    requires !h.Negative?
  {
    match h
    case Partial => NoMore
    case BadLength => Failed
    case Value(text, last, used) => Read(text, last, i + used)
  }

  function Located(r: Parsed, i: nat): Outcome
    requires !r.Backwards?
  {
    match r
    case Incomplete => Waiting
    case Raised => Error
    case Instr(parts, used) => Got(parts, i + used)
  }

  /** Unless a negative length is met, the loop ends within as many rounds as there are characters and one more,
      with what the format says. */
  lemma {:induction false} ForwardLoop(toInt: ToInt, buf: string, i: nat, rounds: nat)
    requires i <= |buf| && rounds > |buf| - i && !Parse(toInt, buf[i..]).Backwards?
    ensures Loop(toInt, buf, i, rounds) == Located(Parse(toInt, buf[i..]), i)
    decreases rounds
  {
    var h := HeadOf(toInt, buf[i..]);
    ForwardRound(toInt, buf, i);
    if h.Value? && !h.last {
      var next, fewer := i + h.used, rounds - 1;
      ParseRest(toInt, buf, i, h, next);
      ForwardLoop(toInt, buf, next, fewer);
      LoopOn(toInt, buf, i, RoundOf(h, i), next, rounds, fewer);
      LocatedRest(h.text, next - i, Parse(toInt, buf[next..]), i, next);
    } else {
      LoopEnds(toInt, buf, i, rounds);
      ParseEnds(toInt, buf[i..], h);
    }
  }

  lemma LoopOn(toInt: ToInt, buf: string, i: int, r: Round, next: int, rounds: nat, fewer: nat)
    requires i <= |buf| && rounds == fewer + 1 && r == RoundAt(toInt, buf, i) && r.Read? && !r.last && r.next == next
    ensures Loop(toInt, buf, i, rounds) == Prefixed([r.text], Loop(toInt, buf, next, fewer))
  {
  }

  lemma LoopEnds(toInt: ToInt, buf: string, i: int, rounds: nat)
    requires i <= |buf| && rounds > 0
    requires var r := RoundAt(toInt, buf, i); r.Read? ==> r.last
    ensures Loop(toInt, buf, i, rounds) ==
              match RoundAt(toInt, buf, i)
              case NoMore => Waiting
              case Failed => Error
              case Read(text, _, next) => Got([text], next)
  {
  }

  lemma ParseEnds(toInt: ToInt, s: string, h: Head)
    requires h == HeadOf(toInt, s) && (h.Value? ==> h.last)
    ensures Parse(toInt, s) ==
              match h
              case Partial => Incomplete
              case BadLength => Raised
              case Negative => Backwards
              case Value(text, _, used) => Instr([text], used)
  {
  }

  lemma LocatedRest(text: string, used: nat, r: Parsed, i: nat, next: nat)
    requires next == i + used && !r.Backwards?
    ensures Located(Behind([text], used, r), i) == Prefixed([text], Located(r, next))
  {
  }

  lemma ParseRest(toInt: ToInt, buf: string, i: nat, h: Head, next: nat)
    requires i <= |buf| && h == HeadOf(toInt, buf[i..]) && h.Value? && !h.last && next == i + h.used
    ensures next <= |buf|
    ensures Parse(toInt, buf[i..]) == Behind([h.text], next - i, Parse(toInt, buf[next..]))
  {
    Suffix(buf, i, next);
  }

  // ---- when the loop ends ----

  /** Where a round that does not end the loop goes on: a scan depends on its place in the buffer alone. */
  function Moves(toInt: ToInt, buf: string): Move {
    p => if p > |buf| then None
         else
           match RoundAt(toInt, buf, p)
           case Read(_, last, next) => if last then None else Some(Clamped(next, |buf|))
           case _ => None
  }

  lemma SamePlace(toInt: ToInt, buf: string, i: int)
    requires i <= |buf|
    ensures Clamped(i, |buf|) <= |buf| && RoundAt(toInt, buf, i) == RoundAt(toInt, buf, Clamped(i, |buf|))
  {
  }

  lemma MoveAt(toInt: ToInt, buf: string, i: int)
    requires i <= |buf|
    ensures var r := RoundAt(toInt, buf, i);
            Moves(toInt, buf)(Clamped(i, |buf|)) == if r.Read? && !r.last then Some(Clamped(r.next, |buf|)) else None
  {
    SamePlace(toInt, buf, i);
  }

  predicate GoesOn(r: Round) {
    r.Read? && !r.last
  }

  lemma PlaceMoves(toInt: ToInt, buf: string, i: int, next: int, k: nat, fewer: nat)
    requires i <= |buf| && k == fewer + 1 && GoesOn(RoundAt(toInt, buf, i)) && next == RoundAt(toInt, buf, i).next
    ensures PlaceAfter(Moves(toInt, buf), Clamped(i, |buf|), k)
            == PlaceAfter(Moves(toInt, buf), Clamped(next, |buf|), fewer)
  {
    MoveAt(toInt, buf, i);
    PlaceNext(Moves(toInt, buf), Clamped(i, |buf|), k, fewer);
  }

  lemma NoPlaceAfter(toInt: ToInt, buf: string, i: int, k: nat)
    requires i <= |buf| && k > 0 && !GoesOn(RoundAt(toInt, buf, i))
    ensures PlaceAfter(Moves(toInt, buf), Clamped(i, |buf|), k).None?
  {
    MoveAt(toInt, buf, i);
    PlaceNext(Moves(toInt, buf), Clamped(i, |buf|), k, k - 1);
  }

  lemma {:induction false} RunningExactly(toInt: ToInt, buf: string, i: int, k: nat)
    requires i <= |buf|
    ensures Loop(toInt, buf, i, k).Running? <==> PlaceAfter(Moves(toInt, buf), Clamped(i, |buf|), k).Some?
    decreases k
  {
    if k > 0 {
      if GoesOn(RoundAt(toInt, buf, i)) {
        var next, fewer := RoundAt(toInt, buf, i).next, k - 1;
        RunningExactly(toInt, buf, next, fewer);
        LoopOn(toInt, buf, i, RoundAt(toInt, buf, i), next, k, fewer);
        PlaceMoves(toInt, buf, i, next, k, fewer);
      } else {
        LoopEnds(toInt, buf, i, k);
        NoPlaceAfter(toInt, buf, i, k);
      }
    }
  }

  ghost predicate Ends(toInt: ToInt, buf: string, i: int)
    requires i <= |buf|
  {
    exists rounds :: !Loop(toInt, buf, i, rounds).Running?
  }

  lemma MovesStay(toInt: ToInt, buf: string)
    ensures StaysWithin(Moves(toInt, buf), |buf|)
  {
  }

  /** Whatever the lengths say: the loop ends if and only if it ends within as many rounds as the buffer has
      characters and one more. */
  lemma EndsExactly(toInt: ToInt, buf: string, i: int)
    requires i <= |buf|
    ensures Ends(toInt, buf, i) <==> !Loop(toInt, buf, i, |buf| + 1).Running?
  {
    if Loop(toInt, buf, i, |buf| + 1).Running? {
      RunningExactly(toInt, buf, i, |buf| + 1);
      SamePlace(toInt, buf, i);
      MovesStay(toInt, buf);
      forall rounds: nat ensures Loop(toInt, buf, i, rounds).Running? {
        RunningExactly(toInt, buf, i, rounds);
        LongRunsNeverEnd(Moves(toInt, buf), Clamped(i, |buf|), |buf|, rounds);
      }
    }
  }

  /** On the text `-4.` it never does. */
  lemma LoopsForEver(toInt: ToInt)
    requires toInt("-4") == Some(-4)
    ensures !Ends(toInt, "-4.", 0)
  {
    FirstRound(toInt);
    forall rounds: nat ensures Loop(toInt, "-4.", 0, rounds).Running? {
      Again(toInt, rounds);
    }
  }

  lemma FirstRound(toInt: ToInt)
    requires toInt("-4") == Some(-4)
    ensures RoundAt(toInt, "-4.", 0) == Read("", false, 0)
  {
    var buf := "-4.";
    assert buf[0..] == buf && buf[1..] == "4." && buf[1..][1..] == ".";
    assert FindDot(buf[1..][1..]) == 0 && FindDot(buf[1..]) == 1 && FindDot(buf) == 2;
    assert buf[0..2] == "-4";
  }

  lemma {:induction false} Again(toInt: ToInt, rounds: nat)
    requires RoundAt(toInt, "-4.", 0) == Read("", false, 0)
    ensures Loop(toInt, "-4.", 0, rounds).Running?
  {
    if rounds > 0 {
      Again(toInt, rounds - 1);
    }
  }

  // ---- the reader ----

  class Reader {
    const toInt: ToInt
    var buf: string
    var pos: int

    constructor (toInt: ToInt)
      ensures this.toInt == toInt && buf == "" && pos == 0 && Valid()
    {
      this.toInt := toInt;
      buf, pos := "", 0;
    }

    /** The position is never beyond the buffer; a negative length can make it negative. */
    ghost predicate Valid()
      reads this
    {
      pos <= |buf|
    }

    /** What has not been consumed: the text from which the next scan starts. */
    ghost function Pending(): string
      reads this
      requires Valid()
    {
      buf[Clamped(pos, |buf|)..]
    }

    /** At most `rounds` rounds of the scan. */
    method TryParse(rounds: nat) returns (r: Outcome)
      requires Valid()
      modifies this`pos
      ensures Valid() && r == Loop(toInt, buf, old(pos), rounds)
      ensures pos == if r.Got? then r.pos else old(pos)
      ensures old(pos) >= 0 && rounds > |buf| && !Parse(toInt, old(Pending())).Backwards? ==>
                var p := Parse(toInt, old(Pending()));
                && pos >= 0 && r == Located(p, old(pos))
                && Pending() == if p.Instr? then old(Pending())[p.used..] else old(Pending())
    {
      r := Scan(toInt, buf, pos, rounds);
      if pos >= 0 && rounds > |buf| && !Parse(toInt, buf[pos..]).Backwards? {
        ForwardLoop(toInt, buf, pos, rounds);
        if r.Got? {
          Suffix(buf, pos, r.pos);
        }
      }
      if r.Got? {
        pos := r.pos;
      }
    }

    /** Reading more text; a large consumed part is thrown away first.  The text goes behind what is pending, but
        a negative position is counted from the end of the buffer, so that it moves along with the end. */
    method Feed(text: string)
      requires Valid()
      modifies this
      ensures Valid()
      ensures old(pos) >= 0 ==> pos >= 0 && Pending() == old(Pending()) + text
      ensures old(pos) < 0 ==> pos == old(pos) && buf == old(buf) + text
      ensures old(pos) < 0 && |old(buf)| + old(pos) >= 0 ==> Pending() == (old(Pending()) + text)[|text|..]
    {
      if pos > 0x10_0000 {
        buf, pos := buf[pos..], 0;
      }
      buf := buf + text;
      assert old(pos) < 0 && |old(buf)| + old(pos) >= 0 ==> Clamped(pos, |buf|) == Clamped(pos, |old(buf)|) + |text|;
    }
  }

  // ---- reading a stream ----

  function Concat(chunks: seq<string>): string {
    if chunks == [] then "" else chunks[0] + Concat(chunks[1..])
  }

  /** Instructions are taken off as long as there are any, then the next chunk is read. */
  function Session(toInt: ToInt, pending: string, chunks: seq<string>): Drained
    decreases |chunks|
  {
    var d := Drain(toInt, pending);
    if chunks == [] || !d.stop.Incomplete? then d else After(d.instrs, Session(toInt, d.rest + chunks[0], chunks[1..]))
  }

  lemma {:induction false} DrainAppend(toInt: ToInt, a: string, b: string)
    ensures var d := Drain(toInt, a);
            Drain(toInt, a + b)
            == if d.stop.Incomplete? then After(d.instrs, Drain(toInt, d.rest + b)) else d.(rest := d.rest + b)
    decreases |a|
  {
    var r := Parse(toInt, a);
    if r.Instr? {
      ParseStable(toInt, a, b);
      assert (a + b)[r.used..] == a[r.used..] + b;
      DrainAppend(toInt, a[r.used..], b);
      var d := Drain(toInt, a[r.used..]);
      AfterTwice([r.parts], d.instrs, Drain(toInt, d.rest + b));
    } else if !r.Incomplete? {
      ParseStable(toInt, a, b);
    } else {
      AfterNothing(Drain(toInt, a + b));
    }
  }

  lemma AfterTwice(a: seq<seq<string>>, b: seq<seq<string>>, d: Drained)
    ensures After(a, After(b, d)) == After(a + b, d)
  {
    assert a + (b + d.instrs) == (a + b) + d.instrs;
  }

  lemma AfterNothing(d: Drained)
    ensures After([], d) == d
  {
    assert [] + d.instrs == d.instrs;
  }

  /** The instructions read, and the reason why reading stops, do not depend on how the text arrives; nor does
      what is left, unless reading stops at a faulty length before all text has arrived. */
  lemma {:induction false} ChunkingIrrelevant(toInt: ToInt, pending: string, chunks: seq<string>)
    ensures var s, d := Session(toInt, pending, chunks), Drain(toInt, pending + Concat(chunks));
            s.instrs == d.instrs && s.stop == d.stop && (d.stop.Incomplete? ==> s.rest == d.rest)
    decreases |chunks|
  {
    if chunks == [] {
      assert pending + Concat(chunks) == pending;
    } else {
      var d, more := Drain(toInt, pending), Concat(chunks[1..]);
      DrainAppend(toInt, pending, Concat(chunks));
      if d.stop.Incomplete? {
        assert d.rest + Concat(chunks) == (d.rest + chunks[0]) + more;
        ChunkingIrrelevant(toInt, d.rest + chunks[0], chunks[1..]);
      }
    }
  }

  /** Instructions sent one after the other, and the beginning of one more, are read as just that however the
      network cuts them up. */
  lemma StreamIsRead(toInt: ToInt, instrs: seq<seq<string>>, next: seq<string>, begun: string, chunks: seq<string>)
    requires ReadsDecimals(toInt) && NoneEmpty(instrs) && next != [] && begun < Encode(next)
    requires Concat(chunks) == Wire(instrs) + begun
    ensures Session(toInt, "", chunks) == Drained(instrs, begun, Incomplete)
  {
    DrainWire(toInt, instrs, next, begun);
    assert "" + Concat(chunks) == Wire(instrs) + begun;
    ChunkingIrrelevant(toInt, "", chunks);
  }
}
