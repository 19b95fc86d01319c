/** Negative lengths that keep the Guacamole client where it is: the loop that never ends, and the instruction that is
    returned for ever. */
module GuacamoleStuck {
  import opened Wrappers
  import opened Guacamole
  import opened GuacamoleReader
  import opened FiniteLoops

  /** How long the text of the length is that a scan from `i` reads. */
  function LengthSize(buf: string, i: int): (k: nat)
    requires i <= |buf|
    ensures Clamped(i, |buf|) + k <= |buf|
  {
    FindDot(buf[Clamped(i, |buf|)..])
  }

  /** A scan from `i` reads the length `n`. */
  predicate ReadsLength(toInt: ToInt, buf: string, i: int, n: int)
    requires i <= |buf|
  {
    var p, k := Clamped(i, |buf|), LengthSize(buf, i);
    p + k < |buf| && toInt(buf[p..p + k]) == Some(n)
  }

  /** The length sends the scan back to just where its text begins, or once around the whole buffer to there. */
  predicate SendsBack(buf: string, i: int, n: int)
    requires i <= |buf|
  {
    var k := LengthSize(buf, i);
    n == -(k + 2) || (Clamped(i, |buf|) > 0 && n == -(k + 2) - |buf|)
  }

  predicate Stays(toInt: ToInt, buf: string, i: int)
    requires i <= |buf|
  {
    var r := RoundAt(toInt, buf, i);
    r.Read? && Clamped(r.next, |buf|) == Clamped(i, |buf|)
  }

  lemma RoundReads(toInt: ToInt, buf: string, i: int, n: int)
    requires i <= |buf| && ReadsLength(toInt, buf, i, n)
    ensures var end, r := Clamped(i, |buf|) + LengthSize(buf, i) + 1 + n, RoundAt(toInt, buf, i);
            && (r.Read? <==> -|buf| <= end < |buf|)
            && (r.Read? ==> r.next == end + 1 && (r.last <==> buf[if end < 0 then |buf| + end else end] == ';'))
  {
  }

  /** A round stays in its place if and only if the length is `-(k + 2)` for a text of `k` characters (or less by the
      size of the buffer). */
  lemma StaysExactly(toInt: ToInt, buf: string, i: int, n: int)
    requires i <= |buf| && ReadsLength(toInt, buf, i, n)
    ensures Stays(toInt, buf, i) <==> SendsBack(buf, i, n)
  {
    RoundReads(toInt, buf, i, n);
  }

  /** The character on which it then depends whether the loop ends: the one before the length, or the last. */
  function Before(buf: string, i: int): char
    requires i <= |buf| && buf != ""
  {
    var p := Clamped(i, |buf|);
    if p > 0 then buf[p - 1] else buf[|buf| - 1]
  }

  lemma LastExactly(toInt: ToInt, buf: string, i: int, n: int)
    requires i <= |buf| && ReadsLength(toInt, buf, i, n) && SendsBack(buf, i, n)
    ensures var r := RoundAt(toInt, buf, i); r.Read? && (r.last <==> Before(buf, i) == ';')
  {
    RoundReads(toInt, buf, i, n);
    StaysExactly(toInt, buf, i, n);
  }

  /** Such a length either stops the client for ever, or, behind a semicolon, makes every call return one and the same
      instruction without getting any further. */
  lemma StuckExactly(toInt: ToInt, buf: string, i: int, n: int, rounds: nat)
    requires i <= |buf| && ReadsLength(toInt, buf, i, n) && SendsBack(buf, i, n)
    ensures Before(buf, i) != ';' ==> Loop(toInt, buf, i, rounds).Running?
    ensures Before(buf, i) == ';' && rounds > 0 ==>
              var r := Loop(toInt, buf, i, rounds);
              r.Got? && |r.parts| == 1 && Clamped(r.pos, |buf|) == Clamped(i, |buf|)
  {
    StaysExactly(toInt, buf, i, n);
    LastExactly(toInt, buf, i, n);
    var move, p := Moves(toInt, buf), Clamped(i, |buf|);
    if Before(buf, i) != ';' {
      MoveAt(toInt, buf, i);
      RunningExactly(toInt, buf, i, rounds);
      OneMove(move, p);
      CycleGoesOn(move, p, 1, rounds);
    }
  }

  lemma OneMove(move: Move, p: nat)
    requires move(p) == Some(p)
    ensures PlaceAfter(move, p, 1) == Some(p)
  {
    assert PlaceAfter(move, p, 0) == Some(p);
  }

  lemma FourBack(before: string, more: string)
    ensures var buf, i := before + ";-4." + more, |before| + 1;
            LengthSize(buf, i) == 2 && buf[i..i + 2] == "-4" && buf[i - 1] == ';' && i + 2 < |buf|
  {
    var buf, i := before + ";-4." + more, |before| + 1;
    assert buf[i..] == "-4" + "." + more;
    FindDotIn("-4", more);
  }

  /** After any complete instruction the text `-4.` makes every call return `[""]` and stay where it is, whatever else
      arrives. */
  lemma SameForEver(toInt: ToInt, before: string, more: string, rounds: nat)
    requires toInt("-4") == Some(-4) && rounds > 0
    ensures var buf, i := before + ";-4." + more, |before| + 1;
            i <= |buf| && Loop(toInt, buf, i, rounds) == Got([""], i)
  {
    var buf, i := before + ";-4." + more, |before| + 1;
    FourBack(before, more);
    RoundReads(toInt, buf, i, -4);
    assert RoundAt(toInt, buf, i) == Read("", true, i);
  }
}
