/** What the Guacamole client makes of any text: stated on the characters, without the functions that read them. */
module GuacamoleText {
  import opened Wrappers
  import opened Guacamole
  import opened GuacamoleReader

  // ---- lengths as they are written ----

  ghost predicate Digits(s: string) {
    forall i :: 0 <= i < |s| ==> '0' <= s[i] <= '9'
  }

  /** The number that decimal digits denote. */
  function NumberOf(s: string): nat
    requires Digits(s)
  {
    if s == "" then 0 else 10 * NumberOf(s[..|s| - 1]) + (s[|s| - 1] - '0') as nat
  }

  lemma {:induction false} DecimalExactly(n: nat)
    ensures Decimal(n) != "" && Digits(Decimal(n)) && NumberOf(Decimal(n)) == n
    ensures n > 0 ==> Decimal(n)[0] != '0'
  {
    if n >= 10 {
      DecimalExactly(n / 10);
      DigitLast(Decimal(n / 10), n % 10);
    } else {
      DigitLast("", n);
      assert "" + [Digit(n)] == Decimal(n);
    }
  }

  lemma DigitLast(s: string, d: nat)
    requires Digits(s) && d < 10
    ensures Digits(s + [Digit(d)]) && NumberOf(s + [Digit(d)]) == 10 * NumberOf(s) + d
  {
    assert (s + [Digit(d)])[..|s|] == s;
  }

  // ---- one value ----

  /** The first dot. */
  ghost predicate DotAt(s: string, k: nat) {
    k < |s| && s[k] == '.' && '.' !in s[..k]
  }

  lemma FindDotExactly(s: string, k: nat)
    ensures DotAt(s, k) <==> FindDot(s) == k < |s|
    ensures FindDot(s) == |s| <==> '.' !in s
  {
    var d := FindDot(s);
    if d < |s| {
      assert s[d] in s;
    }
    if DotAt(s, k) && d < k {
      BeforeDot(s, k, d);
    }
  }

  lemma BeforeDot(s: string, k: nat, d: nat)
    requires DotAt(s, k) && d < k
    ensures s[d] != '.'
  {
    assert s[..k][d] == s[d];
  }

  /** The text begins with a length, a dot, that many characters and one more. */
  ghost predicate ValueAt(toInt: ToInt, s: string, k: nat, text: string, last: bool, used: nat) {
    && DotAt(s, k) && toInt(s[..k]) == Some(|text|)
    && used == k + |text| + 2 <= |s| && s[k + 1..used - 1] == text && (last <==> s[used - 1] == ';')
  }

  lemma ValueExactly(toInt: ToInt, s: string, text: string, last: bool, used: nat)
    ensures HeadOf(toInt, s) == Value(text, last, used) <==> exists k: nat :: ValueAt(toInt, s, k, text, last, used)
  {
    if HeadOf(toInt, s) == Value(text, last, used) {
      FindDotExactly(s, FindDot(s));
      assert ValueAt(toInt, s, FindDot(s), text, last, used);
    }
    if k: nat :| ValueAt(toInt, s, k, text, last, used) {
      FindDotExactly(s, k);
    }
  }

  /** Why there is no value: the length cannot be read, it is negative, or the text is not all there. */
  lemma NoValueExactly(toInt: ToInt, s: string)
    ensures HeadOf(toInt, s) == BadLength <==> exists k: nat :: DotAt(s, k) && toInt(s[..k]) == None
    ensures HeadOf(toInt, s) == Negative
            <==> exists k: nat :: DotAt(s, k) && toInt(s[..k]).Some? && toInt(s[..k]).value < 0
    ensures HeadOf(toInt, s) == Partial
            <==> '.' !in s || exists k: nat :: DotAt(s, k) && toInt(s[..k]).Some? && 0 <= toInt(s[..k]).value
                                               && |s| <= k + 1 + toInt(s[..k]).value
  {
    var d := FindDot(s);
    FindDotExactly(s, d);
    forall k: nat | DotAt(s, k) ensures k == d {
      FindDotExactly(s, k);
    }
    if d < |s| {
      assert DotAt(s, d) && s[d] in s;
    }
  }

  // ---- a whole instruction ----

  /** Value after value up to one that a semicolon follows. */
  ghost predicate Instruction(toInt: ToInt, s: string, parts: seq<string>, used: nat)
    decreases |parts|, 1
  {
    parts != [] && exists k: nat, u: nat :: FromValue(toInt, s, parts, used, k, u)
  }

  ghost predicate FromValue(toInt: ToInt, s: string, parts: seq<string>, used: nat, k: nat, u: nat)
    requires parts != []
    decreases |parts|, 0
  {
    && u <= used && u <= |s| && ValueAt(toInt, s, k, parts[0], |parts| == 1, u)
    && if |parts| == 1 then used == u else Instruction(toInt, s[u..], parts[1..], used - u)
  }

  lemma {:induction false} ParsedIsInstruction(toInt: ToInt, s: string)
    requires Parse(toInt, s).Instr?
    ensures Instruction(toInt, s, Parse(toInt, s).parts, Parse(toInt, s).used)
    decreases |s|
  {
    var h, k := HeadValue(toInt, s);
    if h.last {
      LastPart(toInt, s, k, h.text, h.used);
    } else {
      var rest := s[h.used..];
      ParsedIsInstruction(toInt, rest);
      MorePart(toInt, s, k, h.used, h.text, Parse(toInt, rest).parts, Parse(toInt, rest).used);
    }
  }

  lemma HeadValue(toInt: ToInt, s: string) returns (h: Head, k: nat)
    requires Parse(toInt, s).Instr?
    ensures h == HeadOf(toInt, s) && h.Value? && ValueAt(toInt, s, k, h.text, h.last, h.used)
  {
    h := HeadOf(toInt, s);
    ValueExactly(toInt, s, h.text, h.last, h.used);
    k :| ValueAt(toInt, s, k, h.text, h.last, h.used);
  }

  lemma {:induction false} InstructionIsParsed(toInt: ToInt, s: string, parts: seq<string>, used: nat)
    requires Instruction(toInt, s, parts, used)
    ensures Parse(toInt, s) == Instr(parts, used)
    decreases |parts|
  {
    var k: nat, u: nat :| FromValue(toInt, s, parts, used, k, u);
    ValueExactly(toInt, s, parts[0], |parts| == 1, u);
    if |parts| > 1 {
      InstructionIsParsed(toInt, s[u..], parts[1..], used - u);
    }
    PartsBack(toInt, s, parts, u, used);
  }

  /** An instruction is read exactly when the text begins with one. */
  lemma ParseExactly(toInt: ToInt, s: string, parts: seq<string>, used: nat)
    ensures Parse(toInt, s) == Instr(parts, used) <==> Instruction(toInt, s, parts, used)
  {
    if Parse(toInt, s) == Instr(parts, used) {
      ParsedIsInstruction(toInt, s);
    }
    if Instruction(toInt, s, parts, used) {
      InstructionIsParsed(toInt, s, parts, used);
    }
  }

  lemma PartsBack(toInt: ToInt, s: string, parts: seq<string>, u: nat, used: nat)
    requires parts != [] && HeadOf(toInt, s) == Value(parts[0], |parts| == 1, u) && u <= used
    requires if |parts| == 1 then used == u else Parse(toInt, s[u..]) == Instr(parts[1..], used - u)
    ensures Parse(toInt, s) == Instr(parts, used)
  {
    assert [parts[0]] + parts[1..] == parts;
  }

  lemma LastPart(toInt: ToInt, s: string, k: nat, text: string, used: nat)
    requires ValueAt(toInt, s, k, text, true, used)
    ensures Instruction(toInt, s, [text], used)
  {
    assert FromValue(toInt, s, [text], used, k, used);
  }

  lemma MorePart(toInt: ToInt, s: string, k: nat, u: nat, text: string, more: seq<string>, rest: nat)
    requires u <= |s| && ValueAt(toInt, s, k, text, false, u) && Instruction(toInt, s[u..], more, rest)
    ensures Instruction(toInt, s, [text] + more, u + rest)
  {
    assert ([text] + more)[1..] == more;
    assert FromValue(toInt, s, [text] + more, u + rest, k, u);
  }

  // ---- one round of the loop, from any position ----

  /** The dot that Python's `find` finds from position `i` on. */
  ghost predicate DotFrom(buf: string, i: int, dot: nat)
    requires i <= |buf|
  {
    var p := if i >= 0 then i else if i >= -|buf| then |buf| + i else 0;
    p <= dot < |buf| && buf[dot] == '.' && '.' !in buf[p..dot]
  }

  lemma DotFromExactly(buf: string, i: int, dot: nat)
    requires i <= |buf|
    ensures DotFrom(buf, i, dot) <==> FindDot(buf[Clamped(i, |buf|)..]) == dot - Clamped(i, |buf|) && dot < |buf|
  {
    var p := Clamped(i, |buf|);
    if p <= dot < |buf| {
      FindDotExactly(buf[p..], dot - p);
      assert buf[p..][..dot - p] == buf[p..dot];
    }
  }

  /** The round fails when the length cannot be read or leads before the beginning of the buffer even when counted from
      its end; it waits when there is no dot or the terminator is not there yet; otherwise the value is what stands
      between dot and terminator, and the scan goes on behind the terminator. */
  lemma RoundExactly(toInt: ToInt, buf: string, i: int, dot: nat)
    requires i <= |buf| && DotFrom(buf, i, dot)
    ensures var length, r := toInt(buf[Clamped(i, |buf|)..dot]), RoundAt(toInt, buf, i);
            && (length == None ==> r == Failed)
            && (length.Some? ==>
                  var end := dot + 1 + length.value;
                  && (r == NoMore <==> end >= |buf|)
                  && (r == Failed <==> end < -|buf|)
                  && (r.Read? ==>
                        var stop := if end < 0 then |buf| + end else end;
                        && r.next == end + 1 && (r.last <==> buf[stop] == ';')
                        && |r.text| == (if stop > dot + 1 then stop - (dot + 1) else 0)
                        && forall j :: 0 <= j < |r.text| ==> r.text[j] == buf[dot + 1 + j]))
  {
    RoundIs(toInt, buf, i, dot);
    var length := toInt(buf[Clamped(i, |buf|)..dot]);
    if length.Some? {
      BehindExactly(buf, dot, dot + 1 + length.value);
    }
  }

  lemma RoundIs(toInt: ToInt, buf: string, i: int, dot: nat)
    requires i <= |buf| && DotFrom(buf, i, dot)
    ensures var length := toInt(buf[Clamped(i, |buf|)..dot]);
            RoundAt(toInt, buf, i) == if length == None then Failed else ValueBehind(buf, dot, dot + 1 + length.value)
  {
    DotFromExactly(buf, i, dot);
  }

  lemma BehindExactly(buf: string, dot: nat, end: int)
    requires dot < |buf|
    ensures var r := ValueBehind(buf, dot, end);
            && (r == NoMore <==> end >= |buf|)
            && (r == Failed <==> end < -|buf|)
            && (r.Read? ==>
                  var stop := if end < 0 then |buf| + end else end;
                  && r.next == end + 1 && (r.last <==> buf[stop] == ';')
                  && |r.text| == (if stop > dot + 1 then stop - (dot + 1) else 0)
                  && forall j :: 0 <= j < |r.text| ==> r.text[j] == buf[dot + 1 + j])
  {
    if -|buf| <= end < |buf| {
      TextBetween(buf, dot + 1, end);
    }
  }

  lemma TextBetween(buf: string, a: nat, end: int)
    requires a <= |buf| && -|buf| <= end < |buf|
    ensures var text, stop := SliceTo(buf, a, end), if end < 0 then |buf| + end else end;
            && |text| == (if stop > a then stop - a else 0)
            && forall j :: 0 <= j < |text| ==> text[j] == buf[a + j]
  {
  }

  lemma NoDotWaits(toInt: ToInt, buf: string, i: int)
    requires i <= |buf|
    ensures (forall dot :: !DotFrom(buf, i, dot)) ==> RoundAt(toInt, buf, i) == NoMore
  {
    var p := Clamped(i, |buf|);
    var dot := p + FindDot(buf[p..]);
    if dot < |buf| {
      DotFromExactly(buf, i, dot);
    }
  }
}
