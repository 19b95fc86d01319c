/** The Guacamole instruction codec (scripts/guacd/guacli.py): every value is preceded by its length in
    characters, so that values may contain any of the separators. */
module Guacamole {
  import opened Wrappers

  /** Python's `int` on text. */
  type ToInt = string -> Option<int>

  function Digit(d: nat): char
    requires d < 10
  {
    '0' + d as char
  }

  /** The decimal form that `f"{n}"` gives. */
  function Decimal(n: nat): string {
    if n < 10 then [Digit(n)] else Decimal(n / 10) + [Digit(n % 10)]
  }

  /** `int` reads back what formatting an integer gives. */
  ghost predicate ReadsDecimals(toInt: ToInt) {
    forall n: nat :: toInt(Decimal(n)) == Some(n)
  }

  function EncodeValue(p: string): string {
    Decimal(|p|) + "." + p
  }

  function EncodeRest(parts: seq<string>): string {
    if parts == [] then ";" else "," + EncodeValue(parts[0]) + EncodeRest(parts[1..])
  }

  function Encode(parts: seq<string>): string
    requires parts != []
  {
    EncodeValue(parts[0]) + EncodeRest(parts[1..])
  }

  /** `used` characters make up the instruction; `Backwards` means that a length is negative, which takes the
      scan back to text it has passed. */
  datatype Parsed = Incomplete | Raised | Backwards | Instr(parts: seq<string>, used: nat)

  function FindDot(s: string): (i: nat)
    ensures i <= |s| && (i < |s| ==> s[i] == '.')
    ensures forall k :: 0 <= k < i ==> s[k] != '.'
  {
    if s == "" || s[0] == '.' then 0 else 1 + FindDot(s[1..])
  }

  /** The value at the front of a text; `last` when a semicolon follows it, and anything else separates
      it from the next. */
  datatype Head = Partial | BadLength | Negative | Value(text: string, last: bool, used: nat)

  function HeadOf(toInt: ToInt, s: string): (h: Head)
    ensures h.Value? ==> 0 < h.used <= |s|
  {
    HeadAt(toInt, s, FindDot(s))
  }

  function HeadAt(toInt: ToInt, s: string, dot: nat): (h: Head)
    requires dot <= |s|
    ensures h.Value? ==> 0 < h.used <= |s|
  {
    if dot == |s| then Partial
    else
      match toInt(s[..dot])
      case None => BadLength
      case Some(n) =>
        var end := dot + 1 + n;
        if n < 0 then Negative
        else if end >= |s| then Partial
        else Value(s[dot + 1..end], s[end] == ';', end + 1)
  }

  /** One instruction at the front of `s`. */
  function Parse(toInt: ToInt, s: string): (r: Parsed)
    ensures r.Instr? ==> 0 < r.used <= |s| && r.parts != []
    decreases |s|
  {
    match HeadOf(toInt, s)
    case Partial => Incomplete
    case BadLength => Raised
    case Negative => Backwards
    case Value(p, last, used) =>
      if last then Instr([p], used) else Behind([p], used, Parse(toInt, s[used..]))
  }

  function Behind(parts: seq<string>, used: nat, r: Parsed): Parsed {
    match r
    case Instr(more, n) => Instr(parts + more, used + n)
    case _ => r
  }

  lemma Suffix(s: string, i: nat, k: nat)
    requires i <= k <= |s|
    ensures s[i..][k - i..] == s[k..]
  {
  }

  // ---- round trip ----

  lemma {:induction false} DecimalNoDot(n: nat)
    ensures '.' !in Decimal(n)
  {
    if n >= 10 {
      DecimalNoDot(n / 10);
    }
  }

  lemma {:induction false} FindDotIn(a: string, b: string)
    requires '.' !in a
    ensures FindDot(a + "." + b) == |a|
  {
    if a != "" {
      assert (a + "." + b)[1..] == a[1..] + "." + b;
      FindDotIn(a[1..], b);
    }
  }

  /** A value followed by some character is read whatever the value contains. */
  lemma ParseValue(toInt: ToInt, p: string, c: char, rest: string)
    requires ReadsDecimals(toInt)
    ensures Parse(toInt, EncodeValue(p) + [c] + rest) ==
      if c == ';' then Instr([p], |EncodeValue(p)| + 1)
      else Behind([p], |EncodeValue(p)| + 1, Parse(toInt, rest))
  {
    DecimalNoDot(|p|);
    ValueParts(Decimal(|p|), p, c, rest, EncodeValue(p) + [c] + rest);
    HeadParts(toInt, EncodeValue(p) + [c] + rest, |Decimal(|p|)|, |p|, |EncodeValue(p)|);
    ParseHead(toInt, EncodeValue(p) + [c] + rest, p, c == ';', |EncodeValue(p)| + 1, rest);
  }

  lemma ValueParts(d: string, p: string, c: char, rest: string, s: string)
    requires s == d + "." + p + [c] + rest && '.' !in d
    ensures FindDot(s) == |d| && s[..|d|] == d
    ensures s[|d| + 1..|d| + 1 + |p|] == p && s[|d| + 1 + |p|] == c && s[|d| + |p| + 2..] == rest
  {
    assert s == d + "." + (p + [c] + rest);
    FindDotIn(d, p + [c] + rest);
  }

  lemma HeadParts(toInt: ToInt, s: string, dot: nat, n: nat, end: nat)
    requires dot < |s| && toInt(s[..dot]) == Some(n) && end == dot + 1 + n < |s|
    ensures HeadAt(toInt, s, dot) == Value(s[dot + 1..end], s[end] == ';', end + 1)
  {
  }

  lemma ParseHead(toInt: ToInt, s: string, p: string, last: bool, used: nat, rest: string)
    requires HeadOf(toInt, s) == Value(p, last, used) && s[used..] == rest
    ensures Parse(toInt, s) == if last then Instr([p], used) else Behind([p], used, Parse(toInt, rest))
  {
  }

  lemma {:induction false} RoundTrip(toInt: ToInt, parts: seq<string>, rest: string)
    requires ReadsDecimals(toInt) && parts != []
    ensures Parse(toInt, Encode(parts) + rest) == Instr(parts, |Encode(parts)|)
    decreases |parts|
  {
    var v := EncodeValue(parts[0]);
    if |parts| == 1 {
      assert Encode(parts) + rest == v + [';'] + rest;
      ParseValue(toInt, parts[0], ';', rest);
    } else {
      RoundTrip(toInt, parts[1..], rest);
      RoundTripMore(toInt, parts, Encode(parts[1..]), rest);
    }
  }

  lemma EncodeMore(parts: seq<string>)
    requires |parts| > 1
    ensures Encode(parts) == EncodeValue(parts[0]) + [','] + Encode(parts[1..])
  {
    assert EncodeRest(parts[1..]) == [','] + Encode(parts[1..]);
  }

  lemma RoundTripMore(toInt: ToInt, parts: seq<string>, tail: string, rest: string)
    requires ReadsDecimals(toInt) && |parts| > 1 && tail == Encode(parts[1..])
    requires Parse(toInt, tail + rest) == Instr(parts[1..], |tail|)
    ensures Parse(toInt, Encode(parts) + rest) == Instr(parts, |Encode(parts)|)
  {
    var v := EncodeValue(parts[0]);
    var head, t := v + [','], tail + rest;
    assert Encode(parts) + rest == head + t && |Encode(parts)| == |v| + 1 + |tail| by {
      EncodeMore(parts);
      Regroup(head, tail, rest);
    }
    ParseValue(toInt, parts[0], ',', t);
    assert [parts[0]] + parts[1..] == parts;
  }

  lemma Regroup(a: string, b: string, c: string)
    ensures a + b + c == a + (b + c)
  {
  }

  /** A decision is not changed by more text. */
  lemma {:induction false} ParseStable(toInt: ToInt, s: string, more: string)
    requires !Parse(toInt, s).Incomplete?
    ensures Parse(toInt, s + more) == Parse(toInt, s)
    decreases |s|
  {
    HeadStable(toInt, s, more);
    var h := HeadOf(toInt, s);
    if h.Value? {
      assert (s + more)[h.used..] == s[h.used..] + more;
      if !h.last {
        ParseStable(toInt, s[h.used..], more);
      }
    }
  }

  lemma HeadStable(toInt: ToInt, s: string, more: string)
    requires !HeadOf(toInt, s).Partial?
    ensures HeadOf(toInt, s + more) == HeadOf(toInt, s)
  {
    var t, dot := s + more, FindDot(s);
    FindDotStable(s, more);
    assert t[..dot] == s[..dot];
    var n := toInt(s[..dot]);
    if n.Some? && n.value >= 0 {
      var end := dot + 1 + n.value;
      assert t[dot + 1..end] == s[dot + 1..end] && t[end] == s[end];
    }
  }

  lemma {:induction false} FindDotStable(s: string, more: string)
    requires FindDot(s) < |s|
    ensures FindDot(s + more) == FindDot(s)
  {
    if s[0] != '.' {
      assert (s + more)[1..] == s[1..] + more;
      FindDotStable(s[1..], more);
    }
  }

  /** A proper beginning of an instruction is never taken for a whole one, nor for a broken one. */
  lemma PrefixIncomplete(toInt: ToInt, parts: seq<string>, prefix: string)
    requires ReadsDecimals(toInt) && parts != []
    requires prefix < Encode(parts)
    ensures Parse(toInt, prefix).Incomplete?
  {
    var e := Encode(parts);
    RoundTrip(toInt, parts, "");
    assert e + "" == e;
    assert prefix + e[|prefix|..] == e;
    if !Parse(toInt, prefix).Incomplete? {
      ParseStable(toInt, prefix, e[|prefix|..]);
    }
  }

  predicate NoneEmpty(instrs: seq<seq<string>>) {
    forall i :: 0 <= i < |instrs| ==> instrs[i] != []
  }

  function Wire(instrs: seq<seq<string>>): string
    requires NoneEmpty(instrs)
  {
    if instrs == [] then "" else Encode(instrs[0]) + Wire(instrs[1..])
  }

  /** `stop` tells why nothing more can be read. */
  datatype Drained = Drained(instrs: seq<seq<string>>, rest: string, stop: Parsed)

  /** Everything that can be read from `s`, and what is left. */
  function Drain(toInt: ToInt, s: string): (d: Drained)
    ensures !d.stop.Instr? && Parse(toInt, d.rest) == d.stop
    decreases |s|
  {
    match Parse(toInt, s)
    case Instr(parts, used) => After([parts], Drain(toInt, s[used..]))
    case r => Drained([], s, r)
  }

  function After(instrs: seq<seq<string>>, d: Drained): Drained {
    d.(instrs := instrs + d.instrs)
  }

  /** Several instructions, and the beginning of one more, are read as just that. */
  lemma {:induction false} DrainWire(toInt: ToInt, instrs: seq<seq<string>>, next: seq<string>, begun: string)
    requires ReadsDecimals(toInt) && NoneEmpty(instrs) && next != [] && begun < Encode(next)
    ensures Drain(toInt, Wire(instrs) + begun) == Drained(instrs, begun, Incomplete)
    decreases |instrs|
  {
    if instrs == [] {
      PrefixIncomplete(toInt, next, begun);
      assert Wire(instrs) + begun == begun;
    } else {
      DrainWire(toInt, instrs[1..], next, begun);
      WireFirst(instrs, begun);
      DrainOne(toInt, instrs[0], Wire(instrs[1..]) + begun);
      FirstBack(instrs, begun);
    }
  }

  lemma FirstBack(instrs: seq<seq<string>>, rest: string)
    requires instrs != []
    ensures After([instrs[0]], Drained(instrs[1..], rest, Incomplete)) == Drained(instrs, rest, Incomplete)
  {
    assert [instrs[0]] + instrs[1..] == instrs;
  }

  lemma WireFirst(instrs: seq<seq<string>>, begun: string)
    requires NoneEmpty(instrs) && instrs != []
    ensures Wire(instrs) + begun == Encode(instrs[0]) + (Wire(instrs[1..]) + begun)
  {
  }

  lemma DrainOne(toInt: ToInt, parts: seq<string>, more: string)
    requires ReadsDecimals(toInt) && parts != []
    ensures Drain(toInt, Encode(parts) + more) == After([parts], Drain(toInt, more))
  {
    RoundTrip(toInt, parts, more);
    assert (Encode(parts) + more)[|Encode(parts)|..] == more;
  }
}
