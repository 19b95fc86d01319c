/** The scan agent's WebSocket client framing (agent/jt_ipam_agent.py), a subset of RFC 6455. */
module WebSocket {
  import opened Wrappers
  import opened Bits

  const FRAME_MAX: nat := 64 * 1024

  // ---- masking (RFC 6455 section 5.3) ----

  /** `key * times` on bytes. */
  function Times(key: Bytes, times: nat): Bytes {
    if times == 0 then [] else key + Times(key, times - 1)
  }

  function KeyStream(key: Bytes, n: nat): (m: Bytes)
    requires |key| == 4
    ensures |m| == n
  {
    TimesLength(key, n / 4 + 1);
    Times(key, n / 4 + 1)[..n]
  }

  /** The source's way: one exclusive or of two big integers. */
  function Mask(payload: Bytes, key: Bytes): (r: Bytes)
    requires |key| == 4
    ensures |r| == |payload|
  {
    var n := |payload|;
    if n == 0 then []
    else
      var p, m := FromBig(payload), FromBig(KeyStream(key, n));
      BigXorFits(payload, KeyStream(key, n));
      ToBig(Xor(p, m), n)
  }

  /** The RFC's way: octet i is combined with octet i modulo 4 of the key. */
  function MaskOctets(payload: Bytes, key: Bytes): (r: Bytes)
    requires |key| == 4
    ensures |r| == |payload|
  {
    seq(|payload|, i requires 0 <= i < |payload| => XorByte(payload[i], key[i % 4]))
  }

  function XorByte(a: byte, b: byte): byte {
    PowersOfTwo();
    XorBound(8, a, b);
    Xor(a, b)
  }

  lemma {:induction false} TimesLength(key: Bytes, times: nat)
    ensures |Times(key, times)| == |key| * times
  {
    if times > 0 {
      TimesLength(key, times - 1);
    }
  }

  lemma {:induction false} TimesAt(key: Bytes, times: nat, i: nat)
    requires |key| == 4 && i < 4 * times
    ensures |Times(key, times)| == 4 * times && Times(key, times)[i] == key[i % 4]
  {
    TimesLength(key, times);
    if i >= 4 {
      TimesLength(key, times - 1);
      TimesAt(key, times - 1, i - 4);
      assert Times(key, times)[i] == Times(key, times - 1)[i - 4];
    }
  }

  lemma KeyStreamAt(key: Bytes, n: nat, i: nat)
    requires |key| == 4 && i < n
    ensures KeyStream(key, n)[i] == key[i % 4]
  {
    TimesAt(key, n / 4 + 1, i);
  }

  lemma {:induction false} BigXorFits(s: Bytes, t: Bytes)
    requires |s| == |t|
    ensures Xor(FromBig(s), FromBig(t)) < Pow256(|s|)
  {
    if s != [] {
      var n := |s| - 1;
      BigXorFits(s[..n], t[..n]);
      BigXorStep(s, t);
    }
  }

  lemma BigXorStep(s: Bytes, t: Bytes)
    requires |s| == |t| > 0
    ensures var n := |s| - 1;
            Xor(FromBig(s), FromBig(t)) == 256 * Xor(FromBig(s[..n]), FromBig(t[..n])) + XorByte(s[n], t[n])
  {
    var n := |s| - 1;
    var a, b := FromBig(s[..n]), FromBig(t[..n]);
    assert Pow2(8) == 256 by { PowersOfTwo(); }
    assert FromBig(s) == Join(256, a, s[n]) && FromBig(t) == Join(256, b, t[n]);
    XorSplit(8, a, s[n], b, t[n]);
  }

  /** The big-integer exclusive or is the octet-wise one. */
  lemma {:induction false} BigXorOctets(s: Bytes, t: Bytes)
    requires |s| == |t|
    ensures Xor(FromBig(s), FromBig(t)) < Pow256(|s|)
    ensures var r := ToBig(Xor(FromBig(s), FromBig(t)), |s|);
            forall i :: 0 <= i < |s| ==> r[i] == XorByte(s[i], t[i])
  {
    BigXorFits(s, t);
    if s != [] {
      var n := |s| - 1;
      BigXorFits(s[..n], t[..n]);
      BigXorOctets(s[..n], t[..n]);
      BigXorStep(s, t);
      var x := Xor(FromBig(s[..n]), FromBig(t[..n]));
      ToBigLast(x, XorByte(s[n], t[n]), n, Xor(FromBig(s), FromBig(t)), |s|);
    }
  }

  lemma ToBigLast(high: nat, low: byte, n: nat, x: nat, m: nat)
    requires high < Pow256(n) && x == 256 * high + low && m == n + 1
    ensures x < Pow256(m) && ToBig(x, m) == ToBig(high, n) + [low]
  {
  }

  lemma MaskIsOctetwise(payload: Bytes, key: Bytes)
    requires |key| == 4
    ensures Mask(payload, key) == MaskOctets(payload, key)
  {
    var n := |payload|;
    if n > 0 {
      BigXorOctets(payload, KeyStream(key, n));
      forall i | 0 <= i < n ensures Mask(payload, key)[i] == MaskOctets(payload, key)[i] {
        KeyStreamAt(key, n, i);
      }
    }
  }

  lemma MaskTwice(payload: Bytes, key: Bytes)
    requires |key| == 4
    ensures Mask(Mask(payload, key), key) == payload
  {
    MaskIsOctetwise(payload, key);
    MaskIsOctetwise(Mask(payload, key), key);
    forall i | 0 <= i < |payload| ensures MaskOctets(MaskOctets(payload, key), key)[i] == payload[i] {
      XorInverse(payload[i], key[i % 4]);
    }
  }

  // ---- sending ----

  /** One masked client frame; a length of 2^64 or more cannot be packed. */
  function Encode(opcode: nat, payload: Bytes, key: Bytes): Option<Bytes>
    requires opcode < 16 && |key| == 4
  {
    PowersOfTwo();
    OrHighBit(opcode);
    var n := |payload|;
    var b1: byte := Or(0x80, opcode);
    if n < 126 then
      OrHighBit(n);
      var head: Bytes := [b1, Or(0x80, n)];
      Some(head + key + Mask(payload, key))
    else if n < 65536 then
      OrHighBit(126);
      var head: Bytes := [b1, Or(0x80, 126)];
      Some(head + ToBig(n, 2) + key + Mask(payload, key))
    else if n < Pow256(8) then
      OrHighBit(127);
      var head: Bytes := [b1, Or(0x80, 127)];
      Some(head + ToBig(n, 8) + key + Mask(payload, key))
    else None
  }

  predicate KnownOpcode(opcode: nat) {
    opcode in [0x1, 0x2, 0x8, 0x9, 0xA]
  }

  /** A server reading an unfragmented frame from a client as RFC 6455 sections 5.2 and 5.5 demand: final,
      no reserved bits, an opcode that is defined, masked, payload length in its shortest form with the top
      bit of a 64-bit length clear, and at most 125 bytes in a control frame. */
  function Receive(s: Bytes): Option<(nat, Bytes, Bytes)> {
    if |s| < 2 || s[0] < 128 || !KnownOpcode(s[0] - 128) || s[1] < 128 then None
    else
      var short: nat := s[1] - 128;
      var wide := if short == 126 then 2 else if short == 127 then 8 else 0;
      if (s[0] >= 136 && short > 125) || |s| < 2 + wide + 4 || (wide == 8 && s[2] >= 128) then None
      else
        var n := if wide == 0 then short else FromBig(s[2..2 + wide]);
        if (wide == 2 && n < 126) || (wide == 8 && n < 65536) || |s| < 2 + wide + 4 + n then None
        else
          var key, body := s[2 + wide..6 + wide], s[6 + wide..6 + wide + n];
          Some((s[0] - 128, MaskOctets(body, key), s[6 + wide + n..]))
  }

  /** What a client may send in one frame. */
  predicate Sendable(opcode: nat, n: nat) {
    KnownOpcode(opcode) && n < 0x8000_0000_0000_0000 && (opcode >= 8 ==> n <= 125)
  }

  /** Whatever follows on the wire, the receiver recovers opcode and payload, for all three forms of the
      length, exactly when a client may send them; any other frame it turns down. */
  lemma SentIsReceived(opcode: nat, payload: Bytes, key: Bytes, rest: Bytes)
    requires opcode < 16 && |key| == 4
    ensures Encode(opcode, payload, key).Some? <==> |payload| < Pow256(8)
    ensures |payload| < Pow256(8) ==>
              Receive(Encode(opcode, payload, key).value + rest)
              == if Sendable(opcode, |payload|) then Some((opcode, payload, rest)) else None
  {
    if |payload| < Pow256(8) {
      var short, ext := EncodeForm(opcode, payload, key);
      MaskTwice(payload, key);
      MaskIsOctetwise(Mask(payload, key), key);
      ReceiveParts(opcode, short, ext, key, Mask(payload, key), rest);
    } else {
      assert Pow256(8) >= 65536 by { PowersOfTwo(); }
    }
  }

  lemma EncodeForm(opcode: nat, payload: Bytes, key: Bytes) returns (short: nat, ext: Bytes)
    requires opcode < 16 && |key| == 4 && |payload| < Pow256(8)
    ensures short < 128 && |ext| == if short == 126 then 2 else if short == 127 then 8 else 0
    ensures |payload| == if ext == [] then short else FromBig(ext)
    ensures (short == 126 ==> |payload| >= 126) && (short == 127 ==> |payload| >= 65536)
    ensures short <= 126 ==> |payload| < 65536
    ensures Encode(opcode, payload, key) == Some([128 + opcode, 128 + short] + ext + key + Mask(payload, key))
  {
    assert Pow256(2) == 65536 by { PowersOfTwo(); }
    OrHighBit(opcode);
    var n := |payload|;
    short := if n < 126 then n else if n < 65536 then 126 else 127;
    ext := if n < 126 then [] else if n < 65536 then ToBig(n, 2) else ToBig(n, 8);
    OrHighBit(short);
    if n >= 126 {
      BigRoundTrip(n, if n < 65536 then 2 else 8);
    } else {
      assert [128 + opcode, 128 + short] + ext == [128 + opcode, 128 + short];
    }
  }

  lemma ReceiveParts(opcode: nat, short: nat, ext: Bytes, key: Bytes, masked: Bytes, rest: Bytes)
    requires opcode < 16 && short < 128 && |key| == 4
    requires |ext| == if short == 126 then 2 else if short == 127 then 8 else 0
    requires |masked| == if ext == [] then short else FromBig(ext)
    requires (short == 126 ==> |masked| >= 126) && (short == 127 ==> |masked| >= 65536)
    requires short <= 126 ==> |masked| < 65536
    ensures Receive([128 + opcode, 128 + short] + ext + key + masked + rest)
            == if Sendable(opcode, |masked|) then Some((opcode, MaskOctets(masked, key), rest)) else None
  {
    var s: Bytes := [128 + opcode, 128 + short] + ext + key + masked + rest;
    if short == 127 {
      TopBit(ext);
    }
    Slices([128 + opcode, 128 + short], ext, key, masked, rest, s, 2 + |ext|, 6 + |ext|, 6 + |ext| + |masked|);
  }

  lemma TopBit(s: Bytes)
    requires |s| == 8
    ensures s[0] >= 128 <==> FromBig(s) >= 0x8000_0000_0000_0000
  {
    BigTop(s);
    assert Pow256(7) == 0x100_0000_0000_0000 by {
      PowersOfTwo();
    }
  }

  lemma Slices(start: Bytes, ext: Bytes, key: Bytes, masked: Bytes, rest: Bytes, s: Bytes, i: nat, j: nat, k: nat)
    requires s == start + ext + key + masked + rest
    requires i == |start| + |ext| && j == i + |key| && k == j + |masked|
    ensures |s| == k + |rest| && s[..|start|] == start
    ensures s[|start|..i] == ext && s[i..j] == key && s[j..k] == masked && s[k..] == rest
  {
    var a, b := start + ext, start + ext + key;
    assert s == b + masked + rest && |b| == j;
    assert s == a + key + (masked + rest) && |a| == i;
    assert s == start + (ext + key + masked + rest);
  }

  // ---- receiving ----

  datatype WsError = MaskedFrame | FragmentedFrame | UnexpectedOpcode(opcode: nat) | FrameTooLarge(n: nat)

  /** `used` bytes at the front of the buffer make up the frame. */
  datatype Decoded = NeedMore | Bad(error: WsError) | Frame(opcode: nat, payload: Bytes, used: nat)

  /** Length field and size of the header, once the header is complete. */
  function Header(buf: Bytes): (h: Option<(nat, nat)>)
    requires |buf| >= 2
    ensures h.Some? ==> 2 <= h.value.1 <= |buf|
  {
    var n := buf[1] % 128;
    if n == 126 then (if |buf| < 4 then None else Some((FromBig(buf[2..4]), 4)))
    else if n == 127 then (if |buf| < 10 then None else Some((FromBig(buf[2..10]), 10)))
    else Some((n, 2))
  }

  function Decode(buf: Bytes): (d: Decoded)
    ensures d.Frame? ==> 2 <= d.used <= |buf|
  {
    if |buf| < 2 then NeedMore
    else
      match Header(buf)
      case None => NeedMore
      case Some((n, i)) =>
        var opcode := buf[0] % 16;
        if buf[1] >= 128 then Bad(MaskedFrame)
        else if buf[0] < 128 || opcode == 0 then Bad(FragmentedFrame)
        else if opcode !in [0x1, 0x2, 0x8, 0x9, 0xA] then Bad(UnexpectedOpcode(opcode))
        else if n > FRAME_MAX then Bad(FrameTooLarge(n))
        else if |buf| < i + n then NeedMore
        else Frame(opcode, buf[i..i + n], i + n)
  }

  datatype Message = Message(opcode: nat, payload: Bytes)

  /** All complete frames at the front of the buffer, what is left, and the error met, if any. */
  datatype Drained = Drained(frames: seq<Message>, rest: Bytes, error: Option<WsError>)

  function Drain(buf: Bytes): Drained
    decreases |buf|
  {
    match Decode(buf)
    case NeedMore => Drained([], buf, None)
    case Bad(e) => Drained([], buf, Some(e))
    case Frame(opcode, payload, used) =>
      var d := Drain(buf[used..]);
      d.(frames := [Message(opcode, payload)] + d.frames)
  }

  /** The same with other frames before it. */
  function Behind(frames: seq<Message>, d: Drained): Drained {
    d.(frames := frames + d.frames)
  }

  lemma DrainFrame(buf: Bytes, frames: seq<Message>)
    requires Decode(buf).Frame?
    ensures var f := Decode(buf);
            Behind(frames, Drain(buf)) == Behind(frames + [Message(f.opcode, f.payload)], Drain(buf[f.used..]))
  {
    var f := Decode(buf);
    var m, d := [Message(f.opcode, f.payload)], Drain(buf[f.used..]);
    assert frames + (m + d.frames) == (frames + m) + d.frames;
  }

  /** What a call hands to its caller: an exception carries no frames. */
  datatype Outcome = Frames(frames: seq<Message>) | Raised(error: WsError)

  class Receiver {
    var buf: Bytes

    constructor (rest: Bytes)
      ensures buf == rest
    {
      buf := rest;
    }

    /** Takes one frame off the front; an incomplete or bad frame leaves the buffer untouched. */
    method TakeFrame() returns (d: Decoded)
      modifies this
      ensures d == Decode(old(buf))
      ensures buf == if d.Frame? then old(buf)[d.used..] else old(buf)
    {
      if |buf| < 2 {
        return NeedMore;
      }
      var n, i := buf[1] % 128, 2;
      if n == 126 {
        if |buf| < 4 { return NeedMore; }
        n := FromBig(buf[2..4]);
        i := 4;
      } else if n == 127 {
        if |buf| < 10 { return NeedMore; }
        n := FromBig(buf[2..10]);
        i := 10;
      }
      var opcode := buf[0] % 16;
      if buf[1] >= 128 { return Bad(MaskedFrame); }
      if buf[0] < 128 || opcode == 0 { return Bad(FragmentedFrame); }
      if opcode !in [0x1, 0x2, 0x8, 0x9, 0xA] { return Bad(UnexpectedOpcode(opcode)); }
      if n > FRAME_MAX { return Bad(FrameTooLarge(n)); }
      if |buf| < i + n { return NeedMore; }
      d := Frame(opcode, buf[i..i + n], i + n);
      buf := buf[i + n..];
    }

    method BufferedFrames() returns (out: Outcome)
      modifies this
      ensures var d := Drain(old(buf));
              && buf == d.rest
              && out == if d.error.None? then Frames(d.frames) else Raised(d.error.value)
    {
      var frames := [];
      while true
        invariant Drain(old(buf)) == Behind(frames, Drain(buf))
        decreases |buf|
      {
        ghost var now := buf;
        var d := TakeFrame();
        if d.NeedMore? {
          return Frames(frames);
        }
        if d.Bad? {
          return Raised(d.error);
        }
        DrainFrame(now, frames);
        frames := frames + [Message(d.opcode, d.payload)];
      }
    }

    /** The data part of reading from the socket. */
    method Feed(data: Bytes) returns (out: Outcome)
      modifies this
      ensures var d := Drain(old(buf) + data);
              && buf == d.rest
              && out == if d.error.None? then Frames(d.frames) else Raised(d.error.value)
    {
      buf := buf + data;
      out := BufferedFrames();
    }
  }

  // ---- independence of chunking ----

  /** A decision once made is not changed by more bytes. */
  lemma DecodeStable(a: Bytes, b: Bytes)
    requires !Decode(a).NeedMore?
    ensures Decode(a + b) == Decode(a)
  {
    var s := a + b;
    assert s[..|a|] == a;
    HeaderStable(a, b);
    var i := Header(a).value.1;
    var n := Header(a).value.0;
    if |a| >= i + n {
      assert s[i..i + n] == a[i..i + n];
    }
  }

  lemma HeaderStable(a: Bytes, b: Bytes)
    requires |a| >= 2 && Header(a).Some?
    ensures Header(a + b) == Header(a)
  {
    var s := a + b;
    assert s[1] == a[1];
    if |a| >= 4 { assert s[2..4] == a[2..4]; }
    if |a| >= 10 { assert s[2..10] == a[2..10]; }
  }

  lemma {:induction false} DrainAppend(a: Bytes, b: Bytes)
    ensures var d := Drain(a);
            Drain(a + b) == if d.error.Some? then d.(rest := d.rest + b) else Behind(d.frames, Drain(d.rest + b))
    decreases |a|
  {
    match Decode(a)
    case NeedMore =>
      assert [] + Drain(a + b).frames == Drain(a + b).frames;
    case Bad(e) =>
      DecodeStable(a, b);
    case Frame(opcode, payload, used) =>
      DecodeStable(a, b);
      DrainAppend(a[used..], b);
      var m := Message(opcode, payload);
      DrainOne(a, a[used..], m);
      assert (a + b)[used..] == a[used..] + b;
      DrainOne(a + b, a[used..] + b, m);
      var d := Drain(a[used..]);
      BehindTwice([m], d.frames, Drain(d.rest + b));
  }

  lemma DrainOne(s: Bytes, rest: Bytes, m: Message)
    requires Decode(s).Frame? && rest == s[Decode(s).used..] && m == Message(Decode(s).opcode, Decode(s).payload)
    ensures Drain(s) == Behind([m], Drain(rest))
  {
  }

  lemma BehindTwice(a: seq<Message>, b: seq<Message>, d: Drained)
    ensures Behind(a, Behind(b, d)) == Behind(a + b, d)
  {
    assert a + (b + d.frames) == (a + b) + d.frames;
  }

  function Concat(chunks: seq<Bytes>): Bytes {
    if chunks == [] then [] else chunks[0] + Concat(chunks[1..])
  }

  /** Successive reads, up to the first that raises; the frames handed to the caller. */
  function Session(buf: Bytes, chunks: seq<Bytes>): Drained
    decreases |chunks|
  {
    if chunks == [] then Drained([], buf, None)
    else
      var d := Drain(buf + chunks[0]);
      if d.error.Some? then d.(frames := []) else Behind(d.frames, Session(d.rest, chunks[1..]))
  }

  /** Nothing complete is waiting in the buffer. */
  predicate Idle(buf: Bytes) {
    Decode(buf).NeedMore?
  }

  lemma {:induction false} DrainIdle(a: Bytes)
    ensures Drain(a).error.None? ==> Idle(Drain(a).rest)
    decreases |a|
  {
    match Decode(a)
    case Frame(_, _, used) => DrainIdle(a[used..]);
    case _ =>
  }

  /** On a stream without errors the caller gets the same frames, and the same bytes stay behind, no
      matter how the stream was cut into reads. */
  lemma {:induction false} ChunkingIrrelevant(buf: Bytes, chunks: seq<Bytes>)
    requires Idle(buf) && Drain(buf + Concat(chunks)).error.None?
    ensures Session(buf, chunks) == Drain(buf + Concat(chunks))
    decreases |chunks|
  {
    if chunks == [] {
      assert buf + Concat(chunks) == buf;
    } else {
      var first, more := buf + chunks[0], Concat(chunks[1..]);
      var d := Drain(first);
      assert buf + Concat(chunks) == first + more;
      DrainAppend(first, more);
      DrainIdle(first);
      ChunkingIrrelevant(d.rest, chunks[1..]);
    }
  }

  /** On a stream with an error every chunking meets that error, in some read `k`; the caller has then
      got exactly the frames that earlier reads completed, because the read that raises delivers none. */
  lemma {:induction false} ErrorLosesFrames(buf: Bytes, chunks: seq<Bytes>) returns (k: nat)
    requires Idle(buf) && Drain(buf + Concat(chunks)).error.Some?
    ensures k < |chunks|
    ensures Drain(buf + Concat(chunks[..k])).error.None? && Drain(buf + Concat(chunks[..k + 1])).error.Some?
    ensures Session(buf, chunks).error == Drain(buf + Concat(chunks)).error
    ensures Session(buf, chunks).frames == Drain(buf + Concat(chunks[..k])).frames
    decreases |chunks|
  {
    assert chunks == [] ==> buf + Concat(chunks) == buf;
    if chunks == [] {
      assert false;
    }
    var d := Drain(buf + chunks[0]);
    ErrorOf(buf, chunks, d);
    if d.error.Some? {
      k := 0;
      ErrorFirst(buf, chunks, d, k);
    } else {
      var j := ErrorLosesFrames(d.rest, chunks[1..]);
      k := j + 1;
      ErrorLater(buf, chunks, d, j, k);
    }
  }

  /** The error of the whole stream is that of the first read, or else of the others. */
  lemma ErrorOf(buf: Bytes, chunks: seq<Bytes>, d: Drained)
    requires chunks != [] && d == Drain(buf + chunks[0])
    ensures d.error.None? ==> Idle(d.rest)
    ensures Drain(buf + Concat(chunks)).error == if d.error.Some? then d.error else Drain(d.rest + Concat(chunks[1..])).error
  {
    ConcatAll(buf, chunks);
    DrainIdle(buf + chunks[0]);
    ErrorBehind(buf + chunks[0], Concat(chunks[1..]), d);
  }

  lemma ConcatAll(buf: Bytes, chunks: seq<Bytes>)
    requires chunks != []
    ensures buf + Concat(chunks) == (buf + chunks[0]) + Concat(chunks[1..])
  {
  }

  lemma ErrorBehind(a: Bytes, b: Bytes, d: Drained)
    requires d == Drain(a)
    ensures Drain(a + b).error == if d.error.Some? then d.error else Drain(d.rest + b).error
  {
    DrainAppend(a, b);
  }

  /** The error is met in the first read. */
  lemma ErrorFirst(buf: Bytes, chunks: seq<Bytes>, d: Drained, k: nat)
    requires chunks != [] && Idle(buf) && d == Drain(buf + chunks[0]) && d.error.Some? && k == 0
    ensures Drain(buf + Concat(chunks[..k])).error.None? && Drain(buf + Concat(chunks[..k + 1])).error.Some?
    ensures Session(buf, chunks).frames == Drain(buf + Concat(chunks[..k])).frames
    ensures Session(buf, chunks).error == d.error
  {
    FirstChunk(buf, chunks);
  }

  /** The error is met behind the first read. */
  lemma ErrorLater(buf: Bytes, chunks: seq<Bytes>, d: Drained, j: nat, k: nat)
    requires k < |chunks| && k == j + 1 && d == Drain(buf + chunks[0]) && d.error.None?
    requires Drain(d.rest + Concat(chunks[1..][..j])).error.None?
    requires Drain(d.rest + Concat(chunks[1..][..k])).error.Some?
    requires Session(d.rest, chunks[1..]).frames == Drain(d.rest + Concat(chunks[1..][..j])).frames
    ensures Drain(buf + Concat(chunks[..k])).error.None? && Drain(buf + Concat(chunks[..k + 1])).error.Some?
    ensures Session(buf, chunks).frames == Drain(buf + Concat(chunks[..k])).frames
    ensures Session(buf, chunks).error == Session(d.rest, chunks[1..]).error
  {
    PrefixDrains(buf, chunks, j);
    PrefixDrains(buf, chunks, k);
  }

  /** Draining the first reads is draining the first of them and then the others. */
  lemma PrefixDrains(buf: Bytes, chunks: seq<Bytes>, j: nat)
    requires j < |chunks| && Drain(buf + chunks[0]).error.None?
    ensures var d := Drain(buf + chunks[0]);
            Drain(buf + Concat(chunks[..j + 1])) == Behind(d.frames, Drain(d.rest + Concat(chunks[1..][..j])))
  {
    ConcatFirst(buf, chunks, j);
    DrainAppend(buf + chunks[0], Concat(chunks[1..][..j]));
  }

  lemma FirstChunk(buf: Bytes, chunks: seq<Bytes>)
    requires chunks != []
    ensures buf + Concat(chunks[..0]) == buf && buf + Concat(chunks[..1]) == buf + chunks[0]
  {
    assert chunks[..1][1..] == [];
  }

  lemma ConcatFirst(buf: Bytes, chunks: seq<Bytes>, j: nat)
    requires j < |chunks|
    ensures buf + Concat(chunks[..j + 1]) == (buf + chunks[0]) + Concat(chunks[1..][..j])
  {
    assert chunks[..j + 1][1..] == chunks[1..][..j];
  }

  /** A server frame as RFC 6455 section 5.2 prescribes: final, unmasked, shortest length. */
  function ServerFrame(m: Message): Bytes
    requires Expected(m)
  {
    PowersOfTwo();
    var n := |m.payload|;
    [128 + m.opcode, if n < 126 then n else if n < 65536 then 126 else 127]
    + (if n < 126 then [] else if n < 65536 then ToBig(n, 2) else ToBig(n, 8)) + m.payload
  }

  predicate Expected(m: Message) {
    KnownOpcode(m.opcode) && |m.payload| <= FRAME_MAX
  }

  function Wire(ms: seq<Message>): Bytes
    requires forall m :: m in ms ==> Expected(m)
  {
    if ms == [] then [] else ServerFrame(ms[0]) + Wire(ms[1..])
  }

  lemma DecodeServerFrame(m: Message, rest: Bytes)
    requires Expected(m)
    ensures var f := ServerFrame(m);
            && Decode(f + rest) == Frame(m.opcode, m.payload, |f|)
            && (f + rest)[|f|..] == rest
  {
    var start := ServerHeader(m, rest, ServerFrame(m) + rest);
  }

  lemma ServerHeader(m: Message, rest: Bytes, s: Bytes) returns (start: nat)
    requires Expected(m) && s == ServerFrame(m) + rest
    ensures 2 <= start && |ServerFrame(m)| == start + |m.payload|
    ensures s[0] == 128 + m.opcode && s[1] < 128 && Header(s) == Some((|m.payload|, start))
    ensures s[start..start + |m.payload|] == m.payload
  {
    if |m.payload| < 126 {
      start := 2;
    } else {
      start := LongHeader(m, rest, s);
    }
  }

  lemma LongHeader(m: Message, rest: Bytes, s: Bytes) returns (start: nat)
    requires Expected(m) && s == ServerFrame(m) + rest && |m.payload| >= 126
    ensures 2 <= start && |ServerFrame(m)| == start + |m.payload|
    ensures s[0] == 128 + m.opcode && s[1] < 128 && Header(s) == Some((|m.payload|, start))
    ensures s[start..start + |m.payload|] == m.payload
  {
    PowersOfTwo();
    var n := |m.payload|;
    var wide := if n < 65536 then 2 else 8;
    start := 2 + wide;
    BigRoundTrip(n, wide);
    FrameParts(128 + m.opcode, if wide == 2 then 126 else 127, ToBig(n, wide), m.payload, rest, s);
  }

  lemma FrameParts(b0: byte, b1: byte, ext: Bytes, payload: Bytes, rest: Bytes, s: Bytes)
    requires s == [b0, b1] + ext + payload + rest
    ensures s[0] == b0 && s[1] == b1 && s[2..2 + |ext|] == ext && s[2 + |ext|..2 + |ext| + |payload|] == payload
  {
  }

  lemma {:induction false} DrainWire(ms: seq<Message>)
    requires forall m :: m in ms ==> Expected(m)
    ensures Drain(Wire(ms)) == Drained(ms, [], None)
  {
    if ms != [] {
      DecodeServerFrame(ms[0], Wire(ms[1..]));
      DrainWire(ms[1..]);
    }
  }

  /** Every way of cutting a sequence of server frames into reads gives those frames, with nothing left. */
  lemma FramesSurviveChunking(ms: seq<Message>, chunks: seq<Bytes>)
    requires (forall m :: m in ms ==> Expected(m)) && Concat(chunks) == Wire(ms)
    ensures Session([], chunks) == Drained(ms, [], None)
  {
    DrainWire(ms);
    assert [] + Concat(chunks) == Wire(ms);
    ChunkingIrrelevant([], chunks);
  }
}
