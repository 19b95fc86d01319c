/** Streams of server frames: when the way a stream is cut into reads matters, and streams that end within a
    frame. */
module WebSocketStreams {
  import opened Wrappers
  import opened Bits
  import opened WebSocket

  // ---- streams with an error ----

  lemma {:induction false} ConcatSplit(chunks: seq<Bytes>, k: nat)
    requires k <= |chunks|
    ensures Concat(chunks) == Concat(chunks[..k]) + Concat(chunks[k..])
    decreases k
  {
    if k == 0 {
      assert chunks[0..] == chunks;
    } else {
      ConcatSplit(chunks[1..], k - 1);
      assert chunks[..k][1..] == chunks[1..][..k - 1] && chunks[1..][k - 1..] == chunks[k..];
    }
  }

  /** A frame is decoded from its own bytes alone. */
  lemma DecodeOwnBytes(s: Bytes)
    requires Decode(s).Frame?
    ensures Decode(s[..Decode(s).used]) == Decode(s)
  {
    var f := Decode(s);
    var t := s[..f.used];
    assert f.used == Header(s).value.1 + Header(s).value.0;
    if s[1] % 128 == 126 {
      assert t[2..4] == s[2..4];
    } else if s[1] % 128 == 127 {
      assert t[2..10] == s[2..10];
    }
    var i := Header(s).value.1;
    assert t[i..f.used] == s[i..f.used];
  }

  lemma OneRead(s: Bytes)
    requires Drain(s).error.Some?
    ensures Concat([s]) == s && Session([], [s]).frames == []
  {
    var none: seq<Bytes> := [];
    assert [s][1..] == none && [] + s == s;
  }

  lemma TwoReads(s: Bytes)
    requires Decode(s).Frame?
    ensures var f := Decode(s);
            var chunks := [s[..f.used], s[f.used..]];
            Concat(chunks) == s && Message(f.opcode, f.payload) in Session([], chunks).frames
  {
    var f := Decode(s);
    var a, b := s[..f.used], s[f.used..];
    var m := [Message(f.opcode, f.payload)];
    var none: seq<Bytes> := [];
    assert [a, b][1..] == [b] && [b][1..] == none;
    assert Concat([b]) == b && Concat([a, b]) == a + b == s;
    DecodeOwnBytes(s);
    var empty: Bytes := [];
    assert a[f.used..] == empty && Drain(empty) == Drained([], empty, None);
    DrainOne(a, empty, m[0]);
    assert Drain(a) == Drained(m, empty, None);
    assert empty + a == a && Session(empty, [a, b]) == Behind(m, Session(empty, [b]));
  }

  /** Every way of cutting the stream into reads hands the same frames to the caller. */
  ghost predicate CutsAgree(s: Bytes) {
    forall a, b :: Concat(a) == s && Concat(b) == s ==> Session([], a).frames == Session([], b).frames
  }

  lemma ReadsGrow(buf: Bytes, chunks: seq<Bytes>, k: nat)
    requires k <= |chunks| && Drain(buf + Concat(chunks[..k])).error.None?
    ensures Drain(buf + Concat(chunks[..k])).frames <= Drain(buf + Concat(chunks)).frames
  {
    var before, after := buf + Concat(chunks[..k]), Concat(chunks[k..]);
    assert buf + Concat(chunks) == before + after by {
      ConcatSplit(chunks, k);
    }
    FramesGrow(before, after);
  }

  lemma NothingBefore(buf: Bytes, chunks: seq<Bytes>)
    requires Idle(buf) && Drain(buf + Concat(chunks)).error.Some? && Drain(buf + Concat(chunks)).frames == []
    ensures Session(buf, chunks).frames == []
  {
    var k := ErrorLosesFrames(buf, chunks);
    ReadsGrow(buf, chunks, k);
  }

  lemma NothingBeforeError(s: Bytes, chunks: seq<Bytes>)
    requires Concat(chunks) == s && Drain(s).error.Some? && Drain(s).frames == []
    ensures Session([], chunks).frames == []
  {
    assert [] + Concat(chunks) == s;
    NothingBefore([], chunks);
  }

  lemma FramesGrow(a: Bytes, b: Bytes)
    requires Drain(a).error.None?
    ensures Drain(a).frames <= Drain(a + b).frames
  {
    DrainAppend(a, b);
  }

  lemma NoErrorAgrees(s: Bytes, chunks: seq<Bytes>)
    requires Concat(chunks) == s && Drain(s).error.None?
    ensures Session([], chunks) == Drain(s)
  {
    assert [] + Concat(chunks) == s;
    ChunkingIrrelevant([], chunks);
  }

  /** The frames handed over do not depend on the cutting exactly when the stream has no error or no
      complete frame precedes the error. */
  lemma CutsAgreeExactly(s: Bytes)
    ensures CutsAgree(s) <==> Drain(s).error.None? || Drain(s).frames == []
  {
    var d := Drain(s);
    if d.error.None? {
      forall a, b | Concat(a) == s && Concat(b) == s ensures Session([], a).frames == Session([], b).frames {
        NoErrorAgrees(s, a);
        NoErrorAgrees(s, b);
      }
    } else if d.frames == [] {
      forall a, b | Concat(a) == s && Concat(b) == s ensures Session([], a).frames == Session([], b).frames {
        NothingBeforeError(s, a);
        NothingBeforeError(s, b);
      }
    } else {
      OneRead(s);
      TwoReads(s);
    }
  }

  /** A good frame and a bad one: read at once nothing is handed over, read one after the other the good
      frame is. */
  lemma GoodThenBad()
    ensures var s: Bytes := [0x81, 0x00, 0x83, 0x00];
            && Drain(s).error == Some(UnexpectedOpcode(3))
            && Session([], [s]).frames == []
            && Message(1, []) in Session([], [s[..2], s[2..]]).frames
  {
    var s: Bytes := [0x81, 0x00, 0x83, 0x00];
    assert s[2..] == [0x83, 0x00];
    assert Decode(s[2..]) == Bad(UnexpectedOpcode(3));
    assert s[2..2] == [];
    assert Decode(s) == Frame(1, [], 2);
    OneRead(s);
    TwoReads(s);
  }

  // ---- streams that end within a frame ----

  /** A proper beginning of a server frame is never taken for a whole one, nor for a bad one. */
  lemma PrefixNeedsMore(m: Message, prefix: Bytes)
    requires Expected(m) && prefix < ServerFrame(m)
    ensures Decode(prefix) == NeedMore
  {
    var f := ServerFrame(m);
    DecodeServerFrame(m, []);
    assert f + [] == f;
    if |prefix| >= 2 && Header(prefix).Some? {
      HeaderStable(prefix, f[|prefix|..]);
      assert prefix + f[|prefix|..] == f;
      assert prefix[0] == f[0] && prefix[1] == f[1];
    }
  }

  /** Several frames, and the beginning of one more, are decoded as just that. */
  lemma {:induction false} DrainUnfinished(ms: seq<Message>, next: Message, begun: Bytes)
    requires (forall m :: m in ms ==> Expected(m)) && Expected(next) && begun < ServerFrame(next)
    ensures Drain(Wire(ms) + begun) == Drained(ms, begun, None)
  {
    if ms == [] {
      PrefixNeedsMore(next, begun);
      assert Wire(ms) + begun == begun;
    } else {
      DrainUnfinished(ms[1..], next, begun);
      WireFirst(ms, begun);
      DrainFirst(ms[0], Wire(ms[1..]) + begun);
      assert [ms[0]] + ms[1..] == ms;
    }
  }

  lemma WireFirst(ms: seq<Message>, begun: Bytes)
    requires ms != [] && forall m :: m in ms ==> Expected(m)
    ensures Wire(ms) + begun == ServerFrame(ms[0]) + (Wire(ms[1..]) + begun)
  {
  }

  lemma DrainFirst(m: Message, rest: Bytes)
    requires Expected(m)
    ensures Drain(ServerFrame(m) + rest) == Behind([m], Drain(rest))
  {
    DecodeServerFrame(m, rest);
    DrainOne(ServerFrame(m) + rest, rest, m);
  }

  /** However such a stream is cut up, the caller gets the whole frames and the beginning stays behind. */
  lemma UnfinishedSurvivesChunking(ms: seq<Message>, next: Message, begun: Bytes, chunks: seq<Bytes>)
    requires (forall m :: m in ms ==> Expected(m)) && Expected(next) && begun < ServerFrame(next)
    requires Concat(chunks) == Wire(ms) + begun
    ensures Session([], chunks) == Drained(ms, begun, None)
  {
    DrainUnfinished(ms, next, begun);
    NoErrorAgrees(Wire(ms) + begun, chunks);
  }
}
