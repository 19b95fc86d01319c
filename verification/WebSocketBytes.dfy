/** Which bytes the WebSocket client takes for a frame and which it refuses: stated on the bytes alone. */
module WebSocketBytes {
  import opened Wrappers
  import opened Bits
  import opened WebSocket

  function Big(high: nat, low: nat): nat {
    256 * high + low
  }

  /** The header announces `n` bytes of payload, beginning at `start`. */
  predicate Lengths(s: Bytes, n: nat, start: nat) {
    && |s| >= 2
    && var short := s[1] % 128;
       || (short <= 125 && n == short && start == 2)
       || (short == 126 && |s| >= 4 && n == Big(s[2], s[3]) && start == 4)
       || (short == 127 && |s| >= 10 && start == 10 && n == EightBytes(s))
  }

  function EightBytes(s: Bytes): nat
    requires |s| >= 10
  {
    Big(Big(Big(Big(Big(Big(Big(s[2], s[3]), s[4]), s[5]), s[6]), s[7]), s[8]), s[9])
  }

  predicate HeaderComplete(s: Bytes) {
    |s| >= 2 && (s[1] % 128 == 126 ==> |s| >= 4) && (s[1] % 128 == 127 ==> |s| >= 10)
  }

  /** Final, with an opcode that is known and no mask. */
  predicate Acceptable(b0: byte, b1: byte) {
    b0 >= 128 && b0 % 16 in {1, 2, 8, 9, 10} && b1 <= 127
  }

  lemma FromBigNext(s: Bytes, last: byte)
    ensures FromBig(s + [last]) == Big(FromBig(s), last)
  {
    assert (s + [last])[..|s|] == s;
  }

  lemma TwoBytes(a: byte, b: byte)
    ensures FromBig([a, b]) == Big(a, b)
  {
    FromBigNext([], a);
    FromBigNext([a], b);
    assert [] + [a] == [a] && [a] + [b] == [a, b];
  }

  lemma FourBytes(a: byte, b: byte, c: byte, d: byte)
    ensures FromBig([a, b, c, d]) == Big(Big(Big(a, b), c), d)
  {
    TwoBytes(a, b);
    FromBigNext([a, b], c);
    FromBigNext([a, b, c], d);
    assert [a, b] + [c] == [a, b, c] && [a, b, c] + [d] == [a, b, c, d];
  }

  lemma LongLength(s: Bytes)
    requires |s| >= 10
    ensures FromBig(s[2..10]) == EightBytes(s)
  {
    FourBytes(s[2], s[3], s[4], s[5]);
    FromBigNext(s[2..6], s[6]);
    FromBigNext(s[2..7], s[7]);
    FromBigNext(s[2..8], s[8]);
    FromBigNext(s[2..9], s[9]);
    assert s[2..6] == [s[2], s[3], s[4], s[5]];
    assert s[2..6] + [s[6]] == s[2..7] && s[2..7] + [s[7]] == s[2..8];
    assert s[2..8] + [s[8]] == s[2..9] && s[2..9] + [s[9]] == s[2..10];
  }

  lemma HeaderExactly(s: Bytes, n: nat, start: nat)
    requires |s| >= 2
    ensures Header(s) == Some((n, start)) <==> Lengths(s, n, start)
    ensures Header(s).Some? <==> HeaderComplete(s)
  {
    if s[1] % 128 == 126 && |s| >= 4 {
      assert s[2..4] == [s[2], s[3]];
      TwoBytes(s[2], s[3]);
    } else if s[1] % 128 == 127 && |s| >= 10 {
      LongLength(s);
    }
  }

  /** A frame is handed out exactly when the bytes start with a final, unmasked header of a known opcode that announces
      at most 65536 bytes in any of the three forms, and that many bytes, which are the payload, follow. */
  lemma FrameExactly(s: Bytes, opcode: nat, payload: Bytes, used: nat)
    ensures Decode(s) == Frame(opcode, payload, used)
            <==> && |payload| <= 65536 && |payload| <= used <= |s| && Lengths(s, |payload|, used - |payload|)
                 && Acceptable(s[0], s[1]) && opcode == s[0] % 16
                 && s[used - |payload|..used] == payload
  {
    if |s| >= 2 && Header(s).Some? {
      HeaderExactly(s, Header(s).value.0, Header(s).value.1);
      if |payload| <= used {
        HeaderExactly(s, |payload|, used - |payload|);
      }
    } else if |s| >= 2 && |payload| <= used {
      HeaderExactly(s, |payload|, used - |payload|);
    }
  }

  /** Which error is raised, by the first two bytes and the announced length; nothing is decided before the header is
      complete. */
  lemma ErrorsExactly(s: Bytes, opcode: nat, n: nat)
    ensures Decode(s) == Bad(MaskedFrame) <==> HeaderComplete(s) && s[1] >= 128
    ensures Decode(s) == Bad(FragmentedFrame)
            <==> HeaderComplete(s) && s[1] <= 127 && (s[0] <= 127 || s[0] % 16 == 0)
    ensures Decode(s) == Bad(UnexpectedOpcode(opcode))
            <==> HeaderComplete(s) && s[1] <= 127 && s[0] >= 128 && s[0] % 16 == opcode && (3 <= opcode <= 7 || opcode >= 11)
    ensures Decode(s) == Bad(FrameTooLarge(n))
            <==> (exists start :: Lengths(s, n, start)) && Acceptable(s[0], s[1]) && n > 65536
  {
    if |s| >= 2 {
      if Header(s).Some? {
        var h := Header(s).value;
        HeaderExactly(s, h.0, h.1);
        assert Lengths(s, h.0, h.1);
      } else {
        HeaderExactly(s, 0, 0);
      }
    }
  }

  /** More bytes are asked for exactly when the header is not complete, or it is acceptable and announces more, within
      the limit, than is there. */
  lemma NeedMoreExactly(s: Bytes)
    ensures Decode(s) == NeedMore
            <==> !HeaderComplete(s)
                 || exists n: nat, start: nat :: Lengths(s, n, start) && Acceptable(s[0], s[1]) && n <= 65536 && |s| < start + n
  {
    if |s| >= 2 {
      if Header(s).Some? {
        var h := Header(s).value;
        HeaderExactly(s, h.0, h.1);
        assert Lengths(s, h.0, h.1);
      } else {
        HeaderExactly(s, 0, 0);
      }
    }
  }

  // ---- reserved bits ----

  /** The reserved bits of the first byte, which RFC 6455 section 5.2 wants to be zero, make no difference. */
  lemma ReservedIgnored(a: byte, b: byte, rest: Bytes)
    requires a / 128 == b / 128 && a % 16 == b % 16
    ensures Decode([a] + rest) == Decode([b] + rest)
  {
    var s, t: Bytes := [a] + rest, [b] + rest;
    assert s[1..] == rest == t[1..];
    if |s| >= 2 {
      HeaderReserved(a, b, rest);
      if Header(s).Some? {
        var (n, i) := Header(s).value;
        if i + n <= |s| {
          assert s[i..i + n] == rest[i - 1..i - 1 + n] == t[i..i + n];
        }
      }
    }
  }

  lemma HeaderReserved(a: byte, b: byte, rest: Bytes)
    requires rest != []
    ensures Header([a] + rest) == Header([b] + rest)
  {
    var s, t: Bytes := [a] + rest, [b] + rest;
    if |s| >= 4 { assert s[2..4] == rest[1..3] == t[2..4]; }
    if |s| >= 10 { assert s[2..10] == rest[1..9] == t[2..10]; }
  }

  /** An empty text frame with a reserved bit set is taken for one without. */
  lemma ReservedExample()
    ensures Decode([0xC1, 0]) == Frame(1, [], 2)
  {
  }
}
