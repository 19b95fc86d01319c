/** The RustDesk agent's online query to hbbs (agent/jt_ipam_rustdesk_agent.py): protobuf varints and
    fields, the length framing of hbb_common, and the answer's bitmap.  `None` stands for an exception. */
module RustDeskWire {
  import opened Wrappers
  import opened Bits

  // ---- varints ----

  function Varint(n: nat): Bytes {
    if n < 128 then [n] else [128 + n % 128] + Varint(n / 128)
  }

  method PbVarint(n: nat) returns (out: Bytes)
    ensures out == Varint(n)
  {
    out := [];
    var left := n;
    while true
      invariant Varint(n) == out + Varint(left)
      decreases left
    {
      var b := left % 128;
      left := left / 128;
      OrHighBit(b);
      OrZero(b);
      var c: byte := Or(b, if left != 0 then 0x80 else 0);
      out := out + [c];
      if left == 0 {
        return;
      }
    }
  }

  /** The number at the front of `s` and how many bytes it takes. */
  function ReadVarint(s: Bytes): (r: Option<(nat, nat)>)
    ensures r.Some? ==> 0 < r.value.1 <= |s|
  {
    if s == [] then None
    else if s[0] < 128 then Some((s[0], 1))
    else
      match ReadVarint(s[1..])
      case None => None
      case Some((n, used)) => Some((s[0] % 128 + 128 * n, used + 1))
  }

  /** The source's loop: seven bits at a time are or-ed in above those read so far. */
  method PbReadVarint(b: Bytes, start: nat) returns (r: Option<(nat, nat)>)
    requires start <= |b|
    ensures r.None? ==> ReadVarint(b[start..]).None?
    ensures r.Some? ==> start < r.value.1 <= |b| && ReadVarint(b[start..]) == Some((r.value.0, r.value.1 - start))
  {
    var shift: nat, n: nat, i := 0, 0, start;
    while true
      invariant start <= i <= |b| && n < Pow2(shift)
      invariant ReadVarint(b[start..]) == ReadMore(b[i..], n, shift, i - start)
      decreases |b| - i
    {
      if i >= |b| {
        return None;
      }
      var c := b[i];
      i := i + 1;
      OrDisjoint(shift, c % 128, n);
      ReadMoreStep(b[i - 1..], n, shift, i - 1 - start);
      n := Or(n, Join(Pow2(shift), c % 128, 0));
      shift := shift + 7;
      if c < 128 {
        return Some((n, i));
      }
    }
  }

  /** The rest of a number of which `used` bytes, with value `n`, have been read. */
  function ReadMore(s: Bytes, n: nat, shift: nat, used: nat): Option<(nat, nat)> {
    match ReadVarint(s)
    case None => None
    case Some((m, k)) => Some((Join(Pow2(shift), m, n), used + k))
  }

  lemma ReadMoreStep(s: Bytes, n: nat, shift: nat, used: nat)
    requires s != [] && n < Pow2(shift)
    ensures var n' := Join(Pow2(shift), s[0] % 128, n);
            && n' < Pow2(shift + 7)
            && ReadMore(s, n, shift, used)
               == if s[0] < 128 then Some((n', used + 1)) else ReadMore(s[1..], n', shift + 7, used + 1)
  {
    Pow2Plus7(shift);
    JoinBelow(Pow2(shift), s[0] % 128, n);
    if s[0] >= 128 && ReadVarint(s[1..]).Some? {
      JoinJoin(Pow2(shift), s[0] % 128, ReadVarint(s[1..]).value.0, n);
    }
  }

  lemma JoinBelow(p: nat, c: nat, n: nat)
    requires c < 128 && n < p
    ensures Join(p, c, n) < p * 128
  {
    assert p * c <= p * 127;
  }

  lemma JoinJoin(p: nat, c: nat, m: nat, n: nat)
    ensures Join(p, c + 128 * m, n) == Join(p * 128, m, Join(p, c, n))
  {
    assert p * (c + 128 * m) == p * c + p * 128 * m;
  }

  lemma Pow2Plus7(k: nat)
    ensures Pow2(k + 7) == Pow2(k) * 128
  {
    assert Pow2(k + 7) == 2 * Pow2(k + 6) && Pow2(k + 6) == 2 * Pow2(k + 5);
    assert Pow2(k + 5) == 2 * Pow2(k + 4) && Pow2(k + 4) == 2 * Pow2(k + 3);
    assert Pow2(k + 3) == 2 * Pow2(k + 2) && Pow2(k + 2) == 2 * Pow2(k + 1);
  }

  /** Reading undoes writing for every number, whatever follows. */
  lemma {:induction false} VarintRoundTrip(n: nat, rest: Bytes)
    ensures ReadVarint(Varint(n) + rest) == Some((n, |Varint(n)|))
  {
    if n >= 128 {
      VarintRoundTrip(n / 128, rest);
      assert (Varint(n) + rest)[1..] == Varint(n / 128) + rest;
    }
  }

  // ---- fields ----

  function Tag(num: nat): (t: nat)
    ensures t == 8 * num + 2
  {
    OrDisjoint(3, num, 2);
    assert Pow2(3) == 8;
    Or(Join(8, num, 0), 2)
  }

  function Field(num: nat, payload: Bytes): Bytes {
    Varint(Tag(num)) + Varint(|payload|) + payload
  }

  function Take(s: Bytes, n: nat): Bytes {
    if n >= |s| then s else s[..n]
  }

  function Drop(s: Bytes, n: nat): Bytes {
    if n >= |s| then [] else s[n..]
  }

  lemma Suffix(s: Bytes, i: nat, k: nat)
    requires i <= k <= |s|
    ensures s[i..][k - i..] == s[k..]
  {
  }

  lemma Behind(s: Bytes, t: Bytes)
    ensures (s + t)[|s|..] == t && Take(s + t, |s|) == s && Drop(s + t, |s|) == t
  {
  }

  /** The length-delimited payload at the front of `s`, and what follows it; a payload that is cut off is
      taken as far as it goes, as Python's slices do. */
  function ReadPayload(tag: nat, s: Bytes): (r: Option<(nat, Bytes, Bytes)>)
    ensures r.Some? ==> |r.value.2| < |s|
  {
    match ReadVarint(s)
    case None => None
    case Some((n, k)) => Some((tag, Take(s[k..], n), Drop(s[k..], n)))
  }

  /** Tag, payload and remainder of the length-delimited field at the front. */
  function ReadField(s: Bytes): (r: Option<(nat, Bytes, Bytes)>)
    ensures r.Some? ==> |r.value.2| < |s|
  {
    match ReadVarint(s)
    case None => None
    case Some((tag, i)) => ReadPayload(tag, s[i..])
  }

  lemma PayloadRoundTrip(tag: nat, payload: Bytes, rest: Bytes)
    ensures ReadPayload(tag, Varint(|payload|) + (payload + rest)) == Some((tag, payload, rest))
  {
    VarintRoundTrip(|payload|, payload + rest);
    Behind(Varint(|payload|), payload + rest);
    Behind(payload, rest);
  }

  lemma FieldRoundTrip(num: nat, payload: Bytes, rest: Bytes)
    ensures ReadField(Field(num, payload) + rest) == Some((8 * num + 2, payload, rest))
  {
    var tag, tail := Varint(Tag(num)), Varint(|payload|) + (payload + rest);
    assert Field(num, payload) + rest == tag + tail;
    VarintRoundTrip(Tag(num), tail);
    Behind(tag, tail);
    PayloadRoundTrip(Tag(num), payload, rest);
  }

  function Fields(s: Bytes): Option<seq<(nat, Bytes)>>
    decreases |s|
  {
    if s == [] then Some([])
    else
      match ReadField(s)
      case None => None
      case Some((tag, payload, rest)) =>
        match Fields(rest)
        case None => None
        case Some(fs) => Some([(tag, payload)] + fs)
  }

  lemma FieldsCons(s: Bytes, field: (nat, Bytes, Bytes), fs: seq<(nat, Bytes)>)
    requires ReadField(s) == Some(field) && Fields(field.2) == Some(fs)
    ensures Fields(s) == Some([(field.0, field.1)] + fs)
  {
  }

  function FieldsOf(num: nat, payloads: seq<Bytes>): Bytes {
    if payloads == [] then [] else Field(num, payloads[0]) + FieldsOf(num, payloads[1..])
  }

  function Tagged(tag: nat, payloads: seq<Bytes>): (s: seq<(nat, Bytes)>)
    ensures |s| == |payloads|
  {
    seq(|payloads|, i requires 0 <= i < |payloads| => (tag, payloads[i]))
  }

  lemma TaggedCons(tag: nat, payloads: seq<Bytes>)
    requires payloads != []
    ensures Tagged(tag, payloads) == [(tag, payloads[0])] + Tagged(tag, payloads[1..])
  {
  }

  lemma {:induction false} FieldsRoundTrip(num: nat, payloads: seq<Bytes>)
    ensures Fields(FieldsOf(num, payloads)) == Some(Tagged(8 * num + 2, payloads))
    decreases |payloads|
  {
    if payloads != [] {
      var rest := FieldsOf(num, payloads[1..]);
      FieldRoundTrip(num, payloads[0], rest);
      FieldsRoundTrip(num, payloads[1..]);
      FieldsCons(Field(num, payloads[0]) + rest, (8 * num + 2, payloads[0], rest), Tagged(8 * num + 2, payloads[1..]));
      TaggedCons(8 * num + 2, payloads);
    }
  }

  /** The body of an online request: the agent's name and the IDs it asks about. */
  function Request(name: Bytes, ids: seq<Bytes>): Bytes {
    Field(1, name) + FieldsOf(2, ids)
  }

  /** A protobuf reader finds the name and all the IDs, in order. */
  lemma RequestReadable(name: Bytes, ids: seq<Bytes>)
    ensures Fields(Request(name, ids)) == Some([(10, name)] + Tagged(18, ids))
  {
    FieldRoundTrip(1, name, FieldsOf(2, ids));
    FieldsRoundTrip(2, ids);
    FieldsCons(Request(name, ids), (10, name, FieldsOf(2, ids)), Tagged(18, ids));
  }

  // ---- length framing ----

  /** Length shifted left by two, the number of header bytes less one in the two low bits. */
  function Header(n: nat): Option<Bytes> {
    PowersOfTwo();
    FlagBits(n);
    if n <= 0x3F then Some([4 * n])
    else if n <= 0x3FFF then Some(ToLittle(Or(4 * n, 1), 2))
    else if n <= 0x3FFFFF then Some(ToLittle(Or(4 * n, 2), 4)[..3])
    else if Or(4 * n, 3) < Pow256(4) then Some(ToLittle(Or(4 * n, 3), 4))
    else None
  }

  function HbbFrame(data: Bytes): Option<Bytes> {
    match Header(|data|)
    case None => None
    case Some(head) => Some(head + data)
  }

  lemma FlagBits(n: nat)
    ensures Or(4 * n, 1) == 4 * n + 1 && Or(4 * n, 2) == 4 * n + 2 && Or(4 * n, 3) == 4 * n + 3
  {
    assert Pow2(2) == 4;
    OrDisjoint(2, n, 1);
    OrDisjoint(2, n, 2);
    OrDisjoint(2, n, 3);
  }

  /** The framed message at the front of the stream, once all of it is there. */
  function Unframe(s: Bytes): Option<Bytes> {
    if s == [] || |s| < s[0] % 4 + 1 then None
    else
      var hl := s[0] % 4 + 1;
      var n := FromLittle(s[..hl]) / 4;
      if |s| < hl + n then None else Some(s[hl..hl + n])
  }

  lemma {:induction false} FromLittleTop(s: Bytes)
    ensures FromLittle(s + [0]) == FromLittle(s)
  {
    if s == [] {
      assert FromLittle([0]) == 0 + 256 * FromLittle([0][1..]);
    } else {
      assert (s + [0])[1..] == s[1..] + [0];
      FromLittleTop(s[1..]);
    }
  }

  lemma UnframeParts(head: Bytes, data: Bytes, rest: Bytes)
    requires Announces(head, |data|)
    ensures Unframe(head + data + rest) == Some(data)
  {
    var s := head + data + rest;
    assert s[..|head|] == head;
    assert s[|head|..|head| + |data|] == data;
  }

  /** Unframing gives the data back for every length below 2^30, which are exactly those that can be
      framed, whatever follows in the stream. */
  lemma FrameRoundTrip(data: Bytes, rest: Bytes)
    ensures HbbFrame(data).Some? <==> |data| < 0x4000_0000
    ensures |data| < 0x4000_0000 ==> Unframe(HbbFrame(data).value + rest) == Some(data)
  {
    HeaderForm(|data|);
    if |data| < 0x4000_0000 {
      UnframeParts(Header(|data|).value, data, rest);
    }
  }

  predicate Announces(head: Bytes, n: nat) {
    head != [] && |head| == head[0] % 4 + 1 && FromLittle(head) / 4 == n
  }

  lemma HeaderForm(n: nat)
    ensures Header(n).Some? <==> n < 0x4000_0000
    ensures n < 0x4000_0000 ==> Announces(Header(n).value, n)
  {
    if n <= 0x3F {
      ShortHeader(n);
    } else if n <= 0x3FFF {
      SmallHeader(n);
    } else if n <= 0x3FFFFF {
      MiddleHeader(n);
    } else {
      LargeHeader(n);
    }
  }

  lemma ShortHeader(n: nat)
    requires n <= 0x3F
    ensures Header(n).Some? && Announces(Header(n).value, n)
  {
    var head: Bytes := [4 * n];
    assert FromLittle(head) == 4 * n + 256 * FromLittle(head[1..]);
    assert Header(n) == Some(head);
  }

  lemma SmallHeader(n: nat)
    requires 0x3F < n <= 0x3FFF
    ensures Header(n).Some? && Announces(Header(n).value, n)
  {
    FlagBits(n);
    assert Pow256(2) == 0x1_0000 by { PowersOfTwo(); }
    var head := LittleHead(n, 1, 2);
    assert Header(n) == Some(head);
  }

  lemma MiddleHeader(n: nat)
    requires 0x3FFF < n <= 0x3FFFFF
    ensures Header(n).Some? && Announces(Header(n).value, n)
  {
    FlagBits(n);
    var head := ThreeByteHead(n);
    assert Header(n) == Some(head);
  }

  lemma ThreeByteHead(n: nat) returns (head: Bytes)
    requires n <= 0x3FFFFF
    ensures head == ToLittle(4 * n + 2, 4)[..3] && Announces(head, n)
  {
    assert Pow256(4) == 0x1_0000_0000 by { PowersOfTwo(); }
    var four := LittleHead(n, 2, 4);
    ThreeBytes(4 * n + 2);
    head := four[..3];
    assert head[0] == four[0];
  }

  lemma LargeHeader(n: nat)
    requires 0x3FFFFF < n
    ensures Header(n).Some? <==> n < 0x4000_0000
    ensures n < 0x4000_0000 ==> Announces(Header(n).value, n)
  {
    FlagBits(n);
    assert 4 * n + 3 < Pow256(4) <==> n < 0x4000_0000 by { PowersOfTwo(); }
    if n < 0x4000_0000 {
      var head := LittleHead(n, 3, 4);
      assert Header(n) == Some(head);
    } else {
      assert Header(n) == None;
    }
  }

  lemma LittleHead(n: nat, flags: nat, w: nat) returns (head: Bytes)
    requires flags < 4 && w > 0 && 4 * n + flags < Pow256(w)
    ensures head == ToLittle(4 * n + flags, w) && |head| == w
    ensures head[0] % 4 == flags && FromLittle(head) / 4 == n
  {
    head := ToLittle(4 * n + flags, w);
    LittleRoundTrip(4 * n + flags, w);
    assert head[0] == (4 * n + flags) % 256;
  }

  lemma ThreeBytes(x: nat)
    requires x < 0x100_0000
    ensures x < Pow256(4)
    ensures FromLittle(ToLittle(x, 4)[..3]) == x
  {
    PowersOfTwo();
    LittleRoundTrip(x, 4);
    var s := ToLittle(x, 4);
    assert x / 256 / 256 / 256 == 0;
    assert ToLittle(x / 256, 3)[1..] == ToLittle(x / 256 / 256, 2);
    assert ToLittle(x / 256 / 256, 2)[1..] == ToLittle(0, 1);
    assert s[3] == 0;
    assert s == s[..3] + [0];
    FromLittleTop(s[..3]);
  }

  // ---- reading one reply from the socket ----

  /** The bytes received until the peer closes the connection, which an empty chunk tells. */
  function Received(chunks: seq<Bytes>): Bytes {
    if chunks == [] || chunks[0] == [] then [] else chunks[0] + Received(chunks[1..])
  }

  lemma UnframeStable(s: Bytes, more: Bytes)
    requires Unframe(s).Some?
    ensures Unframe(s + more) == Unframe(s)
  {
    var t := s + more;
    var hl := s[0] % 4 + 1;
    assert t[..hl] == s[..hl];
    var n := FromLittle(s[..hl]) / 4;
    assert t[hl..hl + n] == s[hl..hl + n];
  }

  /** First until the header is complete, then until the message is; an exhausted list of chunks is a
      closed connection. */
  method ReadReply(chunks: seq<Bytes>) returns (body: Option<Bytes>)
    ensures body == Unframe(Received(chunks))
  {
    var buf: Bytes, i := [], 0;
    while |buf| < 1 || |buf| < buf[0] % 4 + 1
      invariant i <= |chunks| && buf + Received(chunks[i..]) == Received(chunks)
      decreases |chunks| - i
    {
      if i == |chunks| || chunks[i] == [] {
        CutShort(buf, chunks, i);
        return None;
      }
      var more := buf + chunks[i];
      ReceivedNext(buf, chunks, i, more);
      buf, i := more, i + 1;
    }
    var hl := buf[0] % 4 + 1;
    var n := FromLittle(buf[..hl]) / 4;
    while |buf| < hl + n
      invariant i <= |chunks| && buf + Received(chunks[i..]) == Received(chunks)
      invariant Heads(buf, hl, n)
      decreases |chunks| - i
    {
      if i == |chunks| || chunks[i] == [] {
        CutShort(buf, chunks, i);
        return None;
      }
      var more := buf + chunks[i];
      ReceivedNext(buf, chunks, i, more);
      HeadStable(buf, chunks[i], hl, n);
      buf, i := more, i + 1;
    }
    ReplyComplete(buf, Received(chunks[i..]), Received(chunks), hl, n);
    return Some(buf[hl..hl + n]);
  }

  /** `buf` starts with a header of `hl` bytes that announces `n` more. */
  predicate Heads(buf: Bytes, hl: nat, n: nat) {
    0 < hl <= |buf| && hl == buf[0] % 4 + 1 && n == FromLittle(buf[..hl]) / 4
  }

  lemma CutShort(buf: Bytes, chunks: seq<Bytes>, i: nat)
    requires i <= |chunks| && (i == |chunks| || chunks[i] == [])
    requires buf + Received(chunks[i..]) == Received(chunks) && Unframe(buf).None?
    ensures Unframe(Received(chunks)).None?
  {
    assert buf + Received(chunks[i..]) == buf;
  }

  lemma ReplyComplete(buf: Bytes, more: Bytes, all: Bytes, hl: nat, n: nat)
    requires Heads(buf, hl, n) && hl + n <= |buf| && buf + more == all
    ensures Unframe(all) == Some(buf[hl..hl + n])
  {
    UnframeStable(buf, more);
  }

  lemma HeadStable(s: Bytes, more: Bytes, hl: nat, n: nat)
    requires Heads(s, hl, n)
    ensures Heads(s + more, hl, n)
  {
    assert (s + more)[..hl] == s[..hl];
  }

  lemma ReceivedNext(buf: Bytes, chunks: seq<Bytes>, i: nat, more: Bytes)
    requires i < |chunks| && chunks[i] != [] && more == buf + chunks[i]
    ensures more + Received(chunks[i + 1..]) == buf + Received(chunks[i..])
  {
    assert chunks[i..][1..] == chunks[i + 1..];
  }

  /** A framed message is read back however the network cuts it up. */
  lemma ReplySurvivesChunking(data: Bytes, chunks: seq<Bytes>, rest: Bytes)
    requires HbbFrame(data).Some? && Received(chunks) == HbbFrame(data).value + rest
    ensures Unframe(Received(chunks)) == Some(data)
  {
    FrameRoundTrip(data, rest);
  }

  // ---- the answer ----

  /** The payload of the last field 1, `states` if there is none. */
  function LastStates(inner: Bytes, states: Bytes): Option<Bytes>
    decreases |inner|
  {
    if inner == [] then Some(states)
    else
      match ReadField(inner)
      case None => None
      case Some((tag, payload, rest)) => LastStates(rest, if tag == 10 then payload else states)
  }

  /** The bitmap in an online response (field 24 of the message). */
  function StatesOf(body: Bytes): Option<Bytes> {
    match ReadField(body)
    case None => None
    case Some((tag, inner, _)) => if tag != 194 then None else LastStates(inner, [])
  }

  function Bit(states: Bytes, k: nat): bool {
    k / 8 < |states| && states[k / 8] / Pow2(7 - k % 8) % 2 == 1
  }

  /** `{id: bit}` in the order of the IDs; a repeated ID keeps its last bit. */
  function Answers(ids: seq<Bytes>, states: Bytes): map<Bytes, bool> {
    if ids == [] then map[]
    else Answers(ids[..|ids| - 1], states)[ids[|ids| - 1] := Bit(states, |ids| - 1)]
  }

  function BatchResult(ids: seq<Bytes>, chunks: seq<Bytes>): Option<map<Bytes, bool>> {
    match Unframe(Received(chunks))
    case None => None
    case Some(body) =>
      match StatesOf(body)
      case None => None
      case Some(states) => Some(Answers(ids, states))
  }

  method OnlineBatch(ids: seq<Bytes>, chunks: seq<Bytes>) returns (r: Option<map<Bytes, bool>>)
    ensures r == BatchResult(ids, chunks)
  {
    var body := ReadReply(chunks);
    if body.None? { return None; }
    var b := body.value;
    var tag := PbReadVarint(b, 0);
    assert b[0..] == b;
    if tag.None? || tag.value.0 != 194 {
      return None;
    }
    var len := PbReadVarint(b, tag.value.1);
    if len.None? { return None; }
    var inner := Take(b[len.value.1..], len.value.0);
    InnerStates(b, tag.value.1, len.value.0, len.value.1, inner);
    var states := ReadStates(inner);
    if states.None? { return None; }
    var out: map<Bytes, bool> := map[];
    for k := 0 to |ids|
      invariant out == Answers(ids[..k], states.value)
    {
      assert ids[..k + 1][..k] == ids[..k];
      out := out[ids[k] := Bit(states.value, k)];
    }
    assert ids[..|ids|] == ids;
    return Some(out);
  }

  lemma InnerStates(b: Bytes, used: nat, n: nat, j: nat, inner: Bytes)
    requires used <= j <= |b| && ReadVarint(b) == Some((194, used)) && ReadVarint(b[used..]) == Some((n, j - used))
    requires inner == Take(b[j..], n)
    ensures StatesOf(b) == LastStates(inner, [])
  {
    Suffix(b, used, j);
  }

  method ReadStates(inner: Bytes) returns (states: Option<Bytes>)
    ensures states == LastStates(inner, [])
  {
    var s: Bytes, j: nat, ok := [], 0, true;
    assert Drop(inner, 0) == inner;
    while j < |inner|
      invariant LastStates(inner, []) == LastStates(Drop(inner, j), s)
      decreases |inner| - j
    {
      ok, s, j := NextStates(inner, j, s);
      if !ok { return None; }
    }
    return Some(s);
  }

  /** One round of the loop over the response's fields: the states known and the position reached. */
  method NextStates(inner: Bytes, j: nat, s: Bytes) returns (ok: bool, known: Bytes, next: nat)
    requires j < |inner|
    ensures next > j
    ensures !ok ==> LastStates(Drop(inner, j), s) == None
    ensures ok ==> LastStates(Drop(inner, j), s) == LastStates(Drop(inner, next), known)
  {
    var t := PbReadVarint(inner, j);
    if t.None? {
      NoTag(inner, j, s);
      return false, s, j + 1;
    }
    var l := PbReadVarint(inner, t.value.1);
    if l.None? {
      NoLength(inner, j, t.value, s);
      return false, s, j + 1;
    }
    var n, at := l.value.0, l.value.1;
    ok, known, next := true, if t.value.0 == 10 then Take(inner[at..], n) else s, at + n;
    StatesStep(inner, j, t.value, l.value, s, known, next);
  }

  lemma NoTag(inner: Bytes, j: nat, s: Bytes)
    requires j < |inner| && ReadVarint(inner[j..]).None?
    ensures LastStates(Drop(inner, j), s).None?
  {
  }

  lemma NoLength(inner: Bytes, j: nat, t: (nat, nat), s: Bytes)
    requires j < |inner| && j < t.1 <= |inner| && ReadVarint(inner[j..]) == Some((t.0, t.1 - j))
    requires ReadVarint(inner[t.1..]).None?
    ensures LastStates(Drop(inner, j), s).None?
  {
    Suffix(inner, j, t.1);
    assert ReadField(Drop(inner, j)).None?;
  }

  lemma FieldAt(inner: Bytes, j: nat, t: (nat, nat), l: (nat, nat))
    requires j < |inner| && j < t.1 <= |inner| && t.1 < l.1 <= |inner|
    requires ReadVarint(inner[j..]) == Some((t.0, t.1 - j)) && ReadVarint(inner[t.1..]) == Some((l.0, l.1 - t.1))
    ensures ReadField(Drop(inner, j)) == Some((t.0, Take(inner[l.1..], l.0), Drop(inner[l.1..], l.0)))
  {
    Suffix(inner, j, t.1);
    Suffix(inner, t.1, l.1);
    assert ReadPayload(t.0, inner[t.1..]) == Some((t.0, Take(inner[l.1..], l.0), Drop(inner[l.1..], l.0)));
  }

  lemma StatesStep(inner: Bytes, j: nat, t: (nat, nat), l: (nat, nat), s: Bytes, known: Bytes,
                   next: nat)
    requires j < |inner| && j < t.1 <= |inner| && t.1 < l.1 <= |inner|
    requires ReadVarint(inner[j..]) == Some((t.0, t.1 - j)) && ReadVarint(inner[t.1..]) == Some((l.0, l.1 - t.1))
    requires known == if t.0 == 10 then Take(inner[l.1..], l.0) else s
    requires next == l.1 + l.0
    ensures LastStates(Drop(inner, j), s) == LastStates(Drop(inner, next), known)
  {
    FieldAt(inner, j, t, l);
    DropFurther(inner, l.1, l.0, next);
    StatesCons(Drop(inner, j), (t.0, Take(inner[l.1..], l.0), Drop(inner, next)), s, known);
  }

  lemma DropFurther(s: Bytes, i: nat, n: nat, next: nat)
    requires i <= |s| && next == i + n
    ensures Drop(s[i..], n) == Drop(s, next)
  {
  }

  lemma StatesCons(inner: Bytes, field: (nat, Bytes, Bytes), s: Bytes, known: Bytes)
    requires inner != [] && ReadField(inner) == Some(field) && known == if field.0 == 10 then field.1 else s
    ensures LastStates(inner, s) == LastStates(field.2, known)
  {
  }

  /** The source's loop over batches; any failure makes the whole query fail. */
  method Online(ids: seq<Bytes>, replies: seq<seq<Bytes>>, batch: nat) returns (r: Option<map<Bytes, bool>>)
    requires batch > 0
    ensures r == OnlineResult(ids, replies, batch)
  {
    var out: map<Bytes, bool>, ok, k, left := map[], true, 0, replies;
    assert ids[0..] == ids;
    UpdateNothing(OnlineResult(ids, replies, batch));
    while k < |ids|
      invariant k <= |ids|
      invariant OnlineResult(ids, replies, batch) == UpdatedBy(out, OnlineResult(ids[k..], left, batch))
      decreases |ids| - k
    {
      var next := if batch <= |ids| - k then k + batch else |ids|;
      var later := Rest(left);
      ok, out := NextBatch(out, ids, k, next, left, later, batch);
      if !ok { return None; }
      k, left := next, later;
    }
    UpdatedByNothing(out);
    return Some(out);
  }

  /** One round of that loop: the answers of a batch go over those of the batches before. */
  method NextBatch(out: map<Bytes, bool>, ids: seq<Bytes>, k: nat, next: nat, left: seq<seq<Bytes>>,
                   later: seq<seq<Bytes>>, batch: nat)
      returns (ok: bool, updated: map<Bytes, bool>)
    requires batch > 0 && k < |ids| && next == (if batch <= |ids| - k then k + batch else |ids|) && later == Rest(left)
    ensures !ok ==> UpdatedBy(out, OnlineResult(ids[k..], left, batch)).None?
    ensures ok ==> UpdatedBy(out, OnlineResult(ids[k..], left, batch))
                   == UpdatedBy(updated, OnlineResult(ids[next..], later, batch))
  {
    var answer := OnlineBatch(ids[k..next], First(left));
    if answer.None? {
      OnlineFails(ids, k, next, left, batch);
      return false, out;
    }
    ok, updated := true, out + answer.value;
    OnlineStep(out, ids, k, next, left, later, batch, answer.value, updated);
  }

  lemma OnlineFails(ids: seq<Bytes>, k: nat, next: nat, replies: seq<seq<Bytes>>, batch: nat)
    requires batch > 0 && k < |ids| && next == (if batch <= |ids| - k then k + batch else |ids|)
    requires BatchResult(ids[k..next], First(replies)).None?
    ensures OnlineResult(ids[k..], replies, batch).None?
  {
    assert ids[k..][..next - k] == ids[k..next];
  }

  lemma OnlineStep(out: map<Bytes, bool>, ids: seq<Bytes>, k: nat, next: nat, replies: seq<seq<Bytes>>,
                   later: seq<seq<Bytes>>, batch: nat, answer: map<Bytes, bool>, updated: map<Bytes, bool>)
    requires batch > 0 && k < |ids| && next == (if batch <= |ids| - k then k + batch else |ids|)
    requires later == Rest(replies) && BatchResult(ids[k..next], First(replies)) == Some(answer) && updated == out + answer
    ensures UpdatedBy(out, OnlineResult(ids[k..], replies, batch))
            == UpdatedBy(updated, OnlineResult(ids[next..], later, batch))
  {
    OnlineNext(ids, k, next, replies, later, batch, answer);
    UpdateTwice(out, answer, OnlineResult(ids[next..], later, batch));
  }

  lemma OnlineNext(ids: seq<Bytes>, k: nat, next: nat, replies: seq<seq<Bytes>>, later: seq<seq<Bytes>>, batch: nat,
                   answer: map<Bytes, bool>)
    requires batch > 0 && k < |ids| && next == (if batch <= |ids| - k then k + batch else |ids|)
    requires later == Rest(replies) && BatchResult(ids[k..next], First(replies)) == Some(answer)
    ensures OnlineResult(ids[k..], replies, batch) == UpdatedBy(answer, OnlineResult(ids[next..], later, batch))
  {
    assert ids[k..][..next - k] == ids[k..next] && ids[k..][next - k..] == ids[next..];
  }

  /** What the next connection yields; one that is missing is closed at once. */
  function First(replies: seq<seq<Bytes>>): seq<Bytes> {
    if replies == [] then [] else replies[0]
  }

  function Rest(replies: seq<seq<Bytes>>): seq<seq<Bytes>> {
    if replies == [] then [] else replies[1..]
  }

  function UpdatedBy(m: map<Bytes, bool>, r: Option<map<Bytes, bool>>): Option<map<Bytes, bool>> {
    match r
    case None => None
    case Some(n) => Some(m + n)
  }

  lemma UpdateNothing(r: Option<map<Bytes, bool>>)
    ensures UpdatedBy(map[], r) == r
  {
    if r.Some? {
      assert map[] + r.value == r.value;
    }
  }

  lemma UpdatedByNothing(m: map<Bytes, bool>)
    ensures UpdatedBy(m, Some(map[])) == Some(m)
  {
    assert m + map[] == m;
  }

  lemma UpdateTwice(a: map<Bytes, bool>, b: map<Bytes, bool>, r: Option<map<Bytes, bool>>)
    ensures UpdatedBy(a, UpdatedBy(b, r)) == UpdatedBy(a + b, r)
  {
    if r.Some? {
      assert a + (b + r.value) == (a + b) + r.value;
    }
  }

  /** Batch by batch. */
  function OnlineResult(ids: seq<Bytes>, replies: seq<seq<Bytes>>, batch: nat): Option<map<Bytes, bool>>
    requires batch > 0
    decreases |ids|
  {
    if ids == [] then Some(map[])
    else
      var n := if batch <= |ids| then batch else |ids|;
      match BatchResult(ids[..n], First(replies))
      case None => None
      case Some(m) => UpdatedBy(m, OnlineResult(ids[n..], Rest(replies), batch))
  }

  // ---- a server that knows who is online ----

  predicate BitAt(flags: seq<bool>, i: nat) {
    i < |flags| && flags[i]
  }

  /** `w` flags as a number, the first as its most significant bit. */
  function BitsValue(flags: seq<bool>, from: nat, w: nat): (x: nat)
    ensures x < Pow2(w)
  {
    if w == 0 then 0 else 2 * BitsValue(flags, from, w - 1) + if BitAt(flags, from + w - 1) then 1 else 0
  }

  function Bitmap(flags: seq<bool>): Bytes {
    PowersOfTwo();
    seq((|flags| + 7) / 8, j requires 0 <= j < (|flags| + 7) / 8 => ByteAt(flags, j))
  }

  function ByteAt(flags: seq<bool>, j: nat): byte {
    PowersOfTwo();
    BitsValue(flags, 8 * j, 8)
  }

  lemma HalfOfQuotient(x: nat, p: nat)
    requires p > 0
    ensures x / (2 * p) == (x / 2) / p
  {
    var q, r := x / 2 / p, x / 2 % p;
    assert x == 2 * p * q + (2 * r + x % 2);
    assert 0 <= 2 * r + x % 2 < 2 * p;
    QuotientUnique(x, 2 * p, q, 2 * r + x % 2);
  }

  lemma QuotientUnique(x: nat, d: nat, q: nat, r: nat)
    requires d > 0 && r < d && x == d * q + r
    ensures x / d == q
  {
    var k := x / d - q;
    assert d * k == r - x % d;
    assert k == 0;
  }

  lemma {:induction false} BitsShift(flags: seq<bool>, from: nat, w: nat, k: nat)
    requires k <= w
    ensures BitsValue(flags, from, w) / Pow2(k) == BitsValue(flags, from, w - k)
    decreases k
  {
    if k > 0 {
      BitsHalf(flags, from, w);
      HalfOfQuotient(BitsValue(flags, from, w), Pow2(k - 1));
      BitsShift(flags, from, w - 1, k - 1);
    }
  }

  lemma BitsHalf(flags: seq<bool>, from: nat, w: nat)
    requires w > 0
    ensures BitsValue(flags, from, w) / 2 == BitsValue(flags, from, w - 1)
  {
  }

  lemma BitOfBitmap(flags: seq<bool>, k: nat)
    ensures Bit(Bitmap(flags), k) == BitAt(flags, k)
  {
    if k / 8 < |Bitmap(flags)| {
      BitsShift(flags, 8 * (k / 8), 8, 7 - k % 8);
      assert 8 * (k / 8) + (8 - (7 - k % 8)) - 1 == k;
    }
  }

  /** With distinct IDs each gets the bit at its own position, and is offline past the end of the bitmap. */
  lemma {:induction false} AnswersByPosition(ids: seq<Bytes>, states: Bytes, k: nat)
    requires k < |ids| && forall i, j :: 0 <= i < j < |ids| ==> ids[i] != ids[j]
    ensures ids[k] in Answers(ids, states) && Answers(ids, states)[ids[k]] == Bit(states, k)
    ensures k >= 8 * |states| ==> !Answers(ids, states)[ids[k]]
  {
    if k < |ids| - 1 {
      AnswersByPosition(ids[..|ids| - 1], states, k);
    }
  }

  function Flags(ids: seq<Bytes>, online: Bytes -> bool): (fs: seq<bool>)
    ensures |fs| == |ids| && forall i :: 0 <= i < |ids| ==> fs[i] == online(ids[i])
  {
    seq(|ids|, i requires 0 <= i < |ids| => online(ids[i]))
  }

  /** The message with which hbbs answers: field 24 holding a bitmap in field 1. */
  function Reply(ids: seq<Bytes>, online: Bytes -> bool): Bytes {
    Field(24, Field(1, Bitmap(Flags(ids, online))))
  }

  ghost predicate Answered(chunks: seq<Bytes>, ids: seq<Bytes>, online: Bytes -> bool) {
    HbbFrame(Reply(ids, online)).Some? && HbbFrame(Reply(ids, online)).value <= Received(chunks)
  }

  function Truth(ids: seq<Bytes>, online: Bytes -> bool): map<Bytes, bool> {
    map id | id in ids :: online(id)
  }

  lemma {:induction false} AnswersTruth(ids: seq<Bytes>, states: Bytes, online: Bytes -> bool)
    requires forall k :: 0 <= k < |ids| ==> Bit(states, k) == online(ids[k])
    ensures Answers(ids, states) == Truth(ids, online)
  {
    if ids != [] {
      var n := |ids| - 1;
      AnswersTruth(ids[..n], states, online);
      TruthLast(ids, n, online);
    }
  }

  lemma TruthLast(ids: seq<Bytes>, n: nat, online: Bytes -> bool)
    requires |ids| == n + 1
    ensures Truth(ids, online) == Truth(ids[..n], online)[ids[n] := online(ids[n])]
  {
    assert ids == ids[..n] + [ids[n]];
  }

  lemma ReplyStates(bitmap: Bytes)
    ensures StatesOf(Field(24, Field(1, bitmap))) == Some(bitmap)
  {
    FieldRoundTrip(24, Field(1, bitmap), []);
    FieldRoundTrip(1, bitmap, []);
    assert Field(24, Field(1, bitmap)) + [] == Field(24, Field(1, bitmap));
    assert Field(1, bitmap) + [] == Field(1, bitmap);
    assert LastStates([], bitmap) == Some(bitmap);
    assert LastStates(Field(1, bitmap), []) == LastStates([], bitmap);
  }

  lemma BatchTruth(ids: seq<Bytes>, online: Bytes -> bool, chunks: seq<Bytes>)
    requires Answered(chunks, ids, online)
    ensures BatchResult(ids, chunks) == Some(Truth(ids, online))
  {
    var frame, stream := HbbFrame(Reply(ids, online)).value, Received(chunks);
    assert stream == frame + stream[|frame|..];
    FrameRoundTrip(Reply(ids, online), stream[|frame|..]);
    var bitmap := Bitmap(Flags(ids, online));
    ReplyStates(bitmap);
    forall k | 0 <= k < |ids| ensures Bit(bitmap, k) == online(ids[k]) {
      BitOfBitmap(Flags(ids, online), k);
    }
    AnswersTruth(ids, bitmap, online);
  }

  lemma TruthSplit(ids: seq<Bytes>, n: nat, online: Bytes -> bool)
    requires n <= |ids|
    ensures Truth(ids[..n], online) + Truth(ids[n..], online) == Truth(ids, online)
  {
    assert ids == ids[..n] + ids[n..];
  }

  ghost predicate AllAnswered(ids: seq<Bytes>, replies: seq<seq<Bytes>>, batch: nat, online: Bytes -> bool)
    requires batch > 0
    decreases |ids|
  {
    ids != [] ==>
      var n := if batch <= |ids| then batch else |ids|;
      replies != [] && Answered(replies[0], ids[..n], online) && AllAnswered(ids[n..], replies[1..], batch, online)
  }

  /** The whole query, repeated IDs included: if the server answers every batch, then whatever the
      network does to its replies, the agent knows for exactly the IDs asked whether each is online. */
  lemma {:induction false} OnlineTruth(ids: seq<Bytes>, replies: seq<seq<Bytes>>, batch: nat, online: Bytes -> bool)
    requires batch > 0 && AllAnswered(ids, replies, batch, online)
    ensures OnlineResult(ids, replies, batch) == Some(Truth(ids, online))
    decreases |ids|
  {
    if ids != [] {
      var n := if batch <= |ids| then batch else |ids|;
      BatchTruth(ids[..n], online, replies[0]);
      OnlineTruth(ids[n..], replies[1..], batch, online);
      TruthSplit(ids, n, online);
    }
  }
}
