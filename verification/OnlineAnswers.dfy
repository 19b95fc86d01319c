/** What the agent makes of anything that the hbbs server may send: which replies are understood, when the whole query
    fails, and which bit each ID gets otherwise. */
module OnlineAnswers {
  import opened Wrappers
  import opened Bits
  import opened RustDeskWire

  // ---- what is received ----

  function Concat(chunks: seq<Bytes>): Bytes {
    if chunks == [] then [] else chunks[0] + Concat(chunks[1..])
  }

  /** What counts is what arrives before the connection is closed. */
  lemma {:induction false} ReceivedUntilClosed(chunks: seq<Bytes>, later: seq<Bytes>)
    requires [] !in chunks
    ensures Received(chunks) == Concat(chunks) == Received(chunks + [[]] + later)
  {
    if chunks != [] {
      ReceivedUntilClosed(chunks[1..], later);
      assert (chunks + [[]] + later)[1..] == chunks[1..] + [[]] + later;
      assert chunks[0] in chunks && forall c :: c in chunks[1..] ==> c in chunks;
    }
  }

  /** The stream starts with a header, as many bytes as its two low bits say and one, that announces `body`, and all of
      `body` is there. */
  ghost predicate HoldsFrame(s: Bytes, body: Bytes) {
    && s != []
    && var size := s[0] % 4 + 1;
       size + |body| <= |s| && FromLittle(s[..size]) / 4 == |body| && s[size..size + |body|] == body
  }

  /** Fewer bytes than the header has or announces. */
  ghost predicate CutShort(s: Bytes) {
    s == [] || |s| < s[0] % 4 + 1 || |s| < s[0] % 4 + 1 + FromLittle(s[..s[0] % 4 + 1]) / 4
  }

  lemma UnframeExactly(s: Bytes, body: Bytes)
    ensures Unframe(s) == Some(body) <==> HoldsFrame(s, body)
    ensures Unframe(s) == None <==> CutShort(s)
  {
  }

  // ---- what the message says ----

  /** A number can be read unless every byte says that another one follows. */
  lemma {:induction false} VarintCut(s: Bytes)
    ensures ReadVarint(s) == None <==> forall i :: 0 <= i < |s| ==> s[i] >= 128
  {
    if s != [] {
      VarintCut(s[1..]);
      assert forall i :: 0 < i < |s| ==> s[i] == s[1..][i - 1];
      assert forall i :: 0 <= i < |s| - 1 ==> s[1..][i] == s[i + 1];
    }
  }

  /** The field at the front: two numbers, then as many bytes as the second says or as there are. */
  ghost predicate Begins(s: Bytes, tag: nat, payload: Bytes, rest: Bytes) {
    exists i: nat, n: nat, j: nat :: BeginsAt(s, tag, i, n, j, payload, rest)
  }

  ghost predicate BeginsAt(s: Bytes, tag: nat, i: nat, n: nat, j: nat, payload: Bytes, rest: Bytes) {
    && i + j <= |s| && ReadVarint(s) == Some((tag, i)) && ReadVarint(s[i..]) == Some((n, j))
    && payload + rest == s[i + j..] && (|payload| == n || (rest == [] && |payload| < n))
  }

  lemma FieldExactly(s: Bytes, tag: nat, payload: Bytes, rest: Bytes)
    ensures ReadField(s) == Some((tag, payload, rest)) <==> Begins(s, tag, payload, rest)
  {
    if ReadField(s) == Some((tag, payload, rest)) {
      FieldBegins(s, tag, payload, rest, ReadVarint(s).value.1);
    }
    if Begins(s, tag, payload, rest) {
      BeginsField(s, tag, payload, rest);
    }
  }

  lemma BeginsField(s: Bytes, tag: nat, payload: Bytes, rest: Bytes)
    requires Begins(s, tag, payload, rest)
    ensures ReadField(s) == Some((tag, payload, rest))
  {
    var i: nat, n: nat, j: nat :| BeginsAt(s, tag, i, n, j, payload, rest);
    Suffix(s, i, i + j);
    PayloadReads(s, tag, i, s[i..], n, j, payload, rest);
  }

  lemma FieldBegins(s: Bytes, tag: nat, payload: Bytes, rest: Bytes, i: nat)
    requires ReadVarint(s) == Some((tag, i)) && i <= |s| && ReadPayload(tag, s[i..]) == Some((tag, payload, rest))
    ensures Begins(s, tag, payload, rest)
  {
    var (n, j) := ReadVarint(s[i..]).value;
    TakeDrop(s[i..][j..], n);
    Suffix(s, i, i + j);
    assert BeginsAt(s, tag, i, n, j, payload, rest);
  }

  lemma PayloadReads(s: Bytes, tag: nat, i: nat, t: Bytes, n: nat, j: nat, payload: Bytes, rest: Bytes)
    requires ReadVarint(s) == Some((tag, i)) && i <= |s| && t == s[i..]
    requires ReadVarint(t) == Some((n, j)) && j <= |t| && payload + rest == t[j..]
    requires |payload| == n || (rest == [] && |payload| < n)
    ensures ReadField(s) == Some((tag, payload, rest))
  {
    Parted(payload, rest, n);
    assert ReadPayload(tag, t) == Some((tag, payload, rest));
  }

  lemma TakeDrop(s: Bytes, n: nat)
    ensures Take(s, n) + Drop(s, n) == s
    ensures |Take(s, n)| == n || (Drop(s, n) == [] && |Take(s, n)| < n)
  {
  }

  lemma Parted(payload: Bytes, rest: Bytes, n: nat)
    requires |payload| == n || (rest == [] && |payload| < n)
    ensures Take(payload + rest, n) == payload && Drop(payload + rest, n) == rest
  {
  }

  /** The payload of the last field 1, `before` if there is none. */
  ghost predicate LastOne(fs: seq<(nat, Bytes)>, before: Bytes, states: Bytes) {
    || (states == before && forall i :: 0 <= i < |fs| ==> fs[i].0 != 10)
    || exists i :: 0 <= i < |fs| && fs[i] == (10, states) && forall j :: i < j < |fs| ==> fs[j].0 != 10
  }

  lemma {:induction false} StatesExactly(inner: Bytes, before: Bytes, states: Bytes)
    ensures LastStates(inner, before) == Some(states) <==> Fields(inner).Some? && LastOne(Fields(inner).value, before, states)
    decreases |inner|
  {
    if inner != [] && ReadField(inner).Some? {
      var (tag, payload, rest) := ReadField(inner).value;
      var now := if tag == 10 then payload else before;
      StatesExactly(rest, now, states);
      if Fields(rest).Some? {
        LastOneCons(tag, payload, Fields(rest).value, before, now, states);
      }
    }
  }

  lemma LastOneCons(tag: nat, payload: Bytes, fs: seq<(nat, Bytes)>, before: Bytes, now: Bytes, states: Bytes)
    requires now == if tag == 10 then payload else before
    ensures LastOne([(tag, payload)] + fs, before, states) <==> LastOne(fs, now, states)
  {
    var all := [(tag, payload)] + fs;
    var i := LastTen(fs);
    assert forall k :: 0 < k < |all| ==> all[k] == fs[k - 1];
    if i >= 0 {
      LastIs(fs, i, now, states);
      LastIs(all, i + 1, before, states);
    } else {
      NoneIs(fs, now, states);
      if tag == 10 {
        LastIs(all, 0, before, states);
      } else {
        assert all[0] == (tag, payload);
        NoneIs(all, before, states);
      }
    }
  }

  /** The place of the last field 1, or -1. */
  lemma LastTen(fs: seq<(nat, Bytes)>) returns (i: int)
    ensures -1 <= i < |fs| && (i >= 0 ==> fs[i].0 == 10) && forall k :: i < k < |fs| ==> fs[k].0 != 10
  {
    i := |fs| - 1;
    while i >= 0 && fs[i].0 != 10
      invariant -1 <= i < |fs| && forall k :: i < k < |fs| ==> fs[k].0 != 10
    {
      i := i - 1;
    }
  }

  lemma LastIs(fs: seq<(nat, Bytes)>, i: nat, before: Bytes, states: Bytes)
    requires i < |fs| && fs[i].0 == 10 && forall j :: i < j < |fs| ==> fs[j].0 != 10
    ensures LastOne(fs, before, states) <==> states == fs[i].1
  {
  }

  lemma NoneIs(fs: seq<(nat, Bytes)>, before: Bytes, states: Bytes)
    requires forall i :: 0 <= i < |fs| ==> fs[i].0 != 10
    ensures LastOne(fs, before, states) <==> states == before
  {
  }

  /** The message is an online response, field 24, whose content consists of readable fields, the last field 1 of them
      holding `states`. */
  ghost predicate Response(body: Bytes, states: Bytes) {
    exists inner, rest :: Begins(body, 194, inner, rest) && Fields(inner).Some? && LastOne(Fields(inner).value, [], states)
  }

  lemma ResponseExactly(body: Bytes, states: Bytes)
    ensures StatesOf(body) == Some(states) <==> Response(body, states)
  {
    if ReadField(body).Some? {
      var (tag, inner, rest) := ReadField(body).value;
      FieldExactly(body, tag, inner, rest);
      StatesExactly(inner, [], states);
    }
    if Response(body, states) {
      var inner, rest :| Begins(body, 194, inner, rest) && Fields(inner).Some? && LastOne(Fields(inner).value, [], states);
      FieldExactly(body, 194, inner, rest);
    }
  }

  // ---- one batch ----

  /** A whole frame was received, and its message tells the states. */
  ghost predicate Says(chunks: seq<Bytes>, states: Bytes) {
    exists body :: HoldsFrame(Received(chunks), body) && Response(body, states)
  }

  lemma BatchExactly(ids: seq<Bytes>, chunks: seq<Bytes>, states: Bytes)
    ensures Says(chunks, states) ==> BatchResult(ids, chunks) == Some(Answers(ids, states))
    ensures BatchResult(ids, chunks) == None <==> !exists t :: Says(chunks, t)
  {
    if Says(chunks, states) {
      SaysStates(ids, chunks, states);
    }
    if exists t :: Says(chunks, t) {
      var t :| Says(chunks, t);
      SaysStates(ids, chunks, t);
    }
    if BatchResult(ids, chunks).Some? {
      var body := Unframe(Received(chunks)).value;
      UnframeExactly(Received(chunks), body);
      ResponseExactly(body, StatesOf(body).value);
      assert Says(chunks, StatesOf(body).value);
    }
  }

  lemma SaysStates(ids: seq<Bytes>, chunks: seq<Bytes>, states: Bytes)
    requires Says(chunks, states)
    ensures BatchResult(ids, chunks) == Some(Answers(ids, states))
  {
    var body :| HoldsFrame(Received(chunks), body) && Response(body, states);
    UnframeExactly(Received(chunks), body);
    ResponseExactly(body, states);
  }

  // ---- the whole query ----

  /** What the `b`-th connection yields; one that is missing is closed at once. */
  function ReplyAt(replies: seq<seq<Bytes>>, b: nat): seq<Bytes> {
    if b < |replies| then replies[b] else []
  }

  ghost predicate Understood(replies: seq<seq<Bytes>>, b: nat) {
    exists states :: Says(ReplyAt(replies, b), states)
  }

  lemma LaterReply(replies: seq<seq<Bytes>>, b: nat)
    ensures ReplyAt(Rest(replies), b) == ReplyAt(replies, b + 1) && ReplyAt(replies, 0) == First(replies)
  {
  }

  /** The IDs batch by batch. */
  function Pieces(ids: seq<Bytes>, batch: nat): seq<seq<Bytes>>
    requires batch > 0
    decreases |ids|
  {
    if ids == [] then []
    else
      var n := if batch <= |ids| then batch else |ids|;
      [ids[..n]] + Pieces(ids[n..], batch)
  }

  /** Where the batches start. */
  function StartOf(b: nat, batch: nat): nat {
    if b == 0 then 0 else StartOf(b - 1, batch) + batch
  }

  lemma {:induction false} StartIs(b: nat, batch: nat)
    ensures StartOf(b, batch) == b * batch
  {
    if b > 0 {
      StartIs(b - 1, batch);
    }
  }

  lemma {:induction false} PieceAt(ids: seq<Bytes>, batch: nat, b: nat)
    requires batch > 0
    ensures b < |Pieces(ids, batch)| <==> StartOf(b, batch) < |ids|
    ensures b < |Pieces(ids, batch)| ==>
              var s := StartOf(b, batch);
              Pieces(ids, batch)[b] == ids[s..if s + batch <= |ids| then s + batch else |ids|]
    decreases b
  {
    if ids != [] && b > 0 {
      var n := if batch <= |ids| then batch else |ids|;
      PieceAt(ids[n..], batch, b - 1);
    }
  }

  /** Each ID is in one piece, at one place. */
  lemma PieceOf(ids: seq<Bytes>, batch: nat, k: nat, b: nat, p: nat)
    requires p < batch && k == b * batch + p && k < |ids|
    ensures b < |Pieces(ids, batch)| && p < |Pieces(ids, batch)[b]| && Pieces(ids, batch)[b][p] == ids[k]
    ensures forall i :: p < i < |Pieces(ids, batch)[b]| ==> k + (i - p) < |ids| && Pieces(ids, batch)[b][i] == ids[k + (i - p)]
  {
    StartIs(b, batch);
    PieceAt(ids, batch, b);
  }

  lemma LaterPiece(ids: seq<Bytes>, batch: nat, k: nat, b: nat, p: nat, c: nat, i: nat)
    requires p < batch && k == b * batch + p && k < |ids| && b < c < |Pieces(ids, batch)| && i < |Pieces(ids, batch)[c]|
    ensures exists j :: k < j < |ids| && ids[j] == Pieces(ids, batch)[c][i]
  {
    PieceAt(ids, batch, c);
    StartsApart(b, c, batch);
    StartIs(b, batch);
    assert ids[StartOf(c, batch) + i] == Pieces(ids, batch)[c][i];
  }

  lemma {:induction false} StartsApart(b: nat, c: nat, batch: nat)
    requires b < c
    ensures StartOf(b, batch) + batch <= StartOf(c, batch)
  {
    if b < c - 1 {
      StartsApart(b, c - 1, batch);
    }
  }

  ghost predicate AllUnderstood(count: nat, replies: seq<seq<Bytes>>) {
    forall b :: 0 <= b < count ==> Understood(replies, b)
  }

  lemma NextUnderstood(count: nat, replies: seq<seq<Bytes>>)
    ensures AllUnderstood(count + 1, replies) <==> Understood(replies, 0) && AllUnderstood(count, Rest(replies))
  {
    forall b: nat ensures Understood(Rest(replies), b) <==> Understood(replies, b + 1) {
      LaterReply(replies, b);
    }
    if Understood(replies, 0) && AllUnderstood(count, Rest(replies)) {
      forall b | 0 <= b < count + 1 ensures Understood(replies, b) {
        assert b > 0 ==> Understood(Rest(replies), b - 1) && Understood(replies, (b - 1) + 1);
      }
    }
  }

  /** The query fails exactly when for some batch the connection is closed before a whole frame has arrived, or the
      message is no online response with readable fields inside: a failure is never taken for an answer. */
  lemma {:induction false} OnlineFailsExactly(ids: seq<Bytes>, replies: seq<seq<Bytes>>, batch: nat)
    requires batch > 0
    ensures OnlineResult(ids, replies, batch) == None <==> !AllUnderstood(|Pieces(ids, batch)|, replies)
    decreases |ids|
  {
    if ids != [] {
      var n := if batch <= |ids| then batch else |ids|;
      BatchExactly(ids[..n], First(replies), []);
      LaterReply(replies, 0);
      OnlineFailsExactly(ids[n..], Rest(replies), batch);
      NextUnderstood(|Pieces(ids[n..], batch)|, replies);
    }
  }

  /** A connection that is closed at once fails the query. */
  lemma ClosedFails(ids: seq<Bytes>, replies: seq<seq<Bytes>>, batch: nat, b: nat)
    requires batch > 0 && b * batch < |ids| && Received(ReplyAt(replies, b)) == []
    ensures OnlineResult(ids, replies, batch) == None
  {
    StartIs(b, batch);
    PieceAt(ids, batch, b);
    assert !Understood(replies, b);
    OnlineFailsExactly(ids, replies, batch);
  }

  // ---- the answers ----

  lemma {:induction false} AnswersKeys(ids: seq<Bytes>, states: Bytes)
    ensures Answers(ids, states).Keys == set id | id in ids
  {
    if ids != [] {
      AnswersKeys(ids[..|ids| - 1], states);
      assert ids == ids[..|ids| - 1] + [ids[|ids| - 1]];
    }
  }

  /** The ID at `k` does not occur again. */
  ghost predicate FinalAt(ids: seq<Bytes>, k: nat) {
    k < |ids| && forall i :: k < i < |ids| ==> ids[i] != ids[k]
  }

  /** A repeated ID has the bit at the place of its last occurrence. */
  lemma {:induction false} LastOccurrence(ids: seq<Bytes>, states: Bytes, k: nat)
    requires FinalAt(ids, k)
    ensures ids[k] in Answers(ids, states) && Answers(ids, states)[ids[k]] == Bit(states, k)
  {
    if k < |ids| - 1 {
      LastOccurrence(ids[..|ids| - 1], states, k);
    }
  }

  /** Maps put one over the other. */
  function Merged(parts: seq<map<Bytes, bool>>): map<Bytes, bool> {
    if parts == [] then map[] else parts[0] + Merged(parts[1..])
  }

  /** The last map that has a key decides. */
  lemma {:induction false} MergedAt(parts: seq<map<Bytes, bool>>, b: nat, id: Bytes)
    requires b < |parts| && id in parts[b] && forall c :: b < c < |parts| ==> id !in parts[c]
    ensures id in Merged(parts) && Merged(parts)[id] == parts[b][id]
    decreases |parts|
  {
    if b == 0 {
      NotMerged(parts[1..], id);
    } else {
      MergedAt(parts[1..], b - 1, id);
    }
  }

  lemma {:induction false} NotMerged(parts: seq<map<Bytes, bool>>, id: Bytes)
    ensures id in Merged(parts) <==> exists c :: 0 <= c < |parts| && id in parts[c]
  {
    if parts != [] {
      NotMerged(parts[1..], id);
      assert forall c :: 0 < c < |parts| ==> parts[c] == parts[1..][c - 1];
    }
  }

  /** What the reply says. */
  function SaidIn(chunks: seq<Bytes>): Bytes {
    match Unframe(Received(chunks))
    case None => []
    case Some(body) => if StatesOf(body).None? then [] else StatesOf(body).value
  }

  function Parts(pieces: seq<seq<Bytes>>, replies: seq<seq<Bytes>>): (parts: seq<map<Bytes, bool>>)
    ensures |parts| == |pieces|
    ensures forall b :: 0 <= b < |parts| ==> parts[b] == Answers(pieces[b], SaidIn(ReplyAt(replies, b)))
  {
    seq(|pieces|, b requires 0 <= b < |pieces| => Answers(pieces[b], SaidIn(ReplyAt(replies, b))))
  }

  lemma PartsFirst(piece: seq<Bytes>, pieces: seq<seq<Bytes>>, replies: seq<seq<Bytes>>)
    ensures Merged(Parts([piece] + pieces, replies))
            == Answers(piece, SaidIn(First(replies))) + Merged(Parts(pieces, Rest(replies)))
  {
    var all := Parts([piece] + pieces, replies);
    assert all[1..] == Parts(pieces, Rest(replies));
  }

  lemma SaidFirst(ids: seq<Bytes>, chunks: seq<Bytes>)
    requires BatchResult(ids, chunks).Some?
    ensures BatchResult(ids, chunks) == Some(Answers(ids, SaidIn(chunks)))
  {
  }

  lemma {:induction false} ResultIsMerged(ids: seq<Bytes>, replies: seq<seq<Bytes>>, batch: nat)
    requires batch > 0 && OnlineResult(ids, replies, batch).Some?
    ensures OnlineResult(ids, replies, batch).value == Merged(Parts(Pieces(ids, batch), replies))
    decreases |ids|
  {
    if ids != [] {
      var n := if batch <= |ids| then batch else |ids|;
      SaidFirst(ids[..n], First(replies));
      ResultIsMerged(ids[n..], Rest(replies), batch);
      PartsFirst(ids[..n], Pieces(ids[n..], batch), replies);
    }
  }

  /** Otherwise exactly the IDs asked have an answer, and it is the bit at the place `p` of the ID's last occurrence `k`,
      within its batch `b`, of what the reply to that batch says. */
  lemma OnlineAnswersExactly(ids: seq<Bytes>, replies: seq<seq<Bytes>>, batch: nat, k: nat, b: nat, p: nat, states: Bytes)
    requires p < batch && OnlineResult(ids, replies, batch).Some?
    requires k == b * batch + p && FinalAt(ids, k) && Says(ReplyAt(replies, b), states)
    ensures var m := OnlineResult(ids, replies, batch).value; ids[k] in m && m[ids[k]] == Bit(states, p)
  {
    var pieces := Pieces(ids, batch);
    ResultIsMerged(ids, replies, batch);
    SaidThere(replies, b, states);
    PieceOf(ids, batch, k, b, p);
    LastOccurrence(pieces[b], states, p);
    forall c | b < c < |pieces| ensures ids[k] !in Parts(pieces, replies)[c] {
      AnswersKeys(pieces[c], SaidIn(ReplyAt(replies, c)));
      if i: nat :| i < |pieces[c]| && pieces[c][i] == ids[k] {
        LaterPiece(ids, batch, k, b, p, c, i);
      }
    }
    MergedAt(Parts(pieces, replies), b, ids[k]);
  }

  lemma SaidThere(replies: seq<seq<Bytes>>, b: nat, states: Bytes)
    requires Says(ReplyAt(replies, b), states)
    ensures SaidIn(ReplyAt(replies, b)) == states
  {
    var body :| HoldsFrame(Received(ReplyAt(replies, b)), body) && Response(body, states);
    UnframeExactly(Received(ReplyAt(replies, b)), body);
    ResponseExactly(body, states);
  }

  /** Nobody else has an answer. */
  lemma {:induction false} OnlyAsked(ids: seq<Bytes>, replies: seq<seq<Bytes>>, batch: nat)
    requires batch > 0 && OnlineResult(ids, replies, batch).Some?
    ensures OnlineResult(ids, replies, batch).value.Keys == set id | id in ids
    decreases |ids|
  {
    if ids != [] {
      var n := if batch <= |ids| then batch else |ids|;
      SaidFirst(ids[..n], First(replies));
      AnswersKeys(ids[..n], SaidIn(First(replies)));
      OnlyAsked(ids[n..], Rest(replies), batch);
      BothKeys(ids, n, Answers(ids[..n], SaidIn(First(replies))), OnlineResult(ids[n..], Rest(replies), batch).value);
    }
  }

  lemma BothKeys(ids: seq<Bytes>, n: nat, a: map<Bytes, bool>, b: map<Bytes, bool>)
    requires n <= |ids| && a.Keys == (set id | id in ids[..n]) && b.Keys == (set id | id in ids[n..])
    ensures (a + b).Keys == set id | id in ids
  {
    assert ids == ids[..n] + ids[n..];
  }
}
