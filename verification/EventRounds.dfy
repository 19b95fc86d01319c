/** Forwarding rounds that nobody disturbs. */
module EventRounds {
  import opened Integers
  import opened PyDict
  import opened EventQueue

  function Batches(flushBatch: int, n: nat): nat {
    n * Max(1, flushBatch)
  }

  /** What `n` successful rounds leave in the queue, and what they send. */
  function Left(q: Queue, flushBatch: int, n: nat): Queue {
    if n == 0 then q
    else
      var r := Left(q, flushBatch, n - 1);
      Without(r, Snapshot(r, flushBatch))
  }

  function Sent(q: Queue, flushBatch: int, n: nat): Queue {
    if n == 0 then [] else Sent(q, flushBatch, n - 1) + Snapshot(Left(q, flushBatch, n - 1), flushBatch)
  }

  lemma OneRound(q: Queue, k: nat, flushBatch: int)
    requires UniqueKeys(q) && k <= |q|
    ensures var m := Min(k + Max(1, flushBatch), |q|);
            Snapshot(q[k..], flushBatch) == q[k..m] && Without(q[k..], Snapshot(q[k..], flushBatch)) == q[m..]
  {
    var m, r := Min(k + Max(1, flushBatch), |q|), q[k..];
    assert Snapshot(r, flushBatch) == r[..m - k] == q[k..m];
    WithoutPrefix(r, m - k);
    assert r[m - k..] == q[m..];
  }

  /** Every batch holds the oldest events that are left, full as long as there are enough: `n` rounds send
      exactly the first `n` batches of the queue, in order, and leave the rest. */
  lemma {:induction false} RoundsDeliver(q: Queue, flushBatch: int, n: nat)
    requires UniqueKeys(q)
    ensures var k := Min(Batches(flushBatch, n), |q|);
            Sent(q, flushBatch, n) == q[..k] && Left(q, flushBatch, n) == q[k..]
  {
    if n == 0 {
      assert q[0..] == q;
    } else {
      var k := Min(Batches(flushBatch, n - 1), |q|);
      var m := Min(Batches(flushBatch, n), |q|);
      RoundsDeliver(q, flushBatch, n - 1);
      BatchEnd(flushBatch, n, |q|, k, m);
      OneRound(q, k, flushBatch);
      NextRound(q, flushBatch, n, k, m);
    }
  }

  lemma BatchEnd(flushBatch: int, n: nat, size: nat, k: nat, m: nat)
    requires n > 0 && k == Min(Batches(flushBatch, n - 1), size) && m == Min(Batches(flushBatch, n), size)
    ensures m == Min(k + Max(1, flushBatch), size)
  {
    assert Batches(flushBatch, n) == Batches(flushBatch, n - 1) + Max(1, flushBatch);
  }

  lemma NextRound(q: Queue, flushBatch: int, n: nat, k: nat, m: nat)
    requires n > 0 && k <= m <= |q|
    requires Sent(q, flushBatch, n - 1) == q[..k] && Left(q, flushBatch, n - 1) == q[k..]
    requires Snapshot(q[k..], flushBatch) == q[k..m] && Without(q[k..], Snapshot(q[k..], flushBatch)) == q[m..]
    ensures Sent(q, flushBatch, n) == q[..m] && Left(q, flushBatch, n) == q[m..]
  {
    assert q[..k] + q[k..m] == q[..m];
  }
}
