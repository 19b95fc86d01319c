/** Loops over finitely many places. */
module FiniteLoops {
  import opened Wrappers
  import opened Sizes

  /** The place to go on from, or None when the loop ends. */
  type Move = nat -> Option<nat>

  ghost predicate StaysWithin(move: Move, n: nat) {
    forall p: nat :: p <= n && move(p).Some? ==> move(p).value <= n
  }

  function PlaceAfter(move: Move, p: nat, k: nat): Option<nat>
    decreases k
  {
    if k == 0 then Some(p)
    else
      match move(p)
      case None => None
      case Some(q) => PlaceAfter(move, q, k - 1)
  }

  lemma PlaceNext(move: Move, p: nat, k: nat, fewer: nat)
    requires k == fewer + 1
    ensures PlaceAfter(move, p, k) == if move(p).None? then None else PlaceAfter(move, move(p).value, fewer)
  {
  }

  lemma {:induction false} Compose(move: Move, p: nat, j: nat, k: nat)
    ensures PlaceAfter(move, p, j + k)
            == match PlaceAfter(move, p, j)
               case None => None
               case Some(q) => PlaceAfter(move, q, k)
    decreases j
  {
    if j > 0 && move(p).Some? {
      Compose(move, move(p).value, j - 1, k);
    }
  }

  lemma {:induction false} Within(move: Move, p: nat, k: nat, n: nat)
    requires StaysWithin(move, n) && p <= n && PlaceAfter(move, p, k).Some?
    ensures PlaceAfter(move, p, k).value <= n
    decreases k
  {
    if k > 0 {
      Within(move, move(p).value, k - 1, n);
    }
  }

  lemma {:induction false} CycleGoesOn(move: Move, p: nat, q: nat, m: nat)
    requires q > 0 && PlaceAfter(move, p, q) == Some(p)
    ensures PlaceAfter(move, p, m).Some?
    decreases m
  {
    if m <= q {
      Compose(move, p, m, q - m);
    } else {
      CycleGoesOn(move, p, q, m - q);
      Compose(move, p, q, m - q);
    }
  }

  /** A place that is reached a second time is reached again and again: the loop never ends. */
  lemma RepeatNeverEnds(move: Move, p: nat, j: nat, k: nat, m: nat)
    requires j < k && PlaceAfter(move, p, j).Some? && PlaceAfter(move, p, j) == PlaceAfter(move, p, k)
    ensures PlaceAfter(move, p, m).Some?
  {
    Compose(move, p, j, k - j);
    if m < j {
      Compose(move, p, m, j - m);
    } else {
      CycleGoesOn(move, PlaceAfter(move, p, j).value, k - j, m - j);
      Compose(move, p, j, m - j);
    }
  }

  function Below(n: nat): (s: set<nat>)
    ensures |s| == n && forall x: nat :: x in s <==> x < n
  {
    if n == 0 then {}
    else
      assert n - 1 !in Below(n - 1);
      Below(n - 1) + {n - 1}
  }

  function Elements(s: seq<nat>): set<nat> {
    set x | x in s
  }

  lemma {:induction false} SizeDistinct(s: seq<nat>)
    requires forall i, j :: 0 <= i < j < |s| ==> s[i] != s[j]
    ensures |Elements(s)| == |s|
  {
    if s != [] {
      var n := |s| - 1;
      SizeDistinct(s[..n]);
      assert s == s[..n] + [s[n]];
      assert Elements(s) == Elements(s[..n]) + {s[n]};
    }
  }

  /** Among more than `n` numbers below `n` two are equal. */
  lemma Pigeonhole(s: seq<nat>, n: nat)
    requires |s| > n && forall x :: x in s ==> x < n
    ensures exists i, j :: 0 <= i < j < |s| && s[i] == s[j]
  {
    if forall i, j :: 0 <= i < j < |s| ==> s[i] != s[j] {
      SizeDistinct(s);
      SubsetSize(Elements(s), Below(n));
    }
  }

  /** The places passed in the first `k` rounds. */
  function Passed(move: Move, p: nat, k: nat): (s: seq<nat>)
    requires forall m :: 0 <= m < k ==> PlaceAfter(move, p, m).Some?
    ensures |s| == k && forall m :: 0 <= m < k ==> s[m] == PlaceAfter(move, p, m).value
  {
    seq(k, m requires 0 <= m < k => PlaceAfter(move, p, m).value)
  }

  /** A loop that has passed more places than there are never ends. */
  lemma LongRunsNeverEnd(move: Move, p: nat, n: nat, m: nat)
    requires StaysWithin(move, n) && p <= n && PlaceAfter(move, p, n + 1).Some?
    ensures PlaceAfter(move, p, m).Some?
  {
    forall k | 0 <= k < n + 2 ensures PlaceAfter(move, p, k).Some? && PlaceAfter(move, p, k).value <= n {
      Compose(move, p, k, n + 1 - k);
      Within(move, p, k, n);
    }
    var s := Passed(move, p, n + 2);
    Pigeonhole(s, n + 1);
    var j, k :| 0 <= j < k < |s| && s[j] == s[k];
    RepeatNeverEnds(move, p, j, k, m);
  }
}
