/** Bytes, bitwise operations on unbounded integers as Python has them, and fixed-width integers. */
module Bits {
  type byte = b: int | 0 <= b < 256

  type Bytes = seq<byte>

  function Pow2(n: nat): (p: nat)
    ensures p > 0
  {
    if n == 0 then 1 else 2 * Pow2(n - 1)
  }

  function Pow256(n: nat): (p: nat)
    ensures p > 0
  {
    if n == 0 then 1 else 256 * Pow256(n - 1)
  }

  function Xor(a: nat, b: nat): nat {
    if a == 0 && b == 0 then 0 else (if a % 2 == b % 2 then 0 else 1) + 2 * Xor(a / 2, b / 2)
  }

  function Or(a: nat, b: nat): nat {
    if a == 0 && b == 0 then 0
    else (if a % 2 == 1 || b % 2 == 1 then 1 else 0) + 2 * Or(a / 2, b / 2)
  }

  lemma {:induction false} XorBound(k: nat, a: nat, b: nat)
    requires a < Pow2(k) && b < Pow2(k)
    ensures Xor(a, b) < Pow2(k)
  {
    if k > 0 && (a != 0 || b != 0) {
      XorBound(k - 1, a / 2, b / 2);
    }
  }

  lemma {:induction false} XorInverse(a: nat, b: nat)
    ensures Xor(Xor(a, b), b) == a
    decreases a + b
  {
    if a != 0 || b != 0 {
      XorInverse(a / 2, b / 2);
      var x := Xor(a, b);
      XorUnfold(x, b);
      assert x / 2 == Xor(a / 2, b / 2);
    }
  }

  /** A number made of a high part and `x`, where `p` is a power of two above `x`. */
  function Join(p: nat, a: nat, x: nat): nat {
    p * a + x
  }

  lemma HalfJoin(p: nat, a: nat, x: nat)
    ensures Join(2 * p, a, x) / 2 == Join(p, a, x / 2) && Join(2 * p, a, x) % 2 == x % 2
    ensures Join(2 * p, a, x) == 2 * (p * a) + x
  {
    assert 2 * p * a == 2 * (p * a);
  }

  lemma XorUnfold(a: nat, b: nat)
    ensures Xor(a, b) == (if a % 2 == b % 2 then 0 else 1) + 2 * Xor(a / 2, b / 2)
  {
  }

  lemma XorStep(s: nat, t: nat, x: nat, y: nat, high: nat)
    requires s % 2 == x % 2 && t % 2 == y % 2 && Xor(s / 2, t / 2) == high + Xor(x / 2, y / 2)
    ensures Xor(s, t) == 2 * high + Xor(x, y)
  {
    XorUnfold(s, t);
    XorUnfold(x, y);
  }

  /** Exclusive or works on the high and the low part of a number separately. */
  lemma {:induction false} XorSplit(k: nat, a: nat, x: nat, b: nat, y: nat)
    requires x < Pow2(k) && y < Pow2(k)
    ensures Xor(Join(Pow2(k), a, x), Join(Pow2(k), b, y)) == Join(Pow2(k), Xor(a, b), Xor(x, y))
  {
    if k > 0 {
      var p := Pow2(k - 1);
      HalfJoin(p, a, x);
      HalfJoin(p, b, y);
      HalfJoin(p, Xor(a, b), Xor(x, y));
      XorSplit(k - 1, a, x / 2, b, y / 2);
      XorStep(Join(2 * p, a, x), Join(2 * p, b, y), x, y, Join(p, Xor(a, b), 0));
    }
  }

  lemma {:induction false} OrZero(a: nat)
    ensures Or(a, 0) == a && Or(0, a) == a
  {
    if a != 0 {
      OrZero(a / 2);
    }
  }

  lemma OrUnfold(a: nat, b: nat)
    ensures Or(a, b) == (if a % 2 == 1 || b % 2 == 1 then 1 else 0) + 2 * Or(a / 2, b / 2)
  {
  }

  /** Or of two numbers that share no bit is their sum. */
  lemma {:induction false} OrDisjoint(k: nat, a: nat, y: nat)
    requires y < Pow2(k)
    ensures Or(Join(Pow2(k), a, 0), y) == Join(Pow2(k), a, y) && Or(y, Join(Pow2(k), a, 0)) == Join(Pow2(k), a, y)
  {
    if k == 0 {
      OrZero(a);
    } else {
      var p := Pow2(k - 1);
      HalfJoin(p, a, 0);
      HalfJoin(p, a, y);
      OrDisjoint(k - 1, a, y / 2);
      OrUnfold(Join(2 * p, a, 0), y);
      OrUnfold(y, Join(2 * p, a, 0));
    }
  }

  // ---- fixed-width integers ----

  /** `int.from_bytes(s, "big")` */
  function FromBig(s: Bytes): nat {
    if s == [] then 0 else 256 * FromBig(s[..|s| - 1]) + s[|s| - 1]
  }

  /** `x.to_bytes(n, "big")`; the source of an overflow error when `x` is too large. */
  function ToBig(x: nat, n: nat): (s: Bytes)
    requires x < Pow256(n)
    ensures |s| == n
  {
    if n == 0 then [] else ToBig(x / 256, n - 1) + [x % 256]
  }

  lemma {:induction false} BigRoundTrip(x: nat, n: nat)
    requires x < Pow256(n)
    ensures FromBig(ToBig(x, n)) == x
  {
    if n > 0 {
      BigRoundTrip(x / 256, n - 1);
      var s := ToBig(x, n);
      assert s[..|s| - 1] == ToBig(x / 256, n - 1);
    }
  }

  /** The first byte is the most significant digit. */
  lemma {:induction false} BigTop(s: Bytes)
    requires s != []
    ensures s[0] * Pow256(|s| - 1) <= FromBig(s) < s[0] * Pow256(|s| - 1) + Pow256(|s| - 1)
  {
    var n := |s| - 1;
    if n > 0 {
      BigTop(s[..n]);
      var p := Pow256(n - 1);
      assert s[0] * Pow256(n) == 256 * (s[0] * p);
    } else {
      assert s[..0] == [];
    }
  }

  /** `int.from_bytes(s, "little")` */
  function FromLittle(s: Bytes): nat {
    if s == [] then 0 else s[0] + 256 * FromLittle(s[1..])
  }

  /** `x.to_bytes(n, "little")` */
  function ToLittle(x: nat, n: nat): (s: Bytes)
    requires x < Pow256(n)
    ensures |s| == n
  {
    if n == 0 then [] else [x % 256] + ToLittle(x / 256, n - 1)
  }

  lemma {:induction false} LittleRoundTrip(x: nat, n: nat)
    requires x < Pow256(n)
    ensures FromLittle(ToLittle(x, n)) == x
  {
    if n > 0 {
      LittleRoundTrip(x / 256, n - 1);
    }
  }

  lemma PowersOfTwo()
    ensures Pow2(7) == 128 && Pow2(8) == 256
    ensures Pow256(1) == 0x100 && Pow256(2) == 0x1_0000 && Pow256(3) == 0x100_0000 && Pow256(4) == 0x1_0000_0000
    ensures Pow256(8) == 0x1_0000_0000_0000_0000
  {
    assert Pow2(3) == 8 && Pow2(6) == 64;
    assert Pow256(2) == 0x1_0000 && Pow256(4) == 0x1_0000_0000;
    assert Pow256(6) == 0x1_0000_0000_0000;
  }

  /** `0x80 | x` and the other additions of a flag bit above `x`. */
  lemma OrHighBit(x: nat)
    requires x < 128
    ensures Or(0x80, x) == 0x80 + x && Or(x, 0x80) == 0x80 + x
  {
    PowersOfTwo();
    OrDisjoint(7, 1, x);
  }
}
