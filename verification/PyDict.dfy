/** A Python `dict`: keys are unique and iteration follows insertion order.  Overwriting a key keeps
    its position; removing a key and inserting it again moves it to the end. */
module PyDict {
  import opened Wrappers

  datatype Item<+K, +V> = Item(key: K, val: V)

  type Dict<+K, +V> = seq<Item<K, V>>

  ghost predicate UniqueKeys<K, V>(d: Dict<K, V>) {
    forall i, j :: 0 <= i < j < |d| ==> d[i].key != d[j].key
  }

  /** Position of `k`, or `|d|` when it is absent. */
  function Index<K(==), V>(d: Dict<K, V>, k: K): (i: nat)
    ensures i <= |d|
    ensures i < |d| ==> d[i].key == k
    ensures forall j :: 0 <= j < i ==> d[j].key != k
  {
    if d == [] then 0
    else if d[0].key == k then 0
    else 1 + Index(d[1..], k)
  }

  predicate Has<K(==), V>(d: Dict<K, V>, k: K) {
    Index(d, k) < |d|
  }

  function Get<K(==), V>(d: Dict<K, V>, k: K): Option<V> {
    var i := Index(d, k);
    if i < |d| then Some(d[i].val) else None
  }

  /** `d.pop(k, None)` */
  function Pop<K(==), V>(d: Dict<K, V>, k: K): Dict<K, V> {
    var i := Index(d, k);
    if i < |d| then d[..i] + d[i + 1..] else d
  }

  /** `d[k] = v` */
  function Put<K(==), V>(d: Dict<K, V>, k: K, v: V): Dict<K, V> {
    var i := Index(d, k);
    if i < |d| then d[i := Item(k, v)] else d + [Item(k, v)]
  }

  function Vals<K, V>(d: Dict<K, V>): (s: seq<V>)
    ensures |s| == |d|
    ensures forall i :: 0 <= i < |d| ==> s[i] == d[i].val
  {
    seq(|d|, i requires 0 <= i < |d| => d[i].val)
  }

  lemma PopItems<K, V>(d: Dict<K, V>, k: K)
    requires UniqueKeys(d)
    ensures UniqueKeys(Pop(d, k)) && !Has(Pop(d, k), k)
    ensures forall it :: it in Pop(d, k) <==> it in d && it.key != k
  {
    var i := Index(d, k);
    if i < |d| {
      var p := Pop(d, k);
      assert d == d[..i] + [d[i]] + d[i + 1..];
      forall it | it in d && it.key != k ensures it in p {
        var j :| 0 <= j < |d| && d[j] == it;
        assert it == if j < i then p[j] else p[j - 1];
      }
    }
  }

  lemma PopCons<K, V>(x: Item<K, V>, d: Dict<K, V>, k: K)
    ensures Pop([x] + d, k) == if x.key == k then d else [x] + Pop(d, k)
    ensures Get([x] + d, k) == if x.key == k then Some(x.val) else Get(d, k)
  {
    assert ([x] + d)[1..] == d;
    var i := Index(d, k);
    if x.key != k && i < |d| {
      assert ([x] + d)[..i + 1] + ([x] + d)[i + 2..] == [x] + (d[..i] + d[i + 1..]);
    }
  }

  lemma AbsentKey<K, V>(d: Dict<K, V>, k: K)
    requires forall x :: x in d ==> x.key != k
    ensures Get(d, k) == None && Pop(d, k) == d
  {
  }

  lemma PutUnique<K, V>(d: Dict<K, V>, k: K, v: V)
    requires UniqueKeys(d)
    ensures UniqueKeys(Put(d, k, v))
  {
  }

  lemma GetIn<K, V>(d: Dict<K, V>, k: K, v: V)
    requires UniqueKeys(d)
    ensures Get(d, k) == Some(v) <==> Item(k, v) in d
  {
    var i := Index(d, k);
    if Item(k, v) in d {
      var j :| 0 <= j < |d| && d[j] == Item(k, v);
      assert i == j;
    }
  }

  lemma GetPop<K, V>(d: Dict<K, V>, k: K, other: K)
    requires UniqueKeys(d)
    ensures Get(Pop(d, k), other) == if other == k then None else Get(d, other)
  {
    PopItems(d, k);
    var p := Pop(d, k);
    if other != k {
      if Get(d, other).Some? {
        GetIn(d, other, Get(d, other).value);
        GetIn(p, other, Get(d, other).value);
      } else if Get(p, other).Some? {
        GetIn(p, other, Get(p, other).value);
        GetIn(d, other, Get(p, other).value);
      }
    }
  }

  lemma GetPut<K, V>(d: Dict<K, V>, k: K, v: V, other: K)
    requires UniqueKeys(d)
    ensures Get(Put(d, k, v), other) == if other == k then Some(v) else Get(d, other)
  {
    var i, j := Index(d, k), Index(d, other);
    var p := Put(d, k, v);
    PutUnique(d, k, v);
    if other == k {
      assert Item(k, v) == p[i];
      GetIn(p, k, v);
    } else if j < |d| {
      assert p[j] == d[j];
      GetIn(p, other, d[j].val);
    } else {
      assert forall x :: x in p ==> x.key != other;
      AbsentKey(p, other);
    }
  }

  lemma PutAbsent<K, V>(d: Dict<K, V>, k: K, v: V)
    requires forall x :: x in d ==> x.key != k
    ensures Put(d, k, v) == d + [Item(k, v)]
  {
    AbsentKey(d, k);
  }
}
