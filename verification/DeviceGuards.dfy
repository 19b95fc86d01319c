/** The guards of the device linking job, each stated independently of the code that tests it, and what becomes of a
    record by them. */
module DeviceGuards {
  import opened PyText
  import opened Wrappers
  import opened DeviceLink

  // ---- MAC addresses ----

  const LOWER_DIGITS := "0123456789abcdef"
  const UPPER_DIGITS := "0123456789ABCDEF"

  /** Only hexadecimal digits count, and their case does not. */
  lemma DigitExactly(c: char)
    ensures c in LOWER_DIGITS ==> Normalize([c]) == [c]
    ensures forall i :: 0 <= i < 16 && UPPER_DIGITS[i] == c ==> Normalize([c]) == [LOWER_DIGITS[i]]
    ensures c !in LOWER_DIGITS && c !in UPPER_DIGITS ==> Normalize([c]) == ""
  {
    assert Normalize("") == "" && [c][1..] == "";
  }

  lemma {:induction false} NormalizeAppend(a: string, b: string)
    ensures Normalize(a + b) == Normalize(a) + Normalize(b)
  {
    if a == "" {
      assert a + b == b;
    } else {
      NormalizeAppend(a[1..], b);
      assert (a + b)[1..] == a[1..] + b && (a + b)[0] == a[0];
      Regroup(match LowerHex(a[0]) case None => "" case Some(c) => [c], Normalize(a[1..]), Normalize(b));
    }
  }

  lemma Regroup(a: string, b: string, c: string)
    ensures a + (b + c) == (a + b) + c
  {
  }

  lemma {:induction false} NormalizeDigits(s: string)
    ensures forall i :: 0 <= i < |Normalize(s)| ==> Normalize(s)[i] in LOWER_DIGITS
  {
    if s != "" {
      NormalizeDigits(s[1..]);
      DigitExactly(s[0]);
      NormalizeAppend([s[0]], s[1..]);
      assert [s[0]] + s[1..] == s;
    }
  }

  function DigitValue(c: char): nat
    requires c in LOWER_DIGITS
  {
    if c <= '9' then (c - '0') as nat else 10 + (c - 'a') as nat
  }

  /** The first octet is even. */
  ghost predicate Unicast(m: string) {
    |m| >= 2 && m[0] in LOWER_DIGITS && m[1] in LOWER_DIGITS && (16 * DigitValue(m[0]) + DigitValue(m[1])) % 2 == 0
  }

  ghost predicate AllOf(m: string, c: char) {
    forall i :: 0 <= i < |m| ==> m[i] == c
  }

  /** In the ranges of VRRP for IPv4 and IPv6, of HSRP, or for documentation. */
  ghost predicate Shared(m: string) {
    |m| >= 10 && var p := m[..10]; p == "00005e0001" || p == "00005e0002" || p == "00000c07ac" || p == "00005e0053"
  }

  /** A unicast address of twelve digits that is neither all zero nor the broadcast address and in no range that protocols
      share. */
  ghost predicate Identifies(m: string) {
    |m| == 12 && !AllOf(m, '0') && !AllOf(m, 'f') && Unicast(m) && !Shared(m)
  }

  lemma LinkableExactly(raw: Option<string>)
    ensures Linkable(raw) <==> raw.Some? && Identifies(Normalize(raw.value))
  {
    if raw.Some? {
      NormalizeDigits(raw.value);
      if |Normalize(raw.value)| == 12 {
        IdentifiesExactly(Normalize(raw.value));
      }
    }
  }

  lemma IdentifiesExactly(m: string)
    requires |m| == 12 && forall i :: 0 <= i < 12 ==> m[i] in LOWER_DIGITS
    ensures Identifies(m) <==> && m != "000000000000" && m != "ffffffffffff" && m[1] !in "13579bdf"
                               && forall p :: p in SHARED_PREFIXES ==> !(p <= m)
  {
    AllAlike(m, '0', "000000000000");
    AllAlike(m, 'f', "ffffffffffff");
    UnicastExactly(m);
    SharedExactly(m);
  }

  lemma AllAlike(m: string, c: char, all: string)
    requires |m| == |all| && AllOf(all, c)
    ensures m == all <==> AllOf(m, c)
  {
  }

  lemma UnicastExactly(m: string)
    requires |m| >= 2 && m[0] in LOWER_DIGITS && m[1] in LOWER_DIGITS
    ensures Unicast(m) <==> m[1] !in "13579bdf"
  {
    Multicast(m[1]);
    EvenPair(DigitValue(m[0]), DigitValue(m[1]));
  }

  lemma Multicast(c: char)
    requires c in LOWER_DIGITS
    ensures c in "13579bdf" <==> DigitValue(c) % 2 == 1
  {
  }

  lemma EvenPair(a: nat, b: nat)
    ensures (16 * a + b) % 2 == b % 2
  {
  }

  lemma SharedExactly(m: string)
    requires |m| == 12
    ensures (exists p :: p in SHARED_PREFIXES && p <= m) <==> Shared(m)
  {
    assert SHARED_PREFIXES[0] in SHARED_PREFIXES && SHARED_PREFIXES[1] in SHARED_PREFIXES;
    assert SHARED_PREFIXES[2] in SHARED_PREFIXES && SHARED_PREFIXES[3] in SHARED_PREFIXES;
    assert forall p :: p in SHARED_PREFIXES ==> |p| == 10;
    assert forall p :: p in SHARED_PREFIXES ==> (p <= m <==> m[..10] == p);
  }

  // ---- host names ----

  ghost predicate Blank(s: string) {
    forall i :: 0 <= i < |s| ==> IsSpace(s[i])
  }

  /** `t` is `s` without the white space around it. */
  ghost predicate Stripped(s: string, t: string) {
    && (exists a, b :: s == a + t + b && Blank(a) && Blank(b))
    && (t != "" ==> !IsSpace(t[0]) && !IsSpace(t[|t| - 1]))
  }

  lemma {:induction false} StripExactly(s: string)
    ensures Stripped(s, Strip(s))
    decreases |s|
  {
    if s == "" {
      Around(s, "", s, "");
    } else if IsSpace(s[0]) {
      StripExactly(s[1..]);
      BlankFirst(s, Strip(s[1..]));
    } else if IsSpace(s[|s| - 1]) {
      StripExactly(s[..|s| - 1]);
      BlankLast(s, Strip(s[..|s| - 1]));
    } else {
      Around(s, "", s, "");
    }
  }

  lemma Around(s: string, a: string, t: string, b: string)
    requires s == a + t + b && Blank(a) && Blank(b) && (t != "" ==> !IsSpace(t[0]) && !IsSpace(t[|t| - 1]))
    ensures Stripped(s, t)
  {
  }

  lemma BlankFirst(s: string, t: string)
    requires s != "" && IsSpace(s[0]) && Stripped(s[1..], t)
    ensures Stripped(s, t)
  {
    var a, b :| s[1..] == a + t + b && Blank(a) && Blank(b);
    assert s == ([s[0]] + a) + t + b;
    Around(s, [s[0]] + a, t, b);
  }

  lemma BlankLast(s: string, t: string)
    requires s != "" && IsSpace(s[|s| - 1]) && Stripped(s[..|s| - 1], t)
    ensures Stripped(s, t)
  {
    var n := |s| - 1;
    var a, b :| s[..n] == a + t + b && Blank(a) && Blank(b);
    assert s == a + t + (b + [s[n]]);
    Around(s, a, t, b + [s[n]]);
  }

  /** The part of `t` before its first dot. */
  ghost predicate FirstPart(t: string, p: string) {
    p <= t && '.' !in p && (|p| < |t| ==> t[|p|] == '.')
  }

  lemma {:induction false} UpToDotExactly(t: string)
    ensures FirstPart(t, UpToDot(t))
  {
    if t != "" && t[0] != '.' {
      UpToDotExactly(t[1..]);
      assert t == [t[0]] + t[1..];
    }
  }

  /** The label of a name: lower-cased, what precedes the first dot once the white space around the name is gone. */
  ghost predicate LabelOf(lower: string -> string, name: string, l: string) {
    exists t, p :: Stripped(name, t) && FirstPart(t, p) && l == lower(p)
  }

  lemma LabelExactly(lower: string -> string, name: string)
    ensures LabelOf(lower, name, HostLabel(lower, Some(name)))
  {
    StripExactly(name);
    UpToDotExactly(Strip(name));
  }

  /** A record or a device without a name contradicts nothing. */
  lemma NoNameAgrees(lower: string -> string, name: Option<string>)
    requires lower("") == ""
    ensures !Contradicts(lower, None, name) && !Contradicts(lower, name, None)
  {
  }

  /** Two names contradict each other if both have a label and the labels differ at some place that both have. */
  lemma ContradictsExactly(lower: string -> string, hostname: Option<string>, device: Option<string>)
    ensures Contradicts(lower, hostname, device)
            <==> var h, d := HostLabel(lower, hostname), HostLabel(lower, device);
                 exists i :: 0 <= i < |h| && i < |d| && h[i] != d[i]
  {
    PrefixExactly(HostLabel(lower, hostname), HostLabel(lower, device));
    PrefixExactly(HostLabel(lower, device), HostLabel(lower, hostname));
  }

  lemma PrefixExactly(a: string, b: string)
    ensures a <= b <==> |a| <= |b| && forall i :: 0 <= i < |a| ==> a[i] == b[i]
  {
  }

  // ---- owners ----

  /** Some usable port of the device has the MAC. */
  ghost predicate Owns(ports: seq<Port>, m: string, device: nat) {
    exists p :: p in ports && p.device == device && p.mac.Some? && Normalize(p.mac.value) == m && Identifies(m)
  }

  lemma OwnersExactly(ports: seq<Port>, m: string, device: nat)
    ensures device in Owners(ports, m) <==> Owns(ports, m, device)
  {
    forall p | p in ports ensures Linkable(p.mac) <==> p.mac.Some? && Identifies(Normalize(p.mac.value)) {
      LinkableExactly(p.mac);
    }
  }

  // ---- what becomes of a record ----

  ghost predicate Considered(c: Context, r: Row) {
    r.device == None && r.mac != None && !r.archived && (c.scope == None || r.subnet in c.scope.value)
  }

  /** The customer of a record: its own, or else that of its subnet. */
  ghost predicate Belongs(r: Row, customer: nat) {
    r.customer == Some(customer) || (r.customer == None && r.subnetCustomer == Some(customer))
  }

  ghost predicate OtherCustomer(c: Context, r: Row, device: nat) {
    exists a, b :: Belongs(r, a) && device in c.devices && c.devices[device].customer == Some(b) && a != b
  }

  ghost predicate OtherName(lower: string -> string, c: Context, r: Row, device: nat) {
    Contradicts(lower, r.hostname, if device in c.devices then c.devices[device].name else None)
  }

  ghost predicate OnlyOwner(c: Context, m: string, device: nat) {
    Owns(c.ports, m, device) && forall d :: Owns(c.ports, m, d) ==> d == device
  }

  /** Every outcome by its guards, in the order in which they are tested. */
  lemma OutcomeExactly(lower: string -> string, c: Context, m: Macs, r: Row, dev: nat)
    requires Describes(m, c.ports)
    ensures JudgeOf(lower, c, m)(r) == None <==> !Considered(c, r)
    ensures Considered(c, r) ==>
              var o, mac := JudgeOf(lower, c, m)(r).value, Normalize(r.mac.value);
              && (o == InvalidMac <==> !Identifies(mac))
              && (o == Ambiguous <==> exists d, e :: d != e && Owns(c.ports, mac, d) && Owns(c.ports, mac, e))
              && (o == NoPort <==> Identifies(mac) && forall d :: !Owns(c.ports, mac, d))
              && (OnlyOwner(c, mac, dev) ==>
                    && (o == Manual <==> r.id in c.touched)
                    && (o == Hostname <==> r.id !in c.touched && OtherName(lower, c, r, dev))
                    && (o == Customer <==> r.id !in c.touched && !OtherName(lower, c, r, dev) && OtherCustomer(c, r, dev)))
              && (o == Link(dev) <==> OnlyOwner(c, mac, dev) && r.id !in c.touched
                                      && !OtherName(lower, c, r, dev) && !OtherCustomer(c, r, dev))
  {
    if Considered(c, r) {
      var mac := Normalize(r.mac.value);
      LinkableExactly(r.mac);
      NoOwner(c.ports, mac);
      TwoOwners(c.ports, mac);
      OneOwner(c, mac, dev);
      CustomerExactly(c, r, dev);
    }
  }

  lemma NoOwner(ports: seq<Port>, m: string)
    ensures |Owners(ports, m)| == 0 <==> forall d :: !Owns(ports, m, d)
  {
    forall d ensures d in Owners(ports, m) <==> Owns(ports, m, d) {
      OwnersExactly(ports, m, d);
    }
    if |Owners(ports, m)| > 0 {
      var d :| d in Owners(ports, m);
      assert Owns(ports, m, d);
    }
  }

  lemma TwoOwners(ports: seq<Port>, m: string)
    ensures |Owners(ports, m)| > 1 <==> exists d, e :: d != e && Owns(ports, m, d) && Owns(ports, m, e)
  {
    if |Owners(ports, m)| > 1 {
      var d, e := TwoOf(Owners(ports, m));
      OwnersExactly(ports, m, d);
      OwnersExactly(ports, m, e);
    }
    if d, e :| d != e && Owns(ports, m, d) && Owns(ports, m, e) {
      OwnersExactly(ports, m, d);
      OwnersExactly(ports, m, e);
      AtLeastTwo(Owners(ports, m), d, e);
    }
  }

  lemma TwoOf(s: set<nat>) returns (d: nat, e: nat)
    requires |s| > 1
    ensures d in s && e in s && d != e
  {
    d :| d in s;
    assert |s - {d}| > 0;
    e :| e in s - {d};
  }

  lemma AtLeastTwo(s: set<nat>, d: nat, e: nat)
    requires d in s && e in s && d != e
    ensures |s| > 1
  {
    assert e in s - {d} && |s - {d}| == |s| - 1;
  }

  lemma OneOwner(c: Context, m: string, dev: nat)
    ensures OnlyOwner(c, m, dev) <==> Owners(c.ports, m) == {dev}
  {
    forall d ensures d in Owners(c.ports, m) <==> Owns(c.ports, m, d) {
      OwnersExactly(c.ports, m, d);
    }
    Only(Owners(c.ports, m), dev);
  }

  lemma Only(s: set<nat>, dev: nat)
    ensures s == {dev} <==> dev in s && forall d :: d in s ==> d == dev
  {
  }

  lemma CustomerExactly(c: Context, r: Row, dev: nat)
    ensures OtherCustomer(c, r, dev) <==> CustomersClash(r, DeviceAt(c, dev))
  {
    if CustomersClash(r, DeviceAt(c, dev)) {
      assert Belongs(r, Either(r.customer, r.subnetCustomer).value);
    }
  }
}
