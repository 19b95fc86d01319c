/** Which addresses the scan planner visits, stated on network address and prefix length alone. */
module UsableAddresses {
  import opened Wrappers
  import opened Runs
  import opened ScanPlan
  import opened ScanCoverage
  import opened PassCoverage
  import Bits

  /** The network is `base` up to `base + 2^(32 - prefix) - 1`; except in networks of one or two addresses, the first and
      the last of them are no host addresses. */
  predicate HostAddress(net: Net, n: int)
    requires net.V4? && net.prefix <= 32
  {
    var size := Bits.Pow2(32 - net.prefix);
    && net.base <= n < net.base + size
    && (net.prefix <= 30 ==> n != net.base && n != net.base + size - 1)
  }

  /** How many they are. */
  function HostCount(net: Net): int
    requires net.V4? && net.prefix <= 32
  {
    if net.prefix == 32 then 1 else if net.prefix == 31 then 2 else Bits.Pow2(32 - net.prefix) - 2
  }

  lemma {:induction false} Pow2Grows(k: nat)
    requires k >= 2
    ensures Bits.Pow2(k) >= 4
  {
    if k > 2 {
      Pow2Grows(k - 1);
    } else {
      assert Bits.Pow2(1) == 2;
    }
  }

  lemma UsableExactly(net: Net, n: int)
    requires net.V4? && net.prefix <= 32
    ensures HostAddress(net, n) <==> First(net) <= n < First(net) + Usable(net)
    ensures HostAddress(net, n) <==> n in Range(First(net), Usable(net))
    ensures Usable(net) == HostCount(net) > 0
  {
    if net.prefix <= 30 {
      Pow2Grows(32 - net.prefix);
    } else {
      assert Bits.Pow2(0) == 1 && Bits.Pow2(1) == 2;
    }
    if First(net) <= n < First(net) + Usable(net) {
      assert Range(First(net), Usable(net))[n - First(net)] == n;
    }
  }

  // ---- without a plan ----

  ghost predicate NoneTwice(s: seq<int>) {
    forall i, j :: 0 <= i < j < |s| ==> s[i] != s[j]
  }

  /** A subnet within the limit is scanned completely in every cycle: exactly its host addresses, in order. */
  lemma SmallSubnet(c: Cursors, id: string, net: Net, m: nat, n: int)
    requires net.V4? && net.prefix <= 32 && HostCount(net) <= m
    ensures var hosts := Planned(c, id, net, None, m).hosts;
            && (n in hosts <==> HostAddress(net, n))
            && |hosts| == HostCount(net)
            && forall i, j :: 0 <= i < j < |hosts| ==> hosts[i] < hosts[j]
  {
    UsableExactly(net, n);
  }

  /** A larger one is scanned completely by as many cycles as its size takes, from any stored position: exactly its host
      addresses, none of them twice. */
  lemma LargeSubnet(c: Cursors, id: string, net: Net, m: nat, n: int)
    requires m > 0 && Aligned(c, m) && net.V4? && net.prefix <= 32 && HostCount(net) > m
    ensures CeilDiv(HostCount(net), m) > 0
    ensures var scanned := WholeRun(c, id, net, CeilDiv(HostCount(net), m), m);
            && (n in scanned <==> HostAddress(net, n))
            && NoneTwice(scanned)
  {
    UsableExactly(net, n);
    WholeSubnetEveryRotation(c, id, net, m);
    var all := Range(First(net), Usable(net));
    Turned(all, Start(At(c, Whole(id)), |all|), n);
  }

  lemma Turned(all: seq<int>, s: nat, n: int)
    requires s <= |all| && forall i, j :: 0 <= i < j < |all| ==> all[i] < all[j]
    ensures n in all[s..] + all[..s] <==> n in all
    ensures NoneTwice(all[s..] + all[..s])
  {
    assert all == all[..s] + all[s..];
  }

  // ---- with a plan ----

  /** What a plan calls known is scanned as far as it consists of host addresses of the subnet. */
  lemma KnownHosts(raw: seq<Option<Run>>, net: Net, n: int)
    requires net.V4? && net.prefix <= 32
    ensures n in Expand(Parsed(raw, net)) <==> HostAddress(net, n) && RawCovers(raw, n)
  {
    UsableExactly(net, n);
    ParsedCovers(raw, First(net), First(net) + Usable(net) - 1, n);
    ExpandCovers(Parsed(raw, net), n);
  }

  /** A discovery pass looks at exactly the host addresses of the subnet, each in one cycle, and discovers each unless it
      is known to the plan of that cycle. */
  lemma PassLooksAtHosts(c: Cursors, id: string, net: Net, cycles: seq<Cycle>, m: nat, n: int)
    requires ProperCycles(cycles) && SameNet(cycles, id, net) && net.V4? && net.prefix <= 32
    requires IsPass(Looks(c, id, cycles, Subnet, m), HostCount(net), At(c, Discover(id)))
    ensures var looks := Looks(c, id, cycles, Subnet, m);
            && (HostAddress(net, n) <==> exists i :: 0 <= i < |looks| && n in Seen(looks[i]))
            && (HostAddress(net, n) ==> exists i :: Settles(looks, i, n))
            && (forall i, j :: 0 <= i < j < |looks| && n in Seen(looks[i]) ==> n !in Seen(looks[j]))
  {
    var looks := Looks(c, id, cycles, Subnet, m);
    UsableExactly(net, n);
    SubnetList(c, id, net, cycles, m);
    if HostAddress(net, n) {
      DiscoverPass(c, id, net, cycles, m, n);
      var i :| Settles(looks, i, n);
    } else {
      forall i | 0 <= i < |looks| ensures n !in Seen(looks[i]) {
        assert looks[i].list == Range(First(net), Usable(net));
      }
    }
  }

  /** How many addresses of a walk one cycle takes: as many as the plan says, one if it says nothing or nothing positive,
      and never more than the limit. */
  lemma ClampExactly(per: Option<int>, m: nat)
    requires m > 0
    ensures var wanted := if per.None? then 1 else per.value;
            && (wanted < 1 ==> Clamp(per, m) == 1)
            && (1 <= wanted <= m ==> Clamp(per, m) == wanted)
            && (wanted > m ==> Clamp(per, m) == m)
  {
  }

  /** A network of 64 addresses has 62 host addresses. */
  lemma SixtyTwoHosts(c: Cursors, id: string)
    ensures var hosts := Planned(c, id, V4(0, 26), None, 1024).hosts;
            |hosts| == 62 && 0 !in hosts && 1 in hosts && 62 in hosts && 63 !in hosts
  {
    assert Bits.Pow2(3) == 8 && Bits.Pow2(6) == 64;
    SmallSubnet(c, id, V4(0, 26), 1024, 0);
    SmallSubnet(c, id, V4(0, 26), 1024, 1);
    SmallSubnet(c, id, V4(0, 26), 1024, 62);
    SmallSubnet(c, id, V4(0, 26), 1024, 63);
  }
}
