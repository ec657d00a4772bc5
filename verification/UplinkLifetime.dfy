/** From the ranges of a configuration request, through the pruning, to every uplink ever handed out. */
module UplinkLifetime {
  import opened Common
  import opened Cidr
  import opened Pools
  import opened UplinkState
  import opened UplinkLeases

  /** Pools as they should be configured: no VID twice or in both pools, no two blocks with a common address. */
  ghost predicate ProperPools(a: Available) {
    && NoDup(a.vlans) && NoDup(a.pnfVlans) && (forall v :: v in a.vlans ==> v !in a.pnfVlans)
    && PairwiseDisjoint(a.subnets)
  }

  /** The lease is of a VID on no switch, and of a block that shares no address with a VLAN interface's. */
  ghost predicate Unused(switches: seq<SwitchUse>, l: Lease)
    requires ProperSwitches(switches)
  {
    && l.vid !in UsedVids(switches)
    && forall s, i :: s in switches && Some(i) in s.interfaces ==> !ShareAddress(l.subnet, InterfaceSubnet(i))
  }

  // ---------------------------------------------------------------- pruning keeps the pools proper

  lemma {:induction false} ClearKeepsDisjoint(pool: seq<Net>, used: Net)
    requires PairwiseDisjoint(pool)
    ensures PairwiseDisjoint(Clear(pool, used))
  {
    if pool != [] {
      var last, rest := pool[|pool| - 1], Clear(Front(pool), used);
      ClearKeepsDisjoint(Front(pool), used);
      forall i | 0 <= i < |rest|
        ensures !ShareAddress(rest[i], last)
      {
        assert rest[i] in rest;
        var k :| 0 <= k < |pool| - 1 && pool[k] == rest[i];
      }
    }
  }

  lemma {:induction false} RemoveSubnetsKeepsDisjoint(a: Available, interfaces: seq<Option<Interface>>)
    requires forall i <- interfaces :: i.Some? ==> Proper(i.value)
    requires PairwiseDisjoint(a.subnets) && RemoveSubnets(a, interfaces).Some?
    ensures PairwiseDisjoint(RemoveSubnets(a, interfaces).value.subnets)
  {
    if interfaces != [] {
      var i := interfaces[|interfaces| - 1];
      assert i in interfaces;
      RemoveSubnetsKeepsDisjoint(a, Front(interfaces));
      ClearKeepsDisjoint(RemoveSubnets(a, Front(interfaces)).value.subnets, InterfaceSubnet(i.value));
    }
  }

  lemma {:induction false} PruneKeepsDisjoint(a: Available, switches: seq<SwitchUse>)
    requires ProperSwitches(switches) && PairwiseDisjoint(a.subnets) && Prune(a, switches).Some?
    ensures PairwiseDisjoint(Prune(a, switches).value.subnets)
  {
    if switches != [] {
      var s := switches[|switches| - 1];
      assert s in switches;
      PruneKeepsDisjoint(a, Front(switches));
      var before := Prune(a, Front(switches)).value;
      RemoveVidsFrame(before, s.vlans, before.subnets, before.pnfSubnets);
      RemoveSubnetsKeepsDisjoint(RemoveVids(before, s.vlans), s.interfaces);
    }
  }

  lemma PruneKeepsNoDup(a: Available, switches: seq<SwitchUse>)
    requires ProperSwitches(switches) && NoDup(a.vlans) && Prune(a, switches).Some?
    ensures NoDup(Prune(a, switches).value.vlans)
  {
    var vlans := Prune(a, switches).value.vlans;
    PruneMeaning(a, switches);
    forall v | v in vlans
      ensures multiset(vlans)[v] <= 1
    {
      RemoveVidsCounts(a, UsedVids(switches), v);
      AtMostOnce(a.vlans, v);
    }
    NoDupFromCounts(vlans);
  }

  // ---------------------------------------------------------------- every uplink of every run

  /** What is held comes out of the pools of the start. */
  lemma HeldFromPools(a: Available, calls: seq<Call>, l: Lease)
    requires l in Run(StartWith(a), calls).held
    ensures l.vid in a.vlans && l.subnet in a.subnets
  {
    var s := Run(StartWith(a), calls);
    RunConserves(a, calls);
    var i :| 0 <= i < |s.held| && s.held[i] == l;
    assert HeldVids(s.held)[i] == l.vid && HeldSubnets(s.held)[i] == l.subnet;
    assert l.vid in multiset(HeldVids(s.held)) && l.subnet in multiset(HeldSubnets(s.held));
    assert l.vid in multiset(a.vlans) && l.subnet in multiset(a.subnets);
  }

  /**
   * Pruned pools hand out unused uplinks only, in every state of every run, whenever the switches use up
   * what the pools hold of the VIDs in use.
   */
  lemma LeasesAreUnused(a: Available, switches: seq<SwitchUse>, calls: seq<Call>)
    requires ProperSwitches(switches) && Prune(a, switches).Some? && UsedUp(a, UsedVids(switches))
    ensures forall l :: l in Run(StartWith(Prune(a, switches).value), calls).held ==> Unused(switches, l)
  {
    var after := Prune(a, switches).value;
    PruneFresh(a, switches);
    forall l | l in Run(StartWith(after), calls).held
      ensures Unused(switches, l)
    {
      HeldFromPools(after, calls, l);
    }
  }

  /**
   * From proper pools, on any switches and over every run of reserving and releasing: no uplink that is
   * held collides with anything on a switch, no two held uplinks collide with each other, and no release
   * is refused; from /30 down the switch and firewall addresses are all distinct.
   */
  lemma UplinksThroughout(a: Available, switches: seq<SwitchUse>, calls: seq<Call>)
    requires ProperPools(a) && ProperSwitches(switches) && Prune(a, switches).Some?
    ensures var s := Run(StartWith(Prune(a, switches).value), calls);
            && (forall l :: l in s.held ==> Unused(switches, l) && !Release(s.pools, l).1)
            && NoDup(HeldVids(s.held)) && NoDup(HeldSubnets(s.held))
            && ((forall n :: n in a.subnets ==> n.len <= 30) ==> DistinctAddresses(s.held))
  {
    var after := Prune(a, switches).value;
    ProperPoolsAreUsedUp(a, UsedVids(switches));
    LeasesAreUnused(a, switches, calls);
    PruneKeepsNoDup(a, switches);
    PruneKeepsDisjoint(a, switches);
    PruneMeaning(a, switches);
    LiveUplinks(after, calls);
  }

  // ---------------------------------------------------------------- from the request to the pools

  /** The pools of `SetNetworkConfigRequestMsg`, and the mask to which each list of ranges is cut. */
  datatype PoolRequest = PoolRequest(
    uplinkVlans: seq<VlanRange>, uplinkIps: seq<Net>, uplinkMask: int,
    pnfVlans: seq<VlanRange>, pnfIps: seq<Net>, pnfMask: int)

  ghost predicate ConfiguredBy(c: Config, q: PoolRequest) {
    && IsVlanPool(q.uplinkVlans, c.uplinkVlans) && IpPool(q.uplinkIps, q.uplinkMask) == Some(c.uplinkIpPool)
    && IsVlanPool(q.pnfVlans, c.pnfVlans) && IpPool(q.pnfIps, q.pnfMask) == Some(c.pnfIpPool)
  }

  /** `to_network_config`, repaired to read the PNF ranges under the name that the message has for them. */
  method ToNetworkConfig(q: PoolRequest, vrfSwitchName: string) returns (c: Option<Config>)
    ensures c.Some? <==>
      (forall n :: n in q.uplinkIps ==> Cuttable(n, q.uplinkMask))
      && (forall n :: n in q.pnfIps ==> Cuttable(n, q.pnfMask))
    ensures c.Some? ==> ConfiguredBy(c.value, q) && c.value.vrfSwitchName == vrfSwitchName
  {
    IpPoolComesBack(q.uplinkIps, q.uplinkMask);
    IpPoolComesBack(q.pnfIps, q.pnfMask);
    var uplinkVlans := VlanPoolFromRanges(q.uplinkVlans);
    var uplinkIps := IpPoolFromRanges(q.uplinkIps, q.uplinkMask);
    if uplinkIps.None? {
      return None;
    }
    var pnfVlans := VlanPoolFromRanges(q.pnfVlans);
    var pnfIps := IpPoolFromRanges(q.pnfIps, q.pnfMask);
    if pnfIps.None? {
      return None;
    }
    c := Some(Config(vrfSwitchName, uplinkVlans, uplinkIps.value, pnfVlans, pnfIps.value));
  }

  /** No VID is in ranges of both kinds, and no two ranges of addresses overlap. */
  ghost predicate DisjointRanges(q: PoolRequest) {
    && (forall v :: InSome(q.uplinkVlans, v) ==> !InSome(q.pnfVlans, v))
    && PairwiseDisjoint(q.uplinkIps)
  }

  /** The pools that `from_config` was meant to take over are proper exactly when the ranges are disjoint. */
  lemma ConfiguredProper(c: Config, q: PoolRequest)
    requires ConfiguredBy(c, q)
    ensures ProperPools(FromConfigMeant(c)) <==> DisjointRanges(q)
  {
    IpPoolPartition(q.uplinkIps, q.uplinkMask);
    if ProperPools(FromConfigMeant(c)) {
      forall v | InSome(q.uplinkVlans, v)
        ensures !InSome(q.pnfVlans, v)
      {
        assert v in c.uplinkVlans;
      }
    }
  }

  /** The block lies in one of the ranges and has the length asked for, or is a range of a single address. */
  ghost predicate InRanges(ranges: seq<Net>, mask: int, m: Net) {
    exists n :: n in ranges && Within(m, n) && m.len == CutLength(n, mask)
  }

  /**
   * From a request with disjoint ranges, on any switches and over every run: the uplinks handed out
   * collide neither with what is on a switch nor with each other; and if the mask asked for is at most
   * /30 and no range is a single address, their switch and firewall addresses are all distinct.
   */
  lemma UplinksFromRequest(c: Config, q: PoolRequest, switches: seq<SwitchUse>, calls: seq<Call>)
    requires ConfiguredBy(c, q) && DisjointRanges(q)
    requires ProperSwitches(switches) && Prune(FromConfigMeant(c), switches).Some?
    ensures var s := Run(StartWith(Prune(FromConfigMeant(c), switches).value), calls);
            && (forall l :: l in s.held ==> Unused(switches, l) && !Release(s.pools, l).1)
            && (forall l :: l in s.held ==>
                  InSome(q.uplinkVlans, l.vid) && InRanges(q.uplinkIps, q.uplinkMask, l.subnet))
            && NoDup(HeldVids(s.held)) && NoDup(HeldSubnets(s.held))
            && (q.uplinkMask <= 30 && (forall n :: n in q.uplinkIps ==> n.len != BITS) ==> DistinctAddresses(s.held))
  {
    var a := FromConfigMeant(c);
    ConfiguredProper(c, q);
    BlockLengths(q.uplinkIps, q.uplinkMask);
    UplinksThroughout(a, switches, calls);
    PoolWithinRanges(q.uplinkIps, q.uplinkMask);
    forall l | l in Run(StartWith(Prune(a, switches).value), calls).held
      ensures InSome(q.uplinkVlans, l.vid) && InRanges(q.uplinkIps, q.uplinkMask, l.subnet)
    {
      HeldFromPools(Prune(a, switches).value, calls, l);
      PruneMeaning(a, switches);
      RemoveVidsCounts(a, UsedVids(switches), l.vid);
      assert l.vid in multiset(Prune(a, switches).value.vlans);
      assert l.vid in a.vlans;
      assert l.subnet in c.uplinkIpPool;
    }
  }

  /** The PNF pools keep, over every run, exactly what is configured and on no switch. */
  lemma PnfPoolsFromRequest(c: Config, q: PoolRequest, switches: seq<SwitchUse>, calls: seq<Call>)
    requires ConfiguredBy(c, q) && DisjointRanges(q)
    requires ProperSwitches(switches) && Prune(FromConfigMeant(c), switches).Some?
    ensures var pools := Run(StartWith(Prune(FromConfigMeant(c), switches).value), calls).pools;
            && (forall v :: v in pools.pnfVlans <==> InSome(q.pnfVlans, v) && Uses(switches, v) == 0)
            && (forall n :: n in pools.pnfSubnets
                  <==> n in IpPool(q.pnfIps, q.pnfMask).value && FreeOfAll(switches, n))
  {
    var a := FromConfigMeant(c);
    var after := Prune(a, switches).value;
    RunConserves(after, calls);
    PruneMeaning(a, switches);
    forall v
      ensures v in after.pnfVlans <==> InSome(q.pnfVlans, v) && Uses(switches, v) == 0
    {
      PnfVid(c, q, switches, v);
    }
  }

  lemma PnfVid(c: Config, q: PoolRequest, switches: seq<SwitchUse>, v: int)
    requires ConfiguredBy(c, q) && DisjointRanges(q)
    ensures v in RemoveVids(FromConfigMeant(c), UsedVids(switches)).pnfVlans
       <==> InSome(q.pnfVlans, v) && Uses(switches, v) == 0
  {
    var a, after := FromConfigMeant(c), RemoveVids(FromConfigMeant(c), UsedVids(switches));
    RemoveVidsCounts(a, UsedVids(switches), v);
    UsedVidsCounts(switches, v);
    AtMostOnce(c.pnfVlans, v);
    assert v in a.vlans <==> v in multiset(a.vlans);
    assert v in a.pnfVlans <==> v in multiset(a.pnfVlans);
    assert v in after.pnfVlans <==> v in multiset(after.pnfVlans);
  }
}
