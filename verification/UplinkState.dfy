/** The pools of VLANs and subnets still available, pruned by what the switches use. */
module UplinkState {
  import opened Common
  import opened Cidr

  /** The four lists of `NetworkState`. */
  datatype Available = Available(vlans: seq<int>, subnets: seq<Net>, pnfVlans: seq<int>, pnfSubnets: seq<Net>)

  datatype Config = Config(
    vrfSwitchName: string, uplinkVlans: seq<int>, uplinkIpPool: seq<Net>, pnfVlans: seq<int>, pnfIpPool: seq<Net>)

  /** What a switch uses: its VLANs, and the address and prefix length of each VLAN interface, if it has one. */
  datatype SwitchUse = SwitchUse(name: string, vlans: seq<int>, interfaces: seq<Option<Interface>>)

  datatype Interface = Interface(ip: nat, len: nat)

  predicate Proper(i: Interface) {
    i.len <= BITS && i.ip < Size(0)
  }

  function InterfaceSubnet(i: Interface): Net
    requires Proper(i)
  {
    Around(i.ip, i.len)
  }

  /** `from_config` as written: two of the three names it passes are no fields, and the fourth pool is not passed. */
  function FromConfig(c: Config): Available {
    Available(c.uplinkVlans, [], [], [])
  }

  /** `from_config` repaired: all four pools of the configuration. */
  function FromConfigMeant(c: Config): Available {
    Available(c.uplinkVlans, c.uplinkIpPool, c.pnfVlans, c.pnfIpPool)
  }

  // ---------------------------------------------------------------- pruning

  function RemoveVid(a: Available, vid: int): Available {
    if vid in a.vlans then a.(vlans := RemoveFirst(a.vlans, vid))
    else if vid in a.pnfVlans then a.(pnfVlans := RemoveFirst(a.pnfVlans, vid))
    else a
  }

  function RemoveVids(a: Available, used: seq<int>): Available {
    Fold(RemoveVid, a, used)
  }

  function Clear(pool: seq<Net>, used: Net): (r: seq<Net>)
    ensures forall n :: n in r <==> n in pool && !Overlaps(n, used)
    ensures |r| <= |pool|
  {
    if pool == [] then []
    else
      assert pool == Front(pool) + [Last(pool)];
      Clear(Front(pool), used) + if Overlaps(Last(pool), used) then [] else [Last(pool)]
  }

  /** Clearing keeps the order of what it leaves. */
  lemma {:induction false} ClearInOrder(pool: seq<Net>, used: Net, k: nat)
    requires k <= |pool|
    ensures Clear(pool[..k], used) <= Clear(pool, used)
  {
    if k == |pool| {
      assert pool[..k] == pool;
    } else {
      assert Front(pool)[..k] == pool[..k];
      ClearInOrder(Front(pool), used, k);
    }
  }

  function RemoveSubnet(a: Available, used: Net): Available {
    a.(subnets := Clear(a.subnets, used), pnfSubnets := Clear(a.pnfSubnets, used))
  }

  /** An interface without an address stops the pruning with an exception. */
  function RemoveSubnets(a: Available, interfaces: seq<Option<Interface>>): Option<Available>
    requires forall i <- interfaces :: i.Some? ==> Proper(i.value)
  {
    if interfaces == [] then Some(a)
    else
      var before, i := RemoveSubnets(a, Front(interfaces)), Last(interfaces);
      assert interfaces[|interfaces| - 1] in interfaces;
      if before.None? || i.None? then None else Some(RemoveSubnet(before.value, InterfaceSubnet(i.value)))
  }

  predicate ProperSwitches(switches: seq<SwitchUse>) {
    forall s <- switches :: forall i <- s.interfaces :: i.Some? ==> Proper(i.value)
  }

  function Prune(a: Available, switches: seq<SwitchUse>): Option<Available>
    requires ProperSwitches(switches)
  {
    if switches == [] then Some(a)
    else
      var before, s := Prune(a, Front(switches)), Last(switches);
      assert switches[|switches| - 1] in switches;
      if before.None? then None else RemoveSubnets(RemoveVids(before.value, s.vlans), s.interfaces)
  }

  /** All VIDs configured on the switches, one occurrence for every switch. */
  function UsedVids(switches: seq<SwitchUse>): seq<int> {
    if switches == [] then [] else UsedVids(Front(switches)) + Last(switches).vlans
  }

  // ---------------------------------------------------------------- what is left of the VLANs

  function Less(a: nat, b: nat): nat {
    if a >= b then a - b else 0
  }

  function Times<T(==)>(s: seq<T>, x: T): nat {
    multiset(s)[x]
  }

  /**
   * Removing used VIDs takes them off the uplink pool first and off the other pool when that is used
   * up: one occurrence for every switch that has the VID.
   */
  lemma {:induction false} RemoveVidsCounts(a: Available, used: seq<int>, v: int)
    ensures var after := RemoveVids(a, used);
            && Times(after.vlans, v) == Less(Times(a.vlans, v), Times(used, v))
            && Times(after.pnfVlans, v) == Less(Times(a.pnfVlans, v), Less(Times(used, v), Times(a.vlans, v)))
            && after.subnets == a.subnets && after.pnfSubnets == a.pnfSubnets
  {
    if used != [] {
      RemoveVidsCounts(a, Front(used), v);
      assert used == Front(used) + [Last(used)];
      RemoveVidCounts(RemoveVids(a, Front(used)), Last(used), v);
      OneMoreUse(Front(used), Last(used), v);
    }
  }

  lemma OneMoreUse(used: seq<int>, u: int, v: int)
    ensures Times(used + [u], v) == Times(used, v) + if u == v then 1 else 0
  {
  }

  lemma RemoveVidCounts(a: Available, u: int, v: int)
    ensures var after, n := RemoveVid(a, u), if u == v then 1 else 0;
            && Times(after.vlans, v) == Less(Times(a.vlans, v), n)
            && Times(after.pnfVlans, v) == Less(Times(a.pnfVlans, v), Less(n, Times(a.vlans, v)))
            && after.subnets == a.subnets && after.pnfSubnets == a.pnfSubnets
  {
    assert u in a.vlans <==> u in multiset(a.vlans);
    assert u in a.pnfVlans <==> u in multiset(a.pnfVlans);
  }

  lemma {:induction false} RemoveSubnetsMeaning(a: Available, interfaces: seq<Option<Interface>>)
    requires forall i <- interfaces :: i.Some? ==> Proper(i.value)
    ensures var after := RemoveSubnets(a, interfaces);
            && (after.Some? <==> None !in interfaces)
            && (after.Some? ==>
                && after.value.vlans == a.vlans && after.value.pnfVlans == a.pnfVlans
                && (forall n :: n in after.value.subnets <==> n in a.subnets && Free(interfaces, n))
                && (forall n :: n in after.value.pnfSubnets <==> n in a.pnfSubnets && Free(interfaces, n)))
  {
    if interfaces != [] {
      RemoveSubnetsMeaning(a, Front(interfaces));
      assert interfaces == Front(interfaces) + [Last(interfaces)];
    }
  }

  /** The block shares no address with the subnet of any of these interfaces. */
  ghost predicate Free(interfaces: seq<Option<Interface>>, n: Net)
    requires forall i <- interfaces :: i.Some? ==> Proper(i.value)
  {
    forall i :: Some(i) in interfaces ==> !Overlaps(n, InterfaceSubnet(i))
  }

  ghost predicate FreeOfAll(switches: seq<SwitchUse>, n: Net)
    requires ProperSwitches(switches)
  {
    forall s <- switches :: Free(s.interfaces, n)
  }

  /** What pruning leaves. It stops exactly when some VLAN interface has no address. */
  ghost predicate Pruned(a: Available, switches: seq<SwitchUse>, after: Available)
    requires ProperSwitches(switches)
  {
    && after == RemoveVids(a, UsedVids(switches)).(subnets := after.subnets, pnfSubnets := after.pnfSubnets)
    && (forall n :: n in after.subnets <==> n in a.subnets && FreeOfAll(switches, n))
    && (forall n :: n in after.pnfSubnets <==> n in a.pnfSubnets && FreeOfAll(switches, n))
  }

  /** VLAN and subnet lists are pruned independently of each other. */
  lemma {:induction false} RemoveVidsFrame(a: Available, used: seq<int>, subnets: seq<Net>, pnfSubnets: seq<Net>)
    ensures RemoveVids(a.(subnets := subnets, pnfSubnets := pnfSubnets), used)
         == RemoveVids(a, used).(subnets := subnets, pnfSubnets := pnfSubnets)
    ensures RemoveVids(a, used).subnets == a.subnets && RemoveVids(a, used).pnfSubnets == a.pnfSubnets
  {
    if used != [] {
      RemoveVidsFrame(a, Front(used), subnets, pnfSubnets);
    }
  }

  lemma {:induction false} PruneMeaning(a: Available, switches: seq<SwitchUse>)
    requires ProperSwitches(switches)
    ensures Prune(a, switches).Some? <==> forall s <- switches :: None !in s.interfaces
    ensures Prune(a, switches).Some? ==> Pruned(a, switches, Prune(a, switches).value)
  {
    if switches != [] {
      PruneMeaning(a, Front(switches));
      assert switches == Front(switches) + [Last(switches)];
      if Prune(a, Front(switches)).Some? {
        PruneOne(a, Front(switches), Last(switches), Prune(a, Front(switches)).value);
      }
    }
  }

  lemma PruneOne(a: Available, switches: seq<SwitchUse>, s: SwitchUse, now: Available)
    requires ProperSwitches(switches + [s]) && ProperSwitches(switches) && Pruned(a, switches, now)
    requires forall i <- s.interfaces :: i.Some? ==> Proper(i.value)
    ensures var after := RemoveSubnets(RemoveVids(now, s.vlans), s.interfaces);
            && (after.Some? <==> None !in s.interfaces)
            && (after.Some? ==> Pruned(a, switches + [s], after.value))
  {
    RemoveSubnetsMeaning(RemoveVids(now, s.vlans), s.interfaces);
    FoldConcat(RemoveVid, a, UsedVids(switches), s.vlans);
    RemoveVidsFrame(RemoveVids(a, UsedVids(switches)), s.vlans, now.subnets, now.pnfSubnets);
    assert Front(switches + [s]) == switches;
    assert forall n :: FreeOfAll(switches + [s], n) <==> FreeOfAll(switches, n) && Free(s.interfaces, n);
  }

  // ---------------------------------------------------------------- what pruning is for

  ghost predicate FreshVids(a: Available, used: seq<int>) {
    forall v :: v in used ==> v !in a.vlans && v !in a.pnfVlans
  }

  /** The switches use every listed VID at least as often as the two pools hold it. */
  ghost predicate UsedUp(a: Available, used: seq<int>) {
    forall v :: v in used ==> Times(used, v) >= Times(a.vlans, v) + Times(a.pnfVlans, v)
  }

  /**
   * After pruning no available VID is configured on any switch exactly when no used VID is held by
   * the pools more often than switches use it; VIDs that no switch uses stay as they were. No
   * available subnet shares an address with the subnet of any VLAN interface, without condition.
   */
  lemma PruneFresh(a: Available, switches: seq<SwitchUse>)
    requires ProperSwitches(switches) && Prune(a, switches).Some?
    ensures var after, used := Prune(a, switches).value, UsedVids(switches);
            && (FreshVids(after, used) <==> UsedUp(a, used))
            && (forall v :: v !in used ==>
                  Times(after.vlans, v) == Times(a.vlans, v) && Times(after.pnfVlans, v) == Times(a.pnfVlans, v))
            && (forall n, s, i ::
                  (n in after.subnets || n in after.pnfSubnets) && s in switches && Some(i) in s.interfaces
                  ==> !ShareAddress(n, InterfaceSubnet(i)))
  {
    var after, used := Prune(a, switches).value, UsedVids(switches);
    PruneMeaning(a, switches);
    forall v
      ensures v in used && Times(used, v) >= Times(a.vlans, v) + Times(a.pnfVlans, v) ==>
        v !in after.vlans && v !in after.pnfVlans
      ensures v in used && v !in after.vlans && v !in after.pnfVlans ==>
        Times(used, v) >= Times(a.vlans, v) + Times(a.pnfVlans, v)
      ensures v !in used ==>
        Times(after.vlans, v) == Times(a.vlans, v) && Times(after.pnfVlans, v) == Times(a.pnfVlans, v)
    {
      LeftOver(a, used, after, v);
    }
    forall n, s, i | (n in after.subnets || n in after.pnfSubnets) && s in switches && Some(i) in s.interfaces
      ensures !ShareAddress(n, InterfaceSubnet(i))
    {
      assert FreeOfAll(switches, n);
      OverlapsIsSharing(n, InterfaceSubnet(i));
    }
  }

  lemma LeftOver(a: Available, used: seq<int>, after: Available, v: int)
    requires after.vlans == RemoveVids(a, used).vlans && after.pnfVlans == RemoveVids(a, used).pnfVlans
    ensures v !in after.vlans && v !in after.pnfVlans <==>
      Times(used, v) >= Times(a.vlans, v) + Times(a.pnfVlans, v)
    ensures v !in used ==>
      Times(after.vlans, v) == Times(a.vlans, v) && Times(after.pnfVlans, v) == Times(a.pnfVlans, v)
  {
    RemoveVidsCounts(a, used, v);
    assert v in after.vlans <==> v in multiset(after.vlans);
    assert v in after.pnfVlans <==> v in multiset(after.pnfVlans);
    assert v in used <==> v in multiset(used);
  }

  lemma AtMostOnce<T>(s: seq<T>, x: T)
    requires NoDup(s)
    ensures multiset(s)[x] <= 1
  {
    if x in s {
      var i :| 0 <= i < |s| && s[i] == x;
      assert s == s[..i] + [x] + s[i + 1..];
      assert x !in s[..i] && x !in s[i + 1..];
      assert multiset(s) == multiset(s[..i]) + multiset{x} + multiset(s[i + 1..]);
    } else {
      assert x !in multiset(s);
    }
  }

  /** Pools without repetition that share no VID are always used up. */
  lemma ProperPoolsAreUsedUp(a: Available, used: seq<int>)
    requires NoDup(a.vlans) && NoDup(a.pnfVlans) && forall v :: v in a.vlans ==> v !in a.pnfVlans
    ensures UsedUp(a, used)
  {
    forall v | v in used
      ensures Times(used, v) >= Times(a.vlans, v) + Times(a.pnfVlans, v)
    {
      AtMostOnce(a.vlans, v);
      AtMostOnce(a.pnfVlans, v);
      assert v in multiset(used);
      assert v in a.vlans <==> v in multiset(a.vlans);
      assert v in a.pnfVlans <==> v in multiset(a.pnfVlans);
    }
  }

  /** What building from the fields as written leaves: of each uplink VID what is not used up, and no more. */
  lemma PrunedAsWritten(c: Config, switches: seq<SwitchUse>)
    requires ProperSwitches(switches)
    ensures Prune(FromConfig(c), switches).Some? <==> forall s <- switches :: None !in s.interfaces
    ensures Prune(FromConfig(c), switches).Some? ==>
      var after := Prune(FromConfig(c), switches).value;
      LeftOfUplinks(c.uplinkVlans, switches, after.vlans) && after == Available(after.vlans, [], [], [])
  {
    var a := FromConfig(c);
    PruneMeaning(a, switches);
    if Prune(a, switches).Some? {
      var after := Prune(a, switches).value;
      NoMembers(after.subnets);
      NoMembers(after.pnfSubnets);
      VidsAsWritten(c.uplinkVlans, switches);
    }
  }

  lemma NoMembers<T>(pool: seq<T>)
    requires pool != [] ==> pool[0] !in pool
    ensures pool == []
  {
  }

  lemma VidsAsWritten(vlans: seq<int>, switches: seq<SwitchUse>)
    ensures var after := RemoveVids(Available(vlans, [], [], []), UsedVids(switches));
            LeftOfUplinks(vlans, switches, after.vlans) && after.pnfVlans == []
  {
    var a := Available(vlans, [], [], []);
    var after := RemoveVids(a, UsedVids(switches));
    forall v
      ensures Times(after.vlans, v) == Less(Times(vlans, v), Uses(switches, v))
    {
      RemoveVidsCounts(a, UsedVids(switches), v);
      UsedVidsCounts(switches, v);
    }
    forall v
      ensures v !in after.pnfVlans
    {
      RemoveVidsCounts(a, UsedVids(switches), v);
    }
    NoMembers(after.pnfVlans);
  }

  /** Each VID as often as it was configured, less its uses on the switches. */
  ghost predicate LeftOfUplinks(configured: seq<int>, switches: seq<SwitchUse>, left: seq<int>) {
    forall v :: Times(left, v) == Less(Times(configured, v), Uses(switches, v))
  }

  /** On how many switches the VID is configured, counted with repeats. */
  function Uses(switches: seq<SwitchUse>, v: int): nat {
    if switches == [] then 0 else Uses(switches[1..], v) + Times(switches[0].vlans, v)
  }

  lemma {:induction false} UsedVidsCounts(switches: seq<SwitchUse>, v: int)
    ensures Times(UsedVids(switches), v) == Uses(switches, v)
  {
    if switches != [] {
      var rest := switches[1..];
      UsedVidsCounts(rest, v);
      UsedVidsOf(switches);
      assert multiset(switches[0].vlans + UsedVids(rest))
          == multiset(switches[0].vlans) + multiset(UsedVids(rest));
    }
  }

  lemma {:induction false} UsedVidsOf(switches: seq<SwitchUse>)
    ensures switches != [] ==> UsedVids(switches) == switches[0].vlans + UsedVids(switches[1..])
  {
    if |switches| > 1 {
      UsedVidsOf(Front(switches));
      assert Front(switches)[1..] == Front(switches[1..]);
    }
  }

  // ---------------------------------------------------------------- the object

  /** The state kept by the network: `status`, the switches, and the switch that carries the VRFs. */
  class NetworkBase {
    var config: Config
    var switches: seq<SwitchUse>
    var status: Available
    var vrfSwitch: Option<SwitchUse>

    constructor (config: Config, switches: seq<SwitchUse>)
      ensures this.config == config && this.switches == switches
    {
      this.config, this.switches := config, switches;
      status := Available([], [], [], []);
      vrfSwitch := None;
    }

    method RemoveUsedVid(vid: int)
      modifies `status
      ensures status == RemoveVid(old(status), vid)
    {
      if vid in status.vlans {
        status := status.(vlans := RemoveFirst(status.vlans, vid));
      } else if vid in status.pnfVlans {
        status := status.(pnfVlans := RemoveFirst(status.pnfVlans, vid));
      }
    }

    method RemoveUsedSubnet(used: Net)
      modifies `status
      ensures status == RemoveSubnet(old(status), used)
    {
      status := status.(subnets := Clear(status.subnets, used));
      status := status.(pnfSubnets := Clear(status.pnfSubnets, used));
    }

    /** The part of the loop for one switch. */
    method PruneSwitch(s: SwitchUse) returns (raised: bool)
      requires forall i <- s.interfaces :: i.Some? ==> Proper(i.value)
      modifies `status
      ensures var after := RemoveSubnets(RemoveVids(old(status), s.vlans), s.interfaces);
              raised == after.None? && (after.Some? ==> status == after.value)
    {
      for k := 0 to |s.vlans|
        invariant status == RemoveVids(old(status), s.vlans[..k])
      {
        RemoveUsedVid(s.vlans[k]);
        assert Front(s.vlans[..k + 1]) == s.vlans[..k];
      }
      assert s.vlans[..|s.vlans|] == s.vlans;
      ghost var now := status;
      for k := 0 to |s.interfaces|
        invariant RemoveSubnets(now, s.interfaces[..k]) == Some(status)
      {
        assert Front(s.interfaces[..k + 1]) == s.interfaces[..k];
        assert s.interfaces[k] in s.interfaces;
        if s.interfaces[k].None? {
          RemoveSubnetsMeaning(now, s.interfaces);
          return true;
        }
        RemoveUsedSubnet(InterfaceSubnet(s.interfaces[k].value));
      }
      assert s.interfaces[..|s.interfaces|] == s.interfaces;
      raised := false;
    }

    /** The outer loop of `build_network_state`. */
    method PruneAll() returns (raised: bool)
      requires ProperSwitches(switches)
      modifies `status
      ensures var after := Prune(old(status), switches);
              raised == after.None? && (after.Some? ==> status == after.value)
    {
      for k := 0 to |switches|
        invariant Prune(old(status), switches[..k]) == Some(status)
      {
        assert Front(switches[..k + 1]) == switches[..k];
        assert switches[k] in switches;
        var stopped := PruneSwitch(switches[k]);
        if stopped {
          PruneStops(old(status), switches, k + 1);
          return true;
        }
      }
      assert switches[..|switches|] == switches;
      raised := false;
    }

    /**
     * `build_network_state`; an unknown VRF switch is noticed only after the pruning. Unless an interface
     * without an address stops it, the uplink pool is left with what the switches do not use, and the
     * other three pools are empty.
     */
    method BuildNetworkState() returns (raised: bool)
      requires ProperSwitches(switches)
      modifies `status, `vrfSwitch
      ensures var after := Prune(FromConfig(config), switches);
              && (after.Some? ==> status == after.value)
              && (raised <==>
                    || after.None?
                    || (config.vrfSwitchName != "" && forall s <- switches :: s.name != config.vrfSwitchName))
      ensures (forall s <- switches :: None !in s.interfaces) ==>
                && LeftOfUplinks(config.uplinkVlans, switches, status.vlans)
                && status == Available(status.vlans, [], [], [])
      ensures !raised ==> forall s <- switches :: None !in s.interfaces
      ensures if raised || config.vrfSwitchName == "" then vrfSwitch == None || vrfSwitch == old(vrfSwitch)
              else exists k: nat :: FirstNamed(switches, config.vrfSwitchName, k) && vrfSwitch == Some(switches[k])
    {
      PrunedAsWritten(config, switches);
      status := FromConfig(config);
      raised := PruneAll();
      if !raised && config.vrfSwitchName != "" {
        raised := FindVrfSwitch();
      }
    }

    method FindVrfSwitch() returns (missing: bool)
      modifies `vrfSwitch
      ensures missing <==> forall s <- switches :: s.name != config.vrfSwitchName
      ensures missing ==> vrfSwitch == None
      ensures !missing ==>
        exists k: nat :: FirstNamed(switches, config.vrfSwitchName, k) && vrfSwitch == Some(switches[k])
    {
      vrfSwitch := None;
      for k := 0 to |switches|
        invariant vrfSwitch == None && forall s <- switches[..k] :: s.name != config.vrfSwitchName
      {
        if switches[k].name == config.vrfSwitchName {
          vrfSwitch := Some(switches[k]);
          assert forall j :: 0 <= j < k ==> switches[j] in switches[..k];
          assert FirstNamed(switches, config.vrfSwitchName, k);
          return false;
        }
      }
      assert switches[..|switches|] == switches;
      missing := true;
    }
  }

  /** The first switch of that name is at this position. */
  ghost predicate FirstNamed(switches: seq<SwitchUse>, name: string, k: nat) {
    k < |switches| && switches[k].name == name && forall j :: 0 <= j < k ==> switches[j].name != name
  }

  lemma {:induction false} PruneStops(a: Available, switches: seq<SwitchUse>, n: nat)
    requires ProperSwitches(switches) && n <= |switches| && ProperSwitches(switches[..n])
    requires Prune(a, switches[..n]).None?
    ensures Prune(a, switches).None?
  {
    if n == |switches| {
      assert switches[..n] == switches;
    } else {
      assert Front(switches)[..n] == switches[..n];
      PruneStops(a, Front(switches), n);
    }
  }
}
