/** Reserving and releasing uplinks: a VLAN and a subnet at a time, over whole runs. */
module UplinkLeases {
  import opened Common
  import opened Cidr
  import opened UplinkState

  datatype Lease = Lease(vid: int, subnet: Net)

  function IntLeq(x: int, y: int): bool { x <= y }

  /** Networks are ordered by first address, then by length of the prefix. */
  function NetLeq(n: Net, m: Net): bool {
    n.addr < m.addr || (n.addr == m.addr && n.len <= m.len)
  }

  /** `reserve_uplink` pops the VID before it looks for a subnet. */
  function Reserve(a: Available): (Available, Option<Lease>) {
    if a.vlans == [] then (a, None)
    else if a.subnets == [] then (a.(vlans := a.vlans[1..]), None)
    else (a.(vlans := a.vlans[1..], subnets := a.subnets[1..]), Some(Lease(a.vlans[0], a.subnets[0])))
  }

  /** `release_uplink` refuses what is available already, and otherwise puts both back in order. */
  function Release(a: Available, l: Lease): (Available, bool) {
    if l.vid in a.vlans || l.subnet in a.subnets then (a, true)
    else (a.(vlans := Sort(IntLeq, a.vlans + [l.vid]), subnets := Sort(NetLeq, a.subnets + [l.subnet])), false)
  }

  // ---------------------------------------------------------------- runs

  /** Callers hold leases and release only what they hold; `lost` collects VIDs popped in vain. */
  datatype System = System(pools: Available, held: seq<Lease>, lost: seq<int>)

  datatype Call = ReserveCall | ReleaseCall(index: nat)

  function Step(s: System, c: Call): System {
    match c
    case ReserveCall =>
      var (after, lease) := Reserve(s.pools);
      if lease.Some? then System(after, s.held + [lease.value], s.lost)
      else if s.pools.vlans != [] then System(after, s.held, s.lost + [s.pools.vlans[0]])
      else s
    case ReleaseCall(i) =>
      if i >= |s.held| then s
      else
        var (after, refused) := Release(s.pools, s.held[i]);
        if refused then s else System(after, s.held[..i] + s.held[i + 1..], s.lost)
  }

  function Run(s: System, calls: seq<Call>): System {
    Fold(Step, s, calls)
  }

  function StartWith(a: Available): System {
    System(a, [], [])
  }

  function HeldVids(held: seq<Lease>): (r: seq<int>)
    ensures |r| == |held| && forall i :: 0 <= i < |held| ==> r[i] == held[i].vid
  {
    seq(|held|, i requires 0 <= i < |held| => held[i].vid)
  }

  function HeldSubnets(held: seq<Lease>): (r: seq<Net>)
    ensures |r| == |held| && forall i :: 0 <= i < |held| ==> r[i] == held[i].subnet
  {
    seq(|held|, i requires 0 <= i < |held| => held[i].subnet)
  }

  /** Every VID of the start is available, held or lost, every subnet available or held, as often as then. */
  ghost predicate Conserved(a: Available, s: System) {
    && multiset(s.pools.vlans) + multiset(HeldVids(s.held)) + multiset(s.lost) == multiset(a.vlans)
    && multiset(s.pools.subnets) + multiset(HeldSubnets(s.held)) == multiset(a.subnets)
    && s.pools.pnfVlans == a.pnfVlans && s.pools.pnfSubnets == a.pnfSubnets
  }

  lemma HeldGrows(held: seq<Lease>, l: Lease)
    ensures HeldVids(held + [l]) == HeldVids(held) + [l.vid]
    ensures HeldSubnets(held + [l]) == HeldSubnets(held) + [l.subnet]
  {
  }

  lemma HeldShrinks(held: seq<Lease>, i: nat)
    requires i < |held|
    ensures var rest := held[..i] + held[i + 1..];
            && multiset(HeldVids(held)) == multiset(HeldVids(rest)) + multiset{held[i].vid}
            && multiset(HeldSubnets(held)) == multiset(HeldSubnets(rest)) + multiset{held[i].subnet}
  {
    var rest := held[..i] + held[i + 1..];
    var vids, subnets := HeldVids(held), HeldSubnets(held);
    assert vids == vids[..i] + [vids[i]] + vids[i + 1..];
    assert HeldVids(rest) == vids[..i] + vids[i + 1..];
    assert subnets == subnets[..i] + [subnets[i]] + subnets[i + 1..];
    assert HeldSubnets(rest) == subnets[..i] + subnets[i + 1..];
  }

  lemma ReserveConserves(a: Available, s: System)
    requires Conserved(a, s)
    ensures Conserved(a, Step(s, ReserveCall))
  {
    if s.pools.vlans != [] {
      Popped(s.pools.vlans);
      if s.pools.subnets != [] {
        Popped(s.pools.subnets);
        HeldGrows(s.held, Lease(s.pools.vlans[0], s.pools.subnets[0]));
      }
    }
  }

  lemma Popped<T>(pool: seq<T>)
    requires pool != []
    ensures multiset(pool) == multiset(pool[1..]) + multiset{pool[0]}
  {
    assert pool == [pool[0]] + pool[1..];
  }

  lemma ReleaseConserves(a: Available, s: System, i: nat)
    requires Conserved(a, s)
    ensures Conserved(a, Step(s, ReleaseCall(i)))
  {
    if i < |s.held| && !Release(s.pools, s.held[i]).1 {
      var vid, subnet := s.held[i].vid, s.held[i].subnet;
      HeldShrinks(s.held, i);
      assert multiset(Sort(IntLeq, s.pools.vlans + [vid])) == multiset(s.pools.vlans) + multiset{vid};
      assert multiset(Sort(NetLeq, s.pools.subnets + [subnet])) == multiset(s.pools.subnets) + multiset{subnet};
    }
  }

  /** Over every run: nothing appears from nowhere, and only `lost` VIDs disappear. */
  lemma {:induction false} RunConserves(a: Available, calls: seq<Call>)
    ensures Conserved(a, Run(StartWith(a), calls))
  {
    if calls != [] {
      RunConserves(a, Front(calls));
      match Last(calls)
      case ReserveCall => ReserveConserves(a, Run(StartWith(a), Front(calls)));
      case ReleaseCall(i) => ReleaseConserves(a, Run(StartWith(a), Front(calls)), i);
    }
  }

  lemma Sizes(a: Available, s: System)
    requires Conserved(a, s)
    ensures |s.pools.vlans| + |s.held| + |s.lost| == |a.vlans|
    ensures |s.pools.subnets| + |s.held| == |a.subnets|
  {
    assert |multiset(a.vlans)| == |a.vlans| && |multiset(a.subnets)| == |a.subnets|;
    assert |multiset(s.pools.vlans)| == |s.pools.vlans| && |multiset(HeldVids(s.held))| == |s.held|;
    assert |multiset(s.lost)| == |s.lost|;
    assert |multiset(s.pools.subnets)| == |s.pools.subnets| && |multiset(HeldSubnets(s.held))| == |s.held|;
  }

  function Reserves(n: nat): (r: seq<Call>)
    ensures |r| == n
  {
    seq(n, i => ReserveCall)
  }

  /** Reserving over and over hands out both pools from the front. */
  lemma {:induction false} ReserveAll(a: Available, n: nat)
    requires n <= |a.vlans| && n <= |a.subnets|
    ensures var s := Run(StartWith(a), Reserves(n));
            s.pools == a.(vlans := a.vlans[n..], subnets := a.subnets[n..]) && s.lost == []
  {
    if n > 0 {
      ReserveAll(a, n - 1);
      assert Front(Reserves(n)) == Reserves(n - 1);
    }
  }

  lemma {:induction false} NothingLost(a: Available, calls: seq<Call>)
    requires |a.vlans| <= |a.subnets|
    ensures Run(StartWith(a), calls).lost == []
  {
    if calls != [] {
      NothingLost(a, Front(calls));
      var s := Run(StartWith(a), Front(calls));
      RunConserves(a, Front(calls));
      Sizes(a, s);
    }
  }

  /**
   * No run ever loses a VID exactly when the pool has no more VIDs than subnets. With more VIDs,
   * reserving until the subnets run out and once more loses one.
   */
  lemma ConservationExact(a: Available)
    ensures (forall calls :: Run(StartWith(a), calls).lost == []) <==> |a.vlans| <= |a.subnets|
  {
    if |a.vlans| <= |a.subnets| {
      forall calls
        ensures Run(StartWith(a), calls).lost == []
      {
        NothingLost(a, calls);
      }
    } else {
      var n := |a.subnets|;
      ReserveAll(a, n);
      assert Front(Reserves(n + 1)) == Reserves(n);
      assert Run(StartWith(a), Reserves(n + 1)).lost == [a.vlans[n]];
    }
  }

  // ---------------------------------------------------------------- nothing is held twice

  ghost predicate Distinct(pool: seq<Net>) {
    NoDup(pool) && forall n, m :: n in pool && m in pool && n != m ==> !ShareAddress(n, m)
  }

  lemma NoDupFromCounts<T>(s: seq<T>)
    requires forall x :: x in s ==> multiset(s)[x] <= 1
    ensures NoDup(s)
  {
    forall i, j | 0 <= i < j < |s|
      ensures s[i] != s[j]
    {
      assert s[j] in s;
      CountedTwice(s, i, j);
    }
  }

  lemma CountedTwice<T>(s: seq<T>, i: nat, j: nat)
    requires i < j < |s|
    ensures s[i] == s[j] ==> multiset(s)[s[j]] >= 2
  {
    assert s == s[..j] + [s[j]] + s[j + 1..];
    assert multiset(s) == multiset(s[..j]) + multiset{s[j]} + multiset(s[j + 1..]);
    assert s[..j][i] == s[i] && s[i] in multiset(s[..j]);
  }

  lemma FirstMember<T>(s: seq<T>)
    ensures s != [] ==> s[0] in s
  {
  }

  lemma PartOfNoDup<T>(part: seq<T>, rest: multiset<T>, whole: seq<T>)
    requires NoDup(whole) && rest + multiset(part) == multiset(whole)
    ensures NoDup(part) && forall x :: x in part ==> x in whole && x !in rest
  {
    forall x | x in part
      ensures multiset(part)[x] <= 1 && x in whole && x !in rest
    {
      AtMostOnce(whole, x);
      assert x in multiset(part);
      assert x in multiset(whole);
    }
    NoDupFromCounts(part);
  }

  /** The address of a host in a subnet, `subnet[k]`: an IndexError beyond the last one. */
  function Host(n: Net, k: nat): Option<nat> {
    if k < Size(n.len) then Some(n.addr + k) else None
  }

  /**
   * From pools without repetition whose blocks share no address, in every state of every run: no VID
   * or subnet is held twice or held while available, no release is refused, and when the blocks are
   * at most /30 the switch and firewall addresses of all live uplinks exist and are pairwise distinct.
   */
  lemma LiveUplinks(a: Available, calls: seq<Call>)
    requires NoDup(a.vlans) && PairwiseDisjoint(a.subnets)
    ensures var s := Run(StartWith(a), calls);
            && NoDup(HeldVids(s.held)) && NoDup(HeldSubnets(s.held))
            && (forall l :: l in s.held ==> !Release(s.pools, l).1)
            && ((forall n :: n in a.subnets ==> n.len <= 30) ==> DistinctAddresses(s.held))
  {
    var s := Run(StartWith(a), calls);
    RunConserves(a, calls);
    DisjointAreDistinct(a.subnets);
    PartOfNoDup(HeldVids(s.held), multiset(s.pools.vlans) + multiset(s.lost), a.vlans);
    PartOfNoDup(HeldSubnets(s.held), multiset(s.pools.subnets), a.subnets);
    forall l | l in s.held
      ensures !Release(s.pools, l).1
    {
      var i :| 0 <= i < |s.held| && s.held[i] == l;
      assert HeldVids(s.held)[i] == l.vid && HeldSubnets(s.held)[i] == l.subnet;
      assert l.vid in HeldVids(s.held) && l.subnet in HeldSubnets(s.held);
      assert l.vid !in multiset(s.pools.vlans) && l.subnet !in multiset(s.pools.subnets);
    }
    if forall n :: n in a.subnets ==> n.len <= 30 {
      forall i, j | 0 <= i < j < |s.held|
        ensures s.held[i].subnet.len <= 30 && s.held[j].subnet.len <= 30
        ensures !ShareAddress(s.held[i].subnet, s.held[j].subnet)
      {
        assert HeldSubnets(s.held)[i] != HeldSubnets(s.held)[j];
        assert HeldSubnets(s.held)[i] in HeldSubnets(s.held) && HeldSubnets(s.held)[j] in HeldSubnets(s.held);
      }
      AddressesDistinct(s.held);
    }
  }

  ghost predicate DistinctAddresses(held: seq<Lease>) {
    forall i, j, k, l :: 0 <= i < |held| && 0 <= j < |held| && 1 <= k <= 2 && 1 <= l <= 2 ==>
      Host(held[i].subnet, k) == Some(held[i].subnet.addr + k)
      && (Host(held[i].subnet, k) == Host(held[j].subnet, l) ==> i == j && k == l)
  }

  lemma DisjointAreDistinct(pool: seq<Net>)
    requires PairwiseDisjoint(pool)
    ensures Distinct(pool)
  {
    forall i, j | 0 <= i < j < |pool|
      ensures pool[i] != pool[j] && !ShareAddress(pool[i], pool[j]) && !ShareAddress(pool[j], pool[i])
    {
      assert Contains(pool[i], pool[i].addr);
      assert !ShareAddress(pool[i], pool[j]);
    }
    forall n, m | n in pool && m in pool && n != m
      ensures !ShareAddress(n, m)
    {
      var i :| 0 <= i < |pool| && pool[i] == n;
      var j :| 0 <= j < |pool| && pool[j] == m;
    }
  }

  lemma SmallBlocks(len: nat)
    requires len <= 30
    ensures Size(len) > 2
  {
    Pow2Sum(BITS - len - 2, 2);
    assert Pow2(2) == 4;
  }

  lemma AddressesDistinct(held: seq<Lease>)
    requires forall i :: 0 <= i < |held| ==> held[i].subnet.len <= 30
    requires forall i, j :: 0 <= i < j < |held| ==> !ShareAddress(held[i].subnet, held[j].subnet)
    ensures DistinctAddresses(held)
  {
    forall i, j, k: nat, l: nat | 0 <= i < |held| && 0 <= j < |held| && 1 <= k <= 2 && 1 <= l <= 2
      ensures Host(held[i].subnet, k) == Some(held[i].subnet.addr + k)
      ensures Host(held[i].subnet, k) == Host(held[j].subnet, l) ==> i == j && k == l
    {
      var n, m := held[i].subnet, held[j].subnet;
      SmallBlocks(n.len);
      SmallBlocks(m.len);
      assert Contains(n, n.addr + k) && Contains(m, m.addr + l);
      if n.addr + k == m.addr + l {
        assert ShareAddress(n, m) && ShareAddress(m, n);
      }
    }
  }

  lemma OrdersAreTotal()
    ensures TotalOrder(IntLeq) && TotalOrder(NetLeq)
  {
  }

  /** The pools hold nothing twice and are in order. */
  ghost predicate InOrder(a: Available) {
    && (forall i, j :: 0 <= i < j < |a.vlans| ==> a.vlans[i] < a.vlans[j])
    && (forall i, j :: 0 <= i < j < |a.subnets| ==>
          a.subnets[i].addr < a.subnets[j].addr
          || (a.subnets[i].addr == a.subnets[j].addr && a.subnets[i].len < a.subnets[j].len))
  }

  lemma SortedOnce<T(!new)>(leq: (T, T) -> bool, pool: seq<T>, x: T)
    requires TotalOrder(leq) && NoDup(pool) && x !in pool
    ensures var after := Sort(leq, pool + [x]);
            NoDup(after) && SortedBy(leq, after) && forall y :: y in after <==> y in pool || y == x
  {
    var after := Sort(leq, pool + [x]);
    SortSorted(leq, pool + [x]);
    SameMembers(after, pool + [x]);
    forall y | y in after
      ensures multiset(after)[y] <= 1
    {
      AtMostOnce(pool + [x], y);
    }
    NoDupFromCounts(after);
  }

  /**
   * A release that the pools can take puts both back and leaves the pools in order, whatever order they
   * were in; it is refused exactly when it would make something available twice, and changes nothing then.
   */
  lemma ReleaseExact(a: Available, l: Lease)
    requires NoDup(a.vlans) && NoDup(a.subnets)
    ensures var (after, refused) := Release(a, l);
            && (refused <==> !(NoDup(a.vlans + [l.vid]) && NoDup(a.subnets + [l.subnet])))
            && (refused ==> after == a)
            && (!refused ==>
                  && InOrder(after) && after == a.(vlans := after.vlans, subnets := after.subnets)
                  && (forall v :: v in after.vlans <==> v in a.vlans || v == l.vid)
                  && (forall n :: n in after.subnets <==> n in a.subnets || n == l.subnet))
  {
    NoDupAppended(a.vlans, l.vid);
    NoDupAppended(a.subnets, l.subnet);
    OrdersAreTotal();
    if l.vid !in a.vlans && l.subnet !in a.subnets {
      SortedOnce(IntLeq, a.vlans, l.vid);
      SortedOnce(NetLeq, a.subnets, l.subnet);
    }
  }

  lemma NoDupAppended<T>(pool: seq<T>, x: T)
    requires NoDup(pool)
    ensures NoDup(pool + [x]) <==> x !in pool
  {
    var after := pool + [x];
    if i :| 0 <= i < |pool| && pool[i] == x {
      assert after[i] == after[|pool|];
    }
  }

  /** After a release the next reserve hands out the least VID and the least subnet available. */
  lemma ReleaseThenReserve(a: Available, l: Lease)
    requires !Release(a, l).1
    ensures var lease := Reserve(Release(a, l).0).1;
            && lease.Some?
            && (forall v :: v in a.vlans + [l.vid] ==> lease.value.vid <= v)
            && (forall n :: n in a.subnets + [l.subnet] ==>
                  var m := lease.value.subnet;
                  m.addr < n.addr || (m.addr == n.addr && m.len <= n.len))
  {
    var after := Release(a, l).0;
    OrdersAreTotal();
    SortSorted(IntLeq, a.vlans + [l.vid]);
    SortSorted(NetLeq, a.subnets + [l.subnet]);
    SameMembers(after.vlans, a.vlans + [l.vid]);
    SameMembers(after.subnets, a.subnets + [l.subnet]);
  }

  /** With the subnets that the written `from_config` drops, no state it builds can give out an uplink. */
  lemma NothingToReserve(c: Config, switches: seq<SwitchUse>, calls: seq<Call>)
    requires ProperSwitches(switches) && Prune(FromConfig(c), switches).Some?
    ensures Run(StartWith(Prune(FromConfig(c), switches).value), calls).held == []
  {
    PruneMeaning(FromConfig(c), switches);
    var a := Prune(FromConfig(c), switches).value;
    RunConserves(a, calls);
    FirstMember(a.subnets);
    Sizes(a, Run(StartWith(a), calls));
  }

  class NetworkState {
    var pools: Available

    constructor (a: Available)
      ensures pools == a
    {
      pools := a;
    }

    method ReserveUplink() returns (lease: Option<Lease>)
      modifies this
      ensures (pools, lease) == Reserve(old(pools))
    {
      if pools.vlans == [] {
        return None;
      }
      var vid := pools.vlans[0];
      pools := pools.(vlans := pools.vlans[1..]);
      if pools.subnets == [] {
        return None;
      }
      var subnet := pools.subnets[0];
      pools := pools.(subnets := pools.subnets[1..]);
      lease := Some(Lease(vid, subnet));
    }

    method ReleaseUplink(l: Lease) returns (refused: bool)
      modifies this
      ensures (pools, refused) == Release(old(pools), l)
    {
      if l.vid in pools.vlans {
        return true;
      }
      if l.subnet in pools.subnets {
        return true;
      }
      pools := pools.(vlans := Sort(IntLeq, pools.vlans + [l.vid]));
      pools := pools.(subnets := Sort(NetLeq, pools.subnets + [l.subnet]));
      refused := false;
    }
  }
}
