/** The VLAN and subnet pools of a network configuration, cut out of the ranges of a request. */
module Pools {
  import opened Common
  import opened Cidr

  datatype VlanRange = VlanRange(min: int, max: int)

  /** Half-open, like Python's `range`: the upper bound of a VLAN range is not in the pool. */
  predicate InRange(r: VlanRange, v: int) {
    r.min <= v < r.max
  }

  ghost predicate InSome(ranges: seq<VlanRange>, v: int) {
    exists r :: r in ranges && InRange(r, v)
  }

  /** Once each, exactly the VIDs of the ranges. */
  ghost predicate IsVlanPool(ranges: seq<VlanRange>, pool: seq<int>) {
    NoDup(pool) && forall v :: v in pool <==> InSome(ranges, v)
  }

  method VlanPoolFromRanges(ranges: seq<VlanRange>) returns (pool: seq<int>)
    ensures IsVlanPool(ranges, pool)
  {
    pool := [];
    for i := 0 to |ranges|
      invariant NoDup(pool)
      invariant forall v :: v in pool <==> InSome(ranges[..i], v)
    {
      var r := ranges[i];
      ghost var before := pool;
      var v := r.min;
      while v < r.max
        invariant v == r.min || r.min <= v <= r.max
        invariant NoDup(pool)
        invariant forall w :: w in pool <==> w in before || r.min <= w < v
      {
        if v !in pool {
          pool := pool + [v];
        }
        v := v + 1;
      }
      assert forall q :: q in ranges[..i + 1] <==> q in ranges[..i] || q == r;
      assert forall w :: InSome(ranges[..i + 1], w) <==> InSome(ranges[..i], w) || InRange(r, w);
    }
    assert ranges[..|ranges|] == ranges;
  }

  // ---------------------------------------------------------------- subnet pools

  function IpPool(ranges: seq<Net>, newLen: int): Option<seq<Net>>
  {
    if ranges == [] then Some([])
    else
      var n := Last(ranges);
      var before, subnets := IpPool(Front(ranges), newLen), Subnets(n, newLen);
      if before.None? || subnets.None? then None else Some(before.value + subnets.value)
  }

  /** The loop of `subnets`: one block every step from the first address to the last. */
  method SubnetsOf(n: Net, newLen: int) returns (r: Option<seq<Net>>)
    ensures r == Subnets(n, newLen)
  {
    if n.len == BITS {
      return Some([n]);
    }
    if newLen < n.len || newLen > BITS {
      return None;
    }
    ghost var count := SizeFactor(n.len, newLen);
    var step := Size(newLen);
    var subnets := [];
    var start := n.addr;
    ghost var i := 0;
    while start < n.addr + Size(n.len)
      invariant 0 <= i <= count && start == n.addr + Times(i, step)
      invariant subnets == Cut(n, newLen, i)
      decreases count - i
    {
      Progress(i, count, step);
      var subnet := SubnetStarting(n, newLen, i, start);
      subnets := subnets + [subnet];
      start, i := start + step, i + 1;
    }
    Progress(i, count, step);
    assert Cut(n, newLen, i) == Subnets(n, newLen).value;
    r := Some(subnets);
  }

  ghost function Times(i: nat, step: nat): nat {
    i * step
  }

  lemma Progress(i: nat, count: nat, step: nat)
    requires step > 0 && i <= count
    ensures Times(i, step) < count * step <==> i < count
    ensures Times(i, step) + step == Times(i + 1, step)
  {
    if i < count {
      ApartArithmetic(i, count, step);
    }
  }

  ghost function Cut(n: Net, newLen: nat, i: nat): (r: seq<Net>)
    requires n.len <= newLen <= BITS && i <= Pow2(newLen - n.len)
    ensures |r| == i && forall k :: 0 <= k < i ==> r[k] == SubnetAt(n, newLen, k)
  {
    seq(i, k requires 0 <= k < i => SubnetAt(n, newLen, k))
  }

  method SubnetStarting(n: Net, newLen: nat, ghost i: nat, start: nat) returns (r: Net)
    requires n.len <= newLen <= BITS && i < Pow2(newLen - n.len) && start == n.addr + i * Size(newLen)
    ensures r == SubnetAt(n, newLen, i)
  {
    SubnetAtInside(n, newLen, i);
    r := Block(start, newLen);
  }

  lemma {:induction false} CutFails(ranges: seq<Net>, newLen: int, i: nat)
    requires i <= |ranges|
    requires IpPool(ranges[..i], newLen).None?
    ensures IpPool(ranges, newLen).None?
  {
    if i == |ranges| {
      assert ranges[..i] == ranges;
    } else {
      assert Front(ranges)[..i] == ranges[..i];
      CutFails(Front(ranges), newLen, i);
    }
  }

  method IpPoolFromRanges(ranges: seq<Net>, newLen: int) returns (pool: Option<seq<Net>>)
    ensures pool == IpPool(ranges, newLen)
  {
    var res := [];
    for i := 0 to |ranges|
      invariant IpPool(ranges[..i], newLen) == Some(res)
    {
      assert Front(ranges[..i + 1]) == ranges[..i];
      assert ranges[i] in ranges;
      var subnets := SubnetsOf(ranges[i], newLen);
      if subnets.None? {
        CutFails(ranges, newLen, i + 1);
        return None;
      }
      res := res + subnets.value;
    }
    assert ranges[..|ranges|] == ranges;
    pool := Some(res);
  }

  predicate Cuttable(n: Net, newLen: int) {
    n.len == BITS || n.len <= newLen <= BITS
  }

  /** How many blocks each range gives: a power of two. */
  function Count(ranges: seq<Net>, newLen: int): nat {
    if ranges == [] then 0
    else
      var n := Last(ranges);
      Count(Front(ranges), newLen) + if Cuttable(n, newLen) then Pow2(CutLength(n, newLen) - n.len) else 0
  }

  lemma {:induction false} IpPoolComesBack(ranges: seq<Net>, newLen: int)
    ensures IpPool(ranges, newLen).Some? <==> forall n :: n in ranges ==> Cuttable(n, newLen)
  {
    if ranges != [] {
      IpPoolComesBack(Front(ranges), newLen);
      assert ranges == Front(ranges) + [Last(ranges)];
      assert Subnets(Last(ranges), newLen).Some? <==> Cuttable(Last(ranges), newLen);
      assert Last(ranges) in ranges && forall n :: n in Front(ranges) ==> n in ranges;
    }
  }

  /** The pool of these ranges is proper: as many blocks as counted, over the same addresses. */
  ghost predicate IsPool(ranges: seq<Net>, newLen: int, pool: seq<Net>) {
    && |pool| == Count(ranges, newLen)
    && (forall a: nat :: Covers(pool, a) <==> Covers(ranges, a))
    && (PairwiseDisjoint(pool) <==> PairwiseDisjoint(ranges))
  }

  /**
   * A pool comes back exactly when every range can be cut. Its blocks then cover exactly the ranges,
   * number the sum of the powers of two, and are pairwise disjoint exactly when the ranges are.
   */
  lemma {:induction false} IpPoolPartition(ranges: seq<Net>, newLen: int)
    ensures IpPool(ranges, newLen).Some? <==> forall n :: n in ranges ==> Cuttable(n, newLen)
    ensures IpPool(ranges, newLen).Some? ==> IsPool(ranges, newLen, IpPool(ranges, newLen).value)
  {
    IpPoolComesBack(ranges, newLen);
    if ranges != [] && IpPool(ranges, newLen).Some? {
      IpPoolPartition(Front(ranges), newLen);
      assert ranges == Front(ranges) + [Last(ranges)];
      OneMoreRange(Front(ranges), Last(ranges), newLen, IpPool(Front(ranges), newLen).value);
    }
  }

  /** The blocks are at most /30 exactly when the length asked for is and no range is a single address. */
  lemma {:induction false} BlockLengths(ranges: seq<Net>, newLen: int)
    requires IpPool(ranges, newLen).Some?
    ensures (forall m :: m in IpPool(ranges, newLen).value ==> m.len <= 30)
       <==> (forall n :: n in ranges ==> n.len != BITS && newLen <= 30)
  {
    if ranges != [] {
      var n, before := Last(ranges), IpPool(Front(ranges), newLen).value;
      var subnets := Subnets(n, newLen).value;
      assert ranges == Front(ranges) + [n];
      BlockLengths(Front(ranges), newLen);
      SubnetsPartition(n, newLen);
      assert |subnets| > 0 && subnets[0] in subnets;
      assert forall m :: m in before + subnets <==> m in before || m in subnets;
    }
  }

  /** The blocks of the earlier ranges come first. */
  lemma {:induction false} IpPoolInOrder(ranges: seq<Net>, newLen: int, k: nat)
    requires k <= |ranges| && IpPool(ranges, newLen).Some?
    ensures IpPool(ranges[..k], newLen).Some? && IpPool(ranges[..k], newLen).value <= IpPool(ranges, newLen).value
  {
    if k == |ranges| {
      assert ranges[..k] == ranges;
    } else {
      assert Front(ranges)[..k] == ranges[..k];
      IpPoolInOrder(Front(ranges), newLen, k);
    }
  }

  /** Each block of a pool lies in one of the ranges, and has the length asked for or is a single address. */
  lemma {:induction false} PoolWithinRanges(ranges: seq<Net>, newLen: int)
    requires IpPool(ranges, newLen).Some?
    ensures forall m :: m in IpPool(ranges, newLen).value ==>
      exists n :: n in ranges && Within(m, n) && m.len == CutLength(n, newLen)
  {
    if ranges != [] {
      var n, before := Last(ranges), IpPool(Front(ranges), newLen).value;
      var subnets := Subnets(n, newLen).value;
      PoolWithinRanges(Front(ranges), newLen);
      assert ranges == Front(ranges) + [n];
      forall m | m in before + subnets
        ensures exists n :: n in ranges && Within(m, n) && m.len == CutLength(n, newLen)
      {
        if m in before {
          var n' :| n' in Front(ranges) && Within(m, n') && m.len == CutLength(n', newLen);
          assert n' in ranges;
        } else {
          assert n in ranges && Within(m, n) && m.len == CutLength(n, newLen);
        }
      }
    }
  }

  lemma OneMoreRange(ranges: seq<Net>, n: Net, newLen: int, pool: seq<Net>)
    requires Cuttable(n, newLen)
    requires IsPool(ranges, newLen, pool)
    ensures IsPool(ranges + [n], newLen, pool + Subnets(n, newLen).value)
  {
    assert Front(ranges + [n]) == ranges;
    SubnetsPartition(n, newLen);
    PoolGrows(ranges, n, pool, Subnets(n, newLen).value);
  }

  lemma CoversConcat(p: seq<Net>, q: seq<Net>, a: nat)
    ensures Covers(p + q, a) <==> Covers(p, a) || Covers(q, a)
  {
  }

  ghost predicate Separate(p: seq<Net>, q: seq<Net>)
  {
    forall n, m :: n in p && m in q ==> !ShareAddress(n, m)
  }

  lemma SeparateByAddress(p: seq<Net>, q: seq<Net>)
    ensures Separate(p, q) <==> forall a: nat :: !(Covers(p, a) && Covers(q, a))
  {
    if Separate(p, q) {
      forall a: nat
        ensures !(Covers(p, a) && Covers(q, a))
      {
        if Covers(p, a) && Covers(q, a) {
          var n :| n in p && Contains(n, a);
          var m :| m in q && Contains(m, a);
          assert ShareAddress(n, m);
        }
      }
    } else {
      var n, m :| n in p && m in q && ShareAddress(n, m);
      var a: nat :| Contains(n, a) && Contains(m, a);
      assert Covers(p, a) && Covers(q, a);
    }
  }

  lemma DisjointConcat(p: seq<Net>, q: seq<Net>)
    ensures PairwiseDisjoint(p + q) <==> PairwiseDisjoint(p) && PairwiseDisjoint(q) && Separate(p, q)
  {
    var all := p + q;
    assert forall i :: 0 <= i < |p| ==> all[i] == p[i];
    assert forall i :: 0 <= i < |q| ==> all[|p| + i] == q[i];
    if PairwiseDisjoint(all) {
      forall n, m | n in p && m in q
        ensures !ShareAddress(n, m)
      {
        var i :| 0 <= i < |p| && p[i] == n;
        var j :| 0 <= j < |q| && q[j] == m;
        assert !ShareAddress(all[i], all[|p| + j]);
      }
      forall i, j | 0 <= i < j < |q|
        ensures !ShareAddress(q[i], q[j])
      {
        assert !ShareAddress(all[|p| + i], all[|p| + j]);
      }
      forall i, j | 0 <= i < j < |p|
        ensures !ShareAddress(p[i], p[j])
      {
        assert !ShareAddress(all[i], all[j]);
      }
    }
  }

  lemma PoolGrows(ranges: seq<Net>, n: Net, pool: seq<Net>, subnets: seq<Net>)
    requires PairwiseDisjoint(subnets)
    requires forall a: nat :: Covers(pool, a) <==> Covers(ranges, a)
    requires forall a: nat :: Covers(subnets, a) <==> Contains(n, a)
    requires PairwiseDisjoint(pool) <==> PairwiseDisjoint(ranges)
    ensures forall a: nat :: Covers(pool + subnets, a) <==> Covers(ranges + [n], a)
    ensures PairwiseDisjoint(pool + subnets) <==> PairwiseDisjoint(ranges + [n])
  {
    forall a: nat
      ensures Covers(pool + subnets, a) <==> Covers(ranges + [n], a)
      ensures Covers([n], a) <==> Contains(n, a)
    {
      CoversConcat(pool, subnets, a);
      CoversConcat(ranges, [n], a);
      assert n in [n];
    }
    DisjointConcat(pool, subnets);
    DisjointConcat(ranges, [n]);
    SeparateByAddress(pool, subnets);
    SeparateByAddress(ranges, [n]);
  }
}
