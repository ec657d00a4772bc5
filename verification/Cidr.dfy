/** IPv4 blocks as the `ipaddress` library has them (RFC 4632, section 3.1), and pools cut out of ranges. */
module Cidr {
  import opened Common

  const BITS: nat := 32

  function Pow2(n: nat): (r: nat)
    ensures r > 0
  {
    if n == 0 then 1 else 2 * Pow2(n - 1)
  }

  lemma MulMono(a: int, b: int, c: nat)
    requires a <= b
    ensures a * c <= b * c
  {
    assert (b - a) * c >= 0;
  }

  lemma DivUnique(x: int, d: int, q: int, r: int)
    requires d > 0 && x == q * d + r && 0 <= r < d
    ensures x / d == q && x % d == r
  {
    var q', r' := x / d, x % d;
    assert x == q' * d + r';
    if q < q' {
      MulMono(q + 1, q', d);
    } else if q' < q {
      MulMono(q' + 1, q, d);
    }
  }

  lemma MulLess(i: int, j: int, c: nat)
    requires i * c < j * c
    ensures i < j
  {
    if i >= j {
      MulMono(j, i, c);
    }
  }

  /** A block: its first address and the length of its prefix. */
  datatype Block = Block(addr: nat, len: nat)

  function Size(len: nat): (r: nat)
    requires len <= BITS
    ensures r > 0
  {
    Pow2(BITS - len)
  }

  /** The host bits of the first address are zero and the last address is one of the 2^32. */
  predicate IsNet(n: Block) {
    n.len <= BITS && n.addr % Size(n.len) == 0 && n.addr + Size(n.len) <= Size(0)
  }

  /** A block of one address, twice as many for every bit less, and all of the addresses at no bit. */
  lemma SizeExact(len: nat)
    requires len <= BITS
    ensures Size(0) == 0x1_0000_0000 && Size(32) == 1
    ensures len < 32 ==> Size(len) == 2 * Size(len + 1)
  {
    assert Pow2(8) == 256;
    Pow2Sum(8, 8);
    Pow2Sum(16, 16);
  }

  /** An `IPv4Network`; its constructor refuses every other block. */
  type Net = n: Block | IsNet(n) witness Block(0, BITS)

  predicate Contains(n: Net, a: nat) {
    n.addr <= a < n.addr + Size(n.len)
  }

  function Broadcast(n: Net): nat {
    n.addr + Size(n.len) - 1
  }

  /** `overlaps`: one of the two contains the first or the last address of the other. */
  predicate Overlaps(n: Net, m: Net) {
    Contains(n, m.addr) || Contains(n, Broadcast(m)) || Contains(m, n.addr) || Contains(m, Broadcast(n))
  }

  ghost predicate ShareAddress(n: Net, m: Net) {
    exists a: nat :: Contains(n, a) && Contains(m, a)
  }

  ghost predicate Within(m: Net, n: Net) {
    forall a: nat :: Contains(m, a) ==> Contains(n, a)
  }

  lemma OverlapsIsSharing(n: Net, m: Net)
    ensures Overlaps(n, m) <==> ShareAddress(n, m)
  {
    if Overlaps(n, m) {
      var a := if n.addr <= m.addr then m.addr else n.addr;
      assert Contains(n, a) && Contains(m, a);
    }
  }

  lemma {:induction false} Pow2Sum(a: nat, b: nat)
    ensures Pow2(a + b) == Pow2(a) * Pow2(b)
  {
    if a != 0 {
      Pow2Sum(a - 1, b);
      assert Pow2(a + b) == 2 * (Pow2(a - 1) * Pow2(b));
    }
  }

  /** Each block is its number times its size. */
  lemma NetNumber(n: Net) returns (i: nat)
    ensures n.addr == i * Size(n.len)
  {
    i := Quotient(n.addr, Size(n.len));
  }

  lemma Quotient(a: nat, size: nat) returns (i: nat)
    requires size > 0 && a % size == 0
    ensures a == i * size
  {
    i := a / size;
  }

  lemma SizeFactor(short: nat, long: nat) returns (factor: nat)
    requires short <= long <= BITS
    ensures factor == Pow2(long - short) && Size(short) == factor * Size(long)
  {
    factor := Pow2(long - short);
    Pow2Sum(long - short, BITS - long);
  }

  /** Of two multiples of a step, the greater is a whole step away. */
  lemma NextMultiple(i: int, j: int, step: nat)
    requires i * step < j * step
    ensures i * step + step <= j * step
  {
    MulLess(i, j, step);
    MulMono(i + 1, j, step);
  }

  lemma Regroup(i: int, factor: int, small: int)
    ensures i * (factor * small) == (i * factor) * small
  {
  }

  lemma AlignedArithmetic(n: int, m: int, i: int, j: int, factor: int, small: nat)
    requires n == i * (factor * small) && m == j * small
    ensures m < n ==> m + small <= n
    ensures m < n + factor * small ==> m + small <= n + factor * small
  {
    Regroup(i, factor, small);
    Regroup(i + 1, factor, small);
    assert (i + 1) * (factor * small) == n + factor * small;
    if m < n {
      NextMultiple(j, i * factor, small);
    }
    if m < n + factor * small {
      NextMultiple(j, (i + 1) * factor, small);
    }
  }

  /** A block that starts before another of shorter prefix, or inside it, also ends there. */
  lemma Aligned(n: Net, m: Net)
    requires n.len <= m.len
    ensures m.addr < n.addr ==> m.addr + Size(m.len) <= n.addr
    ensures m.addr < n.addr + Size(n.len) ==> m.addr + Size(m.len) <= n.addr + Size(n.len)
  {
    var factor := SizeFactor(n.len, m.len);
    var i := NetNumber(n);
    var j := NetNumber(m);
    AlignedArithmetic(n.addr, m.addr, i, j, factor, Size(m.len));
  }

  /** Two blocks are nested or share no address: with the shorter prefix comes the outer block. */
  lemma NestedOrDisjoint(n: Net, m: Net)
    requires n.len <= m.len
    ensures Within(m, n) || !ShareAddress(n, m)
  {
    Aligned(n, m);
  }

  /** `IPv4Network(..., strict=False)`: the block of that length around an address. */
  function Around(ip: nat, len: nat): (r: Net)
    requires len <= BITS && ip < Size(0)
    ensures r.len == len && Contains(r, ip)
  {
    Fits(ip, len);
    Block(ip - ip % Size(len), len)
  }

  lemma Fits(ip: nat, len: nat)
    requires len <= BITS && ip < Size(0)
    ensures var size := Size(len);
            ip % size <= ip && (ip - ip % size) % size == 0 && ip - ip % size + size <= Size(0)
  {
    var count := SizeFactor(0, len);
    MaskArithmetic(ip, Size(len), count);
  }

  lemma MaskArithmetic(ip: nat, size: nat, count: nat)
    requires size > 0 && ip < count * size
    ensures ip % size <= ip && (ip - ip % size) % size == 0 && ip - ip % size + size <= count * size
  {
    var q := ip / size;
    assert ip == q * size + ip % size;
    MulMono(0, q, size);
    DivUnique(q * size, size, q, 0);
    NextMultiple(q, count, size);
  }

  // ---------------------------------------------------------------- cutting a block

  function SubnetAt(n: Net, len: nat, i: nat): (r: Net)
    requires n.len <= len <= BITS && i < Pow2(len - n.len)
    ensures r == Block(n.addr + i * Size(len), len) && Within(r, n)
  {
    SubnetAtInside(n, len, i);
    Block(n.addr + i * Size(len), len)
  }

  /**
   * `subnets(new_prefix=...)`: a single address yields itself whatever is asked; otherwise the new
   * prefix must not be shorter than the block's own nor longer than 32.
   */
  function Subnets(n: Net, newLen: int): (r: Option<seq<Net>>) {
    if n.len == BITS then Some([n])
    else if newLen < n.len || newLen > BITS then None
    else Some(seq(Pow2(newLen - n.len), i requires 0 <= i < Pow2(newLen - n.len) => SubnetAt(n, newLen, i)))
  }

  function CutLength(n: Net, newLen: int): int {
    if n.len == BITS then BITS else newLen
  }

  ghost predicate Covers(pool: seq<Net>, a: nat) {
    exists n :: n in pool && Contains(n, a)
  }

  ghost predicate PairwiseDisjoint(pool: seq<Net>) {
    forall i, j :: 0 <= i < j < |pool| ==> !ShareAddress(pool[i], pool[j])
  }

  lemma StepArithmetic(n: int, q: int, i: int, count: int, size: nat)
    requires size > 0 && n == q * (count * size) && 0 <= i < count
    ensures (n + i * size) % size == 0 && 0 <= i * size && i * size + size <= count * size
  {
    Regroup(q, count, size);
    assert n + i * size == (q * count + i) * size;
    MulMono(0, i, size);
    DivUnique(n + i * size, size, q * count + i, 0);
    MulMono(i + 1, count, size);
  }

  lemma SubnetAtInside(n: Net, len: nat, i: nat)
    requires n.len <= len <= BITS && i < Pow2(len - n.len)
    ensures IsNet(Block(n.addr + i * Size(len), len)) && Within(Block(n.addr + i * Size(len), len), n)
  {
    var count := SizeFactor(n.len, len);
    var q := NetNumber(n);
    StepArithmetic(n.addr, q, i, count, Size(len));
  }

  /** The cut goes from the first address of the block upwards. */
  lemma SubnetsAscend(n: Net, newLen: int)
    requires Subnets(n, newLen).Some?
    ensures var subnets := Subnets(n, newLen).value;
            && subnets != [] && subnets[0].addr == n.addr
            && forall i :: 0 <= i < |subnets| - 1 ==> subnets[i + 1].addr == Broadcast(subnets[i]) + 1
  {
    var subnets := Subnets(n, newLen).value;
    if n.len < BITS {
      assert |subnets| == Pow2(newLen - n.len);
      assert subnets[0].addr == n.addr + 0 * Size(newLen);
      forall i | 0 <= i < |subnets| - 1
        ensures subnets[i + 1].addr == Broadcast(subnets[i]) + 1
      {
        assert (i + 1) * Size(newLen) == i * Size(newLen) + Size(newLen);
      }
    }
  }

  lemma QuotientArithmetic(x: nat, size: nat, count: nat)
    requires size > 0 && x < count * size
    ensures 0 <= x / size < count && (x / size) * size <= x < (x / size) * size + size
  {
    assert x == (x / size) * size + x % size;
    MulLess(x / size, count, size);
  }

  lemma SubnetOf(n: Net, len: nat, a: nat) returns (i: nat)
    requires n.len <= len <= BITS && Contains(n, a)
    ensures i < Pow2(len - n.len) && Contains(SubnetAt(n, len, i), a)
  {
    var count := SizeFactor(n.len, len);
    QuotientArithmetic(a - n.addr, Size(len), count);
    i := (a - n.addr) / Size(len);
  }

  lemma SubnetsApart(n: Net, len: nat, i: nat, j: nat)
    requires n.len <= len <= BITS && i < j < Pow2(len - n.len)
    ensures !ShareAddress(SubnetAt(n, len, i), SubnetAt(n, len, j))
  {
    ApartArithmetic(i, j, Size(len));
  }

  lemma ApartArithmetic(i: int, j: int, size: nat)
    requires i < j
    ensures i * size + size <= j * size
  {
    MulMono(i + 1, j, size);
  }

  /** The cut is a partition: pairwise disjoint blocks that cover the block, 2^(L - length) of them. */
  lemma SubnetsPartition(n: Net, newLen: int)
    requires Subnets(n, newLen).Some?
    ensures var subnets := Subnets(n, newLen).value;
            && PairwiseDisjoint(subnets)
            && CutLength(n, newLen) >= n.len && |subnets| == Pow2(CutLength(n, newLen) - n.len)
            && (forall a: nat :: Covers(subnets, a) <==> Contains(n, a))
            && (forall m :: m in subnets ==> m.len == CutLength(n, newLen))
  {
    var subnets := Subnets(n, newLen).value;
    if n.len < BITS {
      forall i, j | 0 <= i < j < |subnets|
        ensures !ShareAddress(subnets[i], subnets[j])
      {
        SubnetsApart(n, newLen, i, j);
      }
      forall a: nat | Contains(n, a)
        ensures Covers(subnets, a)
      {
        var i := SubnetOf(n, newLen, a);
        assert subnets[i] in subnets;
      }
    } else {
      assert n in subnets;
    }
  }
}
