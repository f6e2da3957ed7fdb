/**
 * CIDR blocks (section 3.1 of RFC 4632), IPv4 only, as Python's `ipaddress` sees them.
 *
 * A block is a network address and a prefix length; the address is a multiple of the block's
 * size. Everything outside this module reasons about blocks through three facts: a block is a
 * non-empty interval, it is the disjoint union of its two halves, and two blocks are nested or
 * disjoint.
 */
module Cidr {
  const MAX_LEN: nat := 32

  function Pow2(n: nat): (r: nat)
    ensures r >= 1
  {
    if n == 0 then 1 else 2 * Pow2(n - 1)
  }

  /** Number of addresses in a block of this prefix length. */
  function Size(len: nat): (s: nat)
    requires len <= MAX_LEN
    ensures s >= 1
  {
    Pow2(MAX_LEN - len)
  }

  datatype Prefix = Prefix(net: nat, len: nat) {
    predicate Valid() {
      len <= MAX_LEN && net % Size(len) == 0 && net + Size(len) <= Pow2(MAX_LEN)
    }
  }

  type Block = p: Prefix | p.Valid() witness Prefix(0, 32)

  type Address = a: nat | a < Pow2(MAX_LEN) witness (Whole(); 0)

  lemma Whole()
    ensures 0 < Pow2(MAX_LEN)
  {
  }

  /** First address after the block. */
  function End(b: Block): nat {
    b.net + Size(b.len)
  }

  function Broadcast(b: Block): (a: nat)
    ensures b.net <= a < End(b)
  {
    End(b) - 1
  }

  predicate Contains(b: Block, a: int) {
    b.net <= a < End(b)
  }

  /** `overlaps`: either block contains an end point of the other. */
  predicate Overlaps(a: Block, b: Block)
    ensures Overlaps(a, b) <==> a.net < End(b) && b.net < End(a)
    ensures Overlaps(a, b) <==> exists x {:trigger Contains(a, x)} {:trigger Contains(b, x)} :: Contains(a, x) && Contains(b, x)
  {
    assert Contains(a, a.net) && Contains(b, b.net);
    || Contains(a, b.net) || Contains(a, Broadcast(b))
    || Contains(b, a.net) || Contains(b, Broadcast(a))
  }

  predicate SubnetOf(a: Block, b: Block) {
    b.net <= a.net && Broadcast(a) <= Broadcast(b)
  }

  // ---------------------------------------------------------------- arithmetic

  lemma {:induction false} Pow2Plus(m: nat, n: nat)
    ensures Pow2(m + n) == Pow2(m) * Pow2(n)
    decreases m
  {
    if m == 0 {
    } else {
      Pow2Plus(m - 1, n);
    }
  }

  lemma {:induction false} Pow2Increasing(m: nat, n: nat)
    requires m < n
    ensures 2 * Pow2(m) <= Pow2(n)
    decreases n
  {
    if n - 1 <= m {
    } else {
      Pow2Increasing(m, n - 1);
    }
  }

  /** The block sizes of the constants this repository uses. */
  lemma BlockSizes()
    ensures Size(14) == 0x4_0000 && Size(16) == 0x1_0000 && Size(29) == 8
    ensures Pow2(MAX_LEN) == 0x1_0000_0000
  {
    assert Pow2(2) == 4 && Pow2(3) == 8 && Pow2(4) == 16;
    Pow2Plus(4, 4);
    Pow2Plus(8, 8);
    Pow2Plus(2, 16);
    Pow2Plus(16, 16);
  }

  lemma SizeSplit(short: nat, long: nat)
    requires short <= long <= MAX_LEN
    ensures Size(short) == Pow2(long - short) * Size(long)
  {
    Pow2Plus(long - short, MAX_LEN - long);
  }

  lemma MulMonotone(x: int, y: int, s: nat)
    requires x <= y
    ensures x * s <= y * s
  {
  }

  lemma MultipleOf(k: int, s: nat)
    requires s >= 1
    ensures (k * s) % s == 0
  {
    assert (k * s) % s == 0 by {
      if (k * s) % s != 0 {
        var q, r := (k * s) / s, (k * s) % s;
        assert k * s == q * s + r;
        assert (k - q) * s == r;
        if k - q >= 1 { MulMonotone(1, k - q, s); } else { MulMonotone(k - q, 0, s); }
        assert false;
      }
    }
  }

  lemma Quotient(n: nat, d: nat) returns (q: nat)
    requires d >= 1 && n % d == 0
    ensures n == q * d
  {
    q := n / d;
  }

  /** q blocks of size k*s and then i of size s: all in units of s. */
  lemma InUnits(q: int, k: int, i: int, s: int)
    ensures q * (k * s) + i * s == (q * k + i) * s
  {
    assert q * (k * s) == (q * k) * s;
  }

  lemma AlignedInts(n: nat, k: nat, s: nat, i: nat)
    requires s >= 1 && k * s >= 1 && n % (k * s) == 0
    ensures (n + i * s) % s == 0
  {
    var q := Quotient(n, k * s);
    InUnits(q, k, i, s);
    MultipleOf(q * k + i, s);
  }

  /** Aligned intervals of sizes s and k*s: the first is inside the second or misses it. */
  lemma InsideOrOutside(m: nat, s: nat, n: nat, k: nat)
    requires s >= 1 && k * s >= 1 && m % s == 0 && n % (k * s) == 0
    ensures (n <= m && m + s <= n + k * s) || m + s <= n || n + k * s <= m
  {
    var i := Quotient(m, s);
    var j := Quotient(n, k * s);
    InUnits(j, k, 0, s);
    InUnits(j, k, k, s);
    assert m + s == (i + 1) * s;
    if i < j * k {
      MulMonotone(i + 1, j * k, s);
    } else if i >= j * k + k {
      MulMonotone(j * k + k, i, s);
    } else {
      MulMonotone(j * k, i, s);
      MulMonotone(i + 1, j * k + k, s);
    }
  }

  /** Adding any number of steps of a finer size to an aligned address keeps that finer alignment. */
  lemma AlignedOffset(b: Block, len: nat, i: nat)
    requires b.len <= len <= MAX_LEN
    ensures (b.net + i * Size(len)) % Size(len) == 0
  {
    SizeSplit(b.len, len);
    AlignedInts(b.net, Pow2(len - b.len), Size(len), i);
  }

  // ---------------------------------------------------------------- halves and nesting

  function LowerHalf(b: Block): (h: Block)
    requires b.len < MAX_LEN
    ensures h.len == b.len + 1 && h.net == b.net
    ensures SubnetOf(h, b) && End(h) == b.net + Size(b.len + 1)
  {
    AlignedOffset(b, b.len + 1, 0);
    Prefix(b.net, b.len + 1)
  }

  /** The two blocks `subnets()` yields: together they are the block, and they are disjoint. */
  function UpperHalf(b: Block): (h: Block)
    requires b.len < MAX_LEN
    ensures h.len == b.len + 1 && h.net == End(LowerHalf(b))
    ensures SubnetOf(h, b) && End(h) == End(b)
  {
    AlignedOffset(b, b.len + 1, 1);
    Prefix(b.net + Size(b.len + 1), b.len + 1)
  }

  /** Two CIDR blocks are nested or disjoint; the one with the longer prefix is the inner one. */
  lemma NestedOrDisjoint(a: Block, b: Block)
    requires b.len <= a.len
    ensures Overlaps(a, b) <==> SubnetOf(a, b)
  {
    SizeSplit(b.len, a.len);
    InsideOrOutside(a.net, Size(a.len), b.net, Pow2(a.len - b.len));
  }

  /** A block inside another has a longer prefix, or is that block. */
  lemma SubnetLength(a: Block, b: Block)
    requires SubnetOf(a, b)
    ensures b.len <= a.len
    ensures a.len == b.len ==> a == b
  {
    if a.len < b.len {
      Pow2Increasing(MAX_LEN - b.len, MAX_LEN - a.len);
    }
  }

  /** A block strictly inside another lies in one of its halves. */
  lemma InOneHalf(a: Block, b: Block)
    requires SubnetOf(a, b) && a != b
    ensures b.len < MAX_LEN
    ensures SubnetOf(a, LowerHalf(b)) != SubnetOf(a, UpperHalf(b))
  {
    SubnetLength(a, b);
    NestedOrDisjoint(a, LowerHalf(b));
    NestedOrDisjoint(a, UpperHalf(b));
  }

  /** The /32 block holding one address. */
  function Host(a: nat): (b: Block)
    requires a < Pow2(MAX_LEN)
    ensures b.net == a && End(b) == a + 1
  {
    Prefix(a, MAX_LEN)
  }

  // ---------------------------------------------------------------- lists of blocks

  ghost predicate InOne(b: Block, bs: seq<Block>) {
    exists q :: q in bs && SubnetOf(b, q)
  }

  ghost predicate Covers(bs: seq<Block>, a: int) {
    exists q :: q in bs && Contains(q, a)
  }

  ghost predicate PairwiseDisjoint(bs: seq<Block>) {
    forall i, j :: 0 <= i < j < |bs| ==> !Overlaps(bs[i], bs[j])
  }

  predicate Misses(b: Block, holes: seq<Block>) {
    forall h :: h in holes ==> !Overlaps(b, h)
  }

  lemma DisjointConcat(xs: seq<Block>, ys: seq<Block>)
    requires PairwiseDisjoint(xs) && PairwiseDisjoint(ys)
    requires forall x, y :: x in xs && y in ys ==> !Overlaps(x, y)
    ensures PairwiseDisjoint(xs + ys)
  {
    var zs := xs + ys;
    forall i, j | 0 <= i < j < |zs| ensures !Overlaps(zs[i], zs[j]) {
      if i < |xs| <= j {
        assert xs[i] in xs && ys[j - |xs|] in ys;
      }
    }
  }

  lemma InOneConcat(b: Block, xs: seq<Block>, ys: seq<Block>)
    ensures InOne(b, xs + ys) <==> InOne(b, xs) || InOne(b, ys)
  {
    if InOne(b, xs) {
      var q :| q in xs && SubnetOf(b, q);
      assert q in xs + ys;
    }
    if InOne(b, ys) {
      var q :| q in ys && SubnetOf(b, q);
      assert q in xs + ys;
    }
  }
}
