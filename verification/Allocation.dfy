/** The first-fit block allocator of fabric_cluster_ipam.py and its capacity. */
module Allocation {
  import opened Prelude
  import opened Cidr

  /** A pool to carve from and the prefix length of the blocks handed out. */
  datatype Pool = Pool(cidr: Block, blockLen: int)

  datatype AllocResult = Allocated(block: Block) | NoFreeBlock | InvalidPrefix

  /** `subnets(new_prefix=...)` raises for a length outside the pool; a /32 pool yields itself for any length. */
  predicate ValidPool(p: Pool) {
    p.cidr.len == MAX_LEN || p.cidr.len <= p.blockLen <= MAX_LEN
  }

  function BlockLen(p: Pool): (len: nat)
    requires ValidPool(p)
    ensures p.cidr.len <= len <= MAX_LEN
  {
    if p.cidr.len == MAX_LEN then MAX_LEN else p.blockLen
  }

  /** Number of blocks `subnets` yields. */
  function Capacity(p: Pool): (n: nat)
    requires ValidPool(p)
    ensures n >= 1
  {
    Pow2(BlockLen(p) - p.cidr.len)
  }

  lemma CandidateFits(p: Pool, i: nat)
    requires ValidPool(p) && i < Capacity(p)
    ensures var c := Prefix(p.cidr.net + i * Size(BlockLen(p)), BlockLen(p));
      c.Valid() && p.cidr.net <= c.net && c.net + Size(c.len) <= End(p.cidr)
  {
    var s := Size(BlockLen(p));
    AlignedOffset(p.cidr, BlockLen(p), i);
    SizeSplit(p.cidr.len, BlockLen(p));
    MulMonotone(i + 1, Capacity(p), s);
    assert (i + 1) * s == i * s + s;
  }

  /** The i-th block `subnets` yields. */
  function Candidate(p: Pool, i: nat): (c: Block)
    requires ValidPool(p) && i < Capacity(p)
    ensures c.len == BlockLen(p) && c.net == p.cidr.net + i * Size(c.len) && SubnetOf(c, p.cidr)
  {
    CandidateFits(p, i);
    Prefix(p.cidr.net + i * Size(BlockLen(p)), BlockLen(p))
  }

  /** First candidate from the i-th on that misses every obstacle. */
  function FirstFree(p: Pool, obstacles: seq<Block>, i: nat): AllocResult
    requires ValidPool(p) && i <= Capacity(p)
    decreases Capacity(p) - i
  {
    if i == Capacity(p) then NoFreeBlock
    else if Misses(Candidate(p, i), obstacles) then Allocated(Candidate(p, i))
    else FirstFree(p, obstacles, i + 1)
  }

  function Allocate(p: Pool, obstacles: seq<Block>): AllocResult {
    if ValidPool(p) then FirstFree(p, obstacles, 0) else InvalidPrefix
  }

  lemma FirstFreeNext(p: Pool, obstacles: seq<Block>, i: nat)
    requires ValidPool(p) && i < Capacity(p)
    ensures FirstFree(p, obstacles, i) ==
      if Misses(Candidate(p, i), obstacles) then Allocated(Candidate(p, i)) else FirstFree(p, obstacles, i + 1)
  {
  }

  /** The scanning loop of `allocate`. */
  method ScanPool(p: Pool, obstacles: seq<Block>) returns (r: AllocResult)
    ensures r == Allocate(p, obstacles)
  {
    if !ValidPool(p) {
      return InvalidPrefix;
    }
    ghost var result := Allocate(p, obstacles);
    var i, n := 0, Capacity(p);
    while i < n
      invariant 0 <= i <= n
      invariant FirstFree(p, obstacles, i) == result
    {
      FirstFreeNext(p, obstacles, i);
      var net := Candidate(p, i);
      if Misses(net, obstacles) {
        return Allocated(net);
      }
      i := i + 1;
    }
    r := NoFreeBlock;
  }

  // ---------------------------------------------------------------- first fit is lowest fit

  /** A block the pool could hand out. */
  predicate InPool(p: Pool, b: Block)
    requires ValidPool(p)
  {
    b.len == BlockLen(p) && SubnetOf(b, p.cidr)
  }

  lemma StepsBetween(m: nat, n: nat, s: nat, k: nat) returns (i: nat)
    requires s >= 1 && m % s == 0 && n % s == 0
    requires n <= m && m + s <= n + k * s
    ensures i < k && m == n + i * s
  {
    var x := Quotient(m, s);
    var y := Quotient(n, s);
    if x < y { MulMonotone(x + 1, y, s); }
    if x >= y + k { MulMonotone(y + k, x, s); }
    i := x - y;
  }

  lemma PoolBlockIsCandidate(p: Pool, b: Block) returns (i: nat)
    requires ValidPool(p) && InPool(p, b)
    ensures i < Capacity(p) && b == Candidate(p, i)
  {
    SizeSplit(p.cidr.len, b.len);
    AlignedOffset(p.cidr, b.len, 0);
    i := StepsBetween(b.net, p.cidr.net, Size(b.len), Capacity(p));
  }

  lemma {:induction false} FirstFreeFound(p: Pool, obstacles: seq<Block>, i: nat) returns (j: nat)
    requires ValidPool(p) && i <= Capacity(p)
    ensures i <= j <= Capacity(p)
    ensures forall k :: i <= k < j ==> !Misses(Candidate(p, k), obstacles)
    ensures FirstFree(p, obstacles, i) == if j == Capacity(p) then NoFreeBlock else Allocated(Candidate(p, j))
    ensures j < Capacity(p) ==> Misses(Candidate(p, j), obstacles)
    decreases Capacity(p) - i
  {
    if i == Capacity(p) || Misses(Candidate(p, i), obstacles) {
      j := i;
    } else {
      j := FirstFreeFound(p, obstacles, i + 1);
    }
  }

  /**
   * The allocator returns the lowest block of the pool that overlaps no obstacle, and fails only
   * when every block of the pool overlaps one.
   */
  lemma AllocateLowest(p: Pool, obstacles: seq<Block>)
    requires ValidPool(p)
    ensures !Allocate(p, obstacles).InvalidPrefix?
    ensures Allocate(p, obstacles).NoFreeBlock? <==> forall c: Block :: InPool(p, c) ==> !Misses(c, obstacles)
    ensures forall b :: Allocate(p, obstacles) == Allocated(b) <==>
      InPool(p, b) && Misses(b, obstacles) &&
      forall c: Block :: InPool(p, c) && c.net < b.net ==> !Misses(c, obstacles)
  {
    var j := FirstFreeFound(p, obstacles, 0);
    forall c: Block | InPool(p, c) && (j == Capacity(p) || c.net < Candidate(p, j).net) ensures !Misses(c, obstacles) {
      var i := PoolBlockIsCandidate(p, c);
      if i >= j { MulMonotone(j, i, Size(BlockLen(p))); }
    }
    if j < Capacity(p) {
      var found := Candidate(p, j);
      assert InPool(p, found) && Misses(found, obstacles);
      forall b: Block | InPool(p, b) && Misses(b, obstacles)
        && forall c: Block :: InPool(p, c) && c.net < b.net ==> !Misses(c, obstacles)
        ensures b == found
      {
        assert b.net == found.net;
      }
    }
  }

  // ---------------------------------------------------------------- capacity

  /** How many blocks of this length one obstacle can spoil. */
  function Weight(o: Block, len: nat): nat { LengthWeight(o.len, len) }

  /** A block of length own, counted in blocks of length len. */
  function LengthWeight(own: nat, len: nat): nat {
    if own >= len then 1 else Pow2(len - own)
  }

  function TotalWeight(obstacles: seq<Block>, len: nat): nat {
    if obstacles == [] then 0 else Weight(obstacles[0], len) + TotalWeight(obstacles[1..], len)
  }

  lemma WeightOf(o: Block, rest: seq<Block>, len: nat)
    ensures TotalWeight([o] + rest, len) == Weight(o, len) + TotalWeight(rest, len)
  {
    assert ([o] + rest)[1..] == rest;
  }

  lemma {:induction false} WeightWith(obstacles: seq<Block>, o: Block, len: nat)
    ensures TotalWeight(obstacles + [o], len) == TotalWeight(obstacles, len) + Weight(o, len)
  {
    if obstacles == [] {
      WeightOf(o, [], len);
      assert [] + [o] == [o] + [];
    } else {
      WeightWith(obstacles[1..], o, len);
      assert (obstacles + [o])[1..] == obstacles[1..] + [o];
    }
  }

  ghost function Spoiled(p: Pool, obstacles: seq<Block>): set<nat>
    requires ValidPool(p)
  {
    set i: nat | i < Capacity(p) && !Misses(Candidate(p, i), obstacles)
  }

  lemma {:induction false} IntervalSize(s: set<nat>, lo: int, k: nat)
    requires forall i: nat :: i in s ==> lo <= i < lo + k
    ensures |s| <= k
  {
    if k == 0 {
      if i :| i in s { assert false; }
    } else {
      var top := lo + k - 1;
      IntervalSize(if 0 <= top then s - {top} else s, lo, k - 1);
    }
  }

  lemma StepApart(i: nat, j: nat, s: nat)
    requires i < j
    ensures i * s + s <= j * s
  {
    MulMonotone(i + 1, j, s);
  }

  lemma CandidatesApart(p: Pool, i: nat, j: nat)
    requires ValidPool(p) && i < j < Capacity(p)
    ensures !Overlaps(Candidate(p, i), Candidate(p, j))
  {
    StepApart(i, j, Size(BlockLen(p)));
  }

  /** An obstacle no wider than a block spoils at most one. */
  lemma NarrowSpoils(p: Pool, o: Block)
    requires ValidPool(p) && o.len >= BlockLen(p)
    ensures |Spoiled(p, [o])| <= 1
  {
    forall i, j | i in Spoiled(p, [o]) && j in Spoiled(p, [o]) ensures i == j {
      NestedOrDisjoint(o, Candidate(p, i));
      NestedOrDisjoint(o, Candidate(p, j));
      if i < j { CandidatesApart(p, i, j); } else if j < i { CandidatesApart(p, j, i); }
    }
    if i :| i in Spoiled(p, [o]) {
      SubsetSize(Spoiled(p, [o]), {i});
    }
  }

  lemma StepsWithin(base: nat, n: nat, s: nat, k: nat) returns (lo: int)
    requires s >= 1 && base % s == 0 && n % s == 0
    ensures forall i: int :: n <= base + i * s && base + i * s + s <= n + k * s ==> lo <= i < lo + k
  {
    var x := Quotient(base, s);
    var y := Quotient(n, s);
    lo := y - x;
    forall i: int | n <= base + i * s && base + i * s + s <= n + k * s ensures lo <= i < lo + k {
      if x + i < y { MulMonotone(x + i + 1, y, s); }
      if x + i >= y + k { MulMonotone(y + k, x + i, s); }
    }
  }

  lemma SpoiledInside(p: Pool, o: Block, i: nat)
    requires ValidPool(p) && o.len < BlockLen(p) && i in Spoiled(p, [o])
    ensures var s := Size(BlockLen(p)); o.net <= p.cidr.net + i * s && p.cidr.net + i * s + s <= End(o)
  {
    NestedOrDisjoint(Candidate(p, i), o);
  }

  /** A wider obstacle spoils at most the blocks it is made of. */
  lemma WideSpoils(p: Pool, o: Block)
    requires ValidPool(p) && o.len < BlockLen(p)
    ensures |Spoiled(p, [o])| <= Pow2(BlockLen(p) - o.len)
  {
    var len, k := BlockLen(p), Pow2(BlockLen(p) - o.len);
    SizeSplit(o.len, len);
    AlignedOffset(o, len, 0);
    AlignedOffset(p.cidr, len, 0);
    var lo := StepsWithin(p.cidr.net, o.net, Size(len), k);
    forall i: nat | i in Spoiled(p, [o]) ensures lo <= i < lo + k {
      SpoiledInside(p, o, i);
    }
    IntervalSize(Spoiled(p, [o]), lo, k);
  }

  lemma SpoiledByEither(p: Pool, o: Block, rest: seq<Block>)
    requires ValidPool(p)
    ensures Spoiled(p, [o] + rest) == Spoiled(p, [o]) + Spoiled(p, rest)
  {
    forall b: Block ensures Misses(b, [o] + rest) <==> Misses(b, [o]) && Misses(b, rest) {
      if Misses(b, [o] + rest) {
        assert o in [o] + rest;
        forall h | h in rest ensures !Overlaps(b, h) { assert h in [o] + rest; }
      }
      if Misses(b, [o]) { assert o in [o]; }
    }
  }

  lemma OneSpoils(p: Pool, o: Block)
    requires ValidPool(p)
    ensures |Spoiled(p, [o])| <= Weight(o, BlockLen(p))
  {
    if o.len >= BlockLen(p) { NarrowSpoils(p, o); } else { WideSpoils(p, o); }
  }

  lemma FirstAndRest(p: Pool, obstacles: seq<Block>)
    requires ValidPool(p) && obstacles != []
    ensures |Spoiled(p, obstacles)| <= Weight(obstacles[0], BlockLen(p)) + |Spoiled(p, obstacles[1..])|
  {
    var o, rest := obstacles[0], obstacles[1..];
    assert obstacles == [o] + rest;
    SpoiledByEither(p, o, rest);
    OneSpoils(p, o);
    UnionSize(Spoiled(p, [o]), Spoiled(p, rest));
  }

  lemma {:induction false} SpoiledAtMost(p: Pool, obstacles: seq<Block>)
    requires ValidPool(p)
    ensures |Spoiled(p, obstacles)| <= TotalWeight(obstacles, BlockLen(p))
  {
    if obstacles == [] {
      assert Spoiled(p, obstacles) == {};
    } else {
      SpoiledAtMost(p, obstacles[1..]);
      FirstAndRest(p, obstacles);
    }
  }

  lemma UnionSize<T>(a: set<T>, b: set<T>)
    ensures |a + b| <= |a| + |b|
  {
  }

  /**
   * Pigeonhole: as long as the obstacles together can spoil fewer blocks than the pool holds, the
   * allocator succeeds.
   */
  lemma EnoughCapacity(p: Pool, obstacles: seq<Block>)
    requires ValidPool(p)
    requires TotalWeight(obstacles, BlockLen(p)) < Capacity(p)
    ensures Allocate(p, obstacles).Allocated?
  {
    var j := FirstFreeFound(p, obstacles, 0);
    if j == Capacity(p) {
      IntsAsNats(Capacity(p), Spoiled(p, obstacles));
      SpoiledAtMost(p, obstacles);
      assert false;
    }
  }

  lemma {:induction false} IntsAsNats(n: nat, s: set<nat>)
    requires forall i: nat :: i < n ==> i in s
    ensures n <= |s|
  {
    if n == 0 {
    } else {
      IntsAsNats(n - 1, s - {n - 1});
    }
  }
}
