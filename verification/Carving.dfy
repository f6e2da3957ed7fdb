/**
 * `address_exclude` of Python's `ipaddress`, and `carve` of bgw_rt_policy.py: the hub underlay
 * with the site underlays cut out, as a sorted list of disjoint blocks.
 */
module Carving {
  import opened Cidr

  /** What is left of p once h is taken out: one sibling per level on the way down to h. */
  function Exclude(p: Block, h: Block): seq<Block>
    requires SubnetOf(h, p)
    decreases MAX_LEN - p.len
  {
    if h == p then [] else
      InOneHalf(h, p);
      if SubnetOf(h, LowerHalf(p)) then [UpperHalf(p)] + Exclude(LowerHalf(p), h)
      else [LowerHalf(p)] + Exclude(UpperHalf(p), h)
  }

  /** One level of the descent: the half that holds h, and its sibling, which is yielded next. */
  lemma ExcludeStep(r: seq<Block>, p: Block, h: Block)
    requires SubnetOf(h, p) && h != p
    ensures p.len < MAX_LEN && SubnetOf(h, LowerHalf(p)) != SubnetOf(h, UpperHalf(p))
    ensures r + Exclude(p, h) ==
      if SubnetOf(h, LowerHalf(p)) then r + [UpperHalf(p)] + Exclude(LowerHalf(p), h)
      else r + [LowerHalf(p)] + Exclude(UpperHalf(p), h)
  {
    InOneHalf(h, p);
    var low := SubnetOf(h, LowerHalf(p));
    Regroup(r, if low then UpperHalf(p) else LowerHalf(p), if low then Exclude(LowerHalf(p), h) else Exclude(UpperHalf(p), h));
  }

  lemma Regroup<T>(a: seq<T>, x: T, b: seq<T>)
    ensures a + ([x] + b) == a + [x] + b
  {
  }

  /** The halving loop of `address_exclude`. */
  method AddressExclude(p: Block, h: Block) returns (r: seq<Block>)
    requires SubnetOf(h, p)
    ensures r == Exclude(p, h)
  {
    if h == p {
      return [];
    }
    InOneHalf(h, p);
    var s1, s2 := LowerHalf(p), UpperHalf(p);
    ghost var rest := p;
    r := [];
    while s1 != h && s2 != h
      invariant SubnetOf(h, rest) && h != rest && rest.len < MAX_LEN
      invariant s1 == LowerHalf(rest) && s2 == UpperHalf(rest)
      invariant r + Exclude(rest, h) == Exclude(p, h)
      decreases MAX_LEN - rest.len
    {
      ExcludeStep(r, rest, h);
      if SubnetOf(h, s1) {
        InOneHalf(h, s1);
        rest, r := s1, r + [s2];
        s1, s2 := LowerHalf(s1), UpperHalf(s1);
      } else {
        InOneHalf(h, s2);
        rest, r := s2, r + [s1];
        s1, s2 := LowerHalf(s2), UpperHalf(s2);
      }
    }
    ExcludeStep(r, rest, h);
    r := r + (if s1 == h then [s2] else [s1]);
  }

  /** A block survives the exclusion exactly when it lay in p and misses h. */
  lemma {:induction false} ExcludeExact(p: Block, h: Block, b: Block)
    requires SubnetOf(h, p)
    ensures InOne(b, Exclude(p, h)) <==> SubnetOf(b, p) && !Overlaps(b, h)
    decreases MAX_LEN - p.len
  {
    if h == p {
    } else {
      InOneHalf(h, p);
      var lo, hi := LowerHalf(p), UpperHalf(p);
      var (inner, outer) := if SubnetOf(h, lo) then (lo, hi) else (hi, lo);
      ExcludeExact(inner, h, b);
      InOneConcat(b, [outer], Exclude(inner, h));
      assert InOne(b, [outer]) <==> SubnetOf(b, outer) by { assert outer in [outer]; }
      if SubnetOf(b, p) && b != p {
        InOneHalf(b, p);
      }
    }
  }

  lemma {:induction false} ExcludeDisjoint(p: Block, h: Block)
    requires SubnetOf(h, p)
    ensures PairwiseDisjoint(Exclude(p, h))
    ensures forall x :: x in Exclude(p, h) ==> SubnetOf(x, p) && !Overlaps(x, h)
    ensures |Exclude(p, h)| == h.len - p.len
    decreases MAX_LEN - p.len
  {
    if h == p {
      SubnetLength(h, p);
    } else {
      InOneHalf(h, p);
      var lo, hi := LowerHalf(p), UpperHalf(p);
      var (inner, outer) := if SubnetOf(h, lo) then (lo, hi) else (hi, lo);
      ExcludeDisjoint(inner, h);
      forall y | y in Exclude(inner, h) ensures !Overlaps(outer, y) {
        ExcludeExact(inner, h, y);
      }
      DisjointConcat([outer], Exclude(inner, h));
      PiecesMissHole(p, h);
    }
  }

  lemma PiecesMissHole(p: Block, h: Block)
    requires SubnetOf(h, p)
    ensures forall x :: x in Exclude(p, h) ==> SubnetOf(x, p) && !Overlaps(x, h)
  {
    forall x | x in Exclude(p, h) ensures SubnetOf(x, p) && !Overlaps(x, h) {
      ExcludeExact(p, h, x);
      assert InOne(x, Exclude(p, h));
    }
  }

  // ---------------------------------------------------------------- one hole, all holes

  /** What one hole leaves of one part. */
  function Remainder(p: Block, h: Block): seq<Block>
  {
    if !Overlaps(p, h) then [p] else if SubnetOf(h, p) then Exclude(p, h) else []
  }

  function CutOut(parts: seq<Block>, h: Block): seq<Block>
  {
    if parts == [] then [] else CutOut(parts[..|parts| - 1], h) + Remainder(parts[|parts| - 1], h)
  }

  function Carved(base: Block, holes: seq<Block>): seq<Block>
  {
    if holes == [] then [base] else CutOut(Carved(base, holes[..|holes| - 1]), holes[|holes| - 1])
  }

  lemma RemainderExact(p: Block, h: Block, b: Block)
    ensures InOne(b, Remainder(p, h)) <==> SubnetOf(b, p) && !Overlaps(b, h)
  {
    if Overlaps(p, h) {
      if SubnetOf(h, p) {
        ExcludeExact(p, h, b);
      } else {
        if p.len <= h.len { NestedOrDisjoint(h, p); } else { NestedOrDisjoint(p, h); }
      }
    } else {
      assert p in [p];
    }
  }

  lemma {:induction false} CutOutExact(parts: seq<Block>, h: Block, b: Block)
    ensures InOne(b, CutOut(parts, h)) <==> InOne(b, parts) && !Overlaps(b, h)
  {
    if parts == [] {
    } else {
      var front, p := parts[..|parts| - 1], parts[|parts| - 1];
      CutOutExact(front, h, b);
      RemainderExact(p, h, b);
      InOneConcat(b, CutOut(front, h), Remainder(p, h));
      InOneConcat(b, front, [p]);
      assert parts == front + [p];
      assert InOne(b, [p]) <==> SubnetOf(b, p) by { assert p in [p]; }
    }
  }

  /** A block lies in one carved block exactly when it lies in the base and misses every hole. */
  lemma {:induction false} CarvedExact(base: Block, holes: seq<Block>, b: Block)
    ensures InOne(b, Carved(base, holes)) <==> SubnetOf(b, base) && Misses(b, holes)
  {
    if holes == [] {
      assert base in [base];
    } else {
      var front, h := holes[..|holes| - 1], holes[|holes| - 1];
      CarvedExact(base, front, b);
      CutOutExact(Carved(base, front), h, b);
      assert holes == front + [h];
    }
  }

  lemma {:induction false} CutOutDisjoint(parts: seq<Block>, h: Block)
    requires PairwiseDisjoint(parts)
    ensures PairwiseDisjoint(CutOut(parts, h))
  {
    if parts == [] {
    } else {
      var front, p := parts[..|parts| - 1], parts[|parts| - 1];
      CutOutDisjoint(front, h);
      if Overlaps(p, h) && SubnetOf(h, p) { ExcludeDisjoint(p, h); }
      forall x, y | x in CutOut(front, h) && y in Remainder(p, h) ensures !Overlaps(x, y) {
        CutOutExact(front, h, x);
        RemainderExact(p, h, y);
        assert InOne(x, CutOut(front, h)) && InOne(y, Remainder(p, h));
        var q :| q in front && SubnetOf(x, q);
        assert !Overlaps(q, p);
      }
      DisjointConcat(CutOut(front, h), Remainder(p, h));
    }
  }

  lemma {:induction false} CarvedDisjoint(base: Block, holes: seq<Block>)
    ensures PairwiseDisjoint(Carved(base, holes))
  {
    if holes == [] {
    } else {
      CarvedDisjoint(base, holes[..|holes| - 1]);
      CutOutDisjoint(Carved(base, holes[..|holes| - 1]), holes[|holes| - 1]);
    }
  }

  // ---------------------------------------------------------------- how many blocks

  function Excess(h: Block, base: Block): nat {
    if h.len <= base.len + 1 then 0 else h.len - base.len - 1
  }

  function TotalExcess(holes: seq<Block>, base: Block): nat {
    if holes == [] then 0 else TotalExcess(holes[..|holes| - 1], base) + Excess(holes[|holes| - 1], base)
  }

  /** A hole splits at most the one part it lies in. */
  lemma {:induction false} CutOutCount(parts: seq<Block>, h: Block, base: Block)
    requires PairwiseDisjoint(parts)
    requires forall p :: p in parts ==> SubnetOf(p, base)
    ensures |CutOut(parts, h)| <= |parts| + Excess(h, base)
    ensures (forall p :: p in parts ==> !SubnetOf(h, p)) ==> |CutOut(parts, h)| <= |parts|
  {
    if parts == [] {
    } else {
      var front, p := parts[..|parts| - 1], parts[|parts| - 1];
      CutOutCount(front, h, base);
      SubnetLength(p, base);
      if SubnetOf(h, p) {
        ExcludeDisjoint(p, h);
        forall q | q in front ensures !SubnetOf(h, q) {
          assert !Overlaps(q, p);
        }
      }
    }
  }

  lemma {:induction false} CarvedCount(base: Block, holes: seq<Block>)
    ensures |Carved(base, holes)| <= 1 + TotalExcess(holes, base)
  {
    if holes == [] {
    } else {
      var front, h := holes[..|holes| - 1], holes[|holes| - 1];
      CarvedCount(base, front);
      CarvedDisjoint(base, front);
      forall p | p in Carved(base, front) ensures SubnetOf(p, base) {
        CarvedExact(base, front, p);
        assert InOne(p, Carved(base, front));
      }
      CutOutCount(Carved(base, front), h, base);
    }
  }

  // ---------------------------------------------------------------- sorted blocks

  predicate BlockLe(a: Block, b: Block) {
    a.net < b.net || (a.net == b.net && a.len <= b.len)
  }

  predicate SortedBlocks(bs: seq<Block>) {
    forall i, j :: 0 <= i < j < |bs| ==> BlockLe(bs[i], bs[j])
  }

  function Insert(b: Block, bs: seq<Block>): seq<Block> {
    if bs == [] || BlockLe(b, bs[0]) then [b] + bs else [bs[0]] + Insert(b, bs[1..])
  }

  /** `sorted(networks)`. */
  function Sorted(bs: seq<Block>): seq<Block> {
    if bs == [] then [] else Insert(bs[0], Sorted(bs[1..]))
  }

  lemma {:induction false} InsertMembers(b: Block, bs: seq<Block>)
    ensures |Insert(b, bs)| == |bs| + 1
    ensures forall x :: x in Insert(b, bs) <==> x == b || x in bs
  {
    if bs == [] || BlockLe(b, bs[0]) {
    } else {
      InsertMembers(b, bs[1..]);
      assert bs == [bs[0]] + bs[1..];
    }
  }

  lemma {:induction false} InsertSorts(b: Block, bs: seq<Block>)
    requires SortedBlocks(bs)
    ensures SortedBlocks(Insert(b, bs))
  {
    if bs == [] || BlockLe(b, bs[0]) {
    } else {
      InsertSorts(b, bs[1..]);
      InsertMembers(b, bs[1..]);
      var rest := Insert(b, bs[1..]);
      forall j | 0 <= j < |rest| ensures BlockLe(bs[0], rest[j]) {
        assert rest[j] in rest;
      }
    }
  }

  lemma {:induction false} SortedSorts(bs: seq<Block>)
    ensures SortedBlocks(Sorted(bs))
    ensures |Sorted(bs)| == |bs|
    ensures forall x :: x in Sorted(bs) <==> x in bs
  {
    if bs == [] {
    } else {
      SortedSorts(bs[1..]);
      InsertSorts(bs[0], Sorted(bs[1..]));
      InsertMembers(bs[0], Sorted(bs[1..]));
      assert bs == [bs[0]] + bs[1..];
    }
  }

  lemma {:induction false} InsertDisjoint(b: Block, bs: seq<Block>)
    requires PairwiseDisjoint(bs) && Misses(b, bs)
    ensures PairwiseDisjoint(Insert(b, bs))
  {
    if bs == [] || BlockLe(b, bs[0]) {
      DisjointConcat([b], bs);
    } else {
      var first, rest := bs[0], bs[1..];
      InsertDisjoint(b, rest);
      InsertMembers(b, rest);
      forall y | y in Insert(b, rest) ensures !Overlaps(first, y) {
        if y == b {
          assert first in bs;
        } else {
          var j :| 0 <= j < |rest| && rest[j] == y;
          assert bs[j + 1] == y;
        }
      }
      DisjointConcat([first], Insert(b, rest));
    }
  }

  lemma {:induction false} SortedDisjoint(bs: seq<Block>)
    requires PairwiseDisjoint(bs)
    ensures PairwiseDisjoint(Sorted(bs))
  {
    if bs == [] {
    } else {
      SortedDisjoint(bs[1..]);
      SortedSorts(bs[1..]);
      InsertDisjoint(bs[0], Sorted(bs[1..]));
    }
  }

  lemma FirstIsMember(bs: seq<Block>)
    ensures bs == [] || bs[0] in bs
  {
  }

  /** Two sorted lists of disjoint blocks with the same members are the same list. */
  lemma {:induction false} SortedUnique(xs: seq<Block>, ys: seq<Block>)
    requires SortedBlocks(xs) && PairwiseDisjoint(xs) && SortedBlocks(ys) && PairwiseDisjoint(ys)
    requires forall b :: b in xs <==> b in ys
    ensures xs == ys
  {
    if xs != [] && ys != [] {
      assert xs[0] in ys && ys[0] in xs;
      assert xs[0] == ys[0];
      forall b ensures b in xs[1..] <==> b in ys[1..] {
        assert b in xs[1..] <==> b in xs && b != xs[0];
        assert b in ys[1..] <==> b in ys && b != ys[0];
      }
      SortedUnique(xs[1..], ys[1..]);
      assert xs == [xs[0]] + xs[1..] && ys == [ys[0]] + ys[1..];
    } else {
      FirstIsMember(xs);
      FirstIsMember(ys);
    }
  }

  /** Disjoint sorted lists that hold the same blocks inside their members are the same list. */
  lemma CanonicalUnique(xs: seq<Block>, ys: seq<Block>)
    requires SortedBlocks(xs) && PairwiseDisjoint(xs) && SortedBlocks(ys) && PairwiseDisjoint(ys)
    requires forall b: Block :: InOne(b, xs) <==> InOne(b, ys)
    ensures xs == ys
  {
    forall b | b in xs || b in ys ensures b in xs && b in ys {
      if b in xs {
        SameMember(b, xs, ys);
      } else {
        SameMember(b, ys, xs);
      }
    }
    SortedUnique(xs, ys);
  }

  lemma SameMember(b: Block, xs: seq<Block>, ys: seq<Block>)
    requires PairwiseDisjoint(xs)
    requires forall c: Block :: InOne(c, xs) <==> InOne(c, ys)
    requires b in xs
    ensures b in ys
  {
    assert InOne(b, xs);
    var q :| q in ys && SubnetOf(b, q);
    assert InOne(q, ys);
    var r :| r in xs && SubnetOf(q, r);
    Sandwiched(xs, b, q, r);
  }

  /** Between two members of a disjoint list there is room for one block only. */
  lemma Sandwiched(xs: seq<Block>, b: Block, q: Block, r: Block)
    requires PairwiseDisjoint(xs) && b in xs && r in xs && SubnetOf(b, q) && SubnetOf(q, r)
    ensures b == q
  {
    assert Overlaps(b, r);
    assert b == r;
    SubnetLength(b, q);
    SubnetLength(q, b);
  }

  /** Sorted disjoint blocks follow one another: each ends before the next begins. */
  lemma Ascending(bs: seq<Block>)
    requires SortedBlocks(bs) && PairwiseDisjoint(bs)
    ensures forall i, j :: 0 <= i < j < |bs| ==> End(bs[i]) <= bs[j].net
  {
    forall i, j | 0 <= i < j < |bs| ensures End(bs[i]) <= bs[j].net {
      assert BlockLe(bs[i], bs[j]) && !Overlaps(bs[i], bs[j]);
    }
  }

  // ---------------------------------------------------------------- carve

  function Carve(base: Block, holes: seq<Block>): seq<Block> {
    Sorted(Carved(base, holes))
  }

  /** `carve`: rebuilds the list of parts hole by hole. */
  method CarveBlocks(base: Block, holes: seq<Block>) returns (r: seq<Block>)
    ensures r == Carve(base, holes)
  {
    var parts := [base];
    for i := 0 to |holes|
      invariant parts == Carved(base, holes[..i])
    {
      var h := holes[i];
      var nxt := [];
      for j := 0 to |parts|
        invariant nxt == CutOut(parts[..j], h)
      {
        var p := parts[j];
        assert parts[..j + 1][..j] == parts[..j];
        if !Overlaps(p, h) {
          nxt := nxt + [p];
        } else if SubnetOf(h, p) {
          var left := AddressExclude(p, h);
          nxt := nxt + left;
        }
      }
      assert parts[..|parts|] == parts;
      assert holes[..i + 1][..i] == holes[..i];
      parts := nxt;
    }
    assert holes[..|holes|] == holes;
    r := Sorted(parts);
  }

  /**
   * Carving is canonical: a block of any size lies inside one returned block exactly when it lies
   * inside the base and misses every hole. So the returned blocks are the maximal such blocks.
   */
  lemma CarveCanonical(base: Block, holes: seq<Block>, b: Block)
    ensures InOne(b, Carve(base, holes)) <==> SubnetOf(b, base) && Misses(b, holes)
  {
    CarvedExact(base, holes, b);
    SortedSorts(Carved(base, holes));
  }

  lemma CarveMaximal(base: Block, holes: seq<Block>, b: Block)
    ensures b in Carve(base, holes) <==>
      SubnetOf(b, base) && Misses(b, holes) &&
      forall c: Block :: SubnetOf(b, c) && SubnetOf(c, base) && Misses(c, holes) ==> c == b
  {
    var r := Carve(base, holes);
    CarveExact(base, holes);
    CarveCanonical(base, holes, b);
    if b in r {
      assert InOne(b, r);
      forall c: Block | SubnetOf(b, c) && SubnetOf(c, base) && Misses(c, holes) ensures c == b {
        CarveCanonical(base, holes, c);
        var q :| q in r && SubnetOf(c, q);
        assert Overlaps(b, q);
        assert b == q;
        SubnetLength(b, c);
        SubnetLength(c, b);
      }
    } else if SubnetOf(b, base) && Misses(b, holes) {
      var q :| q in r && SubnetOf(b, q);
      assert InOne(q, r);
      CarveCanonical(base, holes, q);
    }
  }

  /** The blocks are sorted, pairwise disjoint, exactly the uncovered addresses, and few. */
  lemma CarveExact(base: Block, holes: seq<Block>)
    ensures SortedBlocks(Carve(base, holes)) && PairwiseDisjoint(Carve(base, holes))
    ensures forall a: Address :: Covers(Carve(base, holes), a) <==> Contains(base, a) && !Covers(holes, a)
    ensures |Carve(base, holes)| <= 1 + TotalExcess(holes, base)
  {
    var r := Carve(base, holes);
    CarvedDisjoint(base, holes);
    SortedDisjoint(Carved(base, holes));
    SortedSorts(Carved(base, holes));
    CarvedCount(base, holes);
    forall a: Address ensures Covers(r, a) <==> Contains(base, a) && !Covers(holes, a) {
      CarveCanonical(base, holes, Host(a));
      CoversHost(r, a);
      CoversHost(holes, a);
    }
  }

  /** An address is covered exactly when its /32 lies in one block, exactly when its /32 hits a block. */
  lemma CoversHost(bs: seq<Block>, a: Address)
    ensures Covers(bs, a) <==> InOne(Host(a), bs)
    ensures Covers(bs, a) <==> !Misses(Host(a), bs)
  {
    if Covers(bs, a) {
      var q :| q in bs && Contains(q, a);
      assert SubnetOf(Host(a), q) && Overlaps(Host(a), q);
    }
    if InOne(Host(a), bs) {
      var q :| q in bs && SubnetOf(Host(a), q);
      assert Contains(q, a);
    }
    if !Misses(Host(a), bs) {
      var q :| q in bs && Overlaps(Host(a), q);
      assert Contains(q, a);
    }
  }

  /** The result depends on the set of holes only: order and repetition do not matter. */
  lemma CarveIgnoresHoleOrder(base: Block, holes: seq<Block>, others: seq<Block>)
    requires forall h :: h in holes <==> h in others
    ensures Carve(base, holes) == Carve(base, others)
  {
    CarveExact(base, holes);
    CarveExact(base, others);
    forall b: Block ensures InOne(b, Carve(base, holes)) <==> InOne(b, Carve(base, others)) {
      CarveCanonical(base, holes, b);
      CarveCanonical(base, others, b);
    }
    CanonicalUnique(Carve(base, holes), Carve(base, others));
  }
}
