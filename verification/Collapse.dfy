/**
 * `ipaddress.collapse_addresses`, which bgw_rt_policy.py uses for the single-group fallback:
 * sibling blocks are merged until none are left, then nested blocks are skipped.
 */
module Collapse {
  import opened Cidr
  import opened Carving

  lemma RoundDown(n: nat, s: nat, m: nat, total: nat)
    requires s >= 1 && total == m * s && n < total
    ensures 0 <= n - n % s <= n < n - n % s + s
    ensures (n - n % s) % s == 0
    ensures n - n % s + s <= total
  {
    var q := n / s;
    assert n - n % s == q * s;
    MultipleOf(q, s);
    if q >= m { MulMonotone(m, q, s); }
    MulMonotone(q + 1, m, s);
  }

  lemma SupernetFits(b: Block)
    requires b.len > 0
    ensures b.net - b.net % Size(b.len - 1) >= 0
    ensures Prefix(b.net - b.net % Size(b.len - 1), b.len - 1).Valid()
    ensures b.net < b.net - b.net % Size(b.len - 1) + Size(b.len - 1)
  {
    var s, m, n := Size(b.len - 1), Pow2(b.len - 1), b.net;
    assert Pow2(MAX_LEN) == m * s by { SizeSplit(0, b.len - 1); }
    RoundDown(n, s, m, Pow2(MAX_LEN));
  }

  lemma IsHalf(b: Block, p: Block)
    requires b.len == p.len + 1 && Contains(p, b.net)
    ensures SubnetOf(b, p) && (b == LowerHalf(p) || b == UpperHalf(p))
  {
    assert Contains(b, b.net);
    NestedOrDisjoint(b, p);
    InOneHalf(b, p);
    if SubnetOf(b, LowerHalf(p)) { SubnetLength(b, LowerHalf(p)); } else { SubnetLength(b, UpperHalf(p)); }
  }

  /** `supernet()`: the block one level up; the whole space is its own supernet. */
  function Supernet(b: Block): (p: Block)
    ensures SubnetOf(b, p)
    ensures b.len == 0 ==> p == b
    ensures b.len > 0 ==> p.len == b.len - 1 && (b == LowerHalf(p) || b == UpperHalf(p))
  {
    if b.len == 0 then b else
      SupernetFits(b);
      var p: Block := Prefix(b.net - b.net % Size(b.len - 1), b.len - 1);
      IsHalf(b, p);
      p
  }

  ghost predicate NoSiblings(bs: seq<Block>) {
    forall p: Block :: p.len < MAX_LEN ==> !(LowerHalf(p) in bs && UpperHalf(p) in bs)
  }

  /** What `collapse_addresses` promises about its result. */
  ghost predicate IsCollapse(input: seq<Block>, out: seq<Block>) {
    && SortedBlocks(out) && PairwiseDisjoint(out) && NoSiblings(out)
    && forall a: Address :: Covers(out, a) <==> Covers(input, a)
  }

  // ---------------------------------------------------------------- the algorithm

  ghost predicate Held(subnets: map<Block, Block>, a: int) {
    exists k :: k in subnets && Contains(subnets[k], a)
  }

  ghost predicate Keyed(subnets: map<Block, Block>) {
    forall k :: k in subnets ==> Supernet(subnets[k]) == k
  }

  /** Two different blocks under one key fill that supernet. */
  lemma MergeFills(x: Block, y: Block, a: int)
    requires x != y && Supernet(x) == Supernet(y)
    ensures Contains(Supernet(x), a) <==> Contains(x, a) || Contains(y, a)
  {
  }

  lemma CoversConcat(xs: seq<Block>, ys: seq<Block>, a: int)
    ensures Covers(xs + ys, a) <==> Covers(xs, a) || Covers(ys, a)
  {
    if Covers(xs, a) {
      var q :| q in xs && Contains(q, a);
      assert q in xs + ys;
    }
    if Covers(ys, a) {
      var q :| q in ys && Contains(q, a);
      assert q in xs + ys;
    }
  }

  lemma CoversOne(b: Block, a: int)
    ensures Covers([b], a) <==> Contains(b, a)
  {
    assert b in [b];
  }

  lemma HeldUpdate(subnets: map<Block, Block>, k: Block, b: Block, a: int)
    requires k !in subnets
    ensures Held(subnets[k := b], a) <==> Held(subnets, a) || Contains(b, a)
  {
    var after := subnets[k := b];
    if Held(subnets, a) {
      var j :| j in subnets && Contains(subnets[j], a);
      assert j in after && after[j] == subnets[j];
    }
    if Contains(b, a) { assert k in after && after[k] == b; }
  }

  lemma HeldRemove(subnets: map<Block, Block>, k: Block, a: int)
    requires k in subnets
    ensures Held(subnets, a) <==> Held(subnets - {k}, a) || Contains(subnets[k], a)
  {
    if Held(subnets, a) {
      var j :| j in subnets && Contains(subnets[j], a);
      assert j == k || (j in subnets - {k} && (subnets - {k})[j] == subnets[j]);
    }
  }

  /** The stack and the table together hold the addresses of the input. */
  ghost predicate Stands(toMerge: seq<Block>, subnets: map<Block, Block>, input: seq<Block>) {
    forall a :: Covers(toMerge, a) || Held(subnets, a) <==> Covers(input, a)
  }

  lemma NewEntryStands(rest: seq<Block>, net: Block, subnets: map<Block, Block>, input: seq<Block>)
    requires Stands(rest + [net], subnets, input) && Supernet(net) !in subnets
    ensures Stands(rest, subnets[Supernet(net) := net], input)
  {
    forall a ensures Covers(rest, a) || Held(subnets[Supernet(net) := net], a) <==> Covers(input, a) {
      CoversConcat(rest, [net], a); CoversOne(net, a);
      HeldUpdate(subnets, Supernet(net), net, a);
    }
  }

  lemma MergedPairStands(rest: seq<Block>, net: Block, subnets: map<Block, Block>, input: seq<Block>)
    requires Stands(rest + [net], subnets, input) && Keyed(subnets)
    requires Supernet(net) in subnets && subnets[Supernet(net)] != net
    ensures Stands(rest + [Supernet(net)], subnets - {Supernet(net)}, input)
  {
    var p := Supernet(net);
    forall a ensures Covers(rest + [p], a) || Held(subnets - {p}, a) <==> Covers(input, a) {
      CoversConcat(rest, [net], a); CoversOne(net, a);
      CoversConcat(rest, [p], a); CoversOne(p, a);
      HeldRemove(subnets, p, a);
      MergeFills(subnets[p], net, a);
    }
  }

  lemma KnownEntryStands(rest: seq<Block>, net: Block, subnets: map<Block, Block>, input: seq<Block>)
    requires Stands(rest + [net], subnets, input) && Supernet(net) in subnets && subnets[Supernet(net)] == net
    ensures Stands(rest, subnets, input)
  {
    forall a ensures Covers(rest, a) || Held(subnets, a) <==> Covers(input, a) {
      CoversConcat(rest, [net], a); CoversOne(net, a);
      HeldRemove(subnets, Supernet(net), a);
    }
  }

  lemma OneLess(subnets: map<Block, Block>, k: Block)
    requires k in subnets
    ensures |subnets| == |subnets - {k}| + 1
  {
    assert subnets == (subnets - {k})[k := subnets[k]];
  }

  /** The first phase: a stack of blocks to merge and a table of blocks by supernet. */
  method MergeSiblings(input: seq<Block>) returns (subnets: map<Block, Block>)
    ensures Keyed(subnets)
    ensures forall a :: Held(subnets, a) <==> Covers(input, a)
  {
    var toMerge := input;
    subnets := map[];
    while toMerge != []
      invariant Keyed(subnets) && Stands(toMerge, subnets, input)
      decreases |toMerge| + |subnets|, |toMerge|
    {
      var net := toMerge[|toMerge| - 1];
      assert toMerge == toMerge[..|toMerge| - 1] + [net];
      toMerge := toMerge[..|toMerge| - 1];
      var supernet := Supernet(net);
      if supernet !in subnets {
        NewEntryStands(toMerge, net, subnets, input);
        subnets := subnets[supernet := net];
      } else if subnets[supernet] != net {
        MergedPairStands(toMerge, net, subnets, input);
        OneLess(subnets, supernet);
        subnets := subnets - {supernet};
        toMerge := toMerge + [supernet];
      } else {
        KnownEntryStands(toMerge, net, subnets, input);
      }
    }
  }

  method Values(subnets: map<Block, Block>) returns (vs: seq<Block>)
    ensures forall b :: b in vs <==> b in subnets.Values
  {
    var left := subnets.Keys;
    vs := [];
    while left != {}
      invariant left <= subnets.Keys
      invariant forall b :: b in vs <==> exists k :: k in subnets.Keys - left && subnets[k] == b
      decreases left
    {
      var k :| k in left;
      left := left - {k};
      vs := vs + [subnets[k]];
    }
  }

  ghost predicate AllInOne(xs: seq<Block>, ys: seq<Block>) {
    forall b :: b in xs ==> InOne(b, ys)
  }

  /** The second phase: in sorted order, a block inside the last one kept is skipped. */
  method SkipNested(nets: seq<Block>) returns (out: seq<Block>)
    requires SortedBlocks(nets)
    ensures SortedBlocks(out) && PairwiseDisjoint(out)
    ensures forall b :: b in out ==> b in nets
    ensures AllInOne(nets, out)
  {
    out := [];
    for i := 0 to |nets|
      invariant SortedBlocks(out) && PairwiseDisjoint(out)
      invariant forall b :: b in out ==> b in nets[..i]
      invariant AllInOne(nets[..i], out)
    {
      var net := nets[i];
      assert forall b :: b in out ==> BlockLe(b, net);
      assert nets[..i + 1] == nets[..i] + [net];
      if out != [] && Broadcast(out[|out| - 1]) >= Broadcast(net) {
        Skip(nets[..i], out, net);
      } else {
        AppendApart(out, net);
        Keep(nets[..i], out, net);
        out := out + [net];
      }
    }
    assert nets[..|nets|] == nets;
  }

  lemma Skip(done: seq<Block>, out: seq<Block>, net: Block)
    requires AllInOne(done, out)
    requires forall b :: b in out ==> BlockLe(b, net)
    requires out != [] && Broadcast(out[|out| - 1]) >= Broadcast(net)
    ensures AllInOne(done + [net], out)
  {
    var last := out[|out| - 1];
    assert last in out && SubnetOf(net, last);
  }

  lemma Keep(done: seq<Block>, out: seq<Block>, net: Block)
    requires AllInOne(done, out)
    ensures AllInOne(done + [net], out + [net])
  {
    forall b | b in done + [net] ensures InOne(b, out + [net]) {
      InOneConcat(b, out, [net]);
      assert net in [net];
    }
  }

  lemma AppendApart(out: seq<Block>, net: Block)
    requires SortedBlocks(out) && PairwiseDisjoint(out)
    requires forall b :: b in out ==> BlockLe(b, net)
    requires out != [] ==> Broadcast(out[|out| - 1]) < Broadcast(net)
    ensures SortedBlocks(out + [net]) && PairwiseDisjoint(out + [net])
  {
    forall q | q in out ensures !Overlaps(q, net) {
      ApartFromKept(out, net, q);
    }
    DisjointConcat(out, [net]);
  }

  /** Of two blocks in sorted order, the second lies in the first or after it. */
  lemma SortedNestOrFollow(a: Block, b: Block)
    requires BlockLe(a, b)
    ensures SubnetOf(b, a) || End(a) <= b.net
  {
    if a.len <= b.len { NestedOrDisjoint(b, a); } else { NestedOrDisjoint(a, b); }
  }

  lemma ApartFromKept(out: seq<Block>, net: Block, q: Block)
    requires SortedBlocks(out) && PairwiseDisjoint(out) && q in out
    requires forall b :: b in out ==> BlockLe(b, net)
    requires Broadcast(out[|out| - 1]) < Broadcast(net)
    ensures !Overlaps(q, net)
  {
    var n := |out| - 1;
    var last := out[n];
    assert last in out;
    SortedNestOrFollow(last, net);
    var i :| 0 <= i < |out| && out[i] == q;
    if i < n {
      assert BlockLe(out[i], out[n]) && !Overlaps(out[i], out[n]);
    }
  }

  lemma KeyedNoSiblings(subnets: map<Block, Block>, out: seq<Block>)
    requires Keyed(subnets)
    requires forall b :: b in out ==> b in subnets.Values
    ensures NoSiblings(out)
  {
    forall p: Block | p.len < MAX_LEN && LowerHalf(p) in out && UpperHalf(p) in out ensures false {
      var j :| j in subnets && subnets[j] == LowerHalf(p);
      var k :| k in subnets && subnets[k] == UpperHalf(p);
      SiblingsShareSupernet(p);
    }
  }

  lemma SiblingsShareSupernet(p: Block)
    requires p.len < MAX_LEN
    ensures Supernet(LowerHalf(p)) == p && Supernet(UpperHalf(p)) == p
  {
    var q, r := Supernet(LowerHalf(p)), Supernet(UpperHalf(p));
    assert q.len == r.len == p.len;
    assert Contains(LowerHalf(p), LowerHalf(p).net) && Contains(UpperHalf(p), UpperHalf(p).net);
    NestedOrDisjoint(q, p);
    SubnetLength(q, p);
    NestedOrDisjoint(r, p);
    SubnetLength(r, p);
  }

  /** `collapse_addresses`. */
  method CollapseAddresses(input: seq<Block>) returns (out: seq<Block>)
    ensures IsCollapse(input, out)
  {
    var subnets := MergeSiblings(input);
    var values := Values(subnets);
    SortedSorts(values);
    out := SkipNested(Sorted(values));
    assert forall b :: b in values ==> b in Sorted(values);
    KeyedNoSiblings(subnets, out);
    forall a: Address ensures Covers(out, a) <==> Covers(input, a) {
      SameAddresses(subnets, values, out, a);
    }
  }

  lemma SameAddresses(subnets: map<Block, Block>, values: seq<Block>, out: seq<Block>, a: int)
    requires forall b :: b in values <==> b in subnets.Values
    requires forall b :: b in out ==> b in values
    requires AllInOne(values, out)
    ensures Covers(out, a) <==> Held(subnets, a)
  {
    if Covers(out, a) {
      var q :| q in out && Contains(q, a);
      assert q in values;
      var k :| k in subnets && subnets[k] == q;
    }
    if Held(subnets, a) {
      var k :| k in subnets && Contains(subnets[k], a);
      assert subnets[k] in values;
      var q :| q in out && SubnetOf(subnets[k], q);
      assert Contains(q, a);
    }
  }

  // ---------------------------------------------------------------- canonical form

  ghost predicate Filled(b: Block, bs: seq<Block>) {
    forall a: Address :: Contains(b, a) ==> Covers(bs, a)
  }

  /** A block lies inside one collapsed block exactly when the input covers all of it. */
  lemma {:induction false} CollapseCanonical(input: seq<Block>, out: seq<Block>, b: Block)
    requires IsCollapse(input, out)
    ensures InOne(b, out) <==> Filled(b, input)
    decreases MAX_LEN - b.len
  {
    if InOne(b, out) {
      var q :| q in out && SubnetOf(b, q);
      forall a: Address | Contains(b, a) ensures Covers(input, a) {
        assert Contains(q, a);
        assert Covers(out, a);
      }
    }
    if Filled(b, input) {
      if b.len == MAX_LEN {
        assert Contains(b, b.net) && Covers(out, b.net);
        var q :| q in out && Contains(q, b.net);
        assert SubnetOf(b, q);
      } else {
        var lo, hi := LowerHalf(b), UpperHalf(b);
        CollapseCanonical(input, out, lo);
        CollapseCanonical(input, out, hi);
        var q :| q in out && SubnetOf(lo, q);
        var r :| r in out && SubnetOf(hi, r);
        WiderHoldsParent(lo, b, q);
        WiderHoldsParent(hi, b, r);
      }
    }
  }

  lemma WiderHoldsParent(half: Block, b: Block, q: Block)
    requires b.len < MAX_LEN && (half == LowerHalf(b) || half == UpperHalf(b))
    requires SubnetOf(half, q)
    ensures q == half || SubnetOf(b, q)
  {
    SubnetLength(half, q);
    if q.len <= b.len {
      assert Contains(b, half.net) && Contains(q, half.net);
      NestedOrDisjoint(b, q);
    }
  }

  /** The result depends only on the addresses covered. */
  lemma CollapseUnique(xs: seq<Block>, x: seq<Block>, ys: seq<Block>, y: seq<Block>)
    requires IsCollapse(xs, x) && IsCollapse(ys, y)
    requires forall a: Address :: Covers(xs, a) <==> Covers(ys, a)
    ensures x == y
  {
    forall b: Block ensures InOne(b, x) <==> InOne(b, y) {
      CollapseCanonical(xs, x, b);
      CollapseCanonical(ys, y, b);
    }
    CanonicalUnique(x, y);
  }
}
