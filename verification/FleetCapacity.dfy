/** Pools wide enough for the whole fleet: then no run is ever exhausted, and every full round settles it. */
module FleetCapacity {
  import opened Prelude
  import opened Cidr
  import opened Allocation
  import opened ClusterIpam
  import opened Fleet
  import opened FleetConflicts

  // ---------------------------------------------------------------- what a cluster can come to weigh

  function Max(a: nat, b: nat): nat { if a < b then b else a }

  ghost predicate GoodPools(c: Cluster) {
    ValidPool(c.spec.clusterPool) && ValidPool(c.spec.servicePool)
  }

  /** What a fresh pair of this cluster weighs. */
  ghost function PairWeight(c: Cluster, len: nat): nat
    requires GoodPools(c)
  {
    LengthWeight(BlockLen(c.spec.clusterPool), len) + LengthWeight(BlockLen(c.spec.servicePool), len)
  }

  /** The most its published blocks can weigh now or after any later run. */
  ghost function MostWeight(c: Cluster, len: nat): nat
    requires GoodPools(c)
  {
    var kept := Max(TotalWeight(Own(c), len), PairWeight(c, len));
    if Managed(c) then kept else Max(kept, TotalWeight(Unchecked(c), len))
  }

  ghost predicate AllGoodPools(f: seq<Cluster>) {
    forall i :: 0 <= i < |f| ==> GoodPools(f[i])
  }

  /** The most the peers of `me` can weigh. */
  ghost function PeersWeight(f: seq<Cluster>, me: ClusterId, len: nat): nat
    requires AllGoodPools(f)
    decreases |f|
  {
    if f == [] then 0
    else
      var n := |f| - 1;
      PeersWeight(f[..n], me, len) + if f[n].id == me then 0 else MostWeight(f[n], len)
  }

  ghost function FixedWeight(hub: seq<Block>, len: nat): nat {
    TotalWeight(Blocks(ReservedObstacles() + HubObstacles(hub)), len)
  }

  /** Cluster c can always be given a pair, whatever its peers come to publish. */
  ghost predicate RoomFor(f: seq<Cluster>, hub: seq<Block>, c: Cluster)
    requires AllGoodPools(f) && GoodPools(c)
  {
    var cl, sv := BlockLen(c.spec.clusterPool), BlockLen(c.spec.servicePool);
    && FixedWeight(hub, cl) + PeersWeight(f, c.id, cl) < Capacity(c.spec.clusterPool)
    && FixedWeight(hub, sv) + PeersWeight(f, c.id, sv) + LengthWeight(cl, sv) < Capacity(c.spec.servicePool)
  }

  ghost predicate RoomForAll(f: seq<Cluster>, hub: seq<Block>) {
    AllGoodPools(f) && forall i :: 0 <= i < |f| ==> RoomFor(f, hub, f[i])
  }

  // ---------------------------------------------------------------- room for one run

  lemma {:induction false} WeightConcat(xs: seq<Block>, ys: seq<Block>, len: nat)
    ensures TotalWeight(xs + ys, len) == TotalWeight(xs, len) + TotalWeight(ys, len)
  {
    if xs == [] {
      assert xs + ys == ys;
    } else {
      WeightConcat(xs[1..], ys, len);
      assert xs + ys == [xs[0]] + (xs[1..] + ys);
      WeightOf(xs[0], xs[1..] + ys, len);
    }
  }

  lemma BlocksConcat(xs: seq<Obstacle>, ys: seq<Obstacle>)
    ensures Blocks(xs + ys) == Blocks(xs) + Blocks(ys)
  {
  }

  lemma {:induction false} PeersWeigh(f: seq<Cluster>, me: ClusterId, len: nat)
    requires AllGoodPools(f)
    ensures TotalWeight(Blocks(PeerObstacles(f, me)), len) <= PeersWeight(f, me, len)
    decreases |f|
  {
    if f == [] {
    } else {
      var front, last := f[..|f| - 1], f[|f| - 1];
      PeersWeigh(front, me, len);
      var more := if last.id == me then [] else Tagged(last.id, Own(last));
      BlocksConcat(PeerObstacles(front, me), more);
      WeightConcat(Blocks(PeerObstacles(front, me)), Blocks(more), len);
      assert last.id != me ==> Blocks(more) == Own(last);
    }
  }

  lemma ObstaclesWeigh(f: seq<Cluster>, rules: Rules, me: ClusterId, len: nat)
    requires AllGoodPools(f)
    ensures TotalWeight(Blocks(ObstaclesFor(f, rules, me)), len) <= FixedWeight(rules.hub, len) + PeersWeight(f, me, len)
  {
    var fixed, peers := ReservedObstacles() + HubObstacles(rules.hub), if rules.denyPeers then PeerObstacles(f, me) else [];
    BlocksConcat(fixed, peers);
    WeightConcat(Blocks(fixed), Blocks(peers), len);
    PeersWeigh(f, me, len);
  }

  lemma RoomMeansPlan(f: seq<Cluster>, rules: Rules, i: nat)
    requires i < |f| && AllGoodPools(f) && RoomFor(f, rules.hub, f[i])
    ensures Replan(f, rules, i).Some?
  {
    var c := f[i];
    ObstaclesWeigh(f, rules, c.id, BlockLen(c.spec.clusterPool));
    ObstaclesWeigh(f, rules, c.id, BlockLen(c.spec.servicePool));
    LightEnoughToPlan(RequestFor(f, rules, i));
  }

  lemma LightEnoughToPlan(r: Request)
    requires ValidPool(r.clusterPool) && ValidPool(r.servicePool)
    requires var os, cl, sv := Blocks(r.obstacles), BlockLen(r.clusterPool), BlockLen(r.servicePool);
      TotalWeight(os, cl) < Capacity(r.clusterPool) && TotalWeight(os, sv) + LengthWeight(cl, sv) < Capacity(r.servicePool)
    ensures PlanFor(r).Planned?
  {
    var os, cl, sv := Blocks(r.obstacles), BlockLen(r.clusterPool), BlockLen(r.servicePool);
    forall b: Block | InPool(r.clusterPool, b) ensures TotalWeight(os + [b], sv) < Capacity(r.servicePool) {
      assert b.len == cl;
      OneMoreWeighs(os, b, sv);
    }
    EnoughRoomToPlan(r);
  }

  lemma OneMoreWeighs(os: seq<Block>, b: Block, len: nat)
    ensures TotalWeight(os + [b], len) == TotalWeight(os, len) + LengthWeight(b.len, len)
  {
    WeightWith(os, b, len);
  }

  // ---------------------------------------------------------------- runs keep the room

  lemma FreshWeighs(r: Request, len: nat)
    requires ValidPool(r.clusterPool) && ValidPool(r.servicePool) && Fresh(r).Some?
    ensures TotalWeight([Fresh(r).value.0] + [Fresh(r).value.1], len) ==
      LengthWeight(BlockLen(r.clusterPool), len) + LengthWeight(BlockLen(r.servicePool), len)
  {
    FreshInPools(r);
    PairWeighs(Fresh(r).value.0, Fresh(r).value.1, len);
  }

  lemma FreshInPools(r: Request)
    requires ValidPool(r.clusterPool) && ValidPool(r.servicePool) && Fresh(r).Some?
    ensures InPool(r.clusterPool, Fresh(r).value.0) && InPool(r.servicePool, Fresh(r).value.1)
  {
    AllocateLowest(r.clusterPool, Blocks(r.obstacles));
    AllocateLowest(r.servicePool, Blocks(r.obstacles) + [Fresh(r).value.0]);
  }

  lemma PairWeighs(a: Block, b: Block, len: nat)
    ensures TotalWeight([a] + [b], len) == LengthWeight(a.len, len) + LengthWeight(b.len, len)
  {
    WeightOf(a, [b], len);
    WeightOf(b, [], len);
    assert [b] + [] == [b];
  }

  /** A run never makes a cluster weigh more than it could before. */
  lemma WeighsNoMore(f: seq<Cluster>, rules: Rules, i: nat, len: nat)
    requires i < |f| && AllGoodPools(f) && Replan(f, rules, i).Some?
    ensures var g := Replan(f, rules, i).value; GoodPools(g[i]) && MostWeight(g[i], len) <= MostWeight(f[i], len)
  {
    var g := Replan(f, rules, i).value;
    ReplanRecords(f, rules, i);
    SpecStays(f, rules, i);
    if Managed(f[i]) {
      ManagedPublishes(f, rules, i);
      if Own(g[i]) != Own(f[i]) { FreshWeighs(RequestFor(f, rules, i), len); }
    } else {
      UncheckedPublished(f, rules, i);
    }
  }

  lemma SpecStays(f: seq<Cluster>, rules: Rules, i: nat)
    requires i < |f| && Replan(f, rules, i).Some?
    ensures Replan(f, rules, i).value[i].spec == f[i].spec
  {
  }

  ghost predicate Lighter(f: seq<Cluster>, g: seq<Cluster>) {
    && |g| == |f| && AllGoodPools(f) && AllGoodPools(g)
    && forall k :: 0 <= k < |f| ==>
         g[k].id == f[k].id && g[k].spec == f[k].spec && forall len: nat :: MostWeight(g[k], len) <= MostWeight(f[k], len)
  }

  lemma ReplanLightens(f: seq<Cluster>, rules: Rules, i: nat)
    requires i < |f| && AllGoodPools(f) && Replan(f, rules, i).Some?
    ensures Lighter(f, Replan(f, rules, i).value)
  {
    var g := Replan(f, rules, i).value;
    ReplanRecords(f, rules, i);
    SpecStays(f, rules, i);
    forall len: nat { WeighsNoMore(f, rules, i, len); }
    forall k | 0 <= k < |f| ensures g[k].id == f[k].id && g[k].spec == f[k].spec {
      if k != i { assert g[k] == f[k]; }
    }
  }

  lemma {:induction false} PeersLighter(f: seq<Cluster>, g: seq<Cluster>, me: ClusterId, len: nat)
    requires Lighter(f, g)
    ensures PeersWeight(g, me, len) <= PeersWeight(f, me, len)
    decreases |f|
  {
    if f == [] {
    } else {
      var n := |f| - 1;
      FrontLighter(f, g);
      PeersLighter(f[..n], g[..n], me, len);
      assert g[n].id == f[n].id && MostWeight(g[n], len) <= MostWeight(f[n], len);
    }
  }

  lemma FrontLighter(f: seq<Cluster>, g: seq<Cluster>)
    requires Lighter(f, g) && f != []
    ensures Lighter(f[..|f| - 1], g[..|f| - 1])
  {
  }

  lemma LighterKeepsRoom(f: seq<Cluster>, g: seq<Cluster>, hub: seq<Block>)
    requires Lighter(f, g) && RoomForAll(f, hub)
    ensures RoomForAll(g, hub)
  {
    forall i | 0 <= i < |g| ensures RoomFor(g, hub, g[i]) {
      assert RoomFor(f, hub, f[i]) && g[i].spec == f[i].spec && g[i].id == f[i].id;
      PeersLighter(f, g, f[i].id, BlockLen(f[i].spec.clusterPool));
      PeersLighter(f, g, f[i].id, BlockLen(f[i].spec.servicePool));
    }
  }

  /** With room for all, every run in every order succeeds, and leaves room for all. */
  lemma {:induction false} RoomMeansRun(f: seq<Cluster>, rules: Rules, order: seq<nat>)
    requires RoomForAll(f, rules.hub) && InRange(order, |f|)
    ensures Run(f, rules, order).Some? && RoomForAll(Run(f, rules, order).value, rules.hub)
    decreases |order|
  {
    if order == [] {
    } else {
      InRangeTail(order, |f|);
      RoomMeansPlan(f, rules, order[0]);
      ReplanLightens(f, rules, order[0]);
      var g := Replan(f, rules, order[0]).value;
      LighterKeepsRoom(f, g, rules.hub);
      RoomMeansRun(g, rules, order[1..]);
    }
  }

  /** Fleet convergence without an assumption on how the runs go: room for all, and two full rounds. */
  lemma RoomMeansSettled(f: seq<Cluster>, rules: Rules, first: seq<nat>, second: seq<nat>)
    requires DistinctIds(f) && rules.denyPeers && RoomForAll(f, rules.hub)
    requires FullRound(first, |f|) && FullRound(second, |f|)
    ensures Run(f, rules, first).Some? && Run(Run(f, rules, first).value, rules, second).Some?
    ensures Settled(Run(Run(f, rules, first).value, rules, second).value, rules)
    ensures AllManaged(f) ==> Settled(Run(f, rules, first).value, rules)
  {
    RoomMeansRun(f, rules, first);
    RoomMeansRun(Run(f, rules, first).value, rules, second);
    TwoRoundsSettle(f, rules, first, second);
    if AllManaged(f) { RoundSettles(f, rules, first); }
  }
}
