/**
 * The plan for one hosted cluster and one step of the fleet, exactly: which blocks are published, what
 * the plan says about them, when there is none, and what a cluster must stay clear of.
 */
module ClusterIpamExact {
  import opened Prelude
  import opened Cidr
  import opened Allocation
  import opened ClusterIpam
  import opened Fleet

  // ---------------------------------------------------------------- the constants

  /** The block is a.b.c.d/len. */
  ghost predicate Reads(x: Block, a: nat, b: nat, c: nat, d: nat, len: nat) {
    x.net == 0x100_0000 * a + 0x1_0000 * b + 0x100 * c + d && x.len == len
  }

  /** The subnets OVN-Kubernetes keeps for itself, and HyperShift's own defaults. */
  lemma ConstantsExact()
    ensures Reads(OVN_JOIN, 100, 64, 0, 0, 16) && Reads(OVN_TRANSIT, 100, 88, 0, 0, 16) && Reads(OVN_MASQUERADE, 169, 254, 169, 0, 29)
    ensures Reads(LEGACY_CLUSTER, 10, 132, 0, 0, 14) && Reads(LEGACY_SERVICE, 172, 31, 0, 0, 16)
  {
  }

  // ---------------------------------------------------------------- fresh blocks

  /** A block the pool is cut into: of the pool's block length, except that a /32 cannot be cut. */
  ghost predicate CutFrom(p: Pool, b: Block) {
    b.len == (if p.cidr.len == 32 then 32 else p.blockLen) && SubnetOf(b, p.cidr)
  }

  ghost predicate Cuttable(p: Pool) {
    p.cidr.len == 32 || p.cidr.len <= p.blockLen <= 32
  }

  ghost predicate Clear(b: Block, os: seq<Obstacle>) {
    forall o :: o in os ==> !Overlaps(b, o.block)
  }

  /** The lowest block of the pool that is clear of the obstacles, and of the extra block if there is one. */
  ghost predicate Lowest(p: Pool, os: seq<Obstacle>, extra: Option<Block>, b: Block) {
    && CutFrom(p, b) && Clear(b, os) && (extra.Some? ==> !Overlaps(b, extra.value))
    && forall c: Block :: CutFrom(p, c) && c.net < b.net ==> !Clear(c, os) || (extra.Some? && Overlaps(c, extra.value))
  }

  ghost predicate NoneLeft(p: Pool, os: seq<Obstacle>, extra: Option<Block>) {
    !Cuttable(p) || forall c: Block :: CutFrom(p, c) ==> !Clear(c, os) || (extra.Some? && Overlaps(c, extra.value))
  }

  function With(os: seq<Obstacle>, extra: Option<Block>): seq<Block> {
    Blocks(os) + if extra.Some? then [extra.value] else []
  }

  lemma ClearExact(b: Block, os: seq<Obstacle>, extra: Option<Block>)
    ensures Misses(b, With(os, extra)) <==> Clear(b, os) && (extra.Some? ==> !Overlaps(b, extra.value))
  {
    MissesBlocks(b, os);
    if extra.Some? {
      assert extra.value in With(os, extra);
      forall h ensures h in With(os, extra) <==> h in Blocks(os) || h == extra.value {}
    } else {
      assert With(os, extra) == Blocks(os);
    }
  }

  lemma AllocateExact(p: Pool, os: seq<Obstacle>, extra: Option<Block>)
    ensures Allocate(p, With(os, extra)).Allocated? <==> !NoneLeft(p, os, extra)
    ensures forall b :: Allocate(p, With(os, extra)) == Allocated(b) ==> Lowest(p, os, extra, b)
  {
    if ValidPool(p) {
      AllocateLowest(p, With(os, extra));
      forall c: Block ensures CutFrom(p, c) <==> InPool(p, c) {}
      forall c: Block { ClearExact(c, os, extra); }
    }
  }

  // ---------------------------------------------------------------- the plan

  /** Some recorded block overlaps an obstacle. */
  ghost predicate RecordedClashes(r: Request) {
    exists c, o :: c in r.recorded.cluster + r.recorded.service && o in r.obstacles && Overlaps(c, o.block)
  }

  ghost predicate Reallocates(r: Request) {
    r.source == AllocateNew || (r.source == Recorded && RecordedClashes(r))
  }

  lemma RecordedClashExact(r: Request)
    ensures AnyClash(r.recorded.cluster + r.recorded.service, r.obstacles) <==> RecordedClashes(r)
  {
    var own := r.recorded.cluster + r.recorded.service;
    MissesMeansNoClash(own, r.obstacles);
    forall c { MissesBlocks(c, r.obstacles); }
  }

  lemma FreshExact(r: Request)
    ensures Fresh(r).None? <==>
      NoneLeft(r.clusterPool, r.obstacles, None)
      || exists cl: Block :: Lowest(r.clusterPool, r.obstacles, None, cl) && NoneLeft(r.servicePool, r.obstacles, Some(cl))
    ensures Fresh(r).Some? ==>
      && Lowest(r.clusterPool, r.obstacles, None, Fresh(r).value.0)
      && Lowest(r.servicePool, r.obstacles, Some(Fresh(r).value.0), Fresh(r).value.1)
  {
    assert With(r.obstacles, None) == Blocks(r.obstacles);
    AllocateExact(r.clusterPool, r.obstacles, None);
    var cl := Allocate(r.clusterPool, Blocks(r.obstacles));
    if cl.Allocated? {
      AllocateExact(r.servicePool, r.obstacles, Some(cl.block));
      forall other: Block | Lowest(r.clusterPool, r.obstacles, None, other) ensures other == cl.block {
        LowestUnique(r.clusterPool, r.obstacles, None, other, cl.block);
      }
    }
  }

  lemma LowestUnique(p: Pool, os: seq<Obstacle>, extra: Option<Block>, a: Block, b: Block)
    requires Lowest(p, os, extra, a) && Lowest(p, os, extra, b)
    ensures a == b
  {
    assert a.len == b.len && !(a.net < b.net) && !(b.net < a.net);
  }

  /** There is no plan exactly when fresh blocks are needed and one of the pools has none left. */
  lemma FailsExact(r: Request)
    ensures PlanFor(r).Failed? <==>
      Reallocates(r) &&
      (NoneLeft(r.clusterPool, r.obstacles, None)
       || exists cl: Block :: Lowest(r.clusterPool, r.obstacles, None, cl) && NoneLeft(r.servicePool, r.obstacles, Some(cl)))
  {
    RecordedClashExact(r);
    FreshExact(r);
  }

  /** A kept plan: the recorded blocks and machine network, under the recorded source or the default one. */
  lemma KeptExact(r: Request)
    requires r.source == Recorded && !RecordedClashes(r)
    ensures PlanFor(r).Planned? && PlanFor(r).plan.superseded.None?
    ensures var net := PlanFor(r).plan.net;
      && net.cluster == r.recorded.cluster && net.service == r.recorded.service && net.machine == r.recorded.machine
      && net.source == (if r.recorded.source != "" then r.recorded.source else "fabric-ipam")
  {
    RecordedClashExact(r);
  }

  /** A fresh plan: the lowest clear block of each pool, and what it supersedes, if anything. */
  lemma FreshPlanExact(r: Request)
    requires Reallocates(r) && PlanFor(r).Planned?
    ensures var plan := PlanFor(r).plan; var net := plan.net;
      && |net.cluster| == 1 && Lowest(r.clusterPool, r.obstacles, None, net.cluster[0])
      && |net.service| == 1 && Lowest(r.servicePool, r.obstacles, Some(net.cluster[0]), net.service[0])
      && net.machine == [] && net.source == "fabric-ipam"
      && plan.superseded == (if r.source == Recorded then Some((r.recorded.cluster, r.recorded.service)) else None)
  {
    RecordedClashExact(r);
    FreshExact(r);
  }

  /** Explicit and default blocks are taken as they are. */
  lemma UncheckedPlanExact(r: Request)
    requires r.source == Explicit || r.source == LegacyDefault
    ensures PlanFor(r).Planned? && PlanFor(r).plan.superseded.None?
    ensures var net := PlanFor(r).plan.net;
      && net.machine == []
      && (r.source == Explicit ==>
           net.cluster == r.explicitCluster && net.service == r.explicitService && net.source == "explicit")
      && (r.source == LegacyDefault ==>
           net.cluster == [LEGACY_CLUSTER] && net.service == [LEGACY_SERVICE] && net.source == "legacy-default")
  {
  }

  /** Whatever the source: a plan is a legacy one exactly when one of its blocks leaves its default range. */
  lemma LegacyExact(r: Request)
    requires PlanFor(r).Planned?
    ensures var plan := PlanFor(r).plan;
      plan.legacy <==>
        || (exists c :: c in plan.net.cluster && !SubnetOf(c, r.clusterPool.cidr))
        || (exists c :: c in plan.net.service && !SubnetOf(c, r.servicePool.cidr))
  {
  }

  /** Fresh blocks never do. */
  lemma FreshIsNotLegacy(r: Request)
    requires Reallocates(r) && PlanFor(r).Planned?
    ensures !PlanFor(r).plan.legacy
  {
    var net := PlanFor(r).plan.net;
    FreshPlanExact(r);
    OnlyInside(r.clusterPool, r.obstacles, None, net.cluster);
    OnlyInside(r.servicePool, r.obstacles, Some(net.cluster[0]), net.service);
    LegacyExact(r);
  }

  lemma OnlyInside(p: Pool, os: seq<Obstacle>, extra: Option<Block>, own: seq<Block>)
    requires |own| == 1 && Lowest(p, os, extra, own[0])
    ensures forall c :: c in own ==> SubnetOf(c, p.cidr)
  {
  }

  // ---------------------------------------------------------------- the conflicts, one by one

  lemma {:induction false} OverlapsWithMembers(a: Block, rest: seq<Block>, x: Conflict)
    ensures x in OverlapsWith(a, rest) <==> x.SelfOverlap? && x.a == a && x.b in rest && Overlaps(a, x.b)
  {
    if rest == [] {
    } else {
      var n := |rest| - 1;
      OverlapsWithMembers(a, rest[..n], x);
      assert rest == rest[..n] + [rest[n]];
    }
  }

  ghost predicate OverlapPair(own: seq<Block>, x: Conflict, i: int, j: int) {
    0 <= i < j < |own| && x == SelfOverlap(own[i], own[j]) && Overlaps(own[i], own[j])
  }

  ghost predicate HasPair(own: seq<Block>, x: Conflict) {
    exists i, j :: OverlapPair(own, x, i, j)
  }

  /** A pair is one of the rest, or the first block with one of the rest. */
  lemma PairOfFirst(own: seq<Block>, x: Conflict)
    requires own != []
    ensures HasPair(own, x) <==>
      HasPair(own[1..], x) || (x.SelfOverlap? && x.a == own[0] && x.b in own[1..] && Overlaps(x.a, x.b))
  {
    var rest := own[1..];
    if i, j :| OverlapPair(rest, x, i, j) { assert OverlapPair(own, x, i + 1, j + 1); }
    if x.SelfOverlap? && x.a == own[0] && x.b in rest && Overlaps(x.a, x.b) {
      var j :| 0 <= j < |rest| && rest[j] == x.b;
      assert OverlapPair(own, x, 0, j + 1);
    }
    if i, j :| OverlapPair(own, x, i, j) {
      if i > 0 { assert OverlapPair(rest, x, i - 1, j - 1); } else { assert rest[j - 1] == x.b; }
    }
  }

  lemma {:induction false} SelfOverlapMembers(own: seq<Block>, x: Conflict)
    ensures x in SelfOverlaps(own) <==> HasPair(own, x)
  {
    if own == [] {
    } else {
      SelfOverlapMembers(own[1..], x);
      OverlapsWithMembers(own[0], own[1..], x);
      PairOfFirst(own, x);
    }
  }

  lemma {:induction false} ClashMembers(own: seq<Block>, os: seq<Obstacle>, x: Conflict)
    ensures x in ClashReport(own, os) <==> x.Clash? && x.own in own && x.other in os && Overlaps(x.own, x.other.block)
  {
    if own == [] {
    } else {
      var n := |own| - 1;
      ClashMembers(own[..n], os, x);
      assert own == own[..n] + [own[n]];
      if x.Clash? {
        ClashesExact(os, own[n], x.other);
        HitsAsConflicts(own[n], Clashes(os, own[n]), x);
      }
    }
  }

  lemma HitsAsConflicts(c: Block, hits: seq<Obstacle>, x: Conflict)
    requires x.Clash?
    ensures x in AsConflicts(c, hits) <==> x.own == c && x.other in hits
  {
    if x.own == c && x.other in hits {
      var i :| 0 <= i < |hits| && hits[i] == x.other;
      assert AsConflicts(c, hits)[i] == x;
    }
  }

  /** The report holds each overlapping pair of own blocks, earlier one first, and each own block with each obstacle it overlaps. */
  lemma ConflictsExact(r: Request, x: Conflict)
    requires PlanFor(r).Planned?
    ensures var plan := PlanFor(r).plan; var own := plan.net.cluster + plan.net.service;
      x in plan.conflicts <==>
        match x
        case SelfOverlap(_, _) => HasPair(own, x)
        case Clash(c, o) => c in own && o in r.obstacles && Overlaps(c, o.block)
  {
    var plan := PlanFor(r).plan;
    ReportOfPlan(r);
    ReportMembers(plan.net.cluster + plan.net.service, r.obstacles, x);
  }

  lemma ReportOfPlan(r: Request)
    requires PlanFor(r).Planned?
    ensures var plan := PlanFor(r).plan; plan.conflicts == Conflicts(plan.net.cluster + plan.net.service, r.obstacles)
  {
    match r.source
    case Recorded =>
    case Explicit =>
    case AllocateNew =>
    case LegacyDefault =>
  }

  lemma ReportMembers(own: seq<Block>, os: seq<Obstacle>, x: Conflict)
    ensures x in Conflicts(own, os) <==>
      match x
      case SelfOverlap(_, _) => HasPair(own, x)
      case Clash(c, o) => c in own && o in os && Overlaps(c, o.block)
  {
    SelfOverlapMembers(own, x);
    ClashMembers(own, os, x);
    assert x in Conflicts(own, os) <==> x in SelfOverlaps(own) || x in ClashReport(own, os);
  }

  // ---------------------------------------------------------------- one step of the fleet

  /** What a cluster must stay clear of: the reserved blocks, the hub's, and, if peers are denied, what every other cluster published. */
  lemma ObstacleExact(f: seq<Cluster>, rules: Rules, me: ClusterId, o: Obstacle)
    ensures o in ObstaclesFor(f, rules, me) <==>
      match o
      case Reserved(b) => b in {OVN_JOIN, OVN_TRANSIT, OVN_MASQUERADE}
      case Hub(b) => b in rules.hub
      case Peer(id, b) =>
        rules.denyPeers && id != me &&
        exists c :: c in f && c.id == id && c.status.Some? && (b in c.status.value.cluster || b in c.status.value.service)
  {
    PeerObstaclesExact(f, me, o);
    HubExact(rules.hub, o);
    var peers := PeerObstacles(f, me);
    assert o in ObstaclesFor(f, rules, me) <==>
      o in ReservedObstacles() || o in HubObstacles(rules.hub) || (rules.denyPeers && o in peers);
    if o.Peer? {
      forall c ensures PublishedBy(c, me, o) <==>
        c.id == o.tag && c.id != me && c.status.Some? && (o.block in c.status.value.cluster || o.block in c.status.value.service) {}
    }
  }

  lemma HubExact(hub: seq<Block>, o: Obstacle)
    ensures o in HubObstacles(hub) <==> o.Hub? && o.block in hub
  {
    if o.Hub? && o.block in hub {
      var i :| 0 <= i < |hub| && hub[i] == o.block;
      assert HubObstacles(hub)[i] == o;
    }
  }

  /** The request a cluster makes: what it has on record, what it asks for, its pools and its obstacles. */
  lemma RequestExact(f: seq<Cluster>, rules: Rules, i: nat)
    requires i < |f|
    ensures var r, c := RequestFor(f, rules, i), f[i];
      && r.obstacles == ObstaclesFor(f, rules, c.id)
      && r.clusterPool == c.spec.clusterPool && r.servicePool == c.spec.servicePool
      && r.explicitCluster == c.spec.explicitCluster && r.explicitService == c.spec.explicitService
      && (c.status.Some? ==> r.recorded == c.status.value)
      && var recorded := c.status.Some? && c.status.value.cluster != [] && c.status.value.service != [];
         var explicit := c.spec.explicitCluster != [] && c.spec.explicitService != [];
         && (r.source == Recorded <==> recorded)
         && (r.source == Explicit <==> !recorded && explicit)
         && (r.source == AllocateNew <==> !recorded && !explicit && c.spec.allocate)
         && (r.source == LegacyDefault <==> !recorded && !explicit && !c.spec.allocate)
  {
  }

  /** A step publishes the plan for its cluster and changes nothing else; without a plan it publishes nothing. */
  lemma StepExact(f: seq<Cluster>, rules: Rules, i: nat, j: nat)
    requires i < |f| && j < |f|
    ensures Replan(f, rules, i).None? <==> PlanFor(RequestFor(f, rules, i)).Failed?
    ensures Replan(f, rules, i).Some? ==>
      var g := Replan(f, rules, i).value;
      && |g| == |f| && g[i].status == Some(PlanFor(RequestFor(f, rules, i)).plan.net)
      && g[i].id == f[i].id && g[i].spec == f[i].spec && (j != i ==> g[j] == f[j])
  {
  }
}
