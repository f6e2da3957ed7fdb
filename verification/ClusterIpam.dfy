/** The planner of fabric_cluster_ipam.py: pod and service CIDRs of one hosted cluster. */
module ClusterIpam {
  import opened Prelude
  import opened Cidr
  import opened Allocation

  type ClusterId = (string, string)

  // 100.64.0.0/16, 100.88.0.0/16 and 169.254.169.0/29: OVN-Kubernetes keeps these for itself.
  const OVN_JOIN: Block := (BlockSizes(); Prefix(0x6440_0000, 16))
  const OVN_TRANSIT: Block := (BlockSizes(); Prefix(0x6458_0000, 16))
  const OVN_MASQUERADE: Block := (BlockSizes(); Prefix(0xA9FE_A900, 29))

  // HyperShift's own defaults, 10.132.0.0/14 and 172.31.0.0/16.
  const LEGACY_CLUSTER: Block := (BlockSizes(); Prefix(0x0A84_0000, 14))
  const LEGACY_SERVICE: Block := (BlockSizes(); Prefix(0xAC1F_0000, 16))

  /** What a plan must stay clear of, tagged by where it comes from. */
  datatype Obstacle =
    | Reserved(block: Block)
    | Hub(block: Block)
    | Peer(tag: ClusterId, block: Block)

  datatype Networking = Networking(cluster: seq<Block>, service: seq<Block>, machine: seq<Block>, source: string)

  datatype Source = Recorded | Explicit | AllocateNew | LegacyDefault

  datatype Request = Request(source: Source, recorded: Networking, explicitCluster: seq<Block>, explicitService: seq<Block>,
                             clusterPool: Pool, servicePool: Pool, obstacles: seq<Obstacle>)

  datatype Conflict = SelfOverlap(a: Block, b: Block) | Clash(own: Block, other: Obstacle)

  datatype Plan = Plan(net: Networking, legacy: bool, conflicts: seq<Conflict>,
                       superseded: Option<(seq<Block>, seq<Block>)>)

  /** `raise SystemExit` and the ValueError of `subnets` both end the run without a plan. */
  datatype Outcome = Planned(plan: Plan) | Failed

  // ---------------------------------------------------------------- clashes

  function Blocks(os: seq<Obstacle>): seq<Block> {
    seq(|os|, i requires 0 <= i < |os| => os[i].block)
  }

  /** `clashes`: the obstacles a block overlaps, in order. */
  function Clashes(os: seq<Obstacle>, c: Block): seq<Obstacle> {
    if os == [] then []
    else
      var n := |os| - 1;
      Clashes(os[..n], c) + if Overlaps(c, os[n].block) then [os[n]] else []
  }

  lemma {:induction false} ClashesExact(os: seq<Obstacle>, c: Block, o: Obstacle)
    ensures o in Clashes(os, c) <==> o in os && Overlaps(c, o.block)
  {
    if os == [] {
    } else {
      ClashesExact(os[..|os| - 1], c, o);
      assert os == os[..|os| - 1] + [os[|os| - 1]];
    }
  }

  lemma NoClashExact(os: seq<Obstacle>, c: Block)
    ensures Clashes(os, c) == [] <==> Misses(c, Blocks(os))
  {
    if Clashes(os, c) == [] {
      forall h | h in Blocks(os) ensures !Overlaps(c, h) {
        var i :| 0 <= i < |os| && Blocks(os)[i] == h;
        ClashesExact(os, c, os[i]);
      }
    } else {
      var o := Clashes(os, c)[0];
      ClashesExact(os, c, o);
      var i :| 0 <= i < |os| && os[i] == o;
      assert Blocks(os)[i] in Blocks(os);
    }
  }

  // ---------------------------------------------------------------- the conflict report

  function OverlapsWith(a: Block, rest: seq<Block>): seq<Conflict> {
    if rest == [] then []
    else
      var n := |rest| - 1;
      OverlapsWith(a, rest[..n]) + if Overlaps(a, rest[n]) then [SelfOverlap(a, rest[n])] else []
  }

  function SelfOverlaps(own: seq<Block>): seq<Conflict> {
    if own == [] then [] else OverlapsWith(own[0], own[1..]) + SelfOverlaps(own[1..])
  }

  function AsConflicts(c: Block, hits: seq<Obstacle>): seq<Conflict> {
    seq(|hits|, i requires 0 <= i < |hits| => Clash(c, hits[i]))
  }

  function ClashReport(own: seq<Block>, os: seq<Obstacle>): seq<Conflict> {
    if own == [] then []
    else
      var n := |own| - 1;
      ClashReport(own[..n], os) + AsConflicts(own[n], Clashes(os, own[n]))
  }

  function Conflicts(own: seq<Block>, os: seq<Obstacle>): seq<Conflict> {
    SelfOverlaps(own) + ClashReport(own, os)
  }

  // ---------------------------------------------------------------- the decision

  /** A fresh pair: the service block also avoids the new cluster block. */
  function Fresh(r: Request): Option<(Block, Block)> {
    var cl := Allocate(r.clusterPool, Blocks(r.obstacles));
    if !cl.Allocated? then None else
      var sv := Allocate(r.servicePool, Blocks(r.obstacles) + [cl.block]);
      if !sv.Allocated? then None else Some((cl.block, sv.block))
  }

  predicate AnyClash(own: seq<Block>, os: seq<Obstacle>) {
    exists c :: c in own && Clashes(os, c) != []
  }

  function SourceOrDefault(s: string): string {
    if s == "" then "fabric-ipam" else s
  }

  predicate OutsidePools(r: Request, cl: seq<Block>, sv: seq<Block>) {
    || (exists c :: c in cl && !SubnetOf(c, r.clusterPool.cidr))
    || (exists c :: c in sv && !SubnetOf(c, r.servicePool.cidr))
  }

  function Finish(r: Request, net: Networking, superseded: Option<(seq<Block>, seq<Block>)>): Outcome {
    Planned(Plan(net, OutsidePools(r, net.cluster, net.service),
                 Conflicts(net.cluster + net.service, r.obstacles), superseded))
  }

  function FinishFresh(r: Request, superseded: Option<(seq<Block>, seq<Block>)>): Outcome {
    var pair := Fresh(r);
    if pair.None? then Failed
    else Finish(r, Networking([pair.value.0], [pair.value.1], [], "fabric-ipam"), superseded)
  }

  function PlanFor(r: Request): Outcome {
    match r.source
    case Recorded =>
      if AnyClash(r.recorded.cluster + r.recorded.service, r.obstacles)
      then FinishFresh(r, Some((r.recorded.cluster, r.recorded.service)))
      else Finish(r, r.recorded.(source := SourceOrDefault(r.recorded.source)), None)
    case Explicit => Finish(r, Networking(r.explicitCluster, r.explicitService, [], "explicit"), None)
    case AllocateNew => FinishFresh(r, None)
    case LegacyDefault => Finish(r, Networking([LEGACY_CLUSTER], [LEGACY_SERVICE], [], "legacy-default"), None)
  }

  // ---------------------------------------------------------------- the program

  method ListClashes(os: seq<Obstacle>, c: Block) returns (hits: seq<Obstacle>)
    ensures hits == Clashes(os, c)
  {
    hits := [];
    for i := 0 to |os|
      invariant hits == Clashes(os[..i], c)
    {
      assert os[..i + 1][..i] == os[..i];
      if Overlaps(c, os[i].block) {
        hits := hits + [os[i]];
      }
    }
    assert os[..|os|] == os;
  }

  method ListOverlapsWith(a: Block, rest: seq<Block>) returns (conflicts: seq<Conflict>)
    ensures conflicts == OverlapsWith(a, rest)
  {
    conflicts := [];
    for j := 0 to |rest|
      invariant conflicts == OverlapsWith(a, rest[..j])
    {
      assert rest[..j + 1][..j] == rest[..j];
      if Overlaps(a, rest[j]) {
        conflicts := conflicts + [SelfOverlap(a, rest[j])];
      }
    }
    assert rest[..|rest|] == rest;
  }

  method ListSelfOverlaps(own: seq<Block>) returns (conflicts: seq<Conflict>)
    ensures conflicts == SelfOverlaps(own)
  {
    conflicts := [];
    for i := 0 to |own|
      invariant conflicts + SelfOverlaps(own[i..]) == SelfOverlaps(own)
    {
      assert own[i..][1..] == own[i + 1..];
      var found := ListOverlapsWith(own[i], own[i + 1..]);
      conflicts := conflicts + found;
    }
  }

  lemma ClashReportNext(own: seq<Block>, os: seq<Obstacle>, i: nat)
    requires i < |own|
    ensures ClashReport(own[..i + 1], os) == ClashReport(own[..i], os) + AsConflicts(own[i], Clashes(os, own[i]))
  {
    assert own[..i + 1][..i] == own[..i];
  }

  lemma AppendTwice<T>(a: seq<T>, b: seq<T>, c: seq<T>)
    ensures a + (b + c) == a + b + c
  {
  }

  method ReportConflicts(own: seq<Block>, os: seq<Obstacle>) returns (conflicts: seq<Conflict>)
    ensures conflicts == Conflicts(own, os)
  {
    var selfOverlaps := ListSelfOverlaps(own);
    conflicts := selfOverlaps;
    for i := 0 to |own|
      invariant conflicts == selfOverlaps + ClashReport(own[..i], os)
    {
      ClashReportNext(own, os, i);
      AppendTwice(selfOverlaps, ClashReport(own[..i], os), AsConflicts(own[i], Clashes(os, own[i])));
      var hits := ListClashes(os, own[i]);
      conflicts := conflicts + AsConflicts(own[i], hits);
    }
    assert own[..|own|] == own;
  }

  method AllocatePair(r: Request) returns (pair: Option<(Block, Block)>)
    ensures pair == Fresh(r)
  {
    var cl := ScanPool(r.clusterPool, Blocks(r.obstacles));
    if !cl.Allocated? {
      return None;
    }
    var sv := ScanPool(r.servicePool, Blocks(r.obstacles) + [cl.block]);
    if !sv.Allocated? {
      return None;
    }
    pair := Some((cl.block, sv.block));
  }

  /** The script: `cl`, `sv`, `mc`, `source` and `superseded` reassigned branch by branch. */
  method PlanCidrs(r: Request) returns (out: Outcome)
    ensures out == PlanFor(r)
  {
    var superseded := None;
    var mc := [];
    var cl, sv, source;
    var src := r.source;
    if src == Recorded {
      cl, sv := r.recorded.cluster, r.recorded.service;
      mc := r.recorded.machine;
      source := SourceOrDefault(r.recorded.source);
      if exists c :: c in cl + sv && Clashes(r.obstacles, c) != [] {
        superseded := Some((cl, sv));
        var pair := AllocatePair(r);
        if pair.None? {
          return Failed;
        }
        source := "fabric-ipam";
        cl, sv, mc := [pair.value.0], [pair.value.1], [];
      }
    } else if src == Explicit {
      cl, sv := r.explicitCluster, r.explicitService;
      source := "explicit";
    } else if src == AllocateNew {
      var pair := AllocatePair(r);
      if pair.None? {
        return Failed;
      }
      cl, sv := [pair.value.0], [pair.value.1];
      source := "fabric-ipam";
    } else {
      cl, sv := [LEGACY_CLUSTER], [LEGACY_SERVICE];
      source := "legacy-default";
    }
    var conflicts := ReportConflicts(cl + sv, r.obstacles);
    out := Planned(Plan(Networking(cl, sv, mc, source), OutsidePools(r, cl, sv), conflicts, superseded));
  }

  // ---------------------------------------------------------------- what the plan guarantees

  lemma {:induction false} OverlapsWithExact(a: Block, rest: seq<Block>)
    ensures OverlapsWith(a, rest) == [] <==> Misses(a, rest)
    ensures forall x :: x in OverlapsWith(a, rest) ==> x.SelfOverlap?
  {
    if rest == [] {
    } else {
      OverlapsWithExact(a, rest[..|rest| - 1]);
      assert rest == rest[..|rest| - 1] + [rest[|rest| - 1]];
    }
  }

  lemma {:induction false} SelfOverlapsExact(own: seq<Block>)
    ensures SelfOverlaps(own) == [] <==> PairwiseDisjoint(own)
    ensures forall x :: x in SelfOverlaps(own) ==> x.SelfOverlap?
  {
    if own == [] {
    } else {
      var a, rest := own[0], own[1..];
      SelfOverlapsExact(rest);
      OverlapsWithExact(a, rest);
      assert own == [a] + rest;
      if PairwiseDisjoint(own) {
        forall i, j | 0 <= i < j < |rest| ensures !Overlaps(rest[i], rest[j]) {
          assert !Overlaps(own[i + 1], own[j + 1]);
        }
        forall h | h in rest ensures !Overlaps(a, h) {
          var j :| 0 <= j < |rest| && rest[j] == h;
          assert !Overlaps(own[0], own[j + 1]);
        }
      }
      if PairwiseDisjoint(rest) && Misses(a, rest) {
        DisjointConcat([a], rest);
      }
    }
  }

  lemma {:induction false} ClashReportExact(own: seq<Block>, os: seq<Obstacle>)
    ensures ClashReport(own, os) == [] <==> !AnyClash(own, os)
  {
    if own == [] {
    } else {
      var front, last := own[..|own| - 1], own[|own| - 1];
      ClashReportExact(front, os);
      assert own == front + [last];
      if Clashes(os, last) != [] { assert last in own; }
      if c :| c in front && Clashes(os, c) != [] { assert c in own; }
    }
  }

  /**
   * The conflict report is exact: empty exactly when the plan's own blocks are pairwise disjoint
   * and disjoint from every obstacle.
   */
  lemma ConflictReportExact(own: seq<Block>, os: seq<Obstacle>)
    ensures Conflicts(own, os) == [] <==>
      PairwiseDisjoint(own) && forall c, o :: c in own && o in os ==> !Overlaps(c, o.block)
  {
    SelfOverlapsExact(own);
    ClashReportExact(own, os);
    forall c, o | c in own && o in os
      ensures Overlaps(c, o.block) ==> AnyClash(own, os)
    {
      ClashesExact(os, c, o);
    }
    if AnyClash(own, os) {
      var c :| c in own && Clashes(os, c) != [];
      var o := Clashes(os, c)[0];
      ClashesExact(os, c, o);
    }
  }

  lemma FreshIsClear(r: Request)
    requires Fresh(r).Some?
    ensures var (cl, sv) := Fresh(r).value;
      Misses(cl, Blocks(r.obstacles)) && Misses(sv, Blocks(r.obstacles)) && !Overlaps(sv, cl)
  {
    AllocateLowest(r.clusterPool, Blocks(r.obstacles));
    AllocateLowest(r.servicePool, Blocks(r.obstacles) + [Fresh(r).value.0]);
    var cl := Fresh(r).value.0;
    assert cl in Blocks(r.obstacles) + [cl];
    forall h | h in Blocks(r.obstacles) ensures h in Blocks(r.obstacles) + [cl] {}
  }

  lemma MissesMeansNoClash(own: seq<Block>, os: seq<Obstacle>)
    ensures AnyClash(own, os) <==> exists c :: c in own && !Misses(c, Blocks(os))
  {
    forall c ensures Clashes(os, c) == [] <==> Misses(c, Blocks(os)) { NoClashExact(os, c); }
  }

  lemma FreshHasNoConflict(r: Request)
    requires Fresh(r).Some?
    ensures Conflicts([Fresh(r).value.0] + [Fresh(r).value.1], r.obstacles) == []
  {
    var (cl, sv) := Fresh(r).value;
    var own := [cl] + [sv];
    FreshIsClear(r);
    SelfOverlapsExact(own);
    ClashReportExact(own, r.obstacles);
    MissesMeansNoClash(own, r.obstacles);
    assert forall c :: c in own ==> c == cl || c == sv;
  }

  /** A freshly allocated or superseded plan has no conflict; a kept recorded one can only overlap itself. */
  lemma PlanConflicts(r: Request)
    requires PlanFor(r).Planned?
    ensures var plan := PlanFor(r).plan;
      && (r.source == AllocateNew || plan.superseded.Some? ==> plan.conflicts == [])
      && (r.source == Recorded && plan.superseded.None? ==> forall x :: x in plan.conflicts ==> x.SelfOverlap?)
  {
    var plan := PlanFor(r).plan;
    if r.source == AllocateNew || plan.superseded.Some? {
      FreshHasNoConflict(r);
    } else if r.source == Recorded {
      var own := plan.net.cluster + plan.net.service;
      ClashReportExact(own, r.obstacles);
      SelfOverlapsExact(own);
    }
  }

  /** With room in both pools the planner always has a plan. */
  lemma EnoughRoomToPlan(r: Request)
    requires ValidPool(r.clusterPool) && ValidPool(r.servicePool)
    requires TotalWeight(Blocks(r.obstacles), BlockLen(r.clusterPool)) < Capacity(r.clusterPool)
    requires forall c: Block :: InPool(r.clusterPool, c) ==>
      TotalWeight(Blocks(r.obstacles) + [c], BlockLen(r.servicePool)) < Capacity(r.servicePool)
    ensures PlanFor(r).Planned?
  {
    EnoughCapacity(r.clusterPool, Blocks(r.obstacles));
    AllocateLowest(r.clusterPool, Blocks(r.obstacles));
    var c := Allocate(r.clusterPool, Blocks(r.obstacles)).block;
    assert InPool(r.clusterPool, c);
    EnoughCapacity(r.servicePool, Blocks(r.obstacles) + [c]);
  }
}
