/**
 * What the fleet does not repair: explicit and default CIDRs are published unchecked, and recorded
 * blocks that overlap each other are kept.
 */
module FleetConflicts {
  import opened Prelude
  import opened Cidr
  import opened Allocation
  import opened ClusterIpam
  import opened Fleet

  // ---------------------------------------------------------------- publishing unchecked

  /** The blocks of a cluster whose next run neither keeps nor allocates. */
  function Unchecked(c: Cluster): seq<Block> {
    if SourceOf(c) == Explicit then c.spec.explicitCluster + c.spec.explicitService else [LEGACY_CLUSTER] + [LEGACY_SERVICE]
  }

  lemma UncheckedPublished(f: seq<Cluster>, rules: Rules, i: nat)
    requires i < |f| && !Managed(f[i])
    ensures Replan(f, rules, i).Some?
    ensures var g := Replan(f, rules, i).value;
      && |g| == |f| && g[i].id == f[i].id && Own(g[i]) == Unchecked(f[i])
      && forall j :: 0 <= j < |f| && j != i ==> g[j] == f[j]
  {
  }

  /** Explicit and default CIDRs leave their cluster clean exactly when they are clear of everything beforehand. */
  lemma UncheckedCleanExact(f: seq<Cluster>, rules: Rules, i: nat)
    requires i < |f| && !Managed(f[i])
    ensures Replan(f, rules, i).Some?
    ensures Clean(Replan(f, rules, i).value, rules.hub, i) <==>
      forall b :: b in Unchecked(f[i]) ==> ClearOfFixed(b, rules.hub) && ClearOfPeers(f, i, b)
  {
    UncheckedPublished(f, rules, i);
    var g := Replan(f, rules, i).value;
    forall b ensures ClearOfPeers(g, i, b) <==> ClearOfPeers(f, i, b) {
      OthersSame(f, g, i, b);
    }
  }

  lemma OthersSame(f: seq<Cluster>, g: seq<Cluster>, i: nat, b: Block)
    requires |f| == |g| && forall j :: 0 <= j < |f| && j != i ==> g[j] == f[j]
    ensures ClearOfPeers(g, i, b) <==> ClearOfPeers(f, i, b)
  {
    forall j | 0 <= j < |f| && j != i ensures Own(g[j]) == Own(f[j]) {}
  }

  /** Another cluster that was clean stays so exactly when the published CIDRs miss its blocks. */
  lemma UncheckedSparesExact(f: seq<Cluster>, rules: Rules, i: nat, j: nat)
    requires i < |f| && j < |f| && j != i && !Managed(f[i])
    requires Clean(f, rules.hub, j)
    ensures Replan(f, rules, i).Some?
    ensures Clean(Replan(f, rules, i).value, rules.hub, j) <==> forall b :: b in Own(f[j]) ==> Misses(b, Unchecked(f[i]))
  {
    UncheckedPublished(f, rules, i);
    var g := Replan(f, rules, i).value;
    forall b | b in Own(f[j]) ensures ClearOfPeers(g, j, b) <==> Misses(b, Unchecked(f[i])) {
      OneOtherChanged(f, g, i, j, b);
    }
  }

  lemma OneOtherChanged(f: seq<Cluster>, g: seq<Cluster>, i: nat, j: nat, b: Block)
    requires i < |f| == |g| && j != i && ClearOfPeers(f, j, b)
    requires forall k :: 0 <= k < |f| && k != i ==> g[k] == f[k]
    ensures ClearOfPeers(g, j, b) <==> Misses(b, Own(g[i]))
  {
    forall k | 0 <= k < |g| && k != j && k != i ensures Misses(b, Own(g[k])) {
      assert Misses(b, Own(f[k]));
    }
  }

  /** One cluster with an explicit CIDR on the OVN join subnet: a full round succeeds and leaves it clashing. */
  lemma ExplicitClashIsPublished(pool: Pool)
    ensures var spec := ClusterSpec([OVN_JOIN], [LEGACY_SERVICE], false, pool, pool);
      var f, rules := [Cluster(("ns", "a"), spec, None)], Rules([], true);
      FullRound([0], |f|) && Run(f, rules, [0]).Some? && !Clean(Run(f, rules, [0]).value, rules.hub, 0)
  {
    var f, rules := [Cluster(("ns", "a"), ClusterSpec([OVN_JOIN], [LEGACY_SERVICE], false, pool, pool), None)], Rules([], true);
    UncheckedPublished(f, rules, 0);
    assert OVN_JOIN in Unchecked(f[0]);
    ReservedStaysClashing(f, rules, 0, OVN_JOIN);
    OneReplanRun(f, rules);
  }

  lemma ReservedStaysClashing(f: seq<Cluster>, rules: Rules, i: nat, b: Block)
    requires i < |f| && !Managed(f[i]) && b in Unchecked(f[i]) && Overlaps(b, OVN_JOIN)
    ensures Replan(f, rules, i).Some?
    ensures !Clean(Replan(f, rules, i).value, rules.hub, i)
  {
    UncheckedCleanExact(f, rules, i);
  }

  lemma OneReplanRun(f: seq<Cluster>, rules: Rules)
    requires |f| == 1 && Replan(f, rules, 0).Some?
    ensures FullRound([0], |f|) && Run(f, rules, [0]) == Replan(f, rules, 0)
  {
    var order: seq<nat> := [0];
    assert order[1..] == [] && InRange(order, |f|);
    forall i: nat | i < |f| ensures i in order { assert i == order[0]; }
    assert FullRound(order, |f|);
    var g := Replan(f, rules, order[0]).value;
    assert Run(g, rules, []) == Some(g);
    assert Run(f, rules, order) == Run(g, rules, order[1..]);
  }

  // ---------------------------------------------------------------- which clash survives

  /** What a managed cluster publishes is clear of reserved and hub blocks, peers denied or not. */
  lemma ReplanClearsFixed(f: seq<Cluster>, rules: Rules, i: nat)
    requires i < |f| && Managed(f[i]) && Replan(f, rules, i).Some?
    ensures forall b :: b in Own(Replan(f, rules, i).value[i]) ==> ClearOfFixed(b, rules.hub)
  {
    ManagedMisses(f, rules, i);
    forall b | b in Own(Replan(f, rules, i).value[i]) ensures ClearOfFixed(b, rules.hub) {
      FixedAmongObstacles(f, rules, f[i].id, b);
    }
  }

  lemma FixedAmongObstacles(f: seq<Cluster>, rules: Rules, me: ClusterId, b: Block)
    requires Misses(b, Blocks(ObstaclesFor(f, rules, me)))
    ensures ClearOfFixed(b, rules.hub)
  {
    var os := ObstaclesFor(f, rules, me);
    MissesBlocks(b, os);
    MissesReserved(b);
    MissesHub(b, rules.hub);
    assert forall o :: o in ReservedObstacles() || o in HubObstacles(rules.hub) ==> o in os;
  }

  ghost predicate FixedClear(c: Cluster, hub: seq<Block>) {
    forall b :: b in Own(c) ==> ClearOfFixed(b, hub)
  }

  lemma FixedClearStays(f: seq<Cluster>, rules: Rules, i: nat, j: nat)
    requires i < |f| && j < |f| && Replan(f, rules, i).Some?
    requires SourceOf(f[j]) == Recorded && (j != i ==> FixedClear(f[j], rules.hub))
    ensures var g := Replan(f, rules, i).value;
      |g| == |f| && SourceOf(g[j]) == Recorded && FixedClear(g[j], rules.hub)
  {
    ReplanRecords(f, rules, i);
    if j == i { ReplanClearsFixed(f, rules, i); }
  }

  /**
   * A recorded block that overlaps a reserved or a hub block does not survive its cluster's next turn,
   * whatever the other clusters are and whatever else is replanned before and after.
   */
  lemma {:induction false} ReservedNeverSurvives(f: seq<Cluster>, rules: Rules, order: seq<nat>, j: nat)
    requires InRange(order, |f|) && j < |f| && SourceOf(f[j]) == Recorded
    requires Run(f, rules, order).Some? && (j in order || FixedClear(f[j], rules.hub))
    ensures var g := Run(f, rules, order).value; j < |g| && FixedClear(g[j], rules.hub)
    decreases |order|
  {
    if order == [] {
    } else {
      var i, rest := order[0], order[1..];
      var g := Replan(f, rules, i).value;
      InRangeTail(order, |f|);
      ReplanRecords(f, rules, i);
      assert order == [i] + rest;
      if j == i || FixedClear(f[j], rules.hub) { FixedClearStays(f, rules, i, j); }
      ReservedNeverSurvives(g, rules, rest, j);
    }
  }

  /** Two recorded clusters that clash with each other only: the one replanned moves, the other is clean then. */
  lemma FirstReplannedMoves(f: seq<Cluster>, rules: Rules, i: nat, j: nat)
    requires DistinctIds(f) && rules.denyPeers && i < |f| && j < |f| && i != j
    requires SourceOf(f[i]) == Recorded && !Clean(f, rules.hub, i) && Replan(f, rules, i).Some?
    requires forall b :: b in Own(f[j]) ==> ClearOfFixed(b, rules.hub) && ClearButFor(f, j, i, b)
    ensures var g := Replan(f, rules, i).value;
      Own(g[i]) != Own(f[i]) && Clean(g, rules.hub, i) && g[j] == f[j] && Clean(g, rules.hub, j)
  {
    var g := Replan(f, rules, i).value;
    KeptExactlyWhenClean(f, rules, i);
    ReplanCleans(f, rules, i);
    ReplanIsClear(f, rules, i);
    forall b | b in Own(g[j]) ensures ClearOfPeers(g, j, b) {
      forall k | 0 <= k < |g| && k != j ensures Misses(b, Own(g[k])) {
        if k == i {
          MissesBack(f, g, i, j, b);
        }
      }
    }
  }

  lemma MissesBack(f: seq<Cluster>, g: seq<Cluster>, i: nat, j: nat, b: Block)
    requires i < |f| == |g| && j < |f| && i != j && b in Own(f[j])
    requires forall d :: d in Own(g[i]) ==> ClearOfPeers(f, i, d)
    ensures Misses(b, Own(g[i]))
  {
    forall d | d in Own(g[i]) ensures !Overlaps(b, d) {
      assert Misses(d, Own(f[j]));
    }
  }

  /** Clear of every peer but one. */
  ghost predicate ClearButFor(f: seq<Cluster>, j: nat, i: nat, b: Block) {
    forall k :: 0 <= k < |f| && k != j && k != i ==> Misses(b, Own(f[k]))
  }

  // The default pools, 100.64.0.0/11 in /14 blocks and 100.96.0.0/11 in /16 blocks.
  const CLUSTER_POOL: Pool := (ElevenBits(); Pool(Prefix(0x6440_0000, 11), 14))
  const SERVICE_POOL: Pool := (ElevenBits(); Pool(Prefix(0x6460_0000, 11), 16))

  lemma ElevenBits()
    ensures Size(11) == 0x20_0000 && Pow2(MAX_LEN) == 0x1_0000_0000 && Pow2(2) == 4 && Pow2(3) == 8 && Pow2(5) == 32
  {
    BlockSizes();
    assert Pow2(2) == 4 && Pow2(3) == 8;
    Pow2Plus(2, 3);
    Pow2Plus(3, 18);
    assert Size(14) == Pow2(18);
  }

  /** A cluster with HyperShift's own defaults as explicit CIDRs. */
  function ExplicitDefaults(name: string): Cluster {
    Cluster(("ns", name), ClusterSpec([LEGACY_CLUSTER], [LEGACY_SERVICE], true, CLUSTER_POOL, SERVICE_POOL), None)
  }

  const NO_HUB := Rules([], true)

  function TwoExplicit(): seq<Cluster> { [ExplicitDefaults("a"), ExplicitDefaults("b")] }

  /** Both clusters after the first round: the same explicit CIDRs, recorded. */
  function BothPublished(): seq<Cluster> {
    var net := Some(Networking([LEGACY_CLUSTER], [LEGACY_SERVICE], [], "explicit"));
    [ExplicitDefaults("a").(status := net), ExplicitDefaults("b").(status := net)]
  }

  lemma RunOfTwo(f: seq<Cluster>, rules: Rules, g: seq<Cluster>, h: seq<Cluster>)
    requires |f| == |g| == |h| == 2 && Replan(f, rules, 0) == Some(g) && Replan(g, rules, 1) == Some(h)
    ensures InRange([0, 1], |f|) && Run(f, rules, [0, 1]) == Some(h)
  {
    var order: seq<nat>, rest: seq<nat> := [0, 1], [1];
    assert order[1..] == rest && rest[1..] == [] && InRange(order, 2) && InRange(rest, 2);
    assert Run(h, rules, []) == Some(h);
    assert Run(g, rules, rest) == Run(h, rules, rest[1..]);
    assert Run(f, rules, order) == Run(g, rules, order[1..]);
  }

  lemma FirstRound()
    ensures Replan(TwoExplicit(), NO_HUB, 0) == Some(TwoExplicit()[0 := BothPublished()[0]])
    ensures Run(TwoExplicit(), NO_HUB, [0, 1]) == Some(BothPublished())
  {
    var f := TwoExplicit();
    var g := f[0 := BothPublished()[0]];
    assert Replan(f, NO_HUB, 0) == Some(g);
    assert g[1 := BothPublished()[1]] == BothPublished();
    assert Replan(g, NO_HUB, 1) == Some(BothPublished());
    RunOfTwo(f, NO_HUB, g, BothPublished());
  }

  /** What stands in the way of cluster a: 5 blocks, which spoil at most 5 of 8 and, with its own, 12 of 32. */
  function InTheWay(): seq<Block> {
    [OVN_JOIN] + ([OVN_TRANSIT] + ([OVN_MASQUERADE] + ([LEGACY_CLUSTER] + ([LEGACY_SERVICE] + []))))
  }

  lemma ObstaclesOfA()
    ensures Blocks(ObstaclesFor(BothPublished(), NO_HUB, ("ns", "a"))) == InTheWay()
  {
    var f, me := BothPublished(), ("ns", "a");
    assert f[..1] == [f[0]] && f[..1][..0] == [];
    assert PeerObstacles(f[..1], me) == [];
    var peers := PeerObstacles(f, me);
    assert peers == Tagged(("ns", "b"), Own(f[1]));
    assert Own(f[1]) == [LEGACY_CLUSTER] + [LEGACY_SERVICE];
    assert peers == [Peer(("ns", "b"), LEGACY_CLUSTER), Peer(("ns", "b"), LEGACY_SERVICE)];
  }

  lemma Weigh(len: nat)
    ensures TotalWeight(InTheWay(), len) == Weight(OVN_JOIN, len) + Weight(OVN_TRANSIT, len) + Weight(OVN_MASQUERADE, len)
                                            + Weight(LEGACY_CLUSTER, len) + Weight(LEGACY_SERVICE, len)
  {
    WeightOf(LEGACY_SERVICE, [], len);
    WeightOf(LEGACY_CLUSTER, [LEGACY_SERVICE] + [], len);
    WeightOf(OVN_MASQUERADE, [LEGACY_CLUSTER] + ([LEGACY_SERVICE] + []), len);
    WeightOf(OVN_TRANSIT, [OVN_MASQUERADE] + ([LEGACY_CLUSTER] + ([LEGACY_SERVICE] + [])), len);
    WeightOf(OVN_JOIN, [OVN_TRANSIT] + ([OVN_MASQUERADE] + ([LEGACY_CLUSTER] + ([LEGACY_SERVICE] + []))), len);
  }

  lemma RoomForA()
    ensures Replan(BothPublished(), NO_HUB, 0).Some?
  {
    var r := RequestFor(BothPublished(), NO_HUB, 0);
    ObstaclesOfA();
    ElevenBits();
    Weigh(14);
    Weigh(16);
    forall c: Block | InPool(r.clusterPool, c) ensures TotalWeight(InTheWay() + [c], 16) < 32 {
      WeightWith(InTheWay(), c, 16);
    }
    EnoughRoomToPlan(r);
  }

  lemma LegacyClearOfFixed()
    ensures forall b :: b in Own(BothPublished()[1]) ==> ClearOfFixed(b, NO_HUB.hub)
  {
    BlockSizes();
    assert Own(BothPublished()[1]) == [LEGACY_CLUSTER] + [LEGACY_SERVICE];
  }

  lemma BothClash()
    ensures var f := BothPublished(); DistinctIds(f) && !Clean(f, NO_HUB.hub, 0) && !Clean(f, NO_HUB.hub, 1)
  {
    var f := BothPublished();
    assert LEGACY_CLUSTER in Own(f[0]) && LEGACY_CLUSTER in Own(f[1]) && Overlaps(LEGACY_CLUSTER, LEGACY_CLUSTER);
    assert !Misses(LEGACY_CLUSTER, Own(f[0])) && !Misses(LEGACY_CLUSTER, Own(f[1]));
    assert !ClearOfPeers(f, 0, LEGACY_CLUSTER) && !ClearOfPeers(f, 1, LEGACY_CLUSTER);
  }

  /** Two recorded clusters that clash with each other only: a round moves the one replanned first. */
  lemma RoundMovesTheFirst(f: seq<Cluster>, rules: Rules)
    requires |f| == 2 && DistinctIds(f) && rules.denyPeers && SourceOf(f[0]) == Recorded && SourceOf(f[1]) == Recorded
    requires !Clean(f, rules.hub, 0) && Replan(f, rules, 0).Some?
    requires forall b :: b in Own(f[1]) ==> ClearOfFixed(b, rules.hub)
    ensures var twice := Run(f, rules, [0, 1]);
      InRange([0, 1], |f|) && twice.Some? && Own(twice.value[0]) != Own(f[0]) && Own(twice.value[1]) == Own(f[1])
  {
    FirstReplannedMoves(f, rules, 0, 1);
    var g := Replan(f, rules, 0).value;
    ReplanCleans(f, rules, 0);
    SecondStays(g, rules, f);
  }

  /**
   * Of two clusters with the same explicit CIDRs, the one that was there first, and clean, is the one
   * that moves in the second round; the one whose publication made both clash keeps the CIDRs.
   */
  lemma FirstComerMoves()
    ensures Replan(TwoExplicit(), NO_HUB, 0).Some? && Clean(Replan(TwoExplicit(), NO_HUB, 0).value, NO_HUB.hub, 0)
    ensures Run(TwoExplicit(), NO_HUB, [0, 1]) == Some(BothPublished())
    ensures !Clean(BothPublished(), NO_HUB.hub, 0) && !Clean(BothPublished(), NO_HUB.hub, 1)
    ensures var twice := Run(BothPublished(), NO_HUB, [0, 1]);
      twice.Some? && Own(twice.value[0]) != Own(BothPublished()[0]) && Own(twice.value[1]) == Own(BothPublished()[1])
  {
    FirstRound();
    AloneIsClean();
    BothClash();
    LegacyClearOfFixed();
    RoomForA();
    RoundMovesTheFirst(BothPublished(), NO_HUB);
  }

  lemma AloneIsClean()
    ensures var g := TwoExplicit()[0 := BothPublished()[0]]; Clean(g, NO_HUB.hub, 0)
  {
    var g := TwoExplicit()[0 := BothPublished()[0]];
    BlockSizes();
    assert Own(g[0]) == [LEGACY_CLUSTER] + [LEGACY_SERVICE] && Own(g[1]) == [];
  }

  lemma SecondStays(g: seq<Cluster>, rules: Rules, f: seq<Cluster>)
    requires |f| == |g| == 2 && rules.denyPeers && DistinctIds(g) && Replan(f, rules, 0) == Some(g)
    requires SourceOf(g[1]) == Recorded && Clean(g, rules.hub, 1)
    ensures var twice := Run(f, rules, [0, 1]);
      InRange([0, 1], |f|) && twice.Some? && Own(twice.value[1]) == Own(g[1]) && twice.value[0] == g[0]
  {
    KeptAgain(g, rules, 1);
    RunOfTwo(f, rules, g, Replan(g, rules, 1).value);
  }

  // ---------------------------------------------------------------- the published report

  /** The conflicts a run publishes with its plan. */
  function Report(f: seq<Cluster>, rules: Rules, i: nat): seq<Conflict>
    requires i < |f| && Replan(f, rules, i).Some?
  {
    PlanFor(RequestFor(f, rules, i)).plan.conflicts
  }

  /** Same clusters, same published blocks. */
  ghost predicate SameOwn(f: seq<Cluster>, g: seq<Cluster>) {
    |g| == |f| && forall k :: 0 <= k < |f| ==> g[k].id == f[k].id && Own(g[k]) == Own(f[k])
  }

  ghost predicate SameButFor(f: seq<Cluster>, g: seq<Cluster>, me: ClusterId) {
    |g| == |f| && forall k :: 0 <= k < |f| ==> g[k].id == f[k].id && (f[k].id != me ==> Own(g[k]) == Own(f[k]))
  }

  lemma SameFront(f: seq<Cluster>, g: seq<Cluster>, me: ClusterId)
    requires SameButFor(f, g, me) && f != []
    ensures var n := |f| - 1;
      SameButFor(f[..n], g[..n], me) && g[n].id == f[n].id && (f[n].id != me ==> Own(g[n]) == Own(f[n]))
  {
  }

  lemma {:induction false} SamePeers(f: seq<Cluster>, g: seq<Cluster>, me: ClusterId)
    requires SameButFor(f, g, me)
    ensures PeerObstacles(g, me) == PeerObstacles(f, me)
  {
    if f == [] {
    } else {
      var n := |f| - 1;
      SameFront(f, g, me);
      SamePeers(f[..n], g[..n], me);
    }
  }

  lemma PlannedConflicts(r: Request)
    requires PlanFor(r).Planned?
    ensures var plan := PlanFor(r).plan; plan.conflicts == Conflicts(plan.net.cluster + plan.net.service, r.obstacles)
  {
    match r.source
    case Recorded =>
    case Explicit =>
    case AllocateNew =>
    case LegacyDefault =>
  }

  lemma ReportOf(f: seq<Cluster>, rules: Rules, i: nat)
    requires i < |f| && Replan(f, rules, i).Some?
    ensures Report(f, rules, i) == Conflicts(Own(Replan(f, rules, i).value[i]), ObstaclesFor(f, rules, f[i].id))
  {
    PlannedConflicts(RequestFor(f, rules, i));
  }

  lemma SameAfterReplan(f: seq<Cluster>, rules: Rules, i: nat)
    requires DistinctIds(f) && i < |f| && Replan(f, rules, i).Some?
    ensures var g := Replan(f, rules, i).value;
      DistinctIds(g) && g[i].id == f[i].id && ObstaclesFor(g, rules, f[i].id) == ObstaclesFor(f, rules, f[i].id)
  {
    var g := Replan(f, rules, i).value;
    SamePeers(f, g, f[i].id);
  }

  /** Whatever the source: the published report is empty exactly when the published blocks are disjoint and clean. */
  lemma ReportExact(f: seq<Cluster>, rules: Rules, i: nat)
    requires DistinctIds(f) && i < |f| && rules.denyPeers && Replan(f, rules, i).Some?
    ensures var g := Replan(f, rules, i).value;
      Report(f, rules, i) == [] <==> PairwiseDisjoint(Own(g[i])) && Clean(g, rules.hub, i)
  {
    var g := Replan(f, rules, i).value;
    var own, os := Own(g[i]), ObstaclesFor(f, rules, f[i].id);
    ReportOf(f, rules, i);
    SameAfterReplan(f, rules, i);
    CleanMeansNoClash(g, rules, i);
    SelfOverlapsExact(own);
    ClashReportExact(own, os);
  }

  // ---------------------------------------------------------------- settled fleets

  lemma CleanSame(f: seq<Cluster>, g: seq<Cluster>, hub: seq<Block>, i: nat)
    requires SameOwn(f, g) && i < |f| && Clean(f, hub, i)
    ensures Clean(g, hub, i)
  {
    forall b | b in Own(g[i]) ensures ClearOfPeers(g, i, b) {
      assert b in Own(f[i]) && ClearOfPeers(f, i, b);
    }
  }

  /** A cluster whose own record did not change plans as before when nobody's published blocks did. */
  lemma SameReplan(f: seq<Cluster>, g: seq<Cluster>, rules: Rules, k: nat)
    requires SameOwn(f, g) && k < |f| && g[k] == f[k] && Replan(f, rules, k).Some?
    ensures Replan(g, rules, k).Some? && Own(Replan(g, rules, k).value[k]) == Own(Replan(f, rules, k).value[k])
  {
    SamePeers(f, g, f[k].id);
    assert RequestFor(g, rules, k) == RequestFor(f, rules, k);
  }

  lemma OtherSettled(f: seq<Cluster>, g: seq<Cluster>, rules: Rules, k: nat)
    requires SameOwn(f, g) && k < |f| && g[k] == f[k]
    requires Clean(f, rules.hub, k) && Replan(f, rules, k).Some? && Own(Replan(f, rules, k).value[k]) == Own(f[k])
    ensures Clean(g, rules.hub, k) && Replan(g, rules, k).Some? && Own(Replan(g, rules, k).value[k]) == Own(g[k])
  {
    CleanSame(f, g, rules.hub, k);
    SameReplan(f, g, rules, k);
  }

  lemma SettledKeepsBlocks(f: seq<Cluster>, rules: Rules, i: nat)
    requires DistinctIds(f) && Settled(f, rules) && i < |f| && Replan(f, rules, i).Some?
    ensures var g := Replan(f, rules, i).value; SameOwn(f, g) && DistinctIds(g)
  {
    var g := Replan(f, rules, i).value;
    ReplanRecords(f, rules, i);
    forall k | 0 <= k < |f| ensures g[k].id == f[k].id && Own(g[k]) == Own(f[k]) {}
  }

  lemma SettledStays(f: seq<Cluster>, rules: Rules, i: nat)
    requires DistinctIds(f) && rules.denyPeers && Settled(f, rules) && i < |f|
    ensures Replan(f, rules, i).Some?
    ensures var g := Replan(f, rules, i).value; SameOwn(f, g) && DistinctIds(g) && Settled(g, rules)
  {
    var g := Replan(f, rules, i).value;
    SettledKeepsBlocks(f, rules, i);
    ReplanRecords(f, rules, i);
    forall k | 0 <= k < |g| ensures Clean(g, rules.hub, k) && Replan(g, rules, k).Some? && Own(Replan(g, rules, k).value[k]) == Own(g[k]) {
      if k == i { CleanSame(f, g, rules.hub, i); KeptAgain(g, rules, i); } else { OtherSettled(f, g, rules, k); }
    }
  }

  /** A settled fleet stays settled, with the same blocks, over every further run. */
  lemma {:induction false} SettledForEver(f: seq<Cluster>, rules: Rules, order: seq<nat>)
    requires DistinctIds(f) && rules.denyPeers && Settled(f, rules) && InRange(order, |f|)
    ensures Run(f, rules, order).Some?
    ensures var g := Run(f, rules, order).value; SameOwn(f, g) && DistinctIds(g) && Settled(g, rules)
    decreases |order|
  {
    if order == [] {
    } else {
      InRangeTail(order, |f|);
      SettledStays(f, rules, order[0]);
      SettledForEver(Replan(f, rules, order[0]).value, rules, order[1..]);
    }
  }

  /**
   * After any further run of a settled fleet each cluster still reports exactly the overlaps among
   * its own blocks: nothing if they are pairwise disjoint, and otherwise the same conflicts for ever.
   */
  lemma SettledReportExact(f: seq<Cluster>, rules: Rules, order: seq<nat>, i: nat)
    requires DistinctIds(f) && rules.denyPeers && Settled(f, rules) && InRange(order, |f|) && i < |f|
    ensures Run(f, rules, order).Some? && Replan(Run(f, rules, order).value, rules, i).Some?
    ensures var report := Report(Run(f, rules, order).value, rules, i);
      report == SelfOverlaps(Own(f[i])) && (report == [] <==> PairwiseDisjoint(Own(f[i])))
  {
    SettledForEver(f, rules, order);
    var g := Run(f, rules, order).value;
    var os := ObstaclesFor(g, rules, g[i].id);
    ReportOf(g, rules, i);
    CleanMeansNoClash(g, rules, i);
    ClashReportExact(Own(g[i]), os);
    SelfOverlapsExact(Own(f[i]));
    assert SelfOverlaps(Own(f[i])) + [] == SelfOverlaps(Own(f[i]));
  }

  lemma OneSettled(f: seq<Cluster>, rules: Rules)
    requires |f| == 1 && Clean(f, rules.hub, 0) && Replan(f, rules, 0).Some? && Own(Replan(f, rules, 0).value[0]) == Own(f[0])
    ensures Settled(f, rules)
  {
    forall i | 0 <= i < |f| ensures Clean(f, rules.hub, i) && Replan(f, rules, i).Some? && Own(Replan(f, rules, i).value[i]) == Own(f[i]) {
      assert i == 0;
    }
  }

  /** One recorded cluster that uses a block twice is settled, and reports a conflict. */
  lemma SelfOverlapIsKept(spec: ClusterSpec)
    ensures var net := Networking([LEGACY_SERVICE], [LEGACY_SERVICE], [], "fabric-ipam");
      var f, rules := [Cluster(("ns", "a"), spec, Some(net))], Rules([], true);
      Settled(f, rules) && Report(f, rules, 0) != []
  {
    var net := Networking([LEGACY_SERVICE], [LEGACY_SERVICE], [], "fabric-ipam");
    var f, rules := [Cluster(("ns", "a"), spec, Some(net))], Rules([], true);
    BlockSizes();
    assert Clean(f, rules.hub, 0);
    KeptAgain(f, rules, 0);
    assert Own(f[0])[0] == Own(f[0])[1] == LEGACY_SERVICE && Overlaps(LEGACY_SERVICE, LEGACY_SERVICE);
    assert !PairwiseDisjoint(Own(f[0]));
    OneSettled(f, rules);
    assert Run(f, rules, []) == Some(f);
    SettledReportExact(f, rules, [], 0);
  }
}
