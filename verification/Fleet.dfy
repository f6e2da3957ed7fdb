/**
 * The fleet of hosted clusters as a state machine. A step replans one cluster against the CIDRs
 * its peers have published and publishes the result in its own status, conflicts or not
 * (platformopenshift_fabric_ipam.yml).
 */
module Fleet {
  import opened Prelude
  import opened Cidr
  import opened Allocation
  import opened ClusterIpam

  datatype ClusterSpec = ClusterSpec(explicitCluster: seq<Block>, explicitService: seq<Block>, allocate: bool,
                                     clusterPool: Pool, servicePool: Pool)

  datatype Cluster = Cluster(id: ClusterId, spec: ClusterSpec, status: Option<Networking>)

  /** What one play reads besides the clusters. */
  datatype Rules = Rules(hub: seq<Block>, denyPeers: bool)

  function Own(c: Cluster): seq<Block> {
    if c.status.Some? then c.status.value.cluster + c.status.value.service else []
  }

  // ---------------------------------------------------------------- what a cluster must stay clear of

  function ReservedObstacles(): seq<Obstacle> {
    [Reserved(OVN_JOIN), Reserved(OVN_TRANSIT), Reserved(OVN_MASQUERADE)]
  }

  function HubObstacles(hub: seq<Block>): seq<Obstacle> {
    seq(|hub|, i requires 0 <= i < |hub| => Hub(hub[i]))
  }

  function Tagged(id: ClusterId, own: seq<Block>): seq<Obstacle> {
    seq(|own|, i requires 0 <= i < |own| => Peer(id, own[i]))
  }

  /** The published CIDRs of every cluster but `me`. */
  function PeerObstacles(f: seq<Cluster>, me: ClusterId): seq<Obstacle> {
    if f == [] then []
    else
      var n := |f| - 1;
      PeerObstacles(f[..n], me) + if f[n].id == me then [] else Tagged(f[n].id, Own(f[n]))
  }

  function ObstaclesFor(f: seq<Cluster>, rules: Rules, me: ClusterId): seq<Obstacle> {
    ReservedObstacles() + HubObstacles(rules.hub) + if rules.denyPeers then PeerObstacles(f, me) else []
  }

  method ReadPeers(f: seq<Cluster>, me: ClusterId) returns (peers: seq<Obstacle>)
    ensures peers == PeerObstacles(f, me)
  {
    peers := [];
    for i := 0 to |f|
      invariant peers == PeerObstacles(f[..i], me)
    {
      assert f[..i + 1][..i] == f[..i];
      if f[i].id == me {
        continue;
      }
      peers := peers + Tagged(f[i].id, Own(f[i]));
    }
    assert f[..|f|] == f;
  }

  // ---------------------------------------------------------------- the step

  /** Which candidate the play hands to the planner. */
  function SourceOf(c: Cluster): Source {
    if c.status.Some? && c.status.value.cluster != [] && c.status.value.service != [] then Recorded
    else if c.spec.explicitCluster != [] && c.spec.explicitService != [] then Explicit
    else if c.spec.allocate then AllocateNew
    else LegacyDefault
  }

  function RequestFor(f: seq<Cluster>, rules: Rules, i: nat): Request
    requires i < |f|
  {
    var c := f[i];
    Request(SourceOf(c), c.status.GetOr(Networking([], [], [], "")), c.spec.explicitCluster, c.spec.explicitService,
            c.spec.clusterPool, c.spec.servicePool, ObstaclesFor(f, rules, c.id))
  }

  /** Replan cluster i and publish; None when the run fails and nothing is published. */
  function Replan(f: seq<Cluster>, rules: Rules, i: nat): (after: Option<seq<Cluster>>)
    requires i < |f|
    ensures after.Some? ==> |after.value| == |f|
  {
    match PlanFor(RequestFor(f, rules, i))
    case Failed => None
    case Planned(plan) => Some(f[i := f[i].(status := Some(plan.net))])
  }

  method ReplanCluster(f: seq<Cluster>, rules: Rules, i: nat) returns (after: Option<seq<Cluster>>)
    requires i < |f|
    ensures after == Replan(f, rules, i)
  {
    var c := f[i];
    var obstacles := ReservedObstacles() + HubObstacles(rules.hub);
    if rules.denyPeers {
      var peers := ReadPeers(f, c.id);
      obstacles := obstacles + peers;
    }
    assert obstacles == ObstaclesFor(f, rules, c.id);
    var out := PlanCidrs(Request(SourceOf(c), c.status.GetOr(Networking([], [], [], "")), c.spec.explicitCluster,
                                 c.spec.explicitService, c.spec.clusterPool, c.spec.servicePool, obstacles));
    match out
    case Failed => after := None;
    case Planned(plan) => after := Some(f[i := c.(status := Some(plan.net))]);
  }

  // ---------------------------------------------------------------- clean clusters

  ghost predicate DistinctIds(f: seq<Cluster>) {
    forall i, j :: 0 <= i < j < |f| ==> f[i].id != f[j].id
  }

  predicate ClearOfFixed(b: Block, hub: seq<Block>) {
    !Overlaps(b, OVN_JOIN) && !Overlaps(b, OVN_TRANSIT) && !Overlaps(b, OVN_MASQUERADE) && Misses(b, hub)
  }

  ghost predicate ClearOfPeers(f: seq<Cluster>, i: nat, b: Block) {
    forall j :: 0 <= j < |f| && j != i ==> Misses(b, Own(f[j]))
  }

  /** No published block of cluster i overlaps a reserved, hub or peer block. */
  ghost predicate Clean(f: seq<Cluster>, hub: seq<Block>, i: nat)
    requires i < |f|
  {
    forall b :: b in Own(f[i]) ==> ClearOfFixed(b, hub) && ClearOfPeers(f, i, b)
  }

  predicate PublishedBy(c: Cluster, me: ClusterId, o: Obstacle) {
    c.id != me && o.Peer? && o.tag == c.id && o.block in Own(c)
  }

  lemma TaggedExact(id: ClusterId, own: seq<Block>, o: Obstacle)
    ensures o in Tagged(id, own) <==> o.Peer? && o.tag == id && o.block in own
  {
    if o.Peer? && o.tag == id && o.block in own {
      var k :| 0 <= k < |own| && own[k] == o.block;
      assert Tagged(id, own)[k] == o;
    }
  }

  lemma PeerObstaclesStep(front: seq<Cluster>, c: Cluster, me: ClusterId, o: Obstacle)
    ensures o in PeerObstacles(front + [c], me) <==> o in PeerObstacles(front, me) || PublishedBy(c, me, o)
  {
    assert (front + [c])[..|front|] == front;
    TaggedExact(c.id, Own(c), o);
  }

  lemma {:induction false} PeerObstaclesExact(f: seq<Cluster>, me: ClusterId, o: Obstacle)
    ensures o in PeerObstacles(f, me) <==> exists c :: c in f && PublishedBy(c, me, o)
  {
    if f == [] {
    } else {
      var front, last := f[..|f| - 1], f[|f| - 1];
      assert f == front + [last];
      PeerObstaclesExact(front, me, o);
      PeerObstaclesStep(front, last, me, o);
    }
  }

  lemma MissesBlocks(b: Block, os: seq<Obstacle>)
    ensures Misses(b, Blocks(os)) <==> forall o :: o in os ==> !Overlaps(b, o.block)
  {
    forall o | o in os ensures o.block in Blocks(os) {
      var k :| 0 <= k < |os| && os[k] == o;
      assert Blocks(os)[k] == o.block;
    }
    forall h | h in Blocks(os) ensures exists o :: o in os && o.block == h {
      var k :| 0 <= k < |os| && Blocks(os)[k] == h;
      assert os[k] in os;
    }
  }

  /** Under peer denial, missing every obstacle is exactly being clear of everything. */
  lemma ObstaclesExact(f: seq<Cluster>, rules: Rules, i: nat, b: Block)
    requires DistinctIds(f) && i < |f| && rules.denyPeers
    ensures Misses(b, Blocks(ObstaclesFor(f, rules, f[i].id))) <==> ClearOfFixed(b, rules.hub) && ClearOfPeers(f, i, b)
  {
    var fixed, hub, peers := ReservedObstacles(), HubObstacles(rules.hub), PeerObstacles(f, f[i].id);
    MissesBlocks(b, fixed + hub + peers);
    MissesReserved(b);
    MissesHub(b, rules.hub);
    MissesPeers(f, i, b);
    assert forall o :: o in fixed + hub + peers <==> o in fixed || o in hub || o in peers;
  }

  lemma MissesReserved(b: Block)
    ensures
      (!Overlaps(b, OVN_JOIN) && !Overlaps(b, OVN_TRANSIT) && !Overlaps(b, OVN_MASQUERADE)) <==>
      forall o :: o in ReservedObstacles() ==> !Overlaps(b, o.block)
  {
    var fixed := ReservedObstacles();
    assert fixed[0] in fixed && fixed[1] in fixed && fixed[2] in fixed;
  }

  lemma MissesHub(b: Block, hub: seq<Block>)
    ensures Misses(b, hub) <==> forall o :: o in HubObstacles(hub) ==> !Overlaps(b, o.block)
  {
    assert Blocks(HubObstacles(hub)) == hub;
    MissesBlocks(b, HubObstacles(hub));
  }

  lemma MissesPeers(f: seq<Cluster>, i: nat, b: Block)
    requires DistinctIds(f) && i < |f|
    ensures ClearOfPeers(f, i, b) <==> forall o :: o in PeerObstacles(f, f[i].id) ==> !Overlaps(b, o.block)
  {
    var peers := PeerObstacles(f, f[i].id);
    if ClearOfPeers(f, i, b) {
      forall o | o in peers ensures !Overlaps(b, o.block) {
        PeerObstaclesExact(f, f[i].id, o);
        var c :| c in f && PublishedBy(c, f[i].id, o);
        var j :| 0 <= j < |f| && f[j] == c;
      }
    }
    if forall o :: o in peers ==> !Overlaps(b, o.block) {
      forall j, d | 0 <= j < |f| && j != i && d in Own(f[j]) ensures !Overlaps(b, d) {
        assert f[j] in f && PublishedBy(f[j], f[i].id, Peer(f[j].id, d));
        PeerObstaclesExact(f, f[i].id, Peer(f[j].id, d));
      }
    }
  }

  // ---------------------------------------------------------------- one step

  /** A cluster whose next run keeps or allocates; explicit and default CIDRs are published unchecked. */
  predicate Managed(c: Cluster) {
    SourceOf(c) == Recorded || SourceOf(c) == AllocateNew
  }

  lemma CleanMeansNoClash(f: seq<Cluster>, rules: Rules, i: nat)
    requires DistinctIds(f) && i < |f| && rules.denyPeers
    ensures Clean(f, rules.hub, i) <==> !AnyClash(Own(f[i]), ObstaclesFor(f, rules, f[i].id))
  {
    var os := ObstaclesFor(f, rules, f[i].id);
    MissesMeansNoClash(Own(f[i]), os);
    forall b ensures Misses(b, Blocks(os)) <==> ClearOfFixed(b, rules.hub) && ClearOfPeers(f, i, b) {
      ObstaclesExact(f, rules, i, b);
    }
  }

  /** A recorded cluster gets the same blocks back exactly when it is clean. */
  lemma KeptExactlyWhenClean(f: seq<Cluster>, rules: Rules, i: nat)
    requires DistinctIds(f) && i < |f| && rules.denyPeers
    requires SourceOf(f[i]) == Recorded && Replan(f, rules, i).Some?
    ensures Own(Replan(f, rules, i).value[i]) == Own(f[i]) <==> Clean(f, rules.hub, i)
  {
    CleanMeansNoClash(f, rules, i);
    if !Clean(f, rules.hub, i) {
      ReplanIsClear(f, rules, i);
    }
  }

  /** The blocks a managed cluster publishes are clear of reserved, hub and all peers. */
  lemma ReplanIsClear(f: seq<Cluster>, rules: Rules, i: nat)
    requires DistinctIds(f) && i < |f| && rules.denyPeers
    requires Managed(f[i]) && Replan(f, rules, i).Some?
    ensures forall b :: b in Own(Replan(f, rules, i).value[i]) ==> ClearOfFixed(b, rules.hub) && ClearOfPeers(f, i, b)
  {
    var after := Own(Replan(f, rules, i).value[i]);
    ManagedMisses(f, rules, i);
    forall b | b in after ensures ClearOfFixed(b, rules.hub) && ClearOfPeers(f, i, b) {
      ObstaclesExact(f, rules, i, b);
    }
  }

  /** A managed cluster publishes what it recorded, if nothing in that clashes, or else a fresh pair. */
  lemma ManagedPublishes(f: seq<Cluster>, rules: Rules, i: nat)
    requires i < |f| && Managed(f[i]) && Replan(f, rules, i).Some?
    ensures var r, after := RequestFor(f, rules, i), Own(Replan(f, rules, i).value[i]);
      || (after == Own(f[i]) && !AnyClash(after, r.obstacles))
      || (Fresh(r).Some? && after == [Fresh(r).value.0] + [Fresh(r).value.1])
  {
  }

  lemma ManagedMisses(f: seq<Cluster>, rules: Rules, i: nat)
    requires i < |f| && Managed(f[i]) && Replan(f, rules, i).Some?
    ensures forall b :: b in Own(Replan(f, rules, i).value[i]) ==> Misses(b, Blocks(ObstaclesFor(f, rules, f[i].id)))
  {
    var r, after := RequestFor(f, rules, i), Own(Replan(f, rules, i).value[i]);
    ManagedPublishes(f, rules, i);
    if !AnyClash(after, r.obstacles) {
      MissesMeansNoClash(after, r.obstacles);
    } else {
      FreshPairMisses(r);
    }
  }

  lemma FreshPairMisses(r: Request)
    requires Fresh(r).Some?
    ensures forall b :: b in [Fresh(r).value.0] + [Fresh(r).value.1] ==> Misses(b, Blocks(r.obstacles))
  {
    FreshIsClear(r);
  }

  /**
   * One replan leaves the cluster clean, touches no other cluster and creates no new clash for
   * anyone: every cluster that was clean still is.
   */
  lemma ReplanCleans(f: seq<Cluster>, rules: Rules, i: nat)
    requires DistinctIds(f) && i < |f| && rules.denyPeers
    requires Managed(f[i]) && Replan(f, rules, i).Some?
    ensures var g := Replan(f, rules, i).value;
      && |g| == |f| && DistinctIds(g) && g[i].spec == f[i].spec && SourceOf(g[i]) == Recorded
      && (forall j :: 0 <= j < |f| && j != i ==> g[j] == f[j])
      && Clean(g, rules.hub, i)
      && (forall j :: 0 <= j < |f| && Clean(f, rules.hub, j) ==> Clean(g, rules.hub, j))
  {
    var g := Replan(f, rules, i).value;
    ReplanIsClear(f, rules, i);
    forall b | b in Own(g[i]) ensures ClearOfPeers(g, i, b) {
      forall j | 0 <= j < |g| && j != i ensures Misses(b, Own(g[j])) {
        assert g[j] == f[j];
      }
    }
    forall j | 0 <= j < |f| && Clean(f, rules.hub, j) ensures Clean(g, rules.hub, j) {
      if j != i { OthersStayClean(f, g, rules.hub, i, j); }
    }
  }

  lemma OthersStayClean(f: seq<Cluster>, g: seq<Cluster>, hub: seq<Block>, i: nat, j: nat)
    requires i < |f| == |g| && j < |f| && j != i
    requires forall k :: 0 <= k < |f| && k != i ==> g[k] == f[k]
    requires forall b :: b in Own(g[i]) ==> ClearOfPeers(f, i, b)
    requires Clean(f, hub, j)
    ensures Clean(g, hub, j)
  {
    forall b | b in Own(g[j]) ensures ClearOfPeers(g, j, b) {
      forall k | 0 <= k < |g| && k != j ensures Misses(b, Own(g[k])) {
        if k == i {
          forall d | d in Own(g[i]) ensures !Overlaps(b, d) {
            assert ClearOfPeers(f, i, d) && Misses(d, Own(f[j]));
          }
        } else {
          assert Misses(b, Own(f[k]));
        }
      }
    }
  }

  ghost function Clashing(f: seq<Cluster>, hub: seq<Block>): set<nat> {
    set i: nat | i < |f| && !Clean(f, hub, i)
  }

  /** Replanning a clashing cluster strictly lowers the number of clashing clusters. */
  lemma ReplanLowersClashing(f: seq<Cluster>, rules: Rules, i: nat)
    requires DistinctIds(f) && i < |f| && rules.denyPeers
    requires Managed(f[i]) && Replan(f, rules, i).Some?
    requires !Clean(f, rules.hub, i)
    ensures |Clashing(Replan(f, rules, i).value, rules.hub)| < |Clashing(f, rules.hub)|
  {
    ReplanCleans(f, rules, i);
    var g := Replan(f, rules, i).value;
    assert Clashing(g, rules.hub) <= Clashing(f, rules.hub) - {i};
    SubsetSize(Clashing(g, rules.hub), Clashing(f, rules.hub) - {i});
  }

  // ---------------------------------------------------------------- whole runs

  predicate InRange(order: seq<nat>, n: nat) {
    forall k :: 0 <= k < |order| ==> order[k] < n
  }

  lemma InRangeTail(order: seq<nat>, n: nat)
    requires InRange(order, n) && order != []
    ensures InRange(order[1..], n)
  {
  }

  /** Every cluster has its turn, in any order, possibly more than once. */
  ghost predicate FullRound(order: seq<nat>, n: nat) {
    InRange(order, n) && forall i: nat :: i < n ==> i in order
  }

  /** Replans in this order; None as soon as a run fails. */
  function Run(f: seq<Cluster>, rules: Rules, order: seq<nat>): (after: Option<seq<Cluster>>)
    requires InRange(order, |f|)
    ensures after.Some? ==> |after.value| == |f|
    decreases |order|
  {
    if order == [] then Some(f)
    else
      var g := Replan(f, rules, order[0]);
      InRangeTail(order, |f|);
      if g.None? then None else Run(g.value, rules, order[1..])
  }

  ghost predicate AllManaged(f: seq<Cluster>) {
    forall i :: 0 <= i < |f| ==> Managed(f[i])
  }

  /** A successful run starts with a successful replan. */
  lemma FirstOfRun(f: seq<Cluster>, rules: Rules, order: seq<nat>)
    requires order != [] && InRange(order, |f|) && Run(f, rules, order).Some?
    ensures Replan(f, rules, order[0]).Some? && InRange(order[1..], |f|)
    ensures Run(f, rules, order) == Run(Replan(f, rules, order[0]).value, rules, order[1..])
    ensures forall j :: j in order ==> j == order[0] || j in order[1..]
  {
    InRangeTail(order, |f|);
    FirstOrRest(order);
  }

  lemma FirstOrRest<T>(xs: seq<T>)
    requires xs != []
    ensures forall x :: x in xs ==> x == xs[0] || x in xs[1..]
  {
    assert xs == [xs[0]] + xs[1..];
  }

  /** The clusters stay managed and recorded, and the clean ones clean. */
  ghost predicate Improves(f: seq<Cluster>, g: seq<Cluster>, hub: seq<Block>) {
    && |g| == |f| && DistinctIds(g) && AllManaged(g)
    && (forall j :: 0 <= j < |f| && Clean(f, hub, j) ==> Clean(g, hub, j))
    && (forall j :: 0 <= j < |f| && SourceOf(f[j]) == Recorded ==> SourceOf(g[j]) == Recorded)
  }

  ghost predicate CleanRecorded(f: seq<Cluster>, hub: seq<Block>, j: nat) {
    j < |f| && Clean(f, hub, j) && SourceOf(f[j]) == Recorded
  }

  lemma ReplanImproves(f: seq<Cluster>, rules: Rules, i: nat)
    requires DistinctIds(f) && rules.denyPeers && AllManaged(f) && i < |f| && Replan(f, rules, i).Some?
    ensures var g := Replan(f, rules, i).value; Improves(f, g, rules.hub) && CleanRecorded(g, rules.hub, i)
  {
    ReplanCleans(f, rules, i);
  }

  lemma ImprovesTwice(f: seq<Cluster>, g: seq<Cluster>, h: seq<Cluster>, hub: seq<Block>)
    requires Improves(f, g, hub) && Improves(g, h, hub)
    ensures Improves(f, h, hub)
    ensures forall j: nat :: CleanRecorded(g, hub, j) ==> CleanRecorded(h, hub, j)
  {
  }

  /** Over any successful run, in any order with any repetitions, a replanned cluster is and stays clean. */
  lemma {:induction false} RunCleans(f: seq<Cluster>, rules: Rules, order: seq<nat>)
    requires DistinctIds(f) && rules.denyPeers && AllManaged(f)
    requires InRange(order, |f|)
    requires Run(f, rules, order).Some?
    ensures var g := Run(f, rules, order).value;
      Improves(f, g, rules.hub) && forall j :: j in order ==> CleanRecorded(g, rules.hub, j)
    decreases |order|
  {
    if order == [] {
    } else {
      FirstOfRun(f, rules, order);
      var g := Replan(f, rules, order[0]).value;
      ReplanImproves(f, rules, order[0]);
      RunCleans(g, rules, order[1..]);
      ImprovesTwice(f, g, Run(g, rules, order[1..]).value, rules.hub);
    }
  }

  /** Nothing clashes, and replanning anything changes no published block. */
  ghost predicate Settled(f: seq<Cluster>, rules: Rules) {
    forall i :: 0 <= i < |f| ==>
      Clean(f, rules.hub, i) && Replan(f, rules, i).Some? && Own(Replan(f, rules, i).value[i]) == Own(f[i])
  }

  /** A clean recorded cluster gets its blocks back. */
  lemma KeptAgain(g: seq<Cluster>, rules: Rules, i: nat)
    requires DistinctIds(g) && i < |g| && rules.denyPeers && SourceOf(g[i]) == Recorded && Clean(g, rules.hub, i)
    ensures Replan(g, rules, i).Some? && Own(Replan(g, rules, i).value[i]) == Own(g[i])
  {
    CleanMeansNoClash(g, rules, i);
  }

  lemma AllCleanSettled(g: seq<Cluster>, rules: Rules)
    requires DistinctIds(g) && rules.denyPeers && forall i: nat :: i < |g| ==> CleanRecorded(g, rules.hub, i)
    ensures Settled(g, rules)
  {
    forall i | 0 <= i < |g| ensures Clean(g, rules.hub, i) && Replan(g, rules, i).Some? && Own(Replan(g, rules, i).value[i]) == Own(g[i]) {
      assert CleanRecorded(g, rules.hub, i);
      KeptAgain(g, rules, i);
    }
  }

  /** One full round over managed clusters, no pool exhausted, reaches a clash-free fixed point. */
  lemma RoundSettles(f: seq<Cluster>, rules: Rules, order: seq<nat>)
    requires DistinctIds(f) && rules.denyPeers && AllManaged(f)
    requires FullRound(order, |f|)
    requires Run(f, rules, order).Some?
    ensures Settled(Run(f, rules, order).value, rules)
  {
    RunCleans(f, rules, order);
    AllCleanSettled(Run(f, rules, order).value, rules);
  }

  lemma ReplanRecords(f: seq<Cluster>, rules: Rules, i: nat)
    requires i < |f| && Replan(f, rules, i).Some?
    ensures var g := Replan(f, rules, i).value;
      && SourceOf(g[i]) == Recorded && g[i].id == f[i].id
      && (forall j :: 0 <= j < |f| && j != i ==> g[j] == f[j])
  {
  }

  /** The same clusters, the recorded ones still recorded. */
  ghost predicate Records(f: seq<Cluster>, g: seq<Cluster>) {
    && |g| == |f| && (forall j :: 0 <= j < |f| ==> g[j].id == f[j].id)
    && (forall j :: 0 <= j < |f| && SourceOf(f[j]) == Recorded ==> SourceOf(g[j]) == Recorded)
  }

  /** Whatever its source, a cluster that has been replanned once is recorded from then on. */
  lemma {:induction false} RunRecords(f: seq<Cluster>, rules: Rules, order: seq<nat>)
    requires InRange(order, |f|)
    requires Run(f, rules, order).Some?
    ensures var g := Run(f, rules, order).value;
      Records(f, g) && forall j :: j in order ==> SourceOf(g[j]) == Recorded
    decreases |order|
  {
    if order == [] {
    } else {
      FirstOfRun(f, rules, order);
      ReplanRecords(f, rules, order[0]);
      var g := Replan(f, rules, order[0]).value;
      RunRecords(g, rules, order[1..]);
      RecordsTwice(f, g, Run(g, rules, order[1..]).value);
    }
  }

  lemma RecordsTwice(f: seq<Cluster>, g: seq<Cluster>, h: seq<Cluster>)
    requires Records(f, g) && Records(g, h)
    ensures Records(f, h)
  {
  }

  /**
   * From any state, explicit and default clusters included, two full rounds with no pool exhausted
   * reach a clash-free fixed point.
   */
  lemma TwoRoundsSettle(f: seq<Cluster>, rules: Rules, first: seq<nat>, second: seq<nat>)
    requires DistinctIds(f) && rules.denyPeers
    requires FullRound(first, |f|) && FullRound(second, |f|)
    requires Run(f, rules, first).Some?
    requires Run(Run(f, rules, first).value, rules, second).Some?
    ensures Settled(Run(Run(f, rules, first).value, rules, second).value, rules)
  {
    RunRecords(f, rules, first);
    RoundSettles(Run(f, rules, first).value, rules, second);
  }
}
