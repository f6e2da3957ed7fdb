/**
 * openstack_edpm_evpn.yml and openstack_edpm_nodeset.yml: the loop that rolls the fabric out to one
 * NodeSet after the other. Each turn writes the list of NodeSets it still holds from the turn before
 * to the planner's input file, and only then lists the NodeSets anew: the first turn hands the planner
 * an empty list, every later one the list from before the previous patch.
 */
module NodeSetPlay {
  import opened Prelude
  import opened Numerals
  import opened JsonMerge
  import opened NetConfigPatch
  import opened NodeSetPatch
  import opened NodeSetTheorems
  import opened NodeSetAddresses
  import opened NodeSetRuns

  // ---------------------------------------------------------------- one run, handed any list

  /** The addresses a run that is handed `seen` gives out: known before the run. */
  ghost function Handed(p: Params, ns: Json, seen: seq<Json>): set<nat>
    requires ValidParams(p)
  {
    LeastFree(p, Taken(p, ns, seen), |NewNodes(p, ns)|)
  }

  ghost predicate IsHanded(p: Params, ns: Json, seen: seq<Json>, ip: string)
    requires ValidParams(p)
  {
    AllocFits(p);
    exists a: nat :: a in Handed(p, ns, seen) && Dotted(a) == ip
  }

  lemma GivenIsHanded(p: Params, ns: Json, seen: seq<Json>, ip: string)
    requires ValidParams(p) && NodesResult(p, ns, seen).Some?
    ensures GivenTo(p, Nodes(ns), NodesResult(p, ns, seen).value.ips, SortedNames(Keys(Nodes(ns))), ip) <==> IsHanded(p, ns, seen, ip)
  {
    var names, ips := SortedNames(Keys(Nodes(ns))), NodesResult(p, ns, seen).value.ips;
    AllocFits(p);
    if GivenTo(p, Nodes(ns), ips, names, ip) {
      FreshAddresses(p, ns, seen);
      var n :| n in names && n in ips && IsNew(p, Nodes(ns), n) && ips[n] == ip;
      var a: nat :| AllocStart(p) <= a <= AllocEnd(p) && ip == Dotted(a);
      HandsOutLeast(p, ns, seen, a);
    }
    if a: nat :| a in Handed(p, ns, seen) && Dotted(a) == ip {
      HandsOutLeast(p, ns, seen, a);
    }
  }

  lemma InNewBag(p: Params, nodes: Json, ips: map<string, string>, names: seq<string>, ip: string)
    requires forall n :: n in names ==> n in ips
    ensures ip in NewBag(p, nodes, ips, names) <==> GivenTo(p, nodes, ips, names, ip)
  {
    NewBagMembers(p, nodes, ips, names, ip);
    if n :| n in names && n in ips && IsNew(p, nodes, n) && ips[n] == ip {
      NewBagHolds(p, nodes, ips, names, n);
    }
  }

  /** Patching adds each address handed out once, and changes nothing else about who holds what. */
  lemma StaleRunAdds(p: Params, netconfig: Json, all: seq<Json>, i: nat, seen: seq<Json>, ip: string)
    requires ValidParams(p) && i < |all| && PlanNodeSet(p, netconfig, all[i], seen).Some?
    ensures FleetBag(p, all[i := Patched(all[i], PlanNodeSet(p, netconfig, all[i], seen).value)])[ip] ==
      FleetBag(p, all)[ip] + if IsHanded(p, all[i], seen, ip) then 1 else 0
  {
    var ns, plan := all[i], PlanNodeSet(p, netconfig, all[i], seen).value;
    RolloutAdds(p, netconfig, all, i, seen, ip);
    GivenIsHanded(p, ns, seen, ip);
    NewOnce(p, ns, seen, ip);
    InNewBag(p, Nodes(ns), plan.ips, SortedNames(Keys(Nodes(ns))), ip);
  }

  lemma BagGrowth(before: multiset<string>, after: multiset<string>, handed: string -> bool)
    requires forall ip :: before[ip] <= 1
    requires forall ip :: after[ip] == before[ip] + if handed(ip) then 1 else 0
    ensures (forall ip :: after[ip] <= 1) <==> forall ip :: handed(ip) ==> ip !in before
  {
    if forall ip :: after[ip] <= 1 {
      forall ip | handed(ip) ensures ip !in before { assert after[ip] <= 1; }
    }
  }

  /** None of the addresses the run will give out is held by a NodeSet now. */
  ghost predicate Unheld(p: Params, all: seq<Json>, ns: Json, seen: seq<Json>)
    requires ValidParams(p)
  {
    forall ip :: IsHanded(p, ns, seen, ip) ==> ip !in FleetBag(p, all)
  }

  /**
   * Whatever list a run is handed, distinct fabric IPs stay distinct exactly when no NodeSet holds one of
   * the least addresses that are free by that list, as many as nodes need one.
   */
  lemma StaleRunKeepsDistinctExact(p: Params, netconfig: Json, all: seq<Json>, i: nat, seen: seq<Json>)
    requires ValidParams(p) && i < |all| && PlanNodeSet(p, netconfig, all[i], seen).Some?
    requires GloballyDistinct(p, all)
    ensures GloballyDistinct(p, all[i := Patched(all[i], PlanNodeSet(p, netconfig, all[i], seen).value)]) <==>
      Unheld(p, all, all[i], seen)
  {
    var after := all[i := Patched(all[i], PlanNodeSet(p, netconfig, all[i], seen).value)];
    forall ip ensures FleetBag(p, after)[ip] == FleetBag(p, all)[ip] + if IsHanded(p, all[i], seen, ip) then 1 else 0 {
      StaleRunAdds(p, netconfig, all, i, seen, ip);
    }
    BagGrowth(FleetBag(p, all), FleetBag(p, after), ip => IsHanded(p, all[i], seen, ip));
  }

  // ---------------------------------------------------------------- the play

  /** A turn that fails before its patch is applied, or one whose deployment ends well or not. */
  datatype Fate = Interrupted | Deployed(ready: bool)

  /** One turn: a position among the NodeSets (past the end: not found), its interface, and how it goes. */
  datatype Visit = Visit(i: nat, iface: string, fate: Fate)

  /** `Finished` is Converged or Ready. */
  datatype Outcome = Finished | Failed | NotAttempted

  /** The NodeSets, the list registered by the last turn, and the results so far. */
  datatype Play = Play(all: seq<Json>, seen: seq<Json>, results: seq<Outcome>, failures: nat)

  function Begin(all: seq<Json>): Play { Play(all, [], [], 0) }

  function PlanOf(p: Params, netconfig: Json, play: Play, v: Visit): Option<NodePlan>
    requires ValidParams(p)
  {
    if v.i < |play.all| then PlanNodeSet(p.(iface := v.iface), netconfig, play.all[v.i], play.seen) else None
  }

  /** The NodeSets after the turn's patch, if it gets that far. */
  function PatchedList(p: Params, netconfig: Json, play: Play, v: Visit): Option<seq<Json>>
    requires ValidParams(p)
  {
    var plan := PlanOf(p, netconfig, play, v);
    if plan.Some? && v.fate.Deployed? then Some(play.all[v.i := Patched(play.all[v.i], plan.value)]) else None
  }

  /** The turn patches its NodeSet. */
  predicate Patches(p: Params, netconfig: Json, max: nat, play: Play, v: Visit)
    requires ValidParams(p)
  {
    play.failures <= max && PatchedList(p, netconfig, play, v).Some?
  }

  function Turn(p: Params, netconfig: Json, max: nat, play: Play, v: Visit): Play
    requires ValidParams(p)
  {
    if play.failures > max then play.(results := play.results + [NotAttempted])
    else TurnWith(play, PatchedList(p, netconfig, play, v), v)
  }

  function TurnWith(play: Play, patched: Option<seq<Json>>, v: Visit): Play
    requires patched.Some? ==> v.fate.Deployed?
  {
    if patched.Some? && v.fate.ready then Play(patched.value, play.all, play.results + [Finished], play.failures)
    else Play(patched.GetOr(play.all), play.all, play.results + [Failed], play.failures + 1)
  }

  function PlayAfter(p: Params, netconfig: Json, max: nat, all: seq<Json>, visits: seq<Visit>): Play
    requires ValidParams(p)
    decreases |visits|
  {
    if visits == [] then Begin(all)
    else Turn(p, netconfig, max, PlayAfter(p, netconfig, max, all, visits[..|visits| - 1]), visits[|visits| - 1])
  }

  /** Run the planner with the list the turn was handed. */
  method PlanTurn(p: Params, netconfig: Json, play: Play, v: Visit) returns (plan: Option<NodePlan>)
    requires ValidParams(p)
    ensures plan == PlanOf(p, netconfig, play, v)
  {
    plan := None;
    if v.i < |play.all| {
      var q := p.(iface := v.iface);
      var computed, _ := ComputeNodeSet(q, netconfig, play.all[v.i], play.seen);
      plan := computed;
    }
  }

  /** Plan with the list the turn was handed, and patch unless something fails first. */
  method PatchOne(p: Params, netconfig: Json, play: Play, v: Visit) returns (patched: Option<seq<Json>>)
    requires ValidParams(p)
    ensures patched == PatchedList(p, netconfig, play, v)
  {
    patched := None;
    if v.fate.Deployed? {
      var plan := PlanTurn(p, netconfig, play, v);
      if plan.Some? {
        patched := Some(play.all[v.i := Patched(play.all[v.i], plan.value)]);
      }
    }
  }

  /** The list registered before planning, and the result of the turn. */
  method Record(play: Play, patched: Option<seq<Json>>, v: Visit) returns (after: Play)
    requires patched.Some? ==> v.fate.Deployed?
    ensures after == TurnWith(play, patched, v)
  {
    after := play.(seen := play.all, all := patched.GetOr(play.all));
    if patched.Some? && v.fate.ready {
      after := after.(results := after.results + [Finished]);
    } else {
      after := after.(results := after.results + [Failed], failures := after.failures + 1);
    }
  }

  /** One turn, openstack_edpm_nodeset.yml. */
  method TakeTurn(p: Params, netconfig: Json, max: nat, play: Play, v: Visit) returns (after: Play)
    requires ValidParams(p)
    ensures after == Turn(p, netconfig, max, play, v)
  {
    if play.failures > max {
      return play.(results := play.results + [NotAttempted]);
    }
    var patched := PatchOne(p, netconfig, play, v);
    after := Record(play, patched, v);
  }

  lemma PlayNext(p: Params, netconfig: Json, max: nat, all: seq<Json>, visits: seq<Visit>, k: nat)
    requires ValidParams(p) && k < |visits|
    ensures PlayAfter(p, netconfig, max, all, visits[..k + 1]) ==
      Turn(p, netconfig, max, PlayAfter(p, netconfig, max, all, visits[..k]), visits[k])
  {
    assert visits[..k + 1][..k] == visits[..k];
  }

  /** The loop of the play. */
  method RollOut(p: Params, netconfig: Json, max: nat, all: seq<Json>, visits: seq<Visit>) returns (play: Play)
    requires ValidParams(p)
    ensures play == PlayAfter(p, netconfig, max, all, visits)
  {
    play := Begin(all);
    for k := 0 to |visits|
      invariant play == PlayAfter(p, netconfig, max, all, visits[..k])
    {
      PlayNext(p, netconfig, max, all, visits, k);
      play := TakeTurn(p, netconfig, max, play, visits[k]);
    }
    assert visits[..|visits|] == visits;
  }

  // ---------------------------------------------------------------- the turns and their results

  /** The plan of a turn: with the turn's own interface, and the list it was handed. */
  ghost predicate Plans(p: Params, netconfig: Json, play: Play, v: Visit, plan: NodePlan)
    requires ValidParams(p)
  {
    v.i < |play.all| && PlanNodeSet(p.(iface := v.iface), netconfig, play.all[v.i], play.seen) == Some(plan)
  }

  lemma PlannedExact(p: Params, netconfig: Json, play: Play, v: Visit, plan: NodePlan)
    requires ValidParams(p)
    ensures Plans(p, netconfig, play, v, plan) <==> PlanOf(p, netconfig, play, v) == Some(plan)
  {
  }

  /** The turn finds its NodeSet, and the planner has a plan for it. */
  ghost predicate HasPlan(p: Params, netconfig: Json, play: Play, v: Visit)
    requires ValidParams(p)
  {
    exists plan :: Plans(p, netconfig, play, v, plan)
  }

  lemma HasPlanExact(p: Params, netconfig: Json, play: Play, v: Visit)
    requires ValidParams(p)
    ensures HasPlan(p, netconfig, play, v) <==> PlanOf(p, netconfig, play, v).Some?
  {
    var planned := PlanOf(p, netconfig, play, v);
    if planned.Some? { PlannedExact(p, netconfig, play, v, planned.value); }
    if plan :| Plans(p, netconfig, play, v, plan) { PlannedExact(p, netconfig, play, v, plan); }
  }

  lemma StoppedTurn(p: Params, netconfig: Json, max: nat, play: Play, v: Visit)
    requires ValidParams(p) && play.failures > max
    ensures Turn(p, netconfig, max, play, v) == play.(results := play.results + [NotAttempted])
  {
  }

  /** An attempted turn, by whether it has a plan and how it goes. */
  lemma AttemptedTurn(p: Params, netconfig: Json, max: nat, play: Play, v: Visit) returns (patched: Option<seq<Json>>)
    requires ValidParams(p) && play.failures <= max
    ensures patched.Some? <==> v.fate.Deployed? && HasPlan(p, netconfig, play, v)
    ensures forall plan :: patched.Some? && Plans(p, netconfig, play, v, plan) ==>
      patched.value == play.all[v.i := Patched(play.all[v.i], plan)]
    ensures Turn(p, netconfig, max, play, v) == TurnWith(play, patched, v)
  {
    HasPlanExact(p, netconfig, play, v);
    forall plan { PlannedExact(p, netconfig, play, v, plan); }
    patched := PatchedList(p, netconfig, play, v);
  }

  lemma RecordedTurn(play: Play, patched: Option<seq<Json>>, v: Visit)
    requires patched.Some? ==> v.fate.Deployed?
    ensures var after, n := TurnWith(play, patched, v), |play.results|;
      && |after.results| == n + 1 && after.results[..n] == play.results && after.results[n] != NotAttempted
      && (after.results[n] == Finished <==> patched.Some? && v.fate.ready)
      && after.failures == play.failures + (if after.results[n] == Failed then 1 else 0)
      && after.seen == play.all && after.all == patched.GetOr(play.all)
  {
  }

  /**
   * The result of a turn: not attempted once more NodeSets have failed than are allowed; otherwise it
   * finishes when there is a plan and its deployment ends well, and fails when not.
   */
  lemma TurnResultExact(p: Params, netconfig: Json, max: nat, play: Play, v: Visit)
    requires ValidParams(p)
    ensures var after := Turn(p, netconfig, max, play, v); var n := |play.results|;
      && |after.results| == n + 1 && after.results[..n] == play.results
      && (after.results[n] == NotAttempted <==> play.failures > max)
      && (after.results[n] == Finished <==> play.failures <= max && v.fate == Deployed(true) && HasPlan(p, netconfig, play, v))
      && after.failures == play.failures + (if after.results[n] == Failed then 1 else 0)
  {
    if play.failures > max {
      StoppedTurn(p, netconfig, max, play, v);
    } else {
      var patched := AttemptedTurn(p, netconfig, max, play, v);
      RecordedTurn(play, patched, v);
    }
  }

  /**
   * What a turn does: the patch is applied when there is a plan and nothing interrupts it, whether or not
   * the deployment ends well; and the list that was found is what the next turn is handed.
   */
  lemma TurnEffectExact(p: Params, netconfig: Json, max: nat, play: Play, v: Visit, plan: NodePlan)
    requires ValidParams(p)
    ensures var after := Turn(p, netconfig, max, play, v);
      && after.seen == (if play.failures > max then play.seen else play.all)
      && (play.failures > max || v.fate.Interrupted? || !HasPlan(p, netconfig, play, v) ==> after.all == play.all)
      && (play.failures <= max && v.fate.Deployed? && Plans(p, netconfig, play, v, plan) ==>
           after.all == play.all[v.i := Patched(play.all[v.i], plan)])
  {
    if play.failures > max {
      StoppedTurn(p, netconfig, max, play, v);
    } else {
      var patched := AttemptedTurn(p, netconfig, max, play, v);
      RecordedTurn(play, patched, v);
    }
  }

  function CountFailed(results: seq<Outcome>): nat {
    if results == [] then 0 else CountFailed(results[..|results| - 1]) + if results[|results| - 1] == Failed then 1 else 0
  }

  /** A play starts with no list, and has one result for each turn and counts the failed ones. */
  lemma {:induction false} ResultsExact(p: Params, netconfig: Json, max: nat, all: seq<Json>, visits: seq<Visit>)
    requires ValidParams(p)
    ensures var play := PlayAfter(p, netconfig, max, all, visits);
      && |play.results| == |visits| && play.failures == CountFailed(play.results)
      && (visits == [] ==> play.all == all && play.seen == [])
    decreases |visits|
  {
    if visits == [] {
    } else {
      ResultsExact(p, netconfig, max, all, visits[..|visits| - 1]);
    }
  }

  // ---------------------------------------------------------------- which turns break distinctness

  /** The turn gives out an address. */
  ghost predicate Adds(p: Params, netconfig: Json, max: nat, play: Play, v: Visit)
    requires ValidParams(p)
  {
    Patches(p, netconfig, max, play, v) && NewNodes(p, play.all[v.i]) != {}
  }

  ghost predicate TurnSafe(p: Params, netconfig: Json, max: nat, play: Play, v: Visit)
    requires ValidParams(p)
  {
    Patches(p, netconfig, max, play, v) ==> Unheld(p, play.all, play.all[v.i], play.seen)
  }

  /** The interface has no part in who needs, holds or is given which address. */
  lemma SameView(p: Params, iface: string, all: seq<Json>, ns: Json, seen: seq<Json>)
    requires ValidParams(p)
    ensures var q := p.(iface := iface);
      && ValidParams(q) && FleetBag(q, all) == FleetBag(p, all)
      && NewNodes(q, ns) == NewNodes(p, ns) && Handed(q, ns, seen) == Handed(p, ns, seen)
      && Free(q, Taken(q, ns, seen)) == Free(p, Taken(p, ns, seen))
  {
    var q := p.(iface := iface);
    SameBags(p, q, all);
    SameNew(p, q, ns);
    SameTaken(p, q, ns, seen);
    SameFree(p, iface, Taken(p, ns, seen));
  }

  lemma SameNew(p: Params, q: Params, ns: Json)
    requires q.network == p.network
    ensures NewNodes(q, ns) == NewNodes(p, ns)
  {
    forall n ensures IsNew(q, Nodes(ns), n) == IsNew(p, Nodes(ns), n) {
      SameFirstOwn(p, q, NodeNets(Field(Nodes(ns), n)));
    }
  }

  lemma SameFree(p: Params, iface: string, used: set<string>)
    requires ValidParams(p)
    ensures ValidParams(p.(iface := iface)) && Free(p.(iface := iface), used) == Free(p, used)
  {
  }

  lemma SameTaken(p: Params, q: Params, ns: Json, seen: seq<Json>)
    requires q.network == p.network
    ensures Taken(q, ns, seen) == Taken(p, ns, seen)
  {
    forall nets: seq<Json> ensures FabricIps(q, nets) == FabricIps(p, nets) {}
    forall o ensures NodeSetIps(q, o) == NodeSetIps(p, o) {}
  }

  /** What one turn does to the addresses held. */
  lemma TurnAdds(p: Params, netconfig: Json, max: nat, play: Play, v: Visit, ip: string)
    requires ValidParams(p)
    ensures FleetBag(p, Turn(p, netconfig, max, play, v).all)[ip] == FleetBag(p, play.all)[ip] +
      if Patches(p, netconfig, max, play, v) && IsHanded(p, play.all[v.i], play.seen, ip) then 1 else 0
  {
    if Patches(p, netconfig, max, play, v) {
      RunWithIfaceAdds(p, v.iface, netconfig, play.all, v.i, play.seen, ip);
    }
  }

  lemma RunWithIfaceAdds(p: Params, iface: string, netconfig: Json, all: seq<Json>, i: nat, seen: seq<Json>, ip: string)
    requires ValidParams(p) && i < |all| && PlanNodeSet(p.(iface := iface), netconfig, all[i], seen).Some?
    ensures FleetBag(p, all[i := Patched(all[i], PlanNodeSet(p.(iface := iface), netconfig, all[i], seen).value)])[ip] ==
      FleetBag(p, all)[ip] + if IsHanded(p, all[i], seen, ip) then 1 else 0
  {
    var q := p.(iface := iface);
    SameView(p, iface, all, all[i], seen);
    SameBags(p, q, all[i := Patched(all[i], PlanNodeSet(q, netconfig, all[i], seen).value)]);
    StaleRunAdds(q, netconfig, all, i, seen, ip);
  }

  lemma TurnKeepsDistinctExact(p: Params, netconfig: Json, max: nat, play: Play, v: Visit)
    requires ValidParams(p) && GloballyDistinct(p, play.all)
    ensures GloballyDistinct(p, Turn(p, netconfig, max, play, v).all) <==> TurnSafe(p, netconfig, max, play, v)
  {
    var after := Turn(p, netconfig, max, play, v).all;
    if Patches(p, netconfig, max, play, v) {
      forall ip ensures FleetBag(p, after)[ip] == FleetBag(p, play.all)[ip] + if IsHanded(p, play.all[v.i], play.seen, ip) then 1 else 0 {
        TurnAdds(p, netconfig, max, play, v, ip);
      }
      BagGrowth(FleetBag(p, play.all), FleetBag(p, after), ip => IsHanded(p, play.all[v.i], play.seen, ip));
    } else {
      assert after == play.all;
    }
  }

  /** An address held twice stays held twice. */
  lemma OnceBrokenStaysBroken(p: Params, netconfig: Json, max: nat, play: Play, v: Visit)
    requires ValidParams(p) && !GloballyDistinct(p, play.all)
    ensures !GloballyDistinct(p, Turn(p, netconfig, max, play, v).all)
  {
    var ip :| FleetBag(p, play.all)[ip] > 1;
    TurnAdds(p, netconfig, max, play, v, ip);
  }

  // ---------------------------------------------------------------- what a turn is handed

  ghost predicate KeepsHeld(p: Params, all: seq<Json>, after: seq<Json>) {
    && |after| == |all|
    && forall x :: 0 <= x < |after| ==> NameOf(after[x]) == NameOf(all[x]) && NodeSetIps(p, all[x]) <= NodeSetIps(p, after[x])
  }

  /** An attempted turn registers the list it found, and changes one NodeSet at most. */
  lemma TurnShape(p: Params, netconfig: Json, max: nat, play: Play, v: Visit)
    requires ValidParams(p)
    ensures var after := Turn(p, netconfig, max, play, v);
      && play.failures <= after.failures && (play.failures <= max ==> after.seen == play.all)
      && |after.all| == |play.all| && forall x :: 0 <= x < |play.all| && x != v.i ==> after.all[x] == play.all[x]
  {
    var patched := PatchedList(p, netconfig, play, v);
    if patched.Some? {
      assert forall x :: 0 <= x < |play.all| && x != v.i ==> patched.value[x] == play.all[x];
    }
  }

  /** An empty list, or the same NodeSets at some earlier time: no more addresses held than now. */
  ghost predicate Stale(p: Params, seen: seq<Json>, all: seq<Json>) {
    seen == [] ||
    KeepsHeld(p, seen, all)
  }

  lemma UpdateKeepsHeld(p: Params, all: seq<Json>, i: nat, ns: Json)
    requires i < |all| && NameOf(ns) == NameOf(all[i]) && NodeSetIps(p, all[i]) <= NodeSetIps(p, ns)
    ensures KeepsHeld(p, all, all[i := ns])
  {
  }

  /** Names stay, and no NodeSet loses an address. */
  lemma TurnKeepsHeld(p: Params, netconfig: Json, max: nat, play: Play, v: Visit)
    requires ValidParams(p)
    ensures KeepsHeld(p, play.all, Turn(p, netconfig, max, play, v).all)
  {
    var after := Turn(p, netconfig, max, play, v).all;
    if Patches(p, netconfig, max, play, v) {
      PatchKeepsHeld(p, v.iface, netconfig, play.all[v.i], play.seen);
      UpdateKeepsHeld(p, play.all, v.i, Patched(play.all[v.i], PlanOf(p, netconfig, play, v).value));
    } else {
      assert after == play.all;
    }
  }

  lemma PatchKeepsHeld(p: Params, iface: string, netconfig: Json, ns: Json, seen: seq<Json>)
    requires ValidParams(p) && PlanNodeSet(p.(iface := iface), netconfig, ns, seen).Some?
    ensures var after := Patched(ns, PlanNodeSet(p.(iface := iface), netconfig, ns, seen).value);
      NameOf(after) == NameOf(ns) && NodeSetIps(p, ns) <= NodeSetIps(p, after)
  {
    var q := p.(iface := iface);
    var after := Patched(ns, PlanNodeSet(q, netconfig, ns, seen).value);
    PatchedName(ns, PlanNodeSet(q, netconfig, ns, seen).value);
    SameTaken(p, q, ns, []);
    SameTaken(p, q, after, []);
    forall ip | ip in NodeSetIps(p, ns) ensures ip in NodeSetIps(p, after) {
      assert ip in NodeSetIps(q, ns) by { assert ip in Taken(p, ns, []); }
      PatchAddsNew(q, netconfig, ns, seen);
      NodeSetBagExact(q, ns, ip);
      NodeSetBagExact(q, after, ip);
      assert ip in Taken(q, after, []);
    }
  }

  lemma PlayStale(p: Params, netconfig: Json, max: nat, play: Play, v: Visit)
    requires ValidParams(p) && DistinctNodeSets(play.all) && Stale(p, play.seen, play.all)
    ensures var after := Turn(p, netconfig, max, play, v); DistinctNodeSets(after.all) && Stale(p, after.seen, after.all)
  {
    TurnKeepsHeld(p, netconfig, max, play, v);
  }

  /** A stale list never names an address nobody holds. */
  lemma StaleTaken(p: Params, all: seq<Json>, seen: seq<Json>, i: nat, ip: string)
    requires Stale(p, seen, all) && i < |all| && DistinctNodeSets(all) && ip in Taken(p, all[i], seen)
    ensures ip in FleetBag(p, all)
  {
    TakenIsEverything(p, all, i, ip);
    if o :| o in seen && NameOf(o) != NameOf(all[i]) && ip in NodeSetIps(p, o) {
      var x :| 0 <= x < |seen| && seen[x] == o;
      assert all[x] in all && ip in NodeSetIps(p, all[x]);
    }
  }
}
