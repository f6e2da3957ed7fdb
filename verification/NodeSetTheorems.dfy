/** The NodeSet patch brings the NodeSet to a fixed point, and exactly when. */
module NodeSetTheorems {
  import opened Prelude
  import opened Numerals
  import opened JsonMerge
  import opened NetConfigPatch
  import opened NodeSetPatch
  import opened NodeSetParts

  // ---------------------------------------------------------------- one node

  /** The node's first fabric entry, if it has one, carries a fixedIP. */
  predicate Settles(p: Params, node: Json) {
    FirstOwn(p, NodeNets(node)) == |NodeNets(node)| || FixedIp(p, NodeNets(node)) != ""
  }

  function NodeAfter(p: Params, tmpl: Json, node: Json, ip: string): Json {
    var entry := NodeEntry(p, tmpl, node, ip);
    if entry == map[] then node else MergePatch(node, Obj(entry))
  }

  lemma EntryShape(p: Params, tmpl: Json, node: Json, ip: string)
    ensures var entry := NodeEntry(p, tmpl, node, ip);
      && ("networks" in entry <==> FixedIp(p, NodeNets(node)) == "")
      && ("ansible" in entry <==> Or(Field(NodeVars(node), LOCAL_IP), Field(tmpl, LOCAL_IP)) != Str(ip))
      && ("networks" in entry ==> entry["networks"] == Arr(NodeNets(node) + [FreshEntry(p, ip)]))
      && ("ansible" in entry ==> entry["ansible"] == Obj(map["ansibleVars" := Obj(map[LOCAL_IP := Str(ip)])]))
      && entry.Keys <= {"networks", "ansible"}
  {
  }

  lemma MergedNetworks(node: Json, entry: map<string, Json>, nets: seq<Json>)
    requires if "networks" in entry then entry["networks"] == Arr(nets) else nets == NodeNets(node)
    ensures NodeNets(MergePatch(node, Obj(entry))) == nets
  {
    MergeField(node, entry, "networks");
  }

  lemma MergedLocalIp(node: Json, entry: map<string, Json>, ip: string)
    requires "ansible" in entry ==> entry["ansible"] == Obj(map["ansibleVars" := Obj(map[LOCAL_IP := Str(ip)])])
    ensures Field(NodeVars(MergePatch(node, Obj(entry))), LOCAL_IP) ==
      if "ansible" in entry then Str(ip) else Field(NodeVars(node), LOCAL_IP)
  {
    MergeField(node, entry, "ansible");
    if "ansible" in entry {
      var vars := map[LOCAL_IP := Str(ip)];
      MergeField(Field(node, "ansible"), map["ansibleVars" := Obj(vars)], "ansibleVars");
      MergeField(NodeVars(node), vars, LOCAL_IP);
    }
  }

  lemma NodeAfterFields(p: Params, tmpl: Json, node: Json, ip: string)
    requires ip != ""
    ensures NodeNets(NodeAfter(p, tmpl, node, ip)) ==
      NodeNets(node) + if FixedIp(p, NodeNets(node)) == "" then [FreshEntry(p, ip)] else []
    ensures Or(Field(NodeVars(NodeAfter(p, tmpl, node, ip)), LOCAL_IP), Field(tmpl, LOCAL_IP)) == Str(ip)
  {
    var entry := NodeEntry(p, tmpl, node, ip);
    EntryShape(p, tmpl, node, ip);
    if entry != map[] {
      MergedNetworks(node, entry, NodeNets(node) + if "networks" in entry then [FreshEntry(p, ip)] else []);
      MergedLocalIp(node, entry, ip);
    }
  }

  lemma {:induction false} FirstOwnAppend(p: Params, nets: seq<Json>, x: Json)
    requires IsOwn(p, x)
    ensures FirstOwn(p, nets + [x]) == FirstOwn(p, nets)
  {
    FirstOwnFound(p, nets);
    FirstOwnExact(p, nets + [x], FirstOwn(p, nets));
  }

  lemma FixedIpAfter(p: Params, nets: seq<Json>, ip: string)
    requires ip != "" && FixedIp(p, nets) == ""
    ensures FixedIp(p, nets + [FreshEntry(p, ip)]) == if FirstOwn(p, nets) == |nets| then ip else ""
  {
    FirstOwnAppend(p, nets, FreshEntry(p, ip));
    FirstOwnFound(p, nets);
  }

  /** A patched node holds its address exactly when it settles; then nothing is left to say about it. */
  lemma NodeSettlesExact(p: Params, tmpl: Json, tmpl': Json, node: Json, ip: string)
    requires ip != "" && (FixedIp(p, NodeNets(node)) != "" ==> ip == FixedIp(p, NodeNets(node)))
    requires Field(tmpl', LOCAL_IP) == Field(tmpl, LOCAL_IP)
    ensures var after := NodeAfter(p, tmpl, node, ip);
      && FixedIp(p, NodeNets(after)) == (if Settles(p, node) then ip else "")
      && (Settles(p, node) ==> NodeEntry(p, tmpl', after, ip) == map[])
  {
    var nets, after := NodeNets(node), NodeAfter(p, tmpl, node, ip);
    assert FixedIp(p, NodeNets(after)) == (if Settles(p, node) then ip else "") by {
      NodeAfterFields(p, tmpl, node, ip);
      if FixedIp(p, nets) == "" { FixedIpAfter(p, nets, ip); } else { assert NodeNets(after) == nets; }
    }
    if Settles(p, node) {
      NodeAfterFields(p, tmpl, node, ip);
      EntryShape(p, tmpl', after, ip);
      assert NodeEntry(p, tmpl', after, ip).Keys == {};
    }
  }

  // ---------------------------------------------------------------- the node loop

  /** What the loop has recorded about one node. */
  ghost predicate NodeDone(p: Params, tmpl: Json, st: LoopState, name: string, node: Json) {
    && name in st.ips && st.ips[name] != ""
    && (FixedIp(p, NodeNets(node)) != "" ==> st.ips[name] == FixedIp(p, NodeNets(node)))
    && (name in st.patch <==> NodeEntry(p, tmpl, node, st.ips[name]) != map[])
    && (name in st.patch ==> st.patch[name] == Obj(NodeEntry(p, tmpl, node, st.ips[name])))
  }

  ghost predicate LoopDone(p: Params, nodes: Json, tmpl: Json, st: LoopState, names: seq<string>) {
    && (forall n :: n in st.ips <==> n in names)
    && (forall n :: n in st.patch ==> n in names)
    && forall n :: n in names ==> NodeDone(p, tmpl, st, n, Field(nodes, n))
  }

  ghost predicate NoRepeats(names: seq<string>) {
    forall i, j :: 0 <= i < j < |names| ==> names[i] != names[j]
  }

  /** Recording one more node leaves what was recorded about the others. */
  lemma RecordKeepsDone(p: Params, nodes: Json, tmpl: Json, st: LoopState, t: LoopState, names: seq<string>, name: string, ip: string)
    requires LoopDone(p, nodes, tmpl, st, names) && name !in names && ip != ""
    requires FixedIp(p, NodeNets(Field(nodes, name))) != "" ==> ip == FixedIp(p, NodeNets(Field(nodes, name)))
    requires t.ips == st.ips[name := ip]
    requires var entry := NodeEntry(p, tmpl, Field(nodes, name), ip);
      t.patch == if entry != map[] then st.patch[name := Obj(entry)] else st.patch
    ensures LoopDone(p, nodes, tmpl, t, names + [name])
  {
    assert name !in st.ips && name !in st.patch;
    assert NodeDone(p, tmpl, t, name, Field(nodes, name));
    forall n | n in names ensures NodeDone(p, tmpl, t, n, Field(nodes, n)) {
      assert n != name && NodeDone(p, tmpl, st, n, Field(nodes, n));
    }
  }

  lemma StepRecords(p: Params, tmpl: Json, st: LoopState, name: string, node: Json) returns (ip: string)
    requires ValidParams(p) && NodeStep(p, tmpl, st, name, node).Some?
    ensures ip != "" && (FixedIp(p, NodeNets(node)) != "" ==> ip == FixedIp(p, NodeNets(node)))
    ensures var t, entry := NodeStep(p, tmpl, st, name, node).value, NodeEntry(p, tmpl, node, ip);
      && t.ips == st.ips[name := ip]
      && t.patch == if entry != map[] then st.patch[name := Obj(entry)] else st.patch
  {
    ip := if FixedIp(p, NodeNets(node)) != "" then FixedIp(p, NodeNets(node)) else Dotted(NextAddress(p, st).value);
  }

  lemma NoRepeatsFront(names: seq<string>)
    requires NoRepeats(names) && names != []
    ensures NoRepeats(names[..|names| - 1]) && names[|names| - 1] !in names[..|names| - 1]
  {
  }

  lemma LoopDoneNext(p: Params, nodes: Json, tmpl: Json, st: LoopState, names: seq<string>, name: string)
    requires ValidParams(p) && LoopDone(p, nodes, tmpl, st, names) && name !in names
    requires NodeStep(p, tmpl, st, name, Field(nodes, name)).Some?
    ensures LoopDone(p, nodes, tmpl, NodeStep(p, tmpl, st, name, Field(nodes, name)).value, names + [name])
  {
    var ip := StepRecords(p, tmpl, st, name, Field(nodes, name));
    RecordKeepsDone(p, nodes, tmpl, st, NodeStep(p, tmpl, st, name, Field(nodes, name)).value, names, name, ip);
  }

  lemma LastNode(p: Params, nodes: Json, tmpl: Json, start: LoopState, front: seq<string>, name: string)
    requires ValidParams(p)
    ensures var before := NodeLoop(p, nodes, tmpl, start, front);
      NodeLoop(p, nodes, tmpl, start, front + [name]) ==
      if before.None? then None else NodeStep(p, tmpl, before.value, name, Field(nodes, name))
  {
    assert (front + [name])[..|front|] == front;
  }

  lemma {:induction false} NodeLoopDone(p: Params, nodes: Json, tmpl: Json, start: LoopState, names: seq<string>)
    requires ValidParams(p) && NoRepeats(names) && start.ips == map[] && start.patch == map[]
    requires NodeLoop(p, nodes, tmpl, start, names).Some?
    ensures LoopDone(p, nodes, tmpl, NodeLoop(p, nodes, tmpl, start, names).value, names)
    decreases |names|
  {
    if names == [] {
    } else {
      var front, name := names[..|names| - 1], names[|names| - 1];
      assert names == front + [name];
      NoRepeatsFront(names);
      LastNode(p, nodes, tmpl, start, front, name);
      NodeLoopDone(p, nodes, tmpl, start, front);
      LoopDoneNext(p, nodes, tmpl, NodeLoop(p, nodes, tmpl, start, front).value, front, name);
    }
  }

  lemma IdleStep(p: Params, tmpl: Json, st: LoopState, name: string, node: Json, ip: string)
    requires ValidParams(p) && ip != "" && FixedIp(p, NodeNets(node)) == ip && NodeEntry(p, tmpl, node, ip) == map[]
    ensures NodeStep(p, tmpl, st, name, node) == Some(st.(ips := st.ips[name := ip]))
  {
  }

  /** The node already holds the address and needs no entry. */
  ghost predicate Idle(p: Params, tmpl: Json, node: Json, ip: string) {
    ip != "" && FixedIp(p, NodeNets(node)) == ip && NodeEntry(p, tmpl, node, ip) == map[]
  }

  /** The loop recorded these addresses and wants no change. */
  ghost predicate RecordsOnly(st: LoopState, names: seq<string>, ips: map<string, string>) {
    && st.patch == map[]
    && (forall n :: n in st.ips <==> n in names)
    && (forall n :: n in names ==> n in ips && st.ips[n] == ips[n])
  }

  /** When every node already holds the address in `ips`, the loop records just that. */
  lemma {:induction false} IdleLoop(p: Params, nodes: Json, tmpl: Json, start: LoopState, names: seq<string>, ips: map<string, string>)
    requires ValidParams(p) && start.ips == map[] && start.patch == map[]
    requires forall n :: n in names ==> n in ips && Idle(p, tmpl, Field(nodes, n), ips[n])
    ensures NodeLoop(p, nodes, tmpl, start, names).Some?
    ensures RecordsOnly(NodeLoop(p, nodes, tmpl, start, names).value, names, ips)
    decreases |names|
  {
    if names == [] {
    } else {
      var n := |names| - 1;
      var front, name := names[..n], names[n];
      assert names == front + [name];
      IdleLoop(p, nodes, tmpl, start, front, ips);
      IdleStep(p, tmpl, NodeLoop(p, nodes, tmpl, start, front).value, name, Field(nodes, name), ips[name]);
    }
  }

  /** A node left without an address makes the loop fail or patch it. */
  lemma {:induction false} BusyLoop(p: Params, nodes: Json, tmpl: Json, start: LoopState, names: seq<string>, name: string)
    requires ValidParams(p) && NoRepeats(names) && start.ips == map[] && start.patch == map[]
    requires name in names && FixedIp(p, NodeNets(Field(nodes, name))) == ""
    ensures var st := NodeLoop(p, nodes, tmpl, start, names); st.Some? ==> name in st.value.patch
  {
    if NodeLoop(p, nodes, tmpl, start, names).Some? {
      NodeLoopDone(p, nodes, tmpl, start, names);
      var st := NodeLoop(p, nodes, tmpl, start, names).value;
      assert NodeDone(p, tmpl, st, name, Field(nodes, name));
      assert "networks" in NodeEntry(p, tmpl, Field(nodes, name), st.ips[name]);
    }
  }

  // ---------------------------------------------------------------- the merged NodeSet

  lemma MergedSpec(ns: Json, plan: NodePlan, key: string)
    requires Changed(plan)
    ensures Field(Field(Patched(ns, plan), "spec"), key) ==
      if key in SpecPatch(plan) then MergePatch(Field(Field(ns, "spec"), key), SpecPatch(plan)[key]) else Field(Field(ns, "spec"), key)
    ensures NameOf(Patched(ns, plan)) == NameOf(ns)
  {
    var spec := SpecPatch(plan);
    var file := PatchFile(ns, spec);
    MergeField(ns, file, "spec");
    MergeField(Field(ns, "spec"), spec, key);
    MergeField(ns, file, "metadata");
    MergeField(Field(ns, "metadata"), file["metadata"].fields, "name");
  }

  lemma PatchedServices(ns: Json, plan: NodePlan)
    requires plan.services == ServicesPatch(Services(ns))
    ensures Services(Patched(ns, plan)) == WantedServices(Services(ns))
  {
    if Changed(plan) { MergedSpec(ns, plan, "services"); }
  }

  lemma MergedVars(template: Json, vars: map<string, Json>, key: string)
    ensures var after := MergePatch(template, Obj(map["ansible" := Obj(map["ansibleVars" := Obj(vars)])]));
      Field(Field(Field(after, "ansible"), "ansibleVars"), key) ==
      if key in vars then MergePatch(Field(Field(Field(template, "ansible"), "ansibleVars"), key), vars[key])
      else Field(Field(Field(template, "ansible"), "ansibleVars"), key)
  {
    var ansible := map["ansibleVars" := Obj(vars)];
    MergeField(template, map["ansible" := Obj(ansible)], "ansible");
    MergeField(Field(template, "ansible"), ansible, "ansibleVars");
    MergeField(Field(Field(template, "ansible"), "ansibleVars"), vars, key);
  }

  lemma PatchedVars(ns: Json, plan: NodePlan, desired: map<string, Json>)
    requires plan.vars == VarsPatch(desired, TemplateVars(ns))
    requires forall k :: k in desired ==> !desired[k].Obj?
    ensures VarsMerged(desired, TemplateVars(ns), TemplateVars(Patched(ns, plan)))
  {
    if Changed(plan) {
      MergedSpec(ns, plan, "nodeTemplate");
      if plan.vars != map[] {
        forall k { MergedVars(Field(Field(ns, "spec"), "nodeTemplate"), plan.vars, k); }
      }
    }
  }

  function MergedNode(ns: Json, plan: NodePlan, name: string): Json {
    if name in plan.nodes then MergePatch(Field(Nodes(ns), name), plan.nodes[name]) else Field(Nodes(ns), name)
  }

  lemma PatchedNodeKeys(ns: Json, plan: NodePlan)
    requires plan.nodes.Keys <= Keys(Nodes(ns)) && forall n :: n in plan.nodes ==> !plan.nodes[n].Null?
    ensures Keys(Nodes(Patched(ns, plan))) == Keys(Nodes(ns))
    ensures forall n :: Field(Nodes(Patched(ns, plan)), n) == MergedNode(ns, plan, n)
  {
    if Changed(plan) {
      MergedSpec(ns, plan, "nodes");
      if plan.nodes != map[] {
        MergeKeys(Nodes(ns), plan.nodes);
        forall n { MergeField(Nodes(ns), plan.nodes, n); }
      }
    }
  }

  lemma PatchedNodes(p: Params, ns: Json, plan: NodePlan, st: LoopState, names: seq<string>)
    requires LoopDone(p, Nodes(ns), TemplateVars(ns), st, names)
    requires (forall n :: n in names <==> n in Keys(Nodes(ns))) && plan.nodes == st.patch
    ensures Keys(Nodes(Patched(ns, plan))) == Keys(Nodes(ns))
    ensures forall n :: n in names ==>
      n in st.ips && Field(Nodes(Patched(ns, plan)), n) == NodeAfter(p, TemplateVars(ns), Field(Nodes(ns), n), st.ips[n])
  {
    forall n | n in names ensures NodeDone(p, TemplateVars(ns), st, n, Field(Nodes(ns), n)) {}
    forall n | n in st.patch ensures n in names && !st.patch[n].Null? {
      assert n in st.ips;
    }
    PatchedNodeKeys(ns, plan);
  }

  // ---------------------------------------------------------------- the fixed point

  predicate AllSettle(p: Params, ns: Json) {
    forall n :: n in Keys(Nodes(ns)) ==> Settles(p, Field(Nodes(ns), n))
  }

  /** One node before and after a patch that recorded it. */
  lemma SecondVisit(p: Params, tmpl: Json, tmpl': Json, st: LoopState, name: string, node: Json)
    requires NodeDone(p, tmpl, st, name, node) && Field(tmpl', LOCAL_IP) == Field(tmpl, LOCAL_IP)
    ensures var after := NodeAfter(p, tmpl, node, st.ips[name]);
      && (Settles(p, node) ==> Idle(p, tmpl', after, st.ips[name]))
      && (!Settles(p, node) ==> FixedIp(p, NodeNets(after)) == "")
  {
    NodeSettlesExact(p, tmpl, tmpl', node, st.ips[name]);
  }

  lemma SettledAgain(p: Params, nodes: Json, tmpl: Json, st: LoopState, start: LoopState, names: seq<string>)
    requires ValidParams(p) && start.ips == map[] && start.patch == map[]
    requires forall n :: n in st.ips <==> n in names
    requires forall n :: n in names ==> Idle(p, tmpl, Field(nodes, n), st.ips[n])
    ensures var again := NodeLoop(p, nodes, tmpl, start, names);
      again.Some? && again.value.patch == map[] && again.value.ips == st.ips
  {
    IdleLoop(p, nodes, tmpl, start, names, st.ips);
    var again := NodeLoop(p, nodes, tmpl, start, names).value;
    assert forall n :: n in again.ips <==> n in st.ips;
  }

  /** The second run over the nodes: idle if every node settles, otherwise a failure or another patch. */
  lemma SecondNodes(p: Params, nodes: Json, nodes': Json, tmpl: Json, tmpl': Json, st: LoopState, start': LoopState, names: seq<string>)
    requires ValidParams(p) && NoRepeats(names) && LoopDone(p, nodes, tmpl, st, names)
    requires forall n :: n in names ==> Field(nodes', n) == NodeAfter(p, tmpl, Field(nodes, n), st.ips[n])
    requires Field(tmpl', LOCAL_IP) == Field(tmpl, LOCAL_IP)
    requires start'.ips == map[] && start'.patch == map[]
    ensures var again := NodeLoop(p, nodes', tmpl', start', names);
      && ((forall n :: n in names ==> Settles(p, Field(nodes, n))) ==>
           again.Some? && again.value.patch == map[] && again.value.ips == st.ips)
      && (forall n :: n in names && !Settles(p, Field(nodes, n)) ==> again.None? || again.value.patch != map[])
  {
    forall n | n in names
      ensures Settles(p, Field(nodes, n)) ==> Idle(p, tmpl', Field(nodes', n), st.ips[n])
      ensures !Settles(p, Field(nodes, n)) ==> FixedIp(p, NodeNets(Field(nodes', n))) == ""
    {
      SecondVisit(p, tmpl, tmpl', st, n, Field(nodes, n));
    }
    if forall n :: n in names ==> Settles(p, Field(nodes, n)) {
      SettledAgain(p, nodes', tmpl', st, start', names);
    } else {
      forall n | n in names && !Settles(p, Field(nodes, n)) {
        BusyLoop(p, nodes', tmpl', start', names, n);
      }
    }
  }

  /** Everything but the nodes has settled after the merge, whatever the plan says about nodes. */
  lemma OtherPartsSettle(p: Params, ns: Json, plan: NodePlan)
    requires plan.vars == VarsPatch(DesiredVars(p, TemplateVars(ns)), TemplateVars(ns))
    requires plan.services == ServicesPatch(Services(ns))
    requires Text(Field(TemplateVars(ns), TEMPLATE)) != ""
    ensures var ns' := Patched(ns, plan);
      && NameOf(ns') == NameOf(ns) && Text(Field(TemplateVars(ns'), TEMPLATE)) != ""
      && DesiredVars(p, TemplateVars(ns')) == DesiredVars(p, TemplateVars(ns)) - {TEMPLATE}
      && VarsPatch(DesiredVars(p, TemplateVars(ns')), TemplateVars(ns')) == map[]
      && Field(TemplateVars(ns'), LOCAL_IP) == Field(TemplateVars(ns), LOCAL_IP)
      && ServicesPatch(Services(ns')) == None
  {
    var ns', tmpl := Patched(ns, plan), TemplateVars(ns);
    DesiredNotObjects(p, tmpl);
    PatchedVars(ns, plan, DesiredVars(p, tmpl));
    VarsSettle(p, tmpl, TemplateVars(ns'));
    TemplateSettles(p, tmpl, TemplateVars(ns'));
    LocalIpUntouched(p, tmpl, TemplateVars(ns'));
    PatchedServices(ns, plan);
    ServicesSettle(Services(ns));
    if Changed(plan) { MergedSpec(ns, plan, "nodes"); }
  }

  lemma NodesSettle(p: Params, ns: Json, plan: NodePlan, all: seq<Json>, all': seq<Json>)
    requires ValidParams(p) && NodesResult(p, ns, all).Some? && plan.nodes == NodesResult(p, ns, all).value.patch
    requires Field(TemplateVars(Patched(ns, plan)), LOCAL_IP) == Field(TemplateVars(ns), LOCAL_IP)
    ensures var again := NodesResult(p, Patched(ns, plan), all');
      && (AllSettle(p, ns) ==> again.Some? && again.value.patch == map[] && again.value.ips == NodesResult(p, ns, all).value.ips)
      && (!AllSettle(p, ns) ==> again.None? || again.value.patch != map[])
  {
    var ns', names, st := Patched(ns, plan), SortedNames(Keys(Nodes(ns))), NodesResult(p, ns, all).value;
    NodeLoopDone(p, Nodes(ns), TemplateVars(ns), StartState(p, ns, all), names);
    PatchedNodes(p, ns, plan, st, names);
    SecondNodes(p, Nodes(ns), Nodes(ns'), TemplateVars(ns), TemplateVars(ns'), st, StartState(p, ns', all'), names);
    assert forall n :: n in names <==> n in Keys(Nodes(ns));
  }

  /** A second run whose variables and services are settled changes exactly what its node loop changes. */
  lemma SecondRun(p: Params, netconfig: Json, ns: Json, ns': Json, desired: map<string, Json>, st: LoopState,
                  loop: Option<LoopState>, again: Option<NodePlan>)
    requires ValidParams(p) && NameOf(ns') == NameOf(ns)
    requires again == if loop.None? then None else Some(Assemble(p, netconfig, ns', desired - {TEMPLATE}, loop.value))
    requires VarsPatch(desired - {TEMPLATE}, TemplateVars(ns')) == map[] && ServicesPatch(Services(ns')) == None
    ensures var plan := Assemble(p, netconfig, ns, desired, st);
      again.Some? ==>
        && (Changed(again.value) <==> loop.value.patch != map[])
        && (loop.value.ips == st.ips ==> again.value.ips == plan.ips && again.value.fingerprint == plan.fingerprint)
  {
    if loop.Some? {
      AssembleAgain(p, netconfig, ns, ns', desired, desired - {TEMPLATE}, st, loop.value);
    }
  }

  /**
   * The patch settles the NodeSet exactly when no node's first fabric entry lacks a fixedIP: then a
   * second run changes nothing and assigns the same addresses under the same fingerprint. A node
   * whose first entry lacks one is given yet another entry every time.
   */
  lemma NodeSetSettlesExact(p: Params, netconfig: Json, ns: Json, all: seq<Json>, all': seq<Json>)
    requires ValidParams(p) && PlanNodeSet(p, netconfig, ns, all).Some?
    ensures var plan := PlanNodeSet(p, netconfig, ns, all).value;
      var again := PlanNodeSet(p, netconfig, Patched(ns, plan), all');
      && (AllSettle(p, ns) <==> again.Some? && !Changed(again.value))
      && (AllSettle(p, ns) ==> again.value.ips == plan.ips && again.value.fingerprint == plan.fingerprint)
  {
    var plan := PlanNodeSet(p, netconfig, ns, all).value;
    OtherPartsSettle(p, ns, plan);
    NodesSettle(p, ns, plan, all, all');
    var ns' := Patched(ns, plan);
    SecondRun(p, netconfig, ns, ns', DesiredVars(p, TemplateVars(ns)), NodesResult(p, ns, all).value,
              NodesResult(p, ns', all'), PlanNodeSet(p, netconfig, ns', all'));
  }

  lemma AssembleAgain(p: Params, netconfig: Json, ns: Json, ns': Json, desired: map<string, Json>, desired': map<string, Json>,
                      st: LoopState, st': LoopState)
    requires ValidParams(p) && NameOf(ns') == NameOf(ns) && desired' == desired - {TEMPLATE}
    requires VarsPatch(desired', TemplateVars(ns')) == map[] && ServicesPatch(Services(ns')) == None
    ensures var first, second := Assemble(p, netconfig, ns, desired, st), Assemble(p, netconfig, ns', desired', st');
      && (Changed(second) <==> st'.patch != map[])
      && (st'.ips == st.ips ==> second.ips == first.ips && second.fingerprint == first.fingerprint)
  {
    assert desired' - {TEMPLATE} == desired - {TEMPLATE};
  }

  lemma DesiredNotObjects(p: Params, tmpl: Json)
    ensures forall k :: k in DesiredVars(p, tmpl) ==> !DesiredVars(p, tmpl)[k].Obj?
  {
    BaseVarsFlat(p, Rules(p, Items(Field(tmpl, USER_RULES))));
  }
}
