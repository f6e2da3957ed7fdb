/**
 * What applying the patch of nodeset mode does to the NodeSet: each variable, each node and each
 * service afterwards, what is left alone, and when there is no patch at all.
 */
module NodeSetInstalled {
  import opened Prelude
  import opened Cidr
  import opened Numerals
  import opened JsonMerge
  import opened NetConfigPatch
  import opened NetConfigExact
  import opened NodeSetPatch
  import opened NodeSetParts
  import opened NodeSetTheorems
  import opened NodeSetAddresses
  import opened NodeSetRuns

  function VarsOf(ns: Json): Json {
    Field(Field(Field(Field(ns, "spec"), "nodeTemplate"), "ansible"), "ansibleVars")
  }

  function NodesOf(ns: Json): Json { Field(Field(ns, "spec"), "nodes") }

  function NameIn(ns: Json): string { Text(Field(Field(ns, "metadata"), "name")) }

  // ---------------------------------------------------------------- the variables

  /**
   * After the patch every wanted variable has its wanted value, up to what Python takes for equal; a
   * variable is in the patch exactly when it was wanted and differed, and any other is as it was.
   */
  lemma VarsInstalled(p: Params, netconfig: Json, ns: Json, all: seq<Json>, k: string)
    requires ValidParams(p) && PlanNodeSet(p, netconfig, ns, all).Some?
    ensures var plan, wanted := PlanNodeSet(p, netconfig, ns, all).value, DesiredVars(p, VarsOf(ns));
      var before, after := Field(VarsOf(ns), k), Field(VarsOf(Patched(ns, plan)), k);
      && (k in plan.vars <==> k in wanted && !PyEqual(before, wanted[k]))
      && (k in wanted ==> PyEqual(after, wanted[k]))
      && (if k in plan.vars then plan.vars[k] == wanted[k] == after else after == before)
  {
    var plan := PlanNodeSet(p, netconfig, ns, all).value;
    DesiredNotObjects(p, TemplateVars(ns));
    PatchedVars(ns, plan, DesiredVars(p, TemplateVars(ns)));
  }

  // ---------------------------------------------------------------- fabric entries and who holds what

  /** The node's first fabric entry has this fixedIP. */
  ghost predicate Holds(p: Params, node: Json, ip: string) {
    ip != "" && exists i :: FirstFabric(p, Items(Field(node, "networks")), i)
                            && Field(Items(Field(node, "networks"))[i], "fixedIP") == Str(ip)
  }

  ghost predicate HoldsSome(p: Params, node: Json) {
    exists ip :: Holds(p, node, ip)
  }

  lemma HoldsExact(p: Params, node: Json, ip: string)
    requires ip != ""
    ensures Holds(p, node, ip) <==> FixedIp(p, NodeNets(node)) == ip
  {
    var nets := NodeNets(node);
    var i := FirstOwn(p, nets);
    FirstFabricExact(p, nets, i);
    if Holds(p, node, ip) {
      var j :| FirstFabric(p, nets, j) && Field(nets[j], "fixedIP") == Str(ip);
      FirstFabricExact(p, nets, j);
    }
    if FixedIp(p, nets) == ip {
      assert Field(nets[i], "fixedIP") == Str(ip);
    }
  }

  lemma HoldsSomeExact(p: Params, node: Json)
    ensures HoldsSome(p, node) <==> FixedIp(p, NodeNets(node)) != ""
  {
    if ip :| Holds(p, node, ip) { HoldsExact(p, node, ip); }
    if FixedIp(p, NodeNets(node)) != "" { HoldsExact(p, node, FixedIp(p, NodeNets(node))); }
  }

  /** Some fabric entry of some node of this NodeSet has this fixedIP. */
  ghost predicate HeldIn(p: Params, o: Json, ip: string) {
    ip != "" && exists n, net :: n in Keys(NodesOf(o)) && net in Items(Field(Field(NodesOf(o), n), "networks"))
                                 && FabricEntry(p, net) && Field(net, "fixedIP") == Str(ip)
  }

  /** An address is taken when this NodeSet or one of another name holds it. */
  ghost predicate HeldBySome(p: Params, ns: Json, all: seq<Json>, ip: string) {
    HeldIn(p, ns, ip) || exists o :: o in all && NameIn(o) != NameIn(ns) && HeldIn(p, o, ip)
  }

  lemma NodeIps(p: Params, o: Json, n: string, net: Json, ip: string)
    requires n in Keys(Nodes(o)) && net in NodeNets(Field(Nodes(o), n))
    requires IsOwn(p, net) && Text(Field(net, "fixedIP")) == ip && ip != ""
    ensures ip in NodeSetIps(p, o)
  {
    assert ip in FabricIps(p, NodeNets(Field(Nodes(o), n)));
  }

  lemma HeldInExact(p: Params, o: Json, ip: string)
    ensures ip in NodeSetIps(p, o) <==> HeldIn(p, o, ip)
  {
    if ip in NodeSetIps(p, o) {
      var n :| n in Keys(Nodes(o)) && ip in FabricIps(p, NodeNets(Field(Nodes(o), n)));
      var net :| net in NodeNets(Field(Nodes(o), n)) && IsOwn(p, net) && Text(Field(net, "fixedIP")) == ip && ip != "";
      FabricEntryExact(p, net);
      assert Field(net, "fixedIP") == Str(ip) && net in Items(Field(Field(NodesOf(o), n), "networks"));
    }
    if HeldIn(p, o, ip) {
      var n, net :| n in Keys(NodesOf(o)) && net in Items(Field(Field(NodesOf(o), n), "networks"))
                    && FabricEntry(p, net) && Field(net, "fixedIP") == Str(ip);
      FabricEntryExact(p, net);
      NodeIps(p, o, n, net, ip);
    }
  }

  lemma TakenExact(p: Params, ns: Json, all: seq<Json>, ip: string)
    ensures ip in Taken(p, ns, all) <==> HeldBySome(p, ns, all, ip)
  {
    HeldInExact(p, ns, ip);
    forall o { HeldInExact(p, o, ip); }
  }

  // ---------------------------------------------------------------- the range and the failed run

  /** The nodes that hold no address, and the addresses nobody holds. */
  ghost function Needy(p: Params, ns: Json): set<string> {
    set n | n in Keys(NodesOf(ns)) && !HoldsSome(p, Field(NodesOf(ns), n))
  }

  ghost function Unheld(p: Params, ns: Json, all: seq<Json>): set<nat>
    requires ValidParams(p)
  {
    set a: nat | a < 0x1_0000_0000 && InAllocation(p, a) && !HeldBySome(p, ns, all, Dotted(a))
  }

  /** There is no plan exactly when the NodeSet has no template, or more nodes need an address than are left. */
  lemma NoPlanExact(p: Params, netconfig: Json, ns: Json, all: seq<Json>)
    requires ValidParams(p)
    ensures PlanNodeSet(p, netconfig, ns, all).None? <==>
      Text(Field(VarsOf(ns), "edpm_network_config_template")) == "" || |Needy(p, ns)| > |Unheld(p, ns, all)|
  {
    ExhaustionExact(p, ns, all);
    forall n { HoldsSomeExact(p, Field(Nodes(ns), n)); }
    assert Needy(p, ns) == NewNodes(p, ns);
    forall a: nat ensures a in Unheld(p, ns, all) <==> a in Free(p, Taken(p, ns, all)) {
      AllocationExact(p, a);
      if a < 0x1_0000_0000 { TakenExact(p, ns, all, Dotted(a)); }
    }
    assert Unheld(p, ns, all) == Free(p, Taken(p, ns, all));
  }

  // ---------------------------------------------------------------- the nodes

  lemma AssembledNodes(p: Params, netconfig: Json, ns: Json, wanted: map<string, Json>, loop: LoopState)
    requires ValidParams(p)
    ensures var plan := Assemble(p, netconfig, ns, wanted, loop); plan.nodes == loop.patch && plan.ips == loop.ips
  {
  }

  lemma PlanIs(p: Params, netconfig: Json, ns: Json, all: seq<Json>, wanted: map<string, Json>)
    requires ValidParams(p) && PlanNodeSet(p, netconfig, ns, all).Some? && wanted == DesiredVars(p, TemplateVars(ns))
    ensures NodesResult(p, ns, all).Some?
    ensures PlanNodeSet(p, netconfig, ns, all) == Some(Assemble(p, netconfig, ns, wanted, NodesResult(p, ns, all).value))
  {
  }

  /** Node parts of a plan are what the loop recorded. */
  lemma PlanOfLoop(p: Params, netconfig: Json, ns: Json, all: seq<Json>)
    requires ValidParams(p) && PlanNodeSet(p, netconfig, ns, all).Some?
    ensures NodesResult(p, ns, all).Some?
    ensures var plan, st := PlanNodeSet(p, netconfig, ns, all).value, NodesResult(p, ns, all).value;
      plan.nodes == st.patch && plan.ips == st.ips
  {
    var wanted := DesiredVars(p, TemplateVars(ns));
    PlanIs(p, netconfig, ns, all, wanted);
    AssembledNodes(p, netconfig, ns, wanted, NodesResult(p, ns, all).value);
  }

  lemma LoopIsDone(p: Params, ns: Json, all: seq<Json>)
    requires ValidParams(p) && NodesResult(p, ns, all).Some?
    ensures LoopDone(p, Nodes(ns), TemplateVars(ns), NodesResult(p, ns, all).value, SortedNames(Keys(Nodes(ns))))
  {
    NamesNoRepeats(ns);
    NodeLoopDone(p, Nodes(ns), TemplateVars(ns), StartState(p, ns, all), SortedNames(Keys(Nodes(ns))));
  }

  lemma RecordedNodes(p: Params, ns: Json, plan: NodePlan, st: LoopState)
    requires LoopDone(p, Nodes(ns), TemplateVars(ns), st, SortedNames(Keys(Nodes(ns))))
    requires plan.nodes == st.patch && plan.ips == st.ips
    ensures plan.ips.Keys == Keys(Nodes(ns)) && Keys(Nodes(Patched(ns, plan))) == Keys(Nodes(ns))
    ensures forall n :: n in Keys(Nodes(ns)) ==>
      && NodeDone(p, TemplateVars(ns), st, n, Field(Nodes(ns), n))
      && Field(Nodes(Patched(ns, plan)), n) == NodeAfter(p, TemplateVars(ns), Field(Nodes(ns), n), plan.ips[n])
  {
    PatchedNodes(p, ns, plan, st, SortedNames(Keys(Nodes(ns))));
  }

  lemma NodesDone(p: Params, netconfig: Json, ns: Json, all: seq<Json>)
    requires ValidParams(p) && PlanNodeSet(p, netconfig, ns, all).Some?
    ensures NodesResult(p, ns, all).Some?
    ensures var plan := PlanNodeSet(p, netconfig, ns, all).value;
      && plan.ips.Keys == Keys(Nodes(ns)) && Keys(Nodes(Patched(ns, plan))) == Keys(Nodes(ns))
      && forall n :: n in Keys(Nodes(ns)) ==>
           && NodeDone(p, TemplateVars(ns), NodesResult(p, ns, all).value, n, Field(Nodes(ns), n))
           && Field(Nodes(Patched(ns, plan)), n) == NodeAfter(p, TemplateVars(ns), Field(Nodes(ns), n), plan.ips[n])
  {
    PlanOfLoop(p, netconfig, ns, all);
    LoopIsDone(p, ns, all);
    RecordedNodes(p, ns, PlanNodeSet(p, netconfig, ns, all).value, NodesResult(p, ns, all).value);
  }

  /** The address recorded for a node: its own, or the least one left in name order. */
  lemma NodeAddressExact(p: Params, netconfig: Json, ns: Json, all: seq<Json>, n: string)
    requires ValidParams(p) && PlanNodeSet(p, netconfig, ns, all).Some? && n in Keys(NodesOf(ns))
    ensures var ips := PlanNodeSet(p, netconfig, ns, all).value.ips;
      && ips.Keys == Keys(NodesOf(ns))
      && (HoldsSome(p, Field(NodesOf(ns), n)) ==> Holds(p, Field(NodesOf(ns), n), ips[n]))
      && (!HoldsSome(p, Field(NodesOf(ns), n)) ==> exists a :: LeastLeft(p, ns, all, ips, n, a) && ips[n] == Dotted(a))
  {
    NodesDone(p, netconfig, ns, all);
    var ips, node := PlanNodeSet(p, netconfig, ns, all).value.ips, Field(Nodes(ns), n);
    assert NodeDone(p, TemplateVars(ns), NodesResult(p, ns, all).value, n, node);
    HoldsSomeExact(p, node);
    HoldsExact(p, node, ips[n]);
    if !HoldsSome(p, node) {
      var a := LeastLeftIs(p, ns, all, n);
      assert LeastLeft(p, ns, all, ips, n, a);
    }
  }

  /** Nobody holds address a of the range, and every lower one is held or was just given to an earlier node. */
  ghost predicate LeastLeft(p: Params, ns: Json, all: seq<Json>, ips: map<string, string>, n: string, a: nat) {
    && a < 0x1_0000_0000 && InAllocation(p, a) && !HeldBySome(p, ns, all, Dotted(a))
    && forall b: nat :: b < a && InAllocation(p, b) ==>
         HeldBySome(p, ns, all, Dotted(b)) || GivenBefore(p, ns, ips, n, Dotted(b))
  }

  ghost predicate GivenBefore(p: Params, ns: Json, ips: map<string, string>, n: string, ip: string) {
    exists m :: m in Keys(NodesOf(ns)) && m != n && StrLe(m, n) && m in ips && !HoldsSome(p, Field(NodesOf(ns), m)) && ips[m] == ip
  }

  lemma LeastLeftIs(p: Params, ns: Json, all: seq<Json>, n: string) returns (a: nat)
    requires ValidParams(p) && NodesResult(p, ns, all).Some? && n in Keys(Nodes(ns)) && IsNew(p, Nodes(ns), n)
    ensures var ips := NodesResult(p, ns, all).value.ips;
      LeastLeft(p, ns, all, ips, n, a) && n in ips && ips[n] == Dotted(a)
  {
    var names, ips := SortedNames(Keys(Nodes(ns))), NodesResult(p, ns, all).value.ips;
    LeastAddresses(p, ns, all);
    var i :| 0 <= i < |names| && names[i] == n;
    a := LeastOf(p, ns, all, ips, names, i);
  }

  lemma LeastOf(p: Params, ns: Json, all: seq<Json>, ips: map<string, string>, names: seq<string>, i: nat) returns (a: nat)
    requires ValidParams(p) && names == SortedNames(Keys(Nodes(ns))) && i < |names| && names[i] in ips
    requires LeastFor(p, Nodes(ns), Taken(p, ns, all), ips, names[..i], ips[names[i]])
    ensures LeastLeft(p, ns, all, ips, names[i], a) && ips[names[i]] == Dotted(a)
  {
    var taken := Taken(p, ns, all);
    AllocFits(p);
    a :| AllocStart(p) <= a <= AllocEnd(p) && ips[names[i]] == Dotted(a) && !Gone(p, Nodes(ns), taken, ips, names[..i], a)
         && forall b: nat :: AllocStart(p) <= b < a ==> Gone(p, Nodes(ns), taken, ips, names[..i], b);
    AllocationExact(p, a);
    TakenExact(p, ns, all, Dotted(a));
    forall b: nat | b < a && InAllocation(p, b)
      ensures HeldBySome(p, ns, all, Dotted(b)) || GivenBefore(p, ns, ips, names[i], Dotted(b))
    {
      AllocationExact(p, b);
      GoneIs(p, ns, all, ips, names, i, b);
    }
  }

  lemma GoneIs(p: Params, ns: Json, all: seq<Json>, ips: map<string, string>, names: seq<string>, i: nat, b: nat)
    requires names == SortedNames(Keys(Nodes(ns))) && i < |names| && b < 0x1_0000_0000
    requires Gone(p, Nodes(ns), Taken(p, ns, all), ips, names[..i], b)
    ensures HeldBySome(p, ns, all, Dotted(b)) || GivenBefore(p, ns, ips, names[i], Dotted(b))
  {
    TakenExact(p, ns, all, Dotted(b));
    if GivenTo(p, Nodes(ns), ips, names[..i], Dotted(b)) {
      EarlierNode(p, ns, ips, names, i, Dotted(b));
    }
  }

  lemma InOrder(s: set<string>, j: nat, i: nat)
    requires j < i < |SortedNames(s)|
    ensures SortedNames(s)[j] != SortedNames(s)[i] && StrLe(SortedNames(s)[j], SortedNames(s)[i])
  {
  }

  lemma EarlierNode(p: Params, ns: Json, ips: map<string, string>, names: seq<string>, i: nat, ip: string)
    requires names == SortedNames(Keys(Nodes(ns))) && i < |names|
    requires GivenTo(p, Nodes(ns), ips, names[..i], ip)
    ensures GivenBefore(p, ns, ips, names[i], ip)
  {
    var m :| m in names[..i] && m in ips && IsNew(p, Nodes(ns), m) && ips[m] == ip;
    var j :| 0 <= j < i && names[j] == m;
    InOrder(Keys(Nodes(ns)), j, i);
    NewIsNeedy(p, ns, m);
  }

  lemma NewIsNeedy(p: Params, ns: Json, m: string)
    ensures IsNew(p, Nodes(ns), m) <==> !HoldsSome(p, Field(NodesOf(ns), m))
  {
    HoldsSomeExact(p, Field(Nodes(ns), m));
  }

  /** A node is in the patch exactly when it held no address or uses another local IP; if it uses the right one that part stays. */
  lemma NodePatchedExact(p: Params, netconfig: Json, ns: Json, all: seq<Json>, n: string)
    requires ValidParams(p) && PlanNodeSet(p, netconfig, ns, all).Some?
    ensures var plan := PlanNodeSet(p, netconfig, ns, all).value; var node := Field(NodesOf(ns), n);
      && (n in plan.nodes ==> n in Keys(NodesOf(ns)))
      && (n in Keys(NodesOf(ns)) ==>
           && n in plan.ips && (n in plan.nodes <==> !HoldsSome(p, node) || LocalIp(node, ns) != Str(plan.ips[n]))
           && (LocalIp(node, ns) == Str(plan.ips[n]) ==>
                Field(Field(NodesOf(Patched(ns, plan)), n), "ansible") == Field(node, "ansible")))
  {
    NodesDone(p, netconfig, ns, all);
    PlanOfLoop(p, netconfig, ns, all);
    LoopIsDone(p, ns, all);
    var plan, node := PlanNodeSet(p, netconfig, ns, all).value, Field(Nodes(ns), n);
    if n in Keys(Nodes(ns)) {
      assert NodeDone(p, TemplateVars(ns), NodesResult(p, ns, all).value, n, node);
      HoldsSomeExact(p, node);
      EntryNeeded(p, ns, node, plan.ips[n]);
    }
  }

  lemma EntryNeeded(p: Params, ns: Json, node: Json, ip: string)
    ensures NodeEntry(p, TemplateVars(ns), node, ip) == map[] <==> FixedIp(p, NodeNets(node)) != "" && LocalIp(node, ns) == Str(ip)
    ensures LocalIp(node, ns) == Str(ip) ==>
      Field(NodeAfter(p, TemplateVars(ns), node, ip), "ansible") == Field(node, "ansible")
  {
    var entry := NodeEntry(p, TemplateVars(ns), node, ip);
    EntryShape(p, TemplateVars(ns), node, ip);
    assert entry == map[] <==> "networks" !in entry && "ansible" !in entry;
    if entry != map[] { MergeField(node, entry, "ansible"); }
  }

  /**
   * A node after the patch: its networks, and one fabric entry more if it held no address; its local IP,
   * its own or the template's, is the recorded address; nothing else about it changes.
   */
  lemma NodeInstalled(p: Params, netconfig: Json, ns: Json, all: seq<Json>, n: string, key: string)
    requires ValidParams(p) && PlanNodeSet(p, netconfig, ns, all).Some? && n in Keys(NodesOf(ns))
    ensures var plan := PlanNodeSet(p, netconfig, ns, all).value;
      var node, after, ns' := Field(NodesOf(ns), n), Field(NodesOf(Patched(ns, plan)), n), Patched(ns, plan);
      && Keys(NodesOf(ns')) == Keys(NodesOf(ns)) && n in plan.ips
      && Items(Field(after, "networks")) == Items(Field(node, "networks"))
           + (if HoldsSome(p, node) then [] else
                [Obj(map["name" := Str(p.network), "subnetName" := Str(p.subnet), "fixedIP" := Str(plan.ips[n])])])
      && LocalIp(after, ns) == Str(plan.ips[n])
      && (key !in {"networks", "ansible"} ==> Field(after, key) == Field(node, key))
      && (key != "ansibleVars" ==> Field(Field(after, "ansible"), key) == Field(Field(node, "ansible"), key))
      && (key != "edpm_neutron_ovn_evpn_local_ip" ==>
           Field(Field(Field(after, "ansible"), "ansibleVars"), key) == Field(Field(Field(node, "ansible"), "ansibleVars"), key))
  {
    NodesDone(p, netconfig, ns, all);
    var plan, node := PlanNodeSet(p, netconfig, ns, all).value, Field(Nodes(ns), n);
    assert NodeDone(p, TemplateVars(ns), NodesResult(p, ns, all).value, n, node);
    HoldsSomeExact(p, node);
    NodeAfterFields(p, TemplateVars(ns), node, plan.ips[n]);
    NodeFrame(p, TemplateVars(ns), node, plan.ips[n], key);
  }

  /** The VTEP address a node uses: its own variable, or the template's. */
  function LocalIp(node: Json, ns: Json): Json {
    var own := Field(Field(Field(node, "ansible"), "ansibleVars"), "edpm_neutron_ovn_evpn_local_ip");
    if Truthy(own) then own else Field(VarsOf(ns), "edpm_neutron_ovn_evpn_local_ip")
  }

  lemma NodeFrame(p: Params, tmpl: Json, node: Json, ip: string, key: string)
    ensures var after := NodeAfter(p, tmpl, node, ip);
      && (key !in {"networks", "ansible"} ==> Field(after, key) == Field(node, key))
      && (key != "ansibleVars" ==> Field(Field(after, "ansible"), key) == Field(Field(node, "ansible"), key))
      && (key != LOCAL_IP ==> Field(NodeVars(after), key) == Field(NodeVars(node), key))
  {
    var entry := NodeEntry(p, tmpl, node, ip);
    EntryShape(p, tmpl, node, ip);
    if entry != map[] {
      MergeField(node, entry, key);
      MergeField(node, entry, "ansible");
      if "ansible" in entry {
        var vars := map[LOCAL_IP := Str(ip)];
        MergeField(Field(node, "ansible"), map["ansibleVars" := Obj(vars)], key);
        MergeField(Field(node, "ansible"), map["ansibleVars" := Obj(vars)], "ansibleVars");
        MergeField(NodeVars(node), vars, key);
      }
    }
  }

  // ---------------------------------------------------------------- the services

  /** Position of the first occurrence of x, as far as there is one. */
  ghost predicate FirstAt(svcs: seq<Json>, x: Json, i: int) {
    0 <= i < |svcs| && svcs[i] == x && forall j :: 0 <= j < i ==> svcs[j] != x
  }

  /** Right after the first anchor, or at the end without one. */
  lemma InsertExact(svcs: seq<Json>, x: Json, after: Json) returns (at: nat)
    requires x !in svcs
    ensures at <= |svcs| && InsertAfter(svcs, x, after) == svcs[..at] + [x] + svcs[at..]
    ensures if after in svcs then FirstAt(svcs, after, at - 1) else at == |svcs|
  {
    at := if after in svcs then IndexOf(svcs, after) + 1 else |svcs|;
    if after in svcs {
      forall j | 0 <= j < at - 1 ensures svcs[j] != after { assert svcs[j] == svcs[..at - 1][j]; }
    }
  }

  lemma Spliced(svcs: seq<Json>, at: nat, x: Json)
    requires at <= |svcs|
    ensures var out := svcs[..at] + [x] + svcs[at..];
      && |out| == |svcs| + 1 && out[at] == x
      && (forall j :: 0 <= j < at ==> out[j] == svcs[j])
      && (forall j :: at <= j < |svcs| ==> out[j + 1] == svcs[j])
      && multiset(out) == multiset(svcs) + multiset{x}
      && (forall y :: y in out <==> y in svcs || y == x)
  {
    assert svcs == svcs[..at] + svcs[at..];
  }

  /**
   * The services after the patch: what was there, `frr` and `neutron-ovn` once each if they were not, the
   * first right after the first `install-certs`, the second right after the first `ovn`.
   */
  lemma ServicesExact(svcs: seq<Json>)
    ensures var frr, agent, out := Str("frr"), Str("neutron-ovn"), WantedServices(svcs);
      && multiset(out) == multiset(svcs) + (if frr in svcs then multiset{} else multiset{frr})
                          + (if agent in svcs then multiset{} else multiset{agent})
      && (frr !in svcs && Str("install-certs") in svcs ==>
           exists i :: FirstAt(out, Str("install-certs"), i) && i + 1 < |out| && out[i + 1] == frr)
      && (agent !in svcs && Str("ovn") in svcs ==>
           exists i :: FirstAt(out, Str("ovn"), i) && i + 1 < |out| && out[i + 1] == agent)
      && (frr !in svcs && agent !in svcs && Str("install-certs") !in svcs && Str("ovn") !in svcs ==> out == svcs + [frr, agent])
  {
    var frr, agent, certs, ovn := Str("frr"), Str("neutron-ovn"), Str("install-certs"), Str("ovn");
    var mid := InsertAfter(svcs, frr, certs);
    assert |frr.s| == 3 && |ovn.s| == 3 && frr.s[0] == 'f' && ovn.s[0] == 'o' && |agent.s| == 11 && |certs.s| == 13;
    if frr !in svcs { AfterAnchor(svcs, frr, certs); }
    if agent !in svcs {
      assert agent !in mid;
      AfterAnchor(mid, agent, ovn);
    }
    if frr !in svcs && certs in svcs && agent !in svcs {
      PairStays(mid, certs, frr, agent, ovn);
    }
    if certs !in svcs && ovn !in svcs && frr !in svcs && agent !in svcs {
      assert mid == svcs + [frr];
      assert svcs + [frr] + [agent] == svcs + [frr, agent];
    }
  }

  lemma AfterAnchor(svcs: seq<Json>, x: Json, after: Json)
    requires x !in svcs && x != after
    ensures var out := InsertAfter(svcs, x, after);
      && multiset(out) == multiset(svcs) + multiset{x}
      && (forall y :: y in out <==> y in svcs || y == x)
      && (after in svcs ==> exists i :: FirstAt(out, after, i) && i + 1 < |out| && out[i + 1] == x)
      && (after !in svcs ==> out == svcs + [x])
  {
    var at := InsertExact(svcs, x, after);
    Spliced(svcs, at, x);
    if after in svcs {
      assert FirstAt(InsertAfter(svcs, x, after), after, at - 1);
    } else {
      assert svcs[..at] == svcs && svcs[at..] == [];
    }
  }

  /** Inserting after another anchor does not come between a service and the one right after it. */
  lemma PairStays(svcs: seq<Json>, first: Json, second: Json, x: Json, after: Json)
    requires x !in svcs && x != first && after != first
    requires exists i :: FirstAt(svcs, first, i) && i + 1 < |svcs| && svcs[i + 1] == second
    ensures var out := InsertAfter(svcs, x, after);
      exists i :: FirstAt(out, first, i) && i + 1 < |out| && out[i + 1] == second
  {
    var i :| FirstAt(svcs, first, i) && i + 1 < |svcs| && svcs[i + 1] == second;
    var at := InsertExact(svcs, x, after);
    Spliced(svcs, at, x);
    PairAt(svcs, InsertAfter(svcs, x, after), at, first, x, i);
  }

  lemma PairAt(svcs: seq<Json>, out: seq<Json>, at: nat, first: Json, x: Json, i: nat)
    requires FirstAt(svcs, first, i) && i + 1 < |svcs| && x != first && at <= |svcs| && at != i + 1
    requires |out| == |svcs| + 1 && out[at] == x
    requires forall j :: 0 <= j < at ==> out[j] == svcs[j]
    requires forall j :: at <= j < |svcs| ==> out[j + 1] == svcs[j]
    ensures exists k :: FirstAt(out, first, k) && k + 1 < |out| && out[k + 1] == svcs[i + 1]
  {
    if at <= i {
      forall j | 0 <= j < i + 1 ensures out[j] != first {
        if j > at { assert out[j - 1 + 1] == svcs[j - 1]; }
      }
      assert FirstAt(out, first, i + 1);
    } else {
      assert FirstAt(out, first, i);
    }
  }

  // ---------------------------------------------------------------- the patch as a whole

  /** The services that end up in the NodeSet, and when the patch speaks of them. */
  lemma ServicesInstalled(p: Params, netconfig: Json, ns: Json, all: seq<Json>)
    requires ValidParams(p) && PlanNodeSet(p, netconfig, ns, all).Some?
    ensures var plan, svcs := PlanNodeSet(p, netconfig, ns, all).value, Items(Field(Field(ns, "spec"), "services"));
      && Items(Field(Field(Patched(ns, plan), "spec"), "services")) == WantedServices(svcs)
      && (plan.services.None? <==> Str("frr") in svcs && Str("neutron-ovn") in svcs)
  {
    var svcs := Services(ns);
    PatchedServices(ns, PlanNodeSet(p, netconfig, ns, all).value);
    if WantedServices(svcs) == svcs { ServicesSettle(svcs); }
  }

  lemma TopUntouched(ns: Json, plan: NodePlan, key: string)
    requires key !in {"apiVersion", "kind", "metadata", "spec"}
    ensures Field(Patched(ns, plan), key) == Field(ns, key)
  {
    if Changed(plan) { MergeField(ns, PatchFile(ns, SpecPatch(plan)), key); }
  }

  lemma SpecUntouched(ns: Json, plan: NodePlan, key: string)
    requires key !in {"nodeTemplate", "nodes", "services"}
    ensures Field(Field(Patched(ns, plan), "spec"), key) == Field(Field(ns, "spec"), key)
  {
    if Changed(plan) { MergedSpec(ns, plan, key); }
  }

  lemma MetadataUntouched(ns: Json, plan: NodePlan, key: string)
    requires key !in {"name", "namespace"}
    ensures Field(Field(Patched(ns, plan), "metadata"), key) == Field(Field(ns, "metadata"), key)
  {
    if Changed(plan) {
      var meta := map["name" := Field(Field(ns, "metadata"), "name"), "namespace" := Field(Field(ns, "metadata"), "namespace")];
      MergeField(ns, PatchFile(ns, SpecPatch(plan)), "metadata");
      MergeField(Field(ns, "metadata"), meta, key);
    }
  }

  /** Members the patch does not name stay as they are. */
  lemma RestUntouched(ns: Json, plan: NodePlan, key: string)
    ensures var ns' := Patched(ns, plan);
      && (key !in {"apiVersion", "kind", "metadata", "spec"} ==> Field(ns', key) == Field(ns, key))
      && (key !in {"nodeTemplate", "nodes", "services"} ==> Field(Field(ns', "spec"), key) == Field(Field(ns, "spec"), key))
      && (key !in {"name", "namespace"} ==> Field(Field(ns', "metadata"), key) == Field(Field(ns, "metadata"), key))
  {
    if key !in {"apiVersion", "kind", "metadata", "spec"} { TopUntouched(ns, plan, key); }
    if key !in {"nodeTemplate", "nodes", "services"} { SpecUntouched(ns, plan, key); }
    if key !in {"name", "namespace"} { MetadataUntouched(ns, plan, key); }
  }

  /** The file that is written: what identifies the NodeSet, and the members of the spec that change. */
  lemma PatchFileExact(ns: Json, plan: NodePlan)
    ensures var file := Obj(PatchFile(ns, SpecPatch(plan)));
      && Keys(file) == {"apiVersion", "kind", "metadata", "spec"}
      && Field(file, "apiVersion") == Field(ns, "apiVersion") && Field(file, "kind") == Field(ns, "kind")
      && Field(file, "metadata") ==
           Obj(map["name" := Field(Field(ns, "metadata"), "name"), "namespace" := Field(Field(ns, "metadata"), "namespace")])
      && SpecExact(plan, Field(file, "spec"))
  {
    SpecPatchExact(plan);
    FileMembers(ns, SpecPatch(plan));
  }

  /** A member of the spec is named exactly when there is something to change in it. */
  ghost predicate SpecExact(plan: NodePlan, spec: Json) {
    && Keys(spec) <= {"nodeTemplate", "nodes", "services"}
    && (if plan.vars == map[] then "nodeTemplate" !in Keys(spec)
        else Field(spec, "nodeTemplate") == Obj(map["ansible" := Obj(map["ansibleVars" := Obj(plan.vars)])]))
    && (if plan.nodes == map[] then "nodes" !in Keys(spec) else Field(spec, "nodes") == Obj(plan.nodes))
    && (if plan.services.None? then "services" !in Keys(spec) else Field(spec, "services") == Arr(plan.services.value))
  }

  lemma SpecPatchExact(plan: NodePlan)
    ensures SpecExact(plan, Obj(SpecPatch(plan)))
  {
  }

  lemma FileMembers(obj: Json, spec: map<string, Json>)
    ensures var file := Obj(PatchFile(obj, spec));
      && Keys(file) == {"apiVersion", "kind", "metadata", "spec"} && Field(file, "spec") == Obj(spec)
      && Field(file, "apiVersion") == Field(obj, "apiVersion") && Field(file, "kind") == Field(obj, "kind")
      && Field(file, "metadata") ==
           Obj(map["name" := Field(Field(obj, "metadata"), "name"), "namespace" := Field(Field(obj, "metadata"), "namespace")])
  {
  }

  lemma FingerprintOf(p: Params, netconfig: Json, ns: Json, wanted: map<string, Json>, loop: LoopState, k: string)
    requires ValidParams(p)
    ensures var plan := Assemble(p, netconfig, ns, wanted, loop); var f := plan.fingerprint;
      && f.nodeset == NameIn(ns) && f.ips == plan.ips && f.iface == p.iface
      && f.net == DesiredNetwork(p, Items(Field(Field(netconfig, "spec"), "networks")))
      && (k in f.vars <==> k in wanted && k != "edpm_network_config_template")
      && (k in f.vars ==> f.vars[k] == wanted[k])
  {
  }

  /** What is hashed: the template is left out, and nothing of it depends on what was patched before. */
  lemma FingerprintExact(p: Params, netconfig: Json, ns: Json, all: seq<Json>, k: string)
    requires ValidParams(p) && PlanNodeSet(p, netconfig, ns, all).Some?
    ensures var plan, wanted := PlanNodeSet(p, netconfig, ns, all).value, DesiredVars(p, VarsOf(ns)); var f := plan.fingerprint;
      && f.nodeset == NameIn(ns) && f.ips == plan.ips && f.iface == p.iface
      && f.net == DesiredNetwork(p, Items(Field(Field(netconfig, "spec"), "networks")))
      && (k in f.vars <==> k in wanted && k != "edpm_network_config_template")
      && (k in f.vars ==> f.vars[k] == wanted[k])
  {
    var wanted := DesiredVars(p, TemplateVars(ns));
    PlanIs(p, netconfig, ns, all, wanted);
    FingerprintOf(p, netconfig, ns, wanted, NodesResult(p, ns, all).value, k);
  }
}
