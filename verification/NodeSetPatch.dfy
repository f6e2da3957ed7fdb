/** The NodeSet half of edpm_fabric_patch.py: fixed IPs, template variables, services, fingerprint. */
module NodeSetPatch {
  import opened Prelude
  import opened Numerals
  import opened JsonMerge
  import opened NetConfigPatch

  const LOCAL_IP := "edpm_neutron_ovn_evpn_local_ip"
  const TEMPLATE := "edpm_network_config_template"
  const USER_RULES := "edpm_nftables_user_rules"

  // ---------------------------------------------------------------- reading a NodeSet

  function NameOf(ns: Json): string { Text(Field(Field(ns, "metadata"), "name")) }

  function Nodes(ns: Json): Json { Field(Field(ns, "spec"), "nodes") }

  function NodeNets(node: Json): seq<Json> { Items(Field(node, "networks")) }

  function NodeVars(node: Json): Json { Field(Field(node, "ansible"), "ansibleVars") }

  function TemplateVars(ns: Json): Json {
    Field(Field(Field(Field(ns, "spec"), "nodeTemplate"), "ansible"), "ansibleVars")
  }

  function Services(ns: Json): seq<Json> { Items(Field(Field(ns, "spec"), "services")) }

  /** The fixedIP of the node's first fabric entry; empty when there is none. */
  function FixedIp(p: Params, nets: seq<Json>): string {
    var i := FirstOwn(p, nets);
    if i < |nets| then Text(Field(nets[i], "fixedIP")) else ""
  }

  /** Every fixed IP of every fabric entry. */
  function FabricIps(p: Params, nets: seq<Json>): set<string> {
    set n | n in nets && IsOwn(p, n) && Text(Field(n, "fixedIP")) != "" :: Text(Field(n, "fixedIP"))
  }

  function NodeSetIps(p: Params, ns: Json): set<string> {
    set k, ip | k in Keys(Nodes(ns)) && ip in FabricIps(p, NodeNets(Field(Nodes(ns), k))) :: ip
  }

  /** Addresses taken before the loop: those of every other NodeSet and of this one. */
  function Taken(p: Params, ns: Json, all: seq<Json>): set<string> {
    (set o, ip | o in all && NameOf(o) != NameOf(ns) && ip in NodeSetIps(p, o) :: ip) + NodeSetIps(p, ns)
  }

  // ---------------------------------------------------------------- the node loop

  datatype LoopState = LoopState(used: set<string>, cursor: nat, patch: map<string, Json>, ips: map<string, string>)

  /** `str(ip_address(cursor)) in used`. */
  predicate InUse(cursor: nat, used: set<string>)
    requires cursor < 0x1_0000_0000
  {
    Dotted(cursor) in used
  }

  /** The cursor moved past used addresses; None past the IPv4 space. */
  function NextFree(cursor: nat, used: set<string>): Option<nat>
    decreases 0x1_0000_0000 - cursor
  {
    if cursor >= 0x1_0000_0000 then None
    else if InUse(cursor, used) then NextFree(cursor + 1, used)
    else Some(cursor)
  }

  function NextAddress(p: Params, st: LoopState): Option<nat>
    requires ValidParams(p)
    ensures NextAddress(p, st).Some? ==> NextAddress(p, st).value < 0x1_0000_0000
  {
    var c := NextFree(st.cursor, st.used);
    NextFreeFits(st.cursor, st.used);
    if c.None? || c.value > AllocEnd(p) then None else c
  }

  lemma {:induction false} NextFreeFits(cursor: nat, used: set<string>)
    ensures NextFree(cursor, used).Some? ==> NextFree(cursor, used).value < 0x1_0000_0000
    decreases 0x1_0000_0000 - cursor
  {
    if 0x1_0000_0000 <= cursor {
    } else {
      NextFreeFits(cursor + 1, used);
    }
  }

  function FreshEntry(p: Params, ip: string): Json {
    Obj(map["name" := Str(p.network), "subnetName" := Str(p.subnet), "fixedIP" := Str(ip)])
  }

  /** What the patch says about one node: new networks if it was just given an address, the local IP if it is off. */
  function NodeEntry(p: Params, tmpl: Json, node: Json, ip: string): map<string, Json> {
    (if FixedIp(p, NodeNets(node)) == "" then map["networks" := Arr(NodeNets(node) + [FreshEntry(p, ip)])] else map[])
    + (if Or(Field(NodeVars(node), LOCAL_IP), Field(tmpl, LOCAL_IP)) != Str(ip)
       then map["ansible" := Obj(map["ansibleVars" := Obj(map[LOCAL_IP := Str(ip)])])] else map[])
  }

  function Recorded(p: Params, tmpl: Json, st: LoopState, name: string, node: Json, ip: string): LoopState {
    var entry := NodeEntry(p, tmpl, node, ip);
    st.(ips := st.ips[name := ip], patch := if entry != map[] then st.patch[name := Obj(entry)] else st.patch)
  }

  function NodeStep(p: Params, tmpl: Json, st: LoopState, name: string, node: Json): Option<LoopState>
    requires ValidParams(p)
  {
    var held := FixedIp(p, NodeNets(node));
    if held != "" then Some(Recorded(p, tmpl, st, name, node, held))
    else
      match NextAddress(p, st)
      case None => None
      case Some(c) =>
        Some(HandedOut(p, tmpl, st, name, node, Dotted(c), c))
  }

  /** The node is given the address at c: it counts as used, and the cursor moves on. */
  function HandedOut(p: Params, tmpl: Json, st: LoopState, name: string, node: Json, ip: string, c: nat): LoopState {
    Recorded(p, tmpl, st, name, node, ip).(used := st.used + {ip}, cursor := c + 1)
  }

  function NodeLoop(p: Params, nodes: Json, tmpl: Json, st: LoopState, names: seq<string>): Option<LoopState>
    requires ValidParams(p)
    decreases |names|
  {
    if names == [] then Some(st)
    else
      var n := |names| - 1;
      var before := NodeLoop(p, nodes, tmpl, st, names[..n]);
      if before.None? then None else NodeStep(p, tmpl, before.value, names[n], Field(nodes, names[n]))
  }

  function StartState(p: Params, ns: Json, all: seq<Json>): LoopState {
    LoopState(Taken(p, ns, all), AllocStart(p), map[], map[])
  }

  function NodesResult(p: Params, ns: Json, all: seq<Json>): Option<LoopState>
    requires ValidParams(p)
  {
    NodeLoop(p, Nodes(ns), TemplateVars(ns), StartState(p, ns, all), SortedNames(Keys(Nodes(ns))))
  }

  // ---------------------------------------------------------------- nftables rules

  const RULE_VXLAN := "150 fabric evpn vxlan"
  const RULE_BGP := "151 fabric bgp"

  predicate IsFabricRule(r: Json) {
    Field(r, "rule_name") == Str(RULE_VXLAN) || Field(r, "rule_name") == Str(RULE_BGP)
  }

  function OtherRules(rules: seq<Json>): seq<Json> {
    if rules == [] then []
    else if IsFabricRule(rules[0]) then OtherRules(rules[1..]) else [rules[0]] + OtherRules(rules[1..])
  }

  function Join(parts: seq<string>): string {
    if parts == [] then "" else if |parts| == 1 then parts[0] else parts[0] + ", " + Join(parts[1..])
  }

  function FabricRule(p: Params, name: string, proto: string, port: int): Json {
    Obj(map["rule_name" := Str(name),
            "rule" := Obj(map["proto" := Str(proto), "dport" := Arr([Num(port)]), "source" := Str("{ " + Join(p.nftSources) + " }")])])
  }

  function Rules(p: Params, existing: seq<Json>): seq<Json> {
    OtherRules(existing) + [FabricRule(p, RULE_VXLAN, "udp", 4789), FabricRule(p, RULE_BGP, "tcp", 179)]
  }

  // ---------------------------------------------------------------- the network config template

  predicate IsSpace(c: char) {
    c == ' ' || '\t' <= c <= '\r' || '\U{1c}' <= c <= '\U{1f}'
  }

  predicate AllSpace(s: string) {
    forall i :: 0 <= i < |s| ==> IsSpace(s[i])
  }

  /** One match of `name:\s*<iface>\s*$` in multi-line mode, at position i. */
  predicate NameMatch(t: string, iface: string, i: nat, j: nat, l: nat) {
    && i + 5 <= j && j + |iface| <= l <= |t|
    && t[i..i + 5] == "name:" && AllSpace(t[i + 5..j])
    && t[j..j + |iface|] == iface && AllSpace(t[j + |iface|..l])
    && (l == |t| || t[l] == '\n')
  }

  predicate InterfacePresent(t: string, iface: string) {
    exists i, j, l | 0 <= i <= |t| && 0 <= j <= |t| && 0 <= l <= |t| :: NameMatch(t, iface, i, j, l)
  }

  const BRIDGE := "- type: ovs_bridge"

  /** First line that starts with the bridge, from position i on. */
  function FirstBridge(t: string, i: nat): (at: Option<nat>)
    ensures at.Some? ==> at.value <= |t|
    decreases |t| - i
  {
    if i >= |t| then None
    else if (i == 0 || t[i - 1] == '\n') && BRIDGE <= t[i..] then Some(i)
    else FirstBridge(t, i + 1)
  }

  function RStrip(t: string): string {
    if t != "" && t[|t| - 1] == '\n' then RStrip(t[..|t| - 1]) else t
  }

  function BlockHead(): string { "- type: interface\n  " }

  function BlockTail(p: Params): string {
    "\n  mtu: {{ " + p.network + "_mtu }}\n  use_dhcp: false\n  addresses:\n  - ip_netmask: {{ " + p.network + "_ip }}/{{ "
    + p.network + "_cidr }}\n  routes: {{ " + p.network + "_host_routes }}\n"
  }

  function InterfaceBlock(p: Params): string {
    BlockHead() + "name: " + p.iface + BlockTail(p)
  }

  function Extended(p: Params, t: string): string {
    match FirstBridge(t, 0)
    case Some(i) => t[..i] + InterfaceBlock(p) + t[i..]
    case None => RStrip(t) + "\n" + InterfaceBlock(p)
  }

  // ---------------------------------------------------------------- template variables

  function BaseVars(p: Params, rules: seq<Json>): map<string, Json> {
    map[p.network + "_cidr" := Str(Decimal(p.cidr.len)),
        p.network + "_mtu" := Num(p.mtu),
        "edpm_enable_chassis_gw" := Bool(true),
        "edpm_frr_bgp_asn" := Num(p.asn),
        "edpm_frr_bgp_ipv4_src_network" := Str(p.network),
        "edpm_frr_bgp_ipv6" := Bool(false),
        "edpm_frr_bfd" := Bool(false),
        "edpm_frr_bgp_peers" := Arr([Str(p.loopback)]),
        "edpm_frr_bgp_uplinks" := Arr([]),
        "edpm_frr_bgp_uplinks_scope" := Str("internal"),
        "edpm_frr_bgp_neighbor_ttl_security_hops" := Num(0),
        "edpm_frr_bgp_l2vpn" := Bool(true),
        "edpm_frr_bgp_l2vpn_uplink_activate" := Bool(true),
        "edpm_frr_bgp_l2vpn_peers" := Arr([]),
        "edpm_frr_bgp_expose_only_host" := Bool(true),
        "edpm_frr_bgp_learning_routes" := Bool(false),
        "edpm_neutron_ovn_agent_agent_extensions" := Str("ovn-evpn"),
        "edpm_neutron_ovn_evpn_vxlan_port" := Num(4789),
        "edpm_neutron_ovn_agent_ovn_evpn_bgp_as" := Str(SignedDecimal(p.asn)),
        "edpm_neutron_ovn_agent_ovn_evpn_bgp_local_interface" := Str(p.iface)]
    + map[USER_RULES := Arr(rules)]
  }

  function SignedDecimal(n: int): string {
    if n >= 0 then Decimal(n) else "-" + Decimal(-n)
  }

  function DesiredVars(p: Params, tmpl: Json): map<string, Json> {
    var base := BaseVars(p, Rules(p, Items(Field(tmpl, USER_RULES))));
    var t := Text(Field(tmpl, TEMPLATE));
    if InterfacePresent(t, p.iface) then base else base[TEMPLATE := Str(Extended(p, t))]
  }

  function VarsPatch(desired: map<string, Json>, tmpl: Json): map<string, Json> {
    map k | k in desired && !PyEqual(Field(tmpl, k), desired[k]) :: desired[k]
  }

  // ---------------------------------------------------------------- services

  function IndexOf(svcs: seq<Json>, x: Json): (i: nat)
    ensures i <= |svcs| && (i < |svcs| ==> svcs[i] == x)
    ensures x in svcs ==> i < |svcs|
    ensures x !in svcs[..i]
  {
    if svcs == [] || svcs[0] == x then 0 else
      assert svcs[..1 + IndexOf(svcs[1..], x)] == [svcs[0]] + svcs[1..][..IndexOf(svcs[1..], x)];
      1 + IndexOf(svcs[1..], x)
  }

  /** `insert_after`: right after the anchor, or at the end without one; nothing if already there. */
  function InsertAfter(svcs: seq<Json>, x: Json, after: Json): seq<Json> {
    if x in svcs then svcs
    else
      var at := if after in svcs then IndexOf(svcs, after) + 1 else |svcs|;
      svcs[..at] + [x] + svcs[at..]
  }

  function WantedServices(svcs: seq<Json>): seq<Json> {
    InsertAfter(InsertAfter(svcs, Str("frr"), Str("install-certs")), Str("neutron-ovn"), Str("ovn"))
  }

  // ---------------------------------------------------------------- the plan

  /** What the fingerprint hashes; the template is left out so that it is stable across runs. */
  datatype Fingerprint = Fingerprint(nodeset: string, net: Json, vars: map<string, Json>, ips: map<string, string>, iface: string)

  datatype NodePlan = NodePlan(vars: map<string, Json>, nodes: map<string, Json>, services: Option<seq<Json>>,
                               ips: map<string, string>, fingerprint: Fingerprint)

  predicate Changed(plan: NodePlan) {
    plan.vars != map[] || plan.nodes != map[] || plan.services.Some?
  }

  function Assemble(p: Params, netconfig: Json, ns: Json, desired: map<string, Json>, loop: LoopState): NodePlan
    requires ValidParams(p)
  {
    NodePlan(VarsPatch(desired, TemplateVars(ns)), loop.patch, ServicesPatch(Services(ns)), loop.ips,
             Fingerprint(NameOf(ns), DesiredNetwork(p, Networks(netconfig)), desired - {TEMPLATE}, loop.ips, p.iface))
  }

  /** None for an exhausted range and for a NodeSet without a template: both end the run. */
  function PlanNodeSet(p: Params, netconfig: Json, ns: Json, all: seq<Json>): Option<NodePlan>
    requires ValidParams(p)
  {
    var loop := NodesResult(p, ns, all);
    if loop.None? || Text(Field(TemplateVars(ns), TEMPLATE)) == "" then None
    else Some(Assemble(p, netconfig, ns, DesiredVars(p, TemplateVars(ns)), loop.value))
  }

  /** The merge patch that is written when something changed. */
  function SpecPatch(plan: NodePlan): map<string, Json> {
    (if plan.vars != map[] then map["nodeTemplate" := Obj(map["ansible" := Obj(map["ansibleVars" := Obj(plan.vars)])])] else map[])
    + (if plan.nodes != map[] then map["nodes" := Obj(plan.nodes)] else map[])
    + (if plan.services.Some? then map["services" := Arr(plan.services.value)] else map[])
  }

  function Patched(ns: Json, plan: NodePlan): Json {
    if Changed(plan) then MergePatch(ns, Obj(PatchFile(ns, SpecPatch(plan)))) else ns
  }

  // ---------------------------------------------------------------- the program

  method InsertService(svcs: seq<Json>, x: Json, after: Json) returns (out: seq<Json>, changed: bool)
    ensures out == InsertAfter(svcs, x, after)
    ensures changed <==> out != svcs
  {
    if x in svcs {
      return svcs, false;
    }
    var idx := |svcs|;
    if after in svcs {
      idx := IndexOf(svcs, after) + 1;
    }
    out := svcs[..idx] + [x] + svcs[idx..];
    changed := true;
    assert |out| == |svcs| + 1;
  }

  /** Move the cursor past every used address. */
  method MoveCursor(start: nat, used: set<string>) returns (found: Option<nat>)
    ensures found == NextFree(start, used)
  {
    ghost var result := NextFree(start, used);
    var cursor := start;
    while cursor < 0x1_0000_0000 && InUse(cursor, used)
      invariant NextFree(cursor, used) == result
      decreases 0x1_0000_0000 as int - cursor
    {
      NextFreeSkips(cursor, used);
      cursor := cursor + 1;
    }
    NextFreeStops(cursor, used);
    found := if cursor < 0x1_0000_0000 then Some(cursor) else None;
  }

  lemma NextFreeSkips(cursor: nat, used: set<string>)
    requires cursor < 0x1_0000_0000 && InUse(cursor, used)
    ensures NextFree(cursor + 1, used) == NextFree(cursor, used)
  {
  }

  lemma NextFreeStops(cursor: nat, used: set<string>)
    requires cursor < 0x1_0000_0000 ==> !InUse(cursor, used)
    ensures NextFree(cursor, used) == if cursor < 0x1_0000_0000 then Some(cursor) else None
  {
  }

  method FindAddress(p: Params, st: LoopState) returns (found: Option<nat>)
    requires ValidParams(p)
    ensures found == NextAddress(p, st)
  {
    found := MoveCursor(st.cursor, st.used);
    if found.Some? && found.value > AllocEnd(p) {
      found := None;
    }
  }

  method VisitNode(p: Params, tmpl: Json, st: LoopState, name: string, node: Json) returns (after: Option<LoopState>)
    requires ValidParams(p)
    ensures after == NodeStep(p, tmpl, st, name, node)
  {
    var ip := FixedIp(p, NodeNets(node));
    if ip != "" {
      return Some(Recorded(p, tmpl, st, name, node, ip));
    }
    var found := FindAddress(p, st);
    match found
    case None => after := None;
    case Some(cursor) =>
      ip := Dotted(cursor);
      after := Some(HandedOut(p, tmpl, st, name, node, ip, cursor));
  }

  lemma LoopOneMore(p: Params, nodes: Json, tmpl: Json, start: LoopState, names: seq<string>, i: nat, st: LoopState)
    requires ValidParams(p) && i < |names|
    requires NodeLoop(p, nodes, tmpl, start, names[..i]) == Some(st)
    ensures NodeLoop(p, nodes, tmpl, start, names[..i + 1]) == NodeStep(p, tmpl, st, names[i], Field(nodes, names[i]))
  {
    assert names[..i + 1][..i] == names[..i];
  }

  /** The loop over the sorted nodes with its single moving cursor. */
  method AssignFixedIps(p: Params, ns: Json, all: seq<Json>) returns (st: Option<LoopState>)
    requires ValidParams(p)
    ensures st == NodesResult(p, ns, all)
  {
    var nodes, tmpl, start := Nodes(ns), TemplateVars(ns), StartState(p, ns, all);
    var names := SortedNames(Keys(nodes));
    st := Some(start);
    for i := 0 to |names|
      invariant st.Some? && NodeLoop(p, nodes, tmpl, start, names[..i]) == st
    {
      LoopOneMore(p, nodes, tmpl, start, names, i, st.value);
      st := VisitNode(p, tmpl, st.value, names[i], Field(nodes, names[i]));
      if st.None? {
        NoneBefore(p, nodes, tmpl, start, names, i + 1);
        return None;
      }
    }
    assert names[..|names|] == names;
  }

  /** A run that failed at one node has no result. */
  lemma {:induction false} NoneBefore(p: Params, nodes: Json, tmpl: Json, st: LoopState, names: seq<string>, i: nat)
    requires ValidParams(p) && i <= |names|
    requires NodeLoop(p, nodes, tmpl, st, names[..i]).None?
    ensures NodeLoop(p, nodes, tmpl, st, names).None?
    decreases |names|
  {
    if i < |names| {
      assert names[..|names| - 1][..i] == names[..i];
      NoneBefore(p, nodes, tmpl, st, names[..|names| - 1], i);
    } else {
      assert names[..i] == names;
    }
  }

  /** The rules not ours are kept in order, and ours are appended. */
  method RebuildRules(p: Params, existing: seq<Json>) returns (rules: seq<Json>)
    ensures rules == Rules(p, existing)
  {
    rules := [];
    for i := 0 to |existing|
      invariant rules + OtherRules(existing[i..]) == OtherRules(existing)
    {
      assert existing[i..][1..] == existing[i + 1..];
      if !IsFabricRule(existing[i]) {
        rules := rules + [existing[i]];
      }
    }
    rules := rules + [FabricRule(p, RULE_VXLAN, "udp", 4789), FabricRule(p, RULE_BGP, "tcp", 179)];
  }

  method ComputeVars(p: Params, tmpl: Json) returns (desired: map<string, Json>)
    ensures desired == DesiredVars(p, tmpl)
  {
    var rules := RebuildRules(p, Items(Field(tmpl, USER_RULES)));
    desired := BaseVars(p, rules);
    var template := Text(Field(tmpl, TEMPLATE));
    if !InterfacePresent(template, p.iface) {
      desired := desired[TEMPLATE := Str(Extended(p, template))];
    }
  }

  function ServicesPatch(svcs: seq<Json>): Option<seq<Json>> {
    if WantedServices(svcs) == svcs then None else Some(WantedServices(svcs))
  }

  method ComputeServices(svcs: seq<Json>) returns (out: Option<seq<Json>>)
    ensures out == ServicesPatch(svcs)
  {
    var withFrr, frr := InsertService(svcs, Str("frr"), Str("install-certs"));
    var wanted, neutron := InsertService(withFrr, Str("neutron-ovn"), Str("ovn"));
    InsertGrows(svcs, Str("frr"), Str("install-certs"));
    InsertGrows(withFrr, Str("neutron-ovn"), Str("ovn"));
    out := if frr || neutron then Some(wanted) else None;
  }

  lemma InsertGrows(svcs: seq<Json>, x: Json, after: Json)
    ensures |InsertAfter(svcs, x, after)| == |svcs| + if InsertAfter(svcs, x, after) == svcs then 0 else 1
  {
  }

  /** nodeset mode: the plan and the patch file, if one is written. */
  method ComputeNodeSet(p: Params, netconfig: Json, ns: Json, all: seq<Json>) returns (plan: Option<NodePlan>, patch: Option<Json>)
    requires ValidParams(p)
    ensures plan == PlanNodeSet(p, netconfig, ns, all)
    ensures patch == if plan.Some? && Changed(plan.value) then Some(Obj(PatchFile(ns, SpecPatch(plan.value)))) else None
  {
    patch := None;
    var tmpl := TemplateVars(ns);
    var loop := AssignFixedIps(p, ns, all);
    if loop.None? || Text(Field(tmpl, TEMPLATE)) == "" {
      return None, None;
    }
    var desired := ComputeVars(p, tmpl);
    var services := ComputeServices(Services(ns));
    var net := DesiredNetwork(p, Networks(netconfig));
    var ips := loop.value.ips;
    plan := Some(NodePlan(VarsPatch(desired, tmpl), loop.value.patch, services, ips,
                          Fingerprint(NameOf(ns), net, desired - {TEMPLATE}, ips, p.iface)));
    if Changed(plan.value) {
      var spec := BuildSpecPatch(plan.value);
      patch := Some(Obj(map["apiVersion" := Field(ns, "apiVersion"), "kind" := Field(ns, "kind"),
                            "metadata" := Meta(ns), "spec" := Obj(spec)]));
    }
  }

  method BuildSpecPatch(plan: NodePlan) returns (spec: map<string, Json>)
    ensures spec == SpecPatch(plan)
  {
    spec := map[];
    if plan.vars != map[] {
      spec := spec["nodeTemplate" := Obj(map["ansible" := Obj(map["ansibleVars" := Obj(plan.vars)])])];
    }
    if plan.nodes != map[] {
      spec := spec["nodes" := Obj(plan.nodes)];
    }
    if plan.services.Some? {
      spec := spec["services" := Arr(plan.services.value)];
    }
  }
}
