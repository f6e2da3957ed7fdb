/**
 * What nodeset mode computes and what applying its patch does to the NodeSet, told from the NodeSet
 * itself: every variable, the template text, the rules, the services, every node.
 */
module NodeSetExact {
  import opened Prelude
  import opened Numerals
  import opened JsonMerge
  import opened NetConfigPatch
  import opened NodeSetPatch
  import opened NodeSetParts
  import opened NodeSetTheorems

  // ---------------------------------------------------------------- the template text

  ghost predicate Blank(s: string) {
    forall i :: 0 <= i < |s| ==> s[i] == ' ' || '\t' <= s[i] <= '\r' || '\U{1c}' <= s[i] <= '\U{1f}'
  }

  /** The text has "name:", blanks, the interface and blanks up to the end of a line. */
  ghost predicate NamedBetween(t: string, iface: string, pre: string, blanks: string, more: string, post: string) {
    t == pre + "name:" + blanks + iface + more + post && Blank(blanks) && Blank(more) && (post == "" || post[0] == '\n')
  }

  lemma InterfacePresentExact(t: string, iface: string)
    ensures InterfacePresent(t, iface) <==>
      exists pre, blanks, more, post :: NamedBetween(t, iface, pre, blanks, more, post)
  {
    if i, j, l :| 0 <= i <= |t| && 0 <= j <= |t| && 0 <= l <= |t| && NameMatch(t, iface, i, j, l) {
      assert t == t[..i] + t[i..i + 5] + t[i + 5..j] + t[j..j + |iface|] + t[j + |iface|..l] + t[l..];
      assert NamedBetween(t, iface, t[..i], t[i + 5..j], t[j + |iface|..l], t[l..]);
    }
    if pre, blanks, more, post :| NamedBetween(t, iface, pre, blanks, more, post) {
      PartsOf(t, pre, blanks, iface, more, post);
    }
  }

  lemma PartsOf(t: string, pre: string, blanks: string, iface: string, more: string, post: string)
    requires NamedBetween(t, iface, pre, blanks, more, post)
    ensures InterfacePresent(t, iface)
  {
    var i := |pre|;
    var j := i + 5 + |blanks|;
    var l := j + |iface| + |more|;
    assert t[i..i + 5] == "name:" && t[i + 5..j] == blanks && t[j..j + |iface|] == iface;
    assert t[j + |iface|..l] == more && t[l..] == post;
    assert NameMatch(t, iface, i, j, l);
  }

  /** A line that starts with an OVS bridge begins here. */
  predicate BridgeAt(t: string, i: int) {
    0 <= i < |t| && (i == 0 || t[i - 1] == '\n') && "- type: ovs_bridge" <= t[i..]
  }

  lemma {:induction false} FirstBridgeExact(t: string, from: nat)
    ensures var at := FirstBridge(t, from);
      && (at.Some? ==> from <= at.value && BridgeAt(t, at.value) && forall i :: from <= i < at.value ==> !BridgeAt(t, i))
      && (at.None? ==> forall i :: from <= i ==> !BridgeAt(t, i))
    decreases |t| - from
  {
    if from >= |t| || BridgeAt(t, from) {
    } else {
      FirstBridgeExact(t, from + 1);
    }
  }

  ghost predicate AllNewlines(s: string) {
    forall i :: 0 <= i < |s| ==> s[i] == '\n'
  }

  lemma {:induction false} RStripExact(t: string) returns (stripped: string)
    ensures t == RStrip(t) + stripped && AllNewlines(stripped)
    ensures RStrip(t) != "" ==> RStrip(t)[|RStrip(t)| - 1] != '\n'
  {
    if t != "" && t[|t| - 1] == '\n' {
      stripped := RStripExact(t[..|t| - 1]);
      stripped := stripped + "\n";
    } else {
      stripped := "";
    }
  }

  /** The lines that are added. */
  ghost function AddedLines(p: Params): string {
    "- type: interface\n  name: " + p.iface + "\n  mtu: {{ " + p.network + "_mtu }}\n  use_dhcp: false\n  addresses:\n  - ip_netmask: {{ "
    + p.network + "_ip }}/{{ " + p.network + "_cidr }}\n  routes: {{ " + p.network + "_host_routes }}\n"
  }

  lemma BlockText(p: Params)
    ensures InterfaceBlock(p) == AddedLines(p)
  {
    var head, rest := "- type: interface\n  name: " + p.iface, BlockTail(p);
    assert BlockHead() + "name: " == "- type: interface\n  name: ";
    assert InterfaceBlock(p) == head + rest;
    TailText(p, head);
  }

  lemma TailText(p: Params, head: string)
    ensures head + BlockTail(p) == head + "\n  mtu: {{ " + p.network + "_mtu }}\n  use_dhcp: false\n  addresses:\n  - ip_netmask: {{ "
      + p.network + "_ip }}/{{ " + p.network + "_cidr }}\n  routes: {{ " + p.network + "_host_routes }}\n"
  {
    var a, b, c := "\n  mtu: {{ ", "_mtu }}\n  use_dhcp: false\n  addresses:\n  - ip_netmask: {{ ", "_ip }}/{{ ";
    var d, e := "_cidr }}\n  routes: {{ ", "_host_routes }}\n";
    NineParts(head, a, p.network, b, p.network, c, p.network, d, p.network, e);
  }

  lemma NineParts(h: string, a: string, b: string, c: string, d: string, e: string, f: string, g: string, i: string, j: string)
    ensures h + (a + b + c + d + e + f + g + i + j) == h + a + b + c + d + e + f + g + i + j
  {
  }

  /** The new template: the lines go before the first bridge, or after the last line with something on it. */
  lemma ExtendedExact(p: Params, t: string, i: int)
    ensures BridgeAt(t, i) && (forall j :: 0 <= j < i ==> !BridgeAt(t, j)) ==> Extended(p, t) == t[..i] + AddedLines(p) + t[i..]
    ensures (forall j :: !BridgeAt(t, j)) ==>
      exists kept, stripped :: t == kept + stripped && AllNewlines(stripped) && (kept != "" ==> kept[|kept| - 1] != '\n')
                               && Extended(p, t) == kept + "\n" + AddedLines(p)
  {
    FirstBridgeExact(t, 0);
    BlockText(p);
    if BridgeAt(t, i) && forall j :: 0 <= j < i ==> !BridgeAt(t, j) {
      assert FirstBridge(t, 0) == Some(i);
      SameMiddle(t[..i], InterfaceBlock(p), AddedLines(p), t[i..]);
    }
    if forall j :: !BridgeAt(t, j) {
      var stripped := RStripExact(t);
      SameMiddle(RStrip(t) + "\n", InterfaceBlock(p), AddedLines(p), "");
      NoBridge(p, t, RStrip(t), stripped);
    }
  }

  lemma SameMiddle(a: string, b: string, c: string, d: string)
    requires b == c
    ensures a + b + d == a + c + d && a + b == a + c
  {
  }

  lemma NoBridge(p: Params, t: string, kept: string, stripped: string)
    requires FirstBridge(t, 0).None? && kept == RStrip(t) && InterfaceBlock(p) == AddedLines(p)
    ensures Extended(p, t) == kept + "\n" + AddedLines(p)
  {
  }

  // ---------------------------------------------------------------- the rules

  /** The sources joined as nftables wants them. */
  lemma {:induction false} JoinExact(xs: seq<string>, ys: seq<string>, x: string)
    ensures Join([]) == "" && Join([x]) == x
    ensures xs != [] && ys != [] ==> Join(xs + ys) == Join(xs) + ", " + Join(ys)
  {
    if |xs| > 1 && ys != [] {
      JoinExact(xs[1..], ys, x);
      assert (xs + ys)[1..] == xs[1..] + ys;
      assert xs[0] + ", " + (Join(xs[1..]) + ", " + Join(ys)) == xs[0] + ", " + Join(xs[1..]) + ", " + Join(ys);
    } else if |xs| == 1 && ys != [] {
      assert (xs + ys)[1..] == ys;
    }
  }

  ghost predicate OneOfOurs(r: Json) {
    Field(r, "rule_name") in {Str("150 fabric evpn vxlan"), Str("151 fabric bgp")}
  }

  function AcceptRule(name: string, proto: string, port: int, sources: string): Json {
    Obj(map["rule_name" := Str(name), "rule" := Obj(map["proto" := Str(proto), "dport" := Arr([Num(port)]), "source" := Str(sources)])])
  }

  /** What is kept of a rule list is decided rule by rule, and in order. */
  lemma OtherRulesPiecewise(xs: seq<Json>, ys: seq<Json>, r: Json)
    ensures OtherRules(xs + ys) == OtherRules(xs) + OtherRules(ys)
    ensures OtherRules([r]) == if OneOfOurs(r) then [] else [r]
  {
    OtherRulesConcat(xs, ys);
    assert [r][1..] == [];
  }

  /** VXLAN and BGP are accepted from the given sources; these two rules come last, each other one stays. */
  lemma RulesInstalled(p: Params, existing: seq<Json>)
    ensures var sources := "{ " + Join(p.nftSources) + " }";
      Rules(p, existing) ==
        OtherRules(existing)
        + [AcceptRule("150 fabric evpn vxlan", "udp", 4789, sources), AcceptRule("151 fabric bgp", "tcp", 179, sources)]
  {
  }

  // ---------------------------------------------------------------- the variables

  ghost predicate Wants(d: map<string, Json>, k: string, v: Json) {
    k in d && d[k] == v
  }

  lemma CidrVar(p: Params, rules: seq<Json>)
    ensures Wants(BaseVars(p, rules), p.network + "_cidr", Str(Decimal(p.cidr.len)))
  {
    var c := p.network + "_cidr";
    assert c[|c| - 1] == 'r';
    KeysApart(p);
  }

  lemma MtuVar(p: Params, rules: seq<Json>)
    ensures Wants(BaseVars(p, rules), p.network + "_mtu", Num(p.mtu))
  {
    var m := p.network + "_mtu";
    assert m[|m| - 1] == 'u';
    KeysApart(p);
  }

  lemma SpeakerVars(p: Params, rules: seq<Json>)
    ensures var d := BaseVars(p, rules);
      && Wants(d, "edpm_frr_bgp_asn", Num(p.asn))
      && Wants(d, "edpm_frr_bgp_ipv4_src_network", Str(p.network))
  {
  }

  lemma FamilyVars(p: Params, rules: seq<Json>)
    ensures var d := BaseVars(p, rules);
      && Wants(d, "edpm_frr_bgp_ipv6", Bool(false))
      && Wants(d, "edpm_frr_bfd", Bool(false))
  {
  }

  lemma PeeringVars(p: Params, rules: seq<Json>)
    ensures var d := BaseVars(p, rules);
      && Wants(d, "edpm_frr_bgp_peers", Arr([Str(p.loopback)]))
      && Wants(d, "edpm_frr_bgp_uplinks", Arr([]))
      && Wants(d, "edpm_frr_bgp_uplinks_scope", Str("internal"))
      && Wants(d, "edpm_frr_bgp_neighbor_ttl_security_hops", Num(0))
  {
  }

  lemma L2vpnVars(p: Params, rules: seq<Json>)
    ensures var d := BaseVars(p, rules);
      && Wants(d, "edpm_frr_bgp_l2vpn", Bool(true))
      && Wants(d, "edpm_frr_bgp_l2vpn_uplink_activate", Bool(true))
      && Wants(d, "edpm_frr_bgp_l2vpn_peers", Arr([]))
  {
  }

  lemma RouteVars(p: Params, rules: seq<Json>)
    ensures var d := BaseVars(p, rules);
      && Wants(d, "edpm_frr_bgp_expose_only_host", Bool(true))
      && Wants(d, "edpm_frr_bgp_learning_routes", Bool(false))
  {
  }

  lemma NeutronVars(p: Params, rules: seq<Json>)
    ensures var d := BaseVars(p, rules);
      && Wants(d, "edpm_enable_chassis_gw", Bool(true))
      && Wants(d, "edpm_neutron_ovn_agent_agent_extensions", Str("ovn-evpn"))
      && Wants(d, "edpm_neutron_ovn_evpn_vxlan_port", Num(4789))
      && Wants(d, "edpm_neutron_ovn_agent_ovn_evpn_bgp_as", Str(if p.asn < 0 then "-" + Decimal(-p.asn) else Decimal(p.asn)))
      && Wants(d, "edpm_neutron_ovn_agent_ovn_evpn_bgp_local_interface", Str(p.iface))
  {
  }

  lemma VarNames(p: Params, rules: seq<Json>)
    ensures BaseVars(p, rules).Keys ==
      {p.network + "_cidr", p.network + "_mtu", "edpm_enable_chassis_gw", "edpm_frr_bgp_asn", "edpm_frr_bgp_ipv4_src_network",
       "edpm_frr_bgp_ipv6", "edpm_frr_bfd", "edpm_frr_bgp_peers", "edpm_frr_bgp_uplinks", "edpm_frr_bgp_uplinks_scope",
       "edpm_frr_bgp_neighbor_ttl_security_hops", "edpm_frr_bgp_l2vpn", "edpm_frr_bgp_l2vpn_uplink_activate",
       "edpm_frr_bgp_l2vpn_peers", "edpm_frr_bgp_expose_only_host", "edpm_frr_bgp_learning_routes",
       "edpm_neutron_ovn_agent_agent_extensions", "edpm_neutron_ovn_evpn_vxlan_port", "edpm_neutron_ovn_agent_ovn_evpn_bgp_as",
       "edpm_neutron_ovn_agent_ovn_evpn_bgp_local_interface", "edpm_nftables_user_rules"}
  {
  }
}
