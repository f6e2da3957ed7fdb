/** The parts of the NodeSet patch settle one by one: template text, rules, services, variables. */
module NodeSetParts {
  import opened Prelude
  import opened Numerals
  import opened JsonMerge
  import opened NetConfigPatch
  import opened NodeSetPatch

  // ---------------------------------------------------------------- template text

  lemma NamedLine(pre: string, iface: string, tail: string)
    requires tail != "" && tail[0] == '\n'
    ensures InterfacePresent(pre + ("name: " + iface + tail), iface)
  {
    var t := pre + ("name: " + iface + tail);
    var i := |pre|;
    var j := i + 6;
    var l := j + |iface|;
    assert t[i..i + 5] == "name:";
    assert t[i + 5..j] == " ";
    assert t[j..l] == iface && t[l..l] == "";
    assert t[l] == tail[0];
    assert NameMatch(t, iface, i, j, l);
  }

  lemma NamedBlock(pre: string, head: string, iface: string, tail: string, post: string)
    requires tail != "" && tail[0] == '\n'
    ensures InterfacePresent(pre + (head + "name: " + iface + tail) + post, iface)
  {
    NamedLine(pre + head, iface, tail + post);
    Regroup(pre, head, "name: ", iface, tail, post);
  }

  lemma Regroup(a: string, b: string, c: string, d: string, e: string, f: string)
    ensures a + (b + c + d + e) + f == a + b + (c + d + (e + f))
  {
  }

  /** Once extended, the template names the interface. */
  lemma ExtendedNamesInterface(p: Params, t: string)
    ensures InterfacePresent(Extended(p, t), p.iface)
  {
    var tail := BlockTail(p);
    match FirstBridge(t, 0)
    case Some(i) =>
      NamedBlock(t[..i], BlockHead(), p.iface, tail, t[i..]);
    case None =>
      NamedBlock(RStrip(t) + "\n", BlockHead(), p.iface, tail, "");
      assert Extended(p, t) == Extended(p, t) + "";
  }

  // ---------------------------------------------------------------- rules

  lemma {:induction false} OtherRulesConcat(xs: seq<Json>, ys: seq<Json>)
    ensures OtherRules(xs + ys) == OtherRules(xs) + OtherRules(ys)
  {
    if xs == [] {
      assert xs + ys == ys;
    } else {
      assert (xs + ys)[1..] == xs[1..] + ys;
      OtherRulesConcat(xs[1..], ys);
    }
  }

  lemma {:induction false} OtherRulesTwice(xs: seq<Json>)
    ensures OtherRules(OtherRules(xs)) == OtherRules(xs)
  {
    if xs == [] {
    } else {
      OtherRulesTwice(xs[1..]);
      if !IsFabricRule(xs[0]) {
        OtherRulesConcat([xs[0]], OtherRules(xs[1..]));
        assert OtherRules([xs[0]]) == [xs[0]] + OtherRules([xs[0]][1..]);
      }
    }
  }

  lemma {:induction false} OtherRulesExact(rules: seq<Json>, r: Json)
    ensures multiset(OtherRules(rules))[r] == if IsFabricRule(r) then 0 else multiset(rules)[r]
  {
    if rules == [] {
    } else {
      OtherRulesExact(rules[1..], r);
      assert rules == [rules[0]] + rules[1..];
    }
  }

  /** The rebuilt list holds each of the other rules as often as before, and each of ours once. */
  lemma RulesExact(p: Params, existing: seq<Json>, r: Json)
    ensures !IsFabricRule(r) ==> multiset(Rules(p, existing))[r] == multiset(existing)[r]
    ensures IsFabricRule(r) ==>
      (multiset(Rules(p, existing))[r] ==
       if r == FabricRule(p, RULE_VXLAN, "udp", 4789) || r == FabricRule(p, RULE_BGP, "tcp", 179) then 1 else 0)
  {
    var a, b := FabricRule(p, RULE_VXLAN, "udp", 4789), FabricRule(p, RULE_BGP, "tcp", 179);
    OtherRulesExact(existing, r);
    assert RULE_VXLAN[2] != RULE_BGP[2];
    assert Field(a, "rule_name") == Str(RULE_VXLAN) && Field(b, "rule_name") == Str(RULE_BGP);
  }

  /** Only the two fabric rules are ever rewritten: every other rule stays, in order. */
  lemma RulesSettle(p: Params, existing: seq<Json>)
    ensures OtherRules(Rules(p, existing)) == OtherRules(existing)
    ensures Rules(p, Rules(p, existing)) == Rules(p, existing)
  {
    var a, b := FabricRule(p, RULE_VXLAN, "udp", 4789), FabricRule(p, RULE_BGP, "tcp", 179);
    OtherRulesConcat(OtherRules(existing), [a, b]);
    OtherRulesTwice(existing);
    assert IsFabricRule(a) && IsFabricRule(b);
    SkipFabricRule(a, [b]);
    SkipFabricRule(b, []);
    assert [a, b] == [a] + [b] && [b] == [b] + [];
  }

  lemma SkipFabricRule(r: Json, rest: seq<Json>)
    requires IsFabricRule(r)
    ensures OtherRules([r] + rest) == OtherRules(rest)
  {
    assert ([r] + rest)[1..] == rest;
  }

  // ---------------------------------------------------------------- services

  lemma InsertKeeps(svcs: seq<Json>, x: Json, after: Json)
    ensures x in InsertAfter(svcs, x, after)
    ensures forall s :: s in svcs ==> s in InsertAfter(svcs, x, after)
  {
    if x !in svcs {
      var at := if after in svcs then IndexOf(svcs, after) + 1 else |svcs|;
      assert svcs == svcs[..at] + svcs[at..];
      assert InsertAfter(svcs, x, after)[at] == x;
    }
  }

  /** Both services are there afterwards, a second pass changes nothing, and a new one follows its anchor. */
  lemma ServicesSettle(svcs: seq<Json>)
    ensures WantedServices(WantedServices(svcs)) == WantedServices(svcs)
    ensures Str("frr") in WantedServices(svcs) && Str("neutron-ovn") in WantedServices(svcs)
    ensures forall s :: s in svcs ==> s in WantedServices(svcs)
  {
    var frr := InsertAfter(svcs, Str("frr"), Str("install-certs"));
    InsertKeeps(svcs, Str("frr"), Str("install-certs"));
    InsertKeeps(frr, Str("neutron-ovn"), Str("ovn"));
  }

  lemma Around<T>(xs: seq<T>, i: nat, x: T)
    requires i <= |xs|
    ensures var out := xs[..i] + [x] + xs[i..];
      out[i] == x && out[..i] == xs[..i] && out[i + 1..] == xs[i..]
  {
  }

  /** A service that was missing lands right after its anchor, and nothing else moves. */
  lemma InsertedRightAfter(svcs: seq<Json>, x: Json, after: Json)
    requires x !in svcs && after in svcs
    ensures var i, out := IndexOf(svcs, after), InsertAfter(svcs, x, after);
      i + 1 < |out| && svcs[i] == after && out[i + 1] == x && out[..i + 1] == svcs[..i + 1] && out[i + 2..] == svcs[i + 1..]
  {
    Around(svcs, IndexOf(svcs, after) + 1, x);
  }

  // ---------------------------------------------------------------- template variables

  lemma KeysApart(p: Params)
    ensures TEMPLATE != p.network + "_cidr" && TEMPLATE != p.network + "_mtu"
    ensures LOCAL_IP != p.network + "_cidr" && LOCAL_IP != p.network + "_mtu"
    ensures USER_RULES != p.network + "_cidr" && USER_RULES != p.network + "_mtu"
  {
    var c, m := p.network + "_cidr", p.network + "_mtu";
    assert c[|c| - 1] == 'r' && m[|m| - 1] == 'u';
    assert TEMPLATE[|TEMPLATE| - 1] == 'e' && LOCAL_IP[|LOCAL_IP| - 1] == 'p' && USER_RULES[|USER_RULES| - 1] == 's';
  }

  lemma BaseVarsShape(p: Params, rules: seq<Json>)
    ensures TEMPLATE !in BaseVars(p, rules) && LOCAL_IP !in BaseVars(p, rules)
    ensures USER_RULES in BaseVars(p, rules) && BaseVars(p, rules)[USER_RULES] == Arr(rules)
  {
    KeysApart(p);
  }

  lemma BaseVarsFlat(p: Params, rules: seq<Json>)
    ensures forall k :: k in BaseVars(p, rules) ==> !BaseVars(p, rules)[k].Obj?
  {
  }

  /** The template variables after the merge: patched ones hold the desired value, the others are untouched. */
  ghost predicate VarsMerged(desired: map<string, Json>, tmpl: Json, after: Json) {
    forall k :: Field(after, k) == if k in VarsPatch(desired, tmpl) then desired[k] else Field(tmpl, k)
  }

  /** The template is wished for exactly when the interface is missing from it. */
  lemma TemplateWished(p: Params, tmpl: Json)
    ensures var t, desired := Text(Field(tmpl, TEMPLATE)), DesiredVars(p, tmpl);
      && (TEMPLATE in desired <==> !InterfacePresent(t, p.iface))
      && (TEMPLATE in desired ==> desired[TEMPLATE] == Str(Extended(p, t)))
  {
    BaseVarsShape(p, Rules(p, Items(Field(tmpl, USER_RULES))));
  }

  lemma TemplatePatched(desired: map<string, Json>, tmpl: Json, t: string)
    requires TEMPLATE in desired && desired[TEMPLATE] == Str(t) && t != Text(Field(tmpl, TEMPLATE))
    ensures TEMPLATE in VarsPatch(desired, tmpl)
  {
  }

  lemma TemplateSettles(p: Params, tmpl: Json, after: Json)
    requires VarsMerged(DesiredVars(p, tmpl), tmpl, after)
    ensures InterfacePresent(Text(Field(after, TEMPLATE)), p.iface)
    ensures Text(Field(tmpl, TEMPLATE)) != "" ==> Text(Field(after, TEMPLATE)) != ""
  {
    var t := Text(Field(tmpl, TEMPLATE));
    TemplateWished(p, tmpl);
    if !InterfacePresent(t, p.iface) {
      ExtendedNamesInterface(p, t);
      assert Extended(p, t) != t;
      TemplatePatched(DesiredVars(p, tmpl), tmpl, Extended(p, t));
    } else {
      assert Field(after, TEMPLATE) == Field(tmpl, TEMPLATE);
    }
  }

  lemma RulesVarSettles(p: Params, tmpl: Json, after: Json)
    requires VarsMerged(DesiredVars(p, tmpl), tmpl, after)
    ensures Rules(p, Items(Field(after, USER_RULES))) == Rules(p, Items(Field(tmpl, USER_RULES)))
  {
    var existing := Items(Field(tmpl, USER_RULES));
    BaseVarsShape(p, Rules(p, existing));
    RulesSettle(p, existing);
    assert DesiredVars(p, tmpl)[USER_RULES] == Arr(Rules(p, existing));
  }

  lemma DesiredShape(p: Params, tmpl: Json)
    ensures var rules := Rules(p, Items(Field(tmpl, USER_RULES)));
      && DesiredVars(p, tmpl) - {TEMPLATE} == BaseVars(p, rules)
      && (forall k :: k in BaseVars(p, rules) ==> k in DesiredVars(p, tmpl) && DesiredVars(p, tmpl)[k] == BaseVars(p, rules)[k])
      && (InterfacePresent(Text(Field(tmpl, TEMPLATE)), p.iface) ==> DesiredVars(p, tmpl) == BaseVars(p, rules))
  {
    BaseVarsShape(p, Rules(p, Items(Field(tmpl, USER_RULES))));
  }

  lemma NothingLeft(p: Params, rules: seq<Json>, desired: map<string, Json>, tmpl: Json, after: Json)
    requires VarsMerged(desired, tmpl, after)
    requires forall k :: k in BaseVars(p, rules) ==> k in desired && desired[k] == BaseVars(p, rules)[k]
    ensures VarsPatch(BaseVars(p, rules), after) == map[]
  {
    forall k | k in BaseVars(p, rules) ensures PyEqual(Field(after, k), BaseVars(p, rules)[k]) {
      assert Field(after, k) == if k in VarsPatch(desired, tmpl) then desired[k] else Field(tmpl, k);
    }
  }

  /** Recomputed on the merged variables: the same wishes, minus the template, and nothing left to patch. */
  lemma VarsSettle(p: Params, tmpl: Json, after: Json)
    requires VarsMerged(DesiredVars(p, tmpl), tmpl, after)
    ensures DesiredVars(p, after) == DesiredVars(p, tmpl) - {TEMPLATE}
    ensures VarsPatch(DesiredVars(p, after), after) == map[]
  {
    TemplateSettles(p, tmpl, after);
    RulesVarSettles(p, tmpl, after);
    DesiredShape(p, tmpl);
    DesiredShape(p, after);
    NothingLeft(p, Rules(p, Items(Field(tmpl, USER_RULES))), DesiredVars(p, tmpl), tmpl, after);
  }

  lemma UnwishedUntouched(desired: map<string, Json>, tmpl: Json, after: Json, k: string)
    requires VarsMerged(desired, tmpl, after) && k !in desired
    ensures Field(after, k) == Field(tmpl, k)
  {
  }

  lemma LocalIpUnwished(p: Params, tmpl: Json)
    ensures LOCAL_IP !in DesiredVars(p, tmpl)
  {
    BaseVarsShape(p, Rules(p, Items(Field(tmpl, USER_RULES))));
    assert |LOCAL_IP| == 30 && |TEMPLATE| == 28;
  }

  lemma LocalIpUntouched(p: Params, tmpl: Json, after: Json)
    requires VarsMerged(DesiredVars(p, tmpl), tmpl, after)
    ensures Field(after, LOCAL_IP) == Field(tmpl, LOCAL_IP)
  {
    LocalIpUnwished(p, tmpl);
    UnwishedUntouched(DesiredVars(p, tmpl), tmpl, after, LOCAL_IP);
  }
}
