/** Fixed IPs across a namespace: the cursor finds the least unused address, and no address is given twice. */
module NodeSetAddresses {
  import opened Prelude
  import opened Numerals
  import opened JsonMerge
  import opened NetConfigPatch
  import opened NodeSetPatch
  import opened NodeSetParts
  import opened NodeSetTheorems

  // ---------------------------------------------------------------- the cursor

  lemma {:induction false} NextFreeExact(cursor: nat, used: set<string>)
    ensures var c := NextFree(cursor, used);
      && (c.Some? ==> cursor <= c.value < 0x1_0000_0000 && !InUse(c.value, used) && AllInUse(cursor, c.value, used))
      && (c.None? ==> AllInUse(cursor, 0x1_0000_0000, used))
    decreases if cursor < 0x1_0000_0000 then 0x1_0000_0000 - cursor else 0
  {
    if 0x1_0000_0000 <= cursor || !InUse(cursor, used) {
    } else {
      NextFreeExact(cursor + 1, used);
    }
  }

  /** Every address from `low` up to but not including `high` is in use. */
  ghost predicate AllInUse(low: nat, high: nat, used: set<string>) {
    forall a: nat :: low <= a < high && a < 0x1_0000_0000 ==> InUse(a, used)
  }

  /** Every address of the range below the cursor is used. */
  ghost predicate CursorBehind(p: Params, st: LoopState) {
    forall a: nat :: AllocStart(p) <= a < st.cursor && a < 0x1_0000_0000 ==> Dotted(a) in st.used
  }

  /**
   * The moving cursor refines the simple rule: the next address is the least unused one of the
   * allocation range, and there is none exactly when the whole range is used.
   */
  lemma CursorFindsLeast(p: Params, st: LoopState)
    requires ValidParams(p) && CursorBehind(p, st) && AllocStart(p) <= st.cursor
    ensures var c := NextAddress(p, st);
      && (c.Some? ==> AllocStart(p) <= c.value <= AllocEnd(p) && Dotted(c.value) !in st.used)
      && (c.Some? ==> forall a: nat :: AllocStart(p) <= a < c.value ==> Dotted(a) in st.used)
      && (c.None? <==> forall a: nat :: AllocStart(p) <= a <= AllocEnd(p) && a < 0x1_0000_0000 ==> Dotted(a) in st.used)
  {
    AllocFits(p);
    NextFreeTexts(st.cursor, st.used);
    if NextAddress(p, st).None? { RangeUsedUp(p, st); }
  }

  lemma NextFreeTexts(cursor: nat, used: set<string>)
    ensures var c := NextFree(cursor, used);
      && (c.Some? ==> cursor <= c.value < 0x1_0000_0000 && Dotted(c.value) !in used)
      && (c.Some? ==> forall a: nat :: cursor <= a < c.value ==> Dotted(a) in used)
  {
    NextFreeExact(cursor, used);
    forall a: nat | a < 0x1_0000_0000 ensures InUse(a, used) == (Dotted(a) in used) {}
  }

  lemma RangeUsedUp(p: Params, st: LoopState)
    requires ValidParams(p) && CursorBehind(p, st) && NextAddress(p, st).None?
    ensures forall a: nat :: AllocStart(p) <= a <= AllocEnd(p) && a < 0x1_0000_0000 ==> Dotted(a) in st.used
  {
    NextFreeExact(st.cursor, st.used);
    forall a: nat | AllocStart(p) <= a <= AllocEnd(p) && a < 0x1_0000_0000 ensures Dotted(a) in st.used {
      if st.cursor <= a { assert InUse(a, st.used); }
    }
  }

  // ---------------------------------------------------------------- what the loop hands out

  ghost predicate IsNew(p: Params, nodes: Json, name: string) {
    FixedIp(p, NodeNets(Field(nodes, name))) == ""
  }

  /** Each new address is in the range, was not taken, and differs from every other new one. */
  ghost predicate HandsOut(p: Params, nodes: Json, taken: set<string>, st: LoopState, names: seq<string>)
    requires ValidParams(p)
  {
    && CursorBehind(p, st) && AllocStart(p) <= st.cursor && taken <= st.used
    && (forall n :: n in st.ips <==> n in names)
    && AllFresh(p, nodes, taken, st, names) && NewApart(p, nodes, st.ips, names)
  }

  ghost predicate AllFresh(p: Params, nodes: Json, taken: set<string>, st: LoopState, names: seq<string>)
    requires ValidParams(p)
  {
    forall n :: n in names && IsNew(p, nodes, n) ==> n in st.ips && FreshIp(p, taken, st, st.ips[n])
  }

  /** No two new nodes share an address. */
  ghost predicate NewApart(p: Params, nodes: Json, ips: map<string, string>, names: seq<string>) {
    forall m, n :: m in names && n in names && m != n && IsNew(p, nodes, m) && IsNew(p, nodes, n) ==>
      m in ips && n in ips && ips[m] != ips[n]
  }

  ghost predicate FreshIp(p: Params, taken: set<string>, st: LoopState, ip: string)
    requires ValidParams(p)
  {
    InRange(p, ip) && ip in st.used && ip !in taken
  }

  ghost predicate InRange(p: Params, ip: string)
    requires ValidParams(p)
  {
    AllocFits(p);
    exists a: nat :: AllocStart(p) <= a <= AllocEnd(p) && ip == Dotted(a)
  }

  lemma FreshNext(p: Params, nodes: Json, taken: set<string>, st: LoopState, t: LoopState, names: seq<string>, name: string, ip: string)
    requires ValidParams(p) && AllFresh(p, nodes, taken, st, names) && name !in names
    requires st.used <= t.used && t.ips == st.ips[name := ip] && (IsNew(p, nodes, name) ==> FreshIp(p, taken, t, ip))
    ensures AllFresh(p, nodes, taken, t, names + [name])
  {
    forall n | n in names + [name] && IsNew(p, nodes, n) ensures n in t.ips && FreshIp(p, taken, t, t.ips[n]) {
      if n != name { assert n in names && t.ips[n] == st.ips[n] && FreshIp(p, taken, st, st.ips[n]); }
    }
  }

  lemma ApartNext(p: Params, nodes: Json, ips: map<string, string>, names: seq<string>, name: string, ip: string)
    requires NewApart(p, nodes, ips, names) && name !in names && forall n :: n in names ==> n in ips
    requires IsNew(p, nodes, name) ==> forall n :: n in names && IsNew(p, nodes, n) ==> ips[n] != ip
    ensures NewApart(p, nodes, ips[name := ip], names + [name])
  {
    assert forall n :: n in names + [name] <==> n in names || n == name;
  }

  lemma KeysNext(ips: map<string, string>, names: seq<string>, name: string, ip: string)
    requires forall n :: n in ips <==> n in names
    ensures forall n :: n in ips[name := ip] <==> n in names + [name]
  {
  }

  lemma HeldOneKept(p: Params, nodes: Json, taken: set<string>, st: LoopState, t: LoopState, names: seq<string>, name: string, ip: string)
    requires ValidParams(p) && HandsOut(p, nodes, taken, st, names) && name !in names && !IsNew(p, nodes, name)
    requires t.used == st.used && t.cursor == st.cursor && t.ips == st.ips[name := ip]
    ensures HandsOut(p, nodes, taken, t, names + [name])
  {
    KeysNext(st.ips, names, name, ip);
    FreshNext(p, nodes, taken, st, t, names, name, ip);
    ApartNext(p, nodes, st.ips, names, name, ip);
  }

  lemma NewOneAdded(p: Params, nodes: Json, taken: set<string>, st: LoopState, t: LoopState, names: seq<string>, name: string, c: nat)
    requires ValidParams(p) && HandsOut(p, nodes, taken, st, names) && name !in names && IsNew(p, nodes, name)
    requires AllocStart(p) <= c <= AllocEnd(p) && c < 0x1_0000_0000 && Dotted(c) !in st.used
    requires forall a: nat :: AllocStart(p) <= a < c ==> Dotted(a) in st.used
    requires t.used == st.used + {Dotted(c)} && t.cursor == c + 1 && t.ips == st.ips[name := Dotted(c)]
    ensures HandsOut(p, nodes, taken, t, names + [name])
  {
    var ip := Dotted(c);
    assert InRange(p, ip) && FreshIp(p, taken, t, ip);
    KeysNext(st.ips, names, name, ip);
    FreshNext(p, nodes, taken, st, t, names, name, ip);
    forall n | n in names && IsNew(p, nodes, n) ensures st.ips[n] != ip { assert FreshIp(p, taken, st, st.ips[n]); }
    ApartNext(p, nodes, st.ips, names, name, ip);
    assert CursorBehind(p, t);
  }

  lemma HandOutNext(p: Params, nodes: Json, tmpl: Json, taken: set<string>, st: LoopState, names: seq<string>, name: string)
    requires ValidParams(p) && HandsOut(p, nodes, taken, st, names) && name !in names
    requires NodeStep(p, tmpl, st, name, Field(nodes, name)).Some?
    ensures HandsOut(p, nodes, taken, NodeStep(p, tmpl, st, name, Field(nodes, name)).value, names + [name])
  {
    var t := NodeStep(p, tmpl, st, name, Field(nodes, name)).value;
    CursorFindsLeast(p, st);
    if IsNew(p, nodes, name) {
      NewOneAdded(p, nodes, taken, st, t, names, name, NextAddress(p, st).value);
    } else {
      HeldOneKept(p, nodes, taken, st, t, names, name, FixedIp(p, NodeNets(Field(nodes, name))));
    }
  }

  lemma NothingYet(p: Params, nodes: Json, taken: set<string>)
    requires ValidParams(p)
    ensures HandsOut(p, nodes, taken, LoopState(taken, AllocStart(p), map[], map[]), [])
  {
  }

  lemma {:induction false} LoopHandsOut(p: Params, nodes: Json, tmpl: Json, taken: set<string>, start: LoopState, names: seq<string>)
    requires ValidParams(p) && NoRepeats(names)
    requires start == LoopState(taken, AllocStart(p), map[], map[])
    requires NodeLoop(p, nodes, tmpl, start, names).Some?
    ensures HandsOut(p, nodes, taken, NodeLoop(p, nodes, tmpl, start, names).value, names)
    decreases |names|
  {
    if names == [] {
      NothingYet(p, nodes, taken);
    } else {
      var front, name := names[..|names| - 1], names[|names| - 1];
      assert names == front + [name];
      NoRepeatsFront(names);
      LastNode(p, nodes, tmpl, start, front, name);
      LoopHandsOut(p, nodes, tmpl, taken, start, front);
      HandOutNext(p, nodes, tmpl, taken, NodeLoop(p, nodes, tmpl, start, front).value, front, name);
    }
  }

  /** Every node without a fixedIP gets an address of the range that no NodeSet holds, all different. */
  lemma FreshAddresses(p: Params, ns: Json, all: seq<Json>)
    requires ValidParams(p) && NodesResult(p, ns, all).Some?
    ensures HandsOut(p, Nodes(ns), Taken(p, ns, all), NodesResult(p, ns, all).value, SortedNames(Keys(Nodes(ns))))
  {
    LoopHandsOut(p, Nodes(ns), TemplateVars(ns), Taken(p, ns, all), StartState(p, ns, all), SortedNames(Keys(Nodes(ns))));
  }

  // ---------------------------------------------------------------- counting the addresses in use

  function EntryBag(p: Params, nets: seq<Json>): multiset<string> {
    if nets == [] then multiset{}
    else
      var n := |nets| - 1;
      EntryBag(p, nets[..n]) +
      if IsOwn(p, nets[n]) && Text(Field(nets[n], "fixedIP")) != "" then multiset{Text(Field(nets[n], "fixedIP"))} else multiset{}
  }

  function NodesBag(p: Params, nodes: Json, names: seq<string>): multiset<string> {
    if names == [] then multiset{}
    else NodesBag(p, nodes, names[..|names| - 1]) + EntryBag(p, NodeNets(Field(nodes, names[|names| - 1])))
  }

  /** Every fabric fixed IP of a NodeSet, with multiplicity. */
  function NodeSetBag(p: Params, ns: Json): multiset<string> {
    NodesBag(p, Nodes(ns), SortedNames(Keys(Nodes(ns))))
  }

  function FleetBag(p: Params, all: seq<Json>): multiset<string> {
    if all == [] then multiset{} else FleetBag(p, all[..|all| - 1]) + NodeSetBag(p, all[|all| - 1])
  }

  /** No fabric IP appears twice anywhere in the namespace. */
  ghost predicate GloballyDistinct(p: Params, all: seq<Json>) {
    forall ip :: FleetBag(p, all)[ip] <= 1
  }

  lemma {:induction false} EntryBagExact(p: Params, nets: seq<Json>, ip: string)
    ensures ip in EntryBag(p, nets) <==> ip in FabricIps(p, nets)
  {
    if nets == [] {
    } else {
      var front, last := nets[..|nets| - 1], nets[|nets| - 1];
      EntryBagExact(p, front, ip);
      assert nets == front + [last];
    }
  }

  lemma {:induction false} NodesBagExact(p: Params, nodes: Json, names: seq<string>, ip: string)
    ensures ip in NodesBag(p, nodes, names) <==> exists n :: n in names && ip in FabricIps(p, NodeNets(Field(nodes, n)))
  {
    if names == [] {
    } else {
      var front, last := names[..|names| - 1], names[|names| - 1];
      NodesBagExact(p, nodes, front, ip);
      EntryBagExact(p, NodeNets(Field(nodes, last)), ip);
      assert names == front + [last];
    }
  }

  lemma NodeSetBagExact(p: Params, ns: Json, ip: string)
    ensures ip in NodeSetBag(p, ns) <==> ip in NodeSetIps(p, ns)
  {
    NodesBagExact(p, Nodes(ns), SortedNames(Keys(Nodes(ns))), ip);
  }

  lemma FleetBagStep(p: Params, front: seq<Json>, last: Json, ip: string)
    ensures ip in FleetBag(p, front + [last]) <==> ip in FleetBag(p, front) || ip in NodeSetIps(p, last)
  {
    assert (front + [last])[..|front|] == front;
    NodeSetBagExact(p, last, ip);
  }

  ghost predicate HeldBySome(p: Params, all: seq<Json>, ip: string) {
    exists i :: 0 <= i < |all| && ip in NodeSetIps(p, all[i])
  }

  lemma HeldBySomeStep(p: Params, front: seq<Json>, last: Json, ip: string)
    ensures HeldBySome(p, front + [last], ip) <==> HeldBySome(p, front, ip) || ip in NodeSetIps(p, last)
  {
    var all := front + [last];
    if i :| 0 <= i < |front| && ip in NodeSetIps(p, front[i]) { assert all[i] == front[i]; }
    assert all[|front|] == last;
  }

  lemma {:induction false} FleetBagExact(p: Params, all: seq<Json>, ip: string)
    ensures ip in FleetBag(p, all) <==> HeldBySome(p, all, ip)
  {
    if all == [] {
    } else {
      var front, last := all[..|all| - 1], all[|all| - 1];
      assert all == front + [last];
      FleetBagExact(p, front, ip);
      FleetBagStep(p, front, last, ip);
      HeldBySomeStep(p, front, last, ip);
    }
  }

  lemma BagSwap(a: multiset<string>, b: multiset<string>, c: multiset<string>, d: multiset<string>)
    ensures (a + b) + (c + d) == (a + c) + (b + d)
  {
  }

  lemma FleetBagSnoc(p: Params, front: seq<Json>, last: Json)
    ensures FleetBag(p, front + [last]) == FleetBag(p, front) + NodeSetBag(p, last)
  {
    assert (front + [last])[..|front|] == front;
  }

  lemma {:induction false} FleetBagConcat(p: Params, xs: seq<Json>, ys: seq<Json>)
    ensures FleetBag(p, xs + ys) == FleetBag(p, xs) + FleetBag(p, ys)
    decreases |ys|
  {
    if ys == [] {
      assert xs + ys == xs;
    } else {
      var front, last := ys[..|ys| - 1], ys[|ys| - 1];
      assert ys == front + [last];
      assert xs + ys == (xs + front) + [last];
      FleetBagConcat(p, xs, front);
      FleetBagSnoc(p, xs + front, last);
      FleetBagSnoc(p, front, last);
    }
  }

  lemma FleetBagAround(p: Params, pre: seq<Json>, ns: Json, post: seq<Json>)
    ensures FleetBag(p, pre + [ns] + post) == (FleetBag(p, pre) + FleetBag(p, post)) + NodeSetBag(p, ns)
  {
    FleetBagConcat(p, pre + [ns], post);
    FleetBagSnoc(p, pre, ns);
  }

  lemma FleetBagUpdate(p: Params, all: seq<Json>, i: nat, ns: Json, ip: string)
    requires i < |all|
    ensures FleetBag(p, all[i := ns])[ip] + NodeSetBag(p, all[i])[ip] == FleetBag(p, all)[ip] + NodeSetBag(p, ns)[ip]
  {
    var pre, post := all[..i], all[i + 1..];
    FleetBagAround(p, pre, all[i], post);
    FleetBagAround(p, pre, ns, post);
    UpdateSplits(all, i, all[i]);
    UpdateSplits(all, i, ns);
    assert all[i := all[i]] == all;
  }

  lemma UpdateSplits<T>(xs: seq<T>, i: nat, x: T)
    requires i < |xs|
    ensures xs[i := x] == xs[..i] + [x] + xs[i + 1..]
  {
  }

  // ---------------------------------------------------------------- one run adds only new addresses

  /** The addresses a run added. */
  function NewBag(p: Params, nodes: Json, ips: map<string, string>, names: seq<string>): multiset<string>
    requires forall n :: n in names ==> n in ips
  {
    if names == [] then multiset{}
    else
      var n := |names| - 1;
      NewBag(p, nodes, ips, names[..n]) + if FixedIp(p, NodeNets(Field(nodes, names[n]))) == "" then multiset{ips[names[n]]} else multiset{}
  }

  lemma {:induction false} NewBagMembers(p: Params, nodes: Json, ips: map<string, string>, names: seq<string>, ip: string)
    requires forall n :: n in names ==> n in ips
    ensures ip in NewBag(p, nodes, ips, names) ==> exists n :: n in names && IsNew(p, nodes, n) && ips[n] == ip
  {
    if names == [] {
    } else {
      var front, last := names[..|names| - 1], names[|names| - 1];
      assert names == front + [last];
      NewBagMembers(p, nodes, ips, front, ip);
    }
  }

  lemma {:induction false} NewBagDistinct(p: Params, nodes: Json, ips: map<string, string>, names: seq<string>, ip: string)
    requires NoRepeats(names) && forall n :: n in names ==> n in ips
    requires NewApart(p, nodes, ips, names)
    ensures NewBag(p, nodes, ips, names)[ip] <= 1
  {
    if names == [] {
    } else {
      var front, last := names[..|names| - 1], names[|names| - 1];
      assert names == front + [last];
      NoRepeatsFront(names);
      NewBagDistinct(p, nodes, ips, front, ip);
      NewBagMembers(p, nodes, ips, front, ip);
    }
  }

  lemma EntryBagSnoc(p: Params, nets: seq<Json>, x: Json)
    ensures EntryBag(p, nets + [x]) ==
      EntryBag(p, nets) + if IsOwn(p, x) && Text(Field(x, "fixedIP")) != "" then multiset{Text(Field(x, "fixedIP"))} else multiset{}
  {
    assert (nets + [x])[..|nets|] == nets;
  }

  lemma FreshEntryHolds(p: Params, ip: string)
    ensures IsOwn(p, FreshEntry(p, ip)) && Text(Field(FreshEntry(p, ip), "fixedIP")) == ip
  {
  }

  lemma EntryBagFresh(p: Params, nets: seq<Json>, ip: string)
    requires ip != ""
    ensures EntryBag(p, nets + [FreshEntry(p, ip)]) == EntryBag(p, nets) + multiset{ip}
  {
    EntryBagSnoc(p, nets, FreshEntry(p, ip));
    FreshEntryHolds(p, ip);
  }

  lemma EntryBagAfter(p: Params, tmpl: Json, node: Json, ip: string)
    requires ip != ""
    ensures EntryBag(p, NodeNets(NodeAfter(p, tmpl, node, ip))) ==
      EntryBag(p, NodeNets(node)) + if FixedIp(p, NodeNets(node)) == "" then multiset{ip} else multiset{}
  {
    NodeAfterFields(p, tmpl, node, ip);
    var nets, after := NodeNets(node), NodeNets(NodeAfter(p, tmpl, node, ip));
    if FixedIp(p, nets) == "" {
      EntryBagFresh(p, nets, ip);
    } else {
      assert after == nets;
    }
  }

  lemma {:induction false} NodesBagAfter(p: Params, nodes: Json, nodes': Json, tmpl: Json, ips: map<string, string>, names: seq<string>)
    requires forall n :: n in names ==>
      n in ips && ips[n] != "" && Field(nodes', n) == NodeAfter(p, tmpl, Field(nodes, n), ips[n])
    ensures NodesBag(p, nodes', names) == NodesBag(p, nodes, names) + NewBag(p, nodes, ips, names)
  {
    if names == [] {
    } else {
      var front, last := names[..|names| - 1], names[|names| - 1];
      assert names == front + [last];
      NodesBagAfter(p, nodes, nodes', tmpl, ips, front);
      EntryBagAfter(p, tmpl, Field(nodes, last), ips[last]);
      BagSwap(NodesBag(p, nodes, front), NewBag(p, nodes, ips, front), EntryBag(p, NodeNets(Field(nodes, last))),
              if FixedIp(p, NodeNets(Field(nodes, last))) == "" then multiset{ips[last]} else multiset{});
    }
  }

  /** The patched NodeSet holds what it held plus one new address for each node that had none. */
  lemma PatchAddsNew(p: Params, netconfig: Json, ns: Json, all: seq<Json>)
    requires ValidParams(p) && PlanNodeSet(p, netconfig, ns, all).Some?
    ensures var plan, names := PlanNodeSet(p, netconfig, ns, all).value, SortedNames(Keys(Nodes(ns)));
      && (forall n :: n in names ==> n in plan.ips)
      && NodeSetBag(p, Patched(ns, plan)) == NodeSetBag(p, ns) + NewBag(p, Nodes(ns), plan.ips, names)
  {
    var plan, names := PlanNodeSet(p, netconfig, ns, all).value, SortedNames(Keys(Nodes(ns)));
    var st := NodesResult(p, ns, all).value;
    NodeLoopDone(p, Nodes(ns), TemplateVars(ns), StartState(p, ns, all), names);
    PatchedNodes(p, ns, plan, st, names);
    forall n | n in names ensures n in plan.ips && plan.ips[n] != "" {
      assert NodeDone(p, TemplateVars(ns), st, n, Field(Nodes(ns), n));
    }
    NodesBagAfter(p, Nodes(ns), Nodes(Patched(ns, plan)), TemplateVars(ns), plan.ips, names);
  }

  // ---------------------------------------------------------------- sequential runs

  ghost predicate DistinctNodeSets(all: seq<Json>) {
    forall i, j :: 0 <= i < j < |all| ==> NameOf(all[i]) != NameOf(all[j])
  }

  /** A run that is handed the current list: plan NodeSet i against the others as they are now, and patch it. */
  function Rollout(p: Params, netconfig: Json, all: seq<Json>, i: nat): Option<seq<Json>>
    requires ValidParams(p) && i < |all|
  {
    match PlanNodeSet(p, netconfig, all[i], all)
    case None => None
    case Some(plan) => Some(all[i := Patched(all[i], plan)])
  }

  /** With distinct names, "mine or another's" is "somebody's". */
  lemma OwnOrOther(all: seq<Json>, i: nat, holds: Json -> bool)
    requires i < |all| && DistinctNodeSets(all)
    ensures holds(all[i]) || (exists o :: o in all && NameOf(o) != NameOf(all[i]) && holds(o)) <==>
      exists j :: 0 <= j < |all| && holds(all[j])
  {
    if j :| 0 <= j < |all| && holds(all[j]) {
      if j < i { assert NameOf(all[j]) != NameOf(all[i]); } else if i < j { assert NameOf(all[i]) != NameOf(all[j]); }
      assert all[j] in all;
    }
    if o :| o in all && NameOf(o) != NameOf(all[i]) && holds(o) {
      var j :| 0 <= j < |all| && all[j] == o;
    }
  }

  lemma TakenExact(p: Params, all: seq<Json>, i: nat, ip: string)
    requires i < |all| && DistinctNodeSets(all)
    ensures ip in Taken(p, all[i], all) <==> HeldBySome(p, all, ip)
  {
    OwnOrOther(all, i, o => ip in NodeSetIps(p, o));
  }

  lemma TakenIsEverything(p: Params, all: seq<Json>, i: nat, ip: string)
    requires i < |all| && DistinctNodeSets(all)
    ensures ip in Taken(p, all[i], all) <==> ip in FleetBag(p, all)
  {
    TakenExact(p, all, i, ip);
    FleetBagExact(p, all, ip);
  }

  lemma PatchedName(ns: Json, plan: NodePlan)
    ensures NameOf(Patched(ns, plan)) == NameOf(ns)
  {
    if Changed(plan) { MergedSpec(ns, plan, "nodes"); }
  }

  /** What patching one NodeSet adds, address by address, whatever list the run was handed. */
  lemma RolloutAdds(p: Params, netconfig: Json, all: seq<Json>, i: nat, seen: seq<Json>, ip: string)
    requires ValidParams(p) && i < |all| && PlanNodeSet(p, netconfig, all[i], seen).Some?
    ensures var plan, names := PlanNodeSet(p, netconfig, all[i], seen).value, SortedNames(Keys(Nodes(all[i])));
      && (forall n :: n in names ==> n in plan.ips)
      && FleetBag(p, all[i := Patched(all[i], plan)])[ip] == FleetBag(p, all)[ip] + NewBag(p, Nodes(all[i]), plan.ips, names)[ip]
  {
    var plan, names := PlanNodeSet(p, netconfig, all[i], seen).value, SortedNames(Keys(Nodes(all[i])));
    PatchAddsNew(p, netconfig, all[i], seen);
    FleetBagUpdate(p, all, i, Patched(all[i], plan), ip);
  }

  lemma NewOnce(p: Params, ns: Json, seen: seq<Json>, ip: string)
    requires ValidParams(p) && NodesResult(p, ns, seen).Some?
    ensures var ips, names := NodesResult(p, ns, seen).value.ips, SortedNames(Keys(Nodes(ns)));
      (forall n :: n in names ==> n in ips) && NewBag(p, Nodes(ns), ips, names)[ip] <= 1
  {
    FreshAddresses(p, ns, seen);
    NewBagDistinct(p, Nodes(ns), NodesResult(p, ns, seen).value.ips, SortedNames(Keys(Nodes(ns))), ip);
  }

  lemma NewNotTaken(p: Params, ns: Json, seen: seq<Json>, ip: string)
    requires ValidParams(p) && NodesResult(p, ns, seen).Some?
    ensures var ips, names := NodesResult(p, ns, seen).value.ips, SortedNames(Keys(Nodes(ns)));
      (forall n :: n in names ==> n in ips) && (ip in NewBag(p, Nodes(ns), ips, names) ==> ip !in Taken(p, ns, seen))
  {
    FreshAddresses(p, ns, seen);
    NewBagMembers(p, Nodes(ns), NodesResult(p, ns, seen).value.ips, SortedNames(Keys(Nodes(ns))), ip);
  }

  /** A new address is new: nobody holds it, and it is handed out once. */
  lemma NewIsNew(p: Params, netconfig: Json, all: seq<Json>, i: nat, ip: string)
    requires ValidParams(p) && i < |all| && DistinctNodeSets(all) && PlanNodeSet(p, netconfig, all[i], all).Some?
    ensures var plan, names := PlanNodeSet(p, netconfig, all[i], all).value, SortedNames(Keys(Nodes(all[i])));
      && (forall n :: n in names ==> n in plan.ips)
      && (var added := NewBag(p, Nodes(all[i]), plan.ips, names);
          added[ip] <= 1 && (added[ip] == 1 ==> FleetBag(p, all)[ip] == 0))
  {
    NewOnce(p, all[i], all, ip);
    NewNotTaken(p, all[i], all, ip);
    TakenIsEverything(p, all, i, ip);
  }

  lemma RolloutKeepsNames(p: Params, netconfig: Json, all: seq<Json>, i: nat)
    requires ValidParams(p) && i < |all| && DistinctNodeSets(all) && Rollout(p, netconfig, all, i).Some?
    ensures |Rollout(p, netconfig, all, i).value| == |all| && DistinctNodeSets(Rollout(p, netconfig, all, i).value)
  {
    PatchedName(all[i], PlanNodeSet(p, netconfig, all[i], all).value);
  }

  /** Handed the current list, a run gives out no address any NodeSet holds: distinct fabric IPs stay distinct. */
  lemma RolloutKeepsDistinct(p: Params, netconfig: Json, all: seq<Json>, i: nat)
    requires ValidParams(p) && i < |all| && DistinctNodeSets(all) && GloballyDistinct(p, all)
    requires Rollout(p, netconfig, all, i).Some?
    ensures GloballyDistinct(p, Rollout(p, netconfig, all, i).value)
  {
    forall ip ensures FleetBag(p, Rollout(p, netconfig, all, i).value)[ip] <= 1 {
      RolloutAdds(p, netconfig, all, i, all, ip);
      NewIsNew(p, netconfig, all, i, ip);
    }
  }

  function Rollouts(p: Params, netconfig: Json, all: seq<Json>, order: seq<(nat, string)>): Option<seq<Json>>
    requires ValidParams(p)
    decreases |order|
  {
    if order == [] then Some(all)
    else if order[0].0 >= |all| then None
    else
      var next := Rollout(p.(iface := order[0].1), netconfig, all, order[0].0);
      if next.None? then None else Rollouts(p, netconfig, next.value, order[1..])
  }

  /** Over any sequence of runs, each handed the current list, fabric IPs stay globally distinct. */
  lemma {:induction false} RolloutsKeepDistinct(p: Params, netconfig: Json, all: seq<Json>, order: seq<(nat, string)>)
    requires ValidParams(p) && DistinctNodeSets(all) && GloballyDistinct(p, all)
    requires Rollouts(p, netconfig, all, order).Some?
    ensures GloballyDistinct(p, Rollouts(p, netconfig, all, order).value)
    decreases |order|
  {
    if order == [] {
    } else {
      var q, i := p.(iface := order[0].1), order[0].0;
      SameBags(p, q, all);
      RolloutKeepsDistinct(q, netconfig, all, i);
      RolloutKeepsNames(q, netconfig, all, i);
      var next := Rollout(q, netconfig, all, i).value;
      SameBags(p, q, next);
      RolloutsKeepDistinct(p, netconfig, next, order[1..]);
    }
  }

  lemma {:induction false} SameEntries(p: Params, q: Params, nets: seq<Json>)
    requires q.network == p.network
    ensures EntryBag(q, nets) == EntryBag(p, nets)
  {
    if nets == [] {
    } else {
      SameEntries(p, q, nets[..|nets| - 1]);
    }
  }

  lemma {:induction false} SameNodes(p: Params, q: Params, nodes: Json, names: seq<string>)
    requires q.network == p.network
    ensures NodesBag(q, nodes, names) == NodesBag(p, nodes, names)
  {
    if names == [] {
    } else {
      SameNodes(p, q, nodes, names[..|names| - 1]);
      SameEntries(p, q, NodeNets(Field(nodes, names[|names| - 1])));
    }
  }

  /** The interface has no part in which addresses are in use. */
  lemma {:induction false} SameBags(p: Params, q: Params, all: seq<Json>)
    requires q.network == p.network
    ensures FleetBag(q, all) == FleetBag(p, all)
  {
    if all == [] {
    } else {
      SameBags(p, q, all[..|all| - 1]);
      SameNodes(p, q, Nodes(all[|all| - 1]), SortedNames(Keys(Nodes(all[|all| - 1]))));
    }
  }
}
