/** How far the allocation range reaches: when a run is exhausted, what it hands out, and what unsettled nodes use up. */
module NodeSetRuns {
  import opened Prelude
  import opened Numerals
  import opened JsonMerge
  import opened NetConfigPatch
  import opened NodeSetPatch
  import opened NodeSetParts
  import opened NodeSetTheorems
  import opened NodeSetAddresses

  // ---------------------------------------------------------------- when the range is exhausted

  /** The addresses of the allocation range that are not in use. */
  function Free(p: Params, used: set<string>): set<nat>
    requires ValidParams(p)
  {
    AllocFits(p);
    set a: nat | AllocStart(p) <= a <= AllocEnd(p) && Dotted(a) !in used
  }

  /** The nodes that need an address. */
  ghost function NewNodes(p: Params, ns: Json): set<string> {
    set n | n in Keys(Nodes(ns)) && IsNew(p, Nodes(ns), n)
  }

  ghost function NewAmong(p: Params, nodes: Json, names: seq<string>): set<string> {
    set n | n in names && IsNew(p, nodes, n)
  }

  /** Every address of the range below the cursor is used, and the cursor is in or past the range. */
  ghost predicate CursorInv(p: Params, st: LoopState) {
    CursorBehind(p, st) && AllocStart(p) <= st.cursor
  }

  /** One address used is one address less: distinct addresses have distinct texts. */
  lemma FreeLess(p: Params, used: set<string>, c: nat)
    requires ValidParams(p) && c in Free(p, used)
    ensures c < 0x1_0000_0000 && Free(p, used + {Dotted(c)}) == Free(p, used) - {c}
  {
    AllocFits(p);
    forall a | a in Free(p, used) && Dotted(a) == Dotted(c) ensures a == c {
      DottedInjective(a, c);
    }
  }

  lemma NoneLeft(p: Params, st: LoopState)
    requires ValidParams(p) && CursorInv(p, st) && NextAddress(p, st).None?
    ensures Free(p, st.used) == {}
  {
    AllocFits(p);
    CursorFindsLeast(p, st);
  }

  lemma AddressTaken(p: Params, st: LoopState, t: LoopState, c: nat)
    requires ValidParams(p) && CursorInv(p, st) && NextAddress(p, st) == Some(c)
    requires t.used == st.used + {Dotted(c)} && t.cursor == c + 1
    ensures CursorInv(p, t)
    ensures |Free(p, t.used)| + 1 == |Free(p, st.used)|
  {
    CursorFindsLeast(p, st);
    CursorMoves(p, st, t, c);
    assert c in Free(p, st.used) by { AllocFits(p); }
    FreeLess(p, st.used, c);
  }

  lemma CursorMoves(p: Params, st: LoopState, t: LoopState, c: nat)
    requires CursorInv(p, st) && AllocStart(p) <= c < 0x1_0000_0000
    requires forall a: nat :: AllocStart(p) <= a < c ==> Dotted(a) in st.used
    requires t.used == st.used + {Dotted(c)} && t.cursor == c + 1
    ensures CursorInv(p, t)
  {
  }

  lemma StepCounts(p: Params, tmpl: Json, st: LoopState, name: string, node: Json)
    requires ValidParams(p) && CursorInv(p, st)
    ensures var t, one := NodeStep(p, tmpl, st, name, node), if FixedIp(p, NodeNets(node)) == "" then 1 else 0;
      && (t.Some? ==> CursorInv(p, t.value) && |Free(p, t.value.used)| + one == |Free(p, st.used)|)
      && (t.None? ==> one == 1 && Free(p, st.used) == {})
  {
    if FixedIp(p, NodeNets(node)) == "" {
      var c := NextAddress(p, st);
      if c.Some? {
        AddressTaken(p, st, NodeStep(p, tmpl, st, name, node).value, c.value);
      } else {
        NoneLeft(p, st);
      }
    }
  }

  lemma NewOneMore(p: Params, nodes: Json, front: seq<string>, name: string)
    requires name !in front
    ensures |NewAmong(p, nodes, front + [name])| == |NewAmong(p, nodes, front)| + if IsNew(p, nodes, name) then 1 else 0
  {
    assert NewAmong(p, nodes, front + [name]) == NewAmong(p, nodes, front) + if IsNew(p, nodes, name) then {name} else {};
  }

  lemma {:induction false} LoopCounts(p: Params, nodes: Json, tmpl: Json, start: LoopState, names: seq<string>)
    requires ValidParams(p) && NoRepeats(names) && start.cursor == AllocStart(p)
    ensures var st := NodeLoop(p, nodes, tmpl, start, names);
      && (st.Some? ==> CursorInv(p, st.value) && |Free(p, st.value.used)| + |NewAmong(p, nodes, names)| == |Free(p, start.used)|)
      && (st.None? ==> |NewAmong(p, nodes, names)| > |Free(p, start.used)|)
    decreases |names|
  {
    if names == [] {
      assert NewAmong(p, nodes, names) == {};
    } else {
      var front, name := names[..|names| - 1], names[|names| - 1];
      assert names == front + [name];
      NoRepeatsFront(names);
      LastNode(p, nodes, tmpl, start, front, name);
      LoopCounts(p, nodes, tmpl, start, front);
      NewOneMore(p, nodes, front, name);
      var before := NodeLoop(p, nodes, tmpl, start, front);
      if before.Some? { StepCounts(p, tmpl, before.value, name, Field(nodes, name)); }
    }
  }

  lemma LoopCursor(p: Params, nodes: Json, tmpl: Json, start: LoopState, names: seq<string>)
    requires ValidParams(p) && NoRepeats(names) && start.cursor == AllocStart(p)
    requires NodeLoop(p, nodes, tmpl, start, names).Some?
    ensures CursorInv(p, NodeLoop(p, nodes, tmpl, start, names).value)
  {
    LoopCounts(p, nodes, tmpl, start, names);
  }

  lemma NamesNoRepeats(ns: Json)
    ensures NoRepeats(SortedNames(Keys(Nodes(ns))))
    ensures forall n :: n in SortedNames(Keys(Nodes(ns))) <==> n in Keys(Nodes(ns))
  {
  }

  /**
   * The run is exhausted exactly when more nodes need an address than the range has addresses that
   * no NodeSet holds.
   */
  lemma ExhaustionExact(p: Params, ns: Json, all: seq<Json>)
    requires ValidParams(p)
    ensures NodesResult(p, ns, all).None? <==> |NewNodes(p, ns)| > |Free(p, Taken(p, ns, all))|
    ensures NodesResult(p, ns, all).Some? ==>
      |Free(p, NodesResult(p, ns, all).value.used)| + |NewNodes(p, ns)| == |Free(p, Taken(p, ns, all))|
  {
    var names := SortedNames(Keys(Nodes(ns)));
    NamesNoRepeats(ns);
    LoopCounts(p, Nodes(ns), TemplateVars(ns), StartState(p, ns, all), names);
    assert NewAmong(p, Nodes(ns), names) == NewNodes(p, ns);
  }

  // ---------------------------------------------------------------- which addresses a run hands out

  /** One of these nodes was just given this address. */
  ghost predicate GivenTo(p: Params, nodes: Json, ips: map<string, string>, names: seq<string>, ip: string) {
    exists n :: n in names && n in ips && IsNew(p, nodes, n) && ips[n] == ip
  }

  /** The least address of the range that was neither taken nor given to one of these nodes. */
  ghost predicate LeastFor(p: Params, nodes: Json, taken: set<string>, ips: map<string, string>, earlier: seq<string>, ip: string)
    requires ValidParams(p)
  {
    AllocFits(p);
    exists a: nat :: AllocStart(p) <= a <= AllocEnd(p) && ip == Dotted(a)
                     && !Gone(p, nodes, taken, ips, earlier, a)
                     && forall b: nat :: AllocStart(p) <= b < a ==> Gone(p, nodes, taken, ips, earlier, b)
  }

  ghost predicate Gone(p: Params, nodes: Json, taken: set<string>, ips: map<string, string>, earlier: seq<string>, a: nat) {
    a < 0x1_0000_0000 && (Dotted(a) in taken || GivenTo(p, nodes, ips, earlier, Dotted(a)))
  }

  ghost predicate UsedExactly(p: Params, nodes: Json, taken: set<string>, st: LoopState, names: seq<string>) {
    && (forall x :: x in st.used <==> x in taken || GivenTo(p, nodes, st.ips, names, x))
    && (forall n :: n in st.ips <==> n in names)
  }

  ghost predicate AllLeast(p: Params, nodes: Json, taken: set<string>, ips: map<string, string>, names: seq<string>)
    requires ValidParams(p)
  {
    forall i :: 0 <= i < |names| && IsNew(p, nodes, names[i]) ==>
      names[i] in ips && LeastFor(p, nodes, taken, ips, names[..i], ips[names[i]])
  }

  ghost predicate SameFor(ips: map<string, string>, ips': map<string, string>, names: seq<string>) {
    forall n :: n in names ==> n in ips && n in ips' && ips[n] == ips'[n]
  }

  lemma LeastSame(p: Params, nodes: Json, taken: set<string>, ips: map<string, string>, ips': map<string, string>,
                  earlier: seq<string>, ip: string)
    requires ValidParams(p) && SameFor(ips, ips', earlier)
    requires LeastFor(p, nodes, taken, ips, earlier, ip)
    ensures LeastFor(p, nodes, taken, ips', earlier, ip)
  {
    forall a: nat ensures Gone(p, nodes, taken, ips, earlier, a) <==> Gone(p, nodes, taken, ips', earlier, a) {
      if a < 0x1_0000_0000 { GivenSame(p, nodes, ips, ips', earlier, Dotted(a)); }
    }
  }

  lemma GivenSame(p: Params, nodes: Json, ips: map<string, string>, ips': map<string, string>, names: seq<string>, ip: string)
    requires SameFor(ips, ips', names)
    ensures GivenTo(p, nodes, ips, names, ip) <==> GivenTo(p, nodes, ips', names, ip)
  {
  }

  lemma GivenNext(p: Params, nodes: Json, ips: map<string, string>, front: seq<string>, name: string, given: string, ip: string)
    requires name !in front && forall n :: n in front ==> n in ips
    ensures GivenTo(p, nodes, ips[name := given], front + [name], ip) <==>
      GivenTo(p, nodes, ips, front, ip) || (IsNew(p, nodes, name) && given == ip)
  {
    GivenSame(p, nodes, ips, ips[name := given], front, ip);
    if n :| n in front && n in ips && IsNew(p, nodes, n) && ips[n] == ip { assert n in front + [name]; }
    assert name in front + [name];
  }

  lemma AllLeastNext(p: Params, nodes: Json, taken: set<string>, ips: map<string, string>, front: seq<string>, name: string, given: string)
    requires ValidParams(p) && AllLeast(p, nodes, taken, ips, front) && name !in front && forall n :: n in front ==> n in ips
    requires IsNew(p, nodes, name) ==> LeastFor(p, nodes, taken, ips, front, given)
    ensures AllLeast(p, nodes, taken, ips[name := given], front + [name])
  {
    var names, ips' := front + [name], ips[name := given];
    forall i | 0 <= i < |names| && IsNew(p, nodes, names[i])
      ensures names[i] in ips' && LeastFor(p, nodes, taken, ips', names[..i], ips'[names[i]])
    {
      if i < |front| {
        assert names[..i] == front[..i] && names[i] == front[i];
        LeastSame(p, nodes, taken, ips, ips', front[..i], ips[front[i]]);
      } else {
        assert names[..i] == front;
        LeastSame(p, nodes, taken, ips, ips', front, given);
      }
    }
  }

  lemma CursorGivesLeast(p: Params, nodes: Json, taken: set<string>, st: LoopState, front: seq<string>, c: nat)
    requires ValidParams(p) && CursorInv(p, st) && UsedExactly(p, nodes, taken, st, front)
    requires NextAddress(p, st) == Some(c)
    ensures LeastFor(p, nodes, taken, st.ips, front, Dotted(c))
  {
    CursorFindsLeast(p, st);
    AllocFits(p);
    forall a: nat | a < 0x1_0000_0000 ensures Gone(p, nodes, taken, st.ips, front, a) <==> Dotted(a) in st.used {}
    assert !Gone(p, nodes, taken, st.ips, front, c);
  }

  lemma UsedNext(p: Params, nodes: Json, taken: set<string>, st: LoopState, t: LoopState, front: seq<string>, name: string, ip: string)
    requires UsedExactly(p, nodes, taken, st, front) && name !in front
    requires t.ips == st.ips[name := ip] && t.used == if IsNew(p, nodes, name) then st.used + {ip} else st.used
    ensures UsedExactly(p, nodes, taken, t, front + [name])
  {
    forall x ensures x in t.used <==> x in taken || GivenTo(p, nodes, t.ips, front + [name], x) {
      GivenNext(p, nodes, st.ips, front, name, ip, x);
    }
    assert forall n :: n in front + [name] <==> n in front || n == name;
  }

  lemma {:induction false} LoopGivesLeast(p: Params, nodes: Json, tmpl: Json, taken: set<string>, start: LoopState, names: seq<string>)
    requires ValidParams(p) && NoRepeats(names)
    requires start == LoopState(taken, AllocStart(p), map[], map[])
    requires NodeLoop(p, nodes, tmpl, start, names).Some?
    ensures var st := NodeLoop(p, nodes, tmpl, start, names).value;
      UsedExactly(p, nodes, taken, st, names) && AllLeast(p, nodes, taken, st.ips, names)
    decreases |names|
  {
    if names == [] {
    } else {
      var front, name := names[..|names| - 1], names[|names| - 1];
      assert names == front + [name];
      NoRepeatsFront(names);
      LastNode(p, nodes, tmpl, start, front, name);
      LoopGivesLeast(p, nodes, tmpl, taken, start, front);
      LoopCursor(p, nodes, tmpl, start, front);
      NextGivesLeast(p, nodes, tmpl, taken, NodeLoop(p, nodes, tmpl, start, front).value, front, name);
    }
  }

  lemma NextGivesLeast(p: Params, nodes: Json, tmpl: Json, taken: set<string>, st: LoopState, front: seq<string>, name: string)
    requires ValidParams(p) && CursorInv(p, st) && name !in front
    requires UsedExactly(p, nodes, taken, st, front) && AllLeast(p, nodes, taken, st.ips, front)
    requires NodeStep(p, tmpl, st, name, Field(nodes, name)).Some?
    ensures var t := NodeStep(p, tmpl, st, name, Field(nodes, name)).value;
      UsedExactly(p, nodes, taken, t, front + [name]) && AllLeast(p, nodes, taken, t.ips, front + [name])
  {
    var t := NodeStep(p, tmpl, st, name, Field(nodes, name)).value;
    var held := FixedIp(p, NodeNets(Field(nodes, name)));
    if IsNew(p, nodes, name) { CursorGivesLeast(p, nodes, taken, st, front, NextAddress(p, st).value); }
    var ip := if held == "" then Dotted(NextAddress(p, st).value) else held;
    UsedNext(p, nodes, taken, st, t, front, name, ip);
    AllLeastNext(p, nodes, taken, st.ips, front, name, ip);
  }

  /**
   * The moving cursor refines the simple rule: in name order, every node without a fixedIP gets the
   * least address of the range that no NodeSet holds and no earlier node was just given.
   */
  lemma LeastAddresses(p: Params, ns: Json, all: seq<Json>)
    requires ValidParams(p) && NodesResult(p, ns, all).Some?
    ensures AllLeast(p, Nodes(ns), Taken(p, ns, all), NodesResult(p, ns, all).value.ips, SortedNames(Keys(Nodes(ns))))
  {
    NamesNoRepeats(ns);
    LoopGivesLeast(p, Nodes(ns), TemplateVars(ns), Taken(p, ns, all), StartState(p, ns, all), SortedNames(Keys(Nodes(ns))));
  }

  // ---------------------------------------------------------------- exactly which addresses a run hands out

  ghost function Below(s: set<nat>, a: nat): set<nat> {
    set b | b in s && b < a
  }

  /** The k least addresses of the range that are not taken. */
  ghost function LeastFree(p: Params, taken: set<string>, k: nat): set<nat>
    requires ValidParams(p)
  {
    set a | a in Free(p, taken) && |Below(Free(p, taken), a)| < k
  }

  /** Every address handed out so far lies below the cursor. */
  ghost predicate CursorAhead(p: Params, taken: set<string>, st: LoopState)
    requires ValidParams(p)
  {
    taken <= st.used && forall a :: a in Free(p, taken) && a !in Free(p, st.used) ==> a < st.cursor
  }

  lemma AheadNext(p: Params, taken: set<string>, tmpl: Json, st: LoopState, name: string, node: Json)
    requires ValidParams(p) && CursorInv(p, st) && CursorAhead(p, taken, st) && NodeStep(p, tmpl, st, name, node).Some?
    ensures CursorAhead(p, taken, NodeStep(p, tmpl, st, name, node).value)
  {
    if FixedIp(p, NodeNets(node)) == "" {
      var c := NextAddress(p, st).value;
      CursorFindsLeast(p, st);
      assert c in Free(p, st.used) by { AllocFits(p); }
      FreeLess(p, st.used, c);
      assert c >= st.cursor by { NextFreeExact(st.cursor, st.used); }
    }
  }

  lemma {:induction false} LoopAhead(p: Params, nodes: Json, tmpl: Json, taken: set<string>, start: LoopState, names: seq<string>)
    requires ValidParams(p) && NoRepeats(names) && start == LoopState(taken, AllocStart(p), map[], map[])
    requires NodeLoop(p, nodes, tmpl, start, names).Some?
    ensures CursorAhead(p, taken, NodeLoop(p, nodes, tmpl, start, names).value)
    decreases |names|
  {
    if names == [] {
    } else {
      var front, name := names[..|names| - 1], names[|names| - 1];
      assert names == front + [name];
      NoRepeatsFront(names);
      LastNode(p, nodes, tmpl, start, front, name);
      LoopAhead(p, nodes, tmpl, taken, start, front);
      LoopCursor(p, nodes, tmpl, start, front);
      AheadNext(p, taken, tmpl, NodeLoop(p, nodes, tmpl, start, front).value, name, Field(nodes, name));
    }
  }

  lemma BelowCount(s: set<nat>, a: nat, cursor: nat)
    requires a in s
    ensures |Below(s, a)| < |Below(s, cursor)| <==> a < cursor
  {
    if a < cursor {
      SubsetSize(Below(s, a) + {a}, Below(s, cursor));
    } else {
      SubsetSize(Below(s, cursor), Below(s, a));
    }
  }

  /** The addresses used up by the loop are the free ones below its cursor, and so the least ones. */
  lemma UsedAreLeast(p: Params, taken: set<string>, st: LoopState, k: nat)
    requires ValidParams(p) && CursorInv(p, st) && CursorAhead(p, taken, st)
    requires |Free(p, st.used)| + k == |Free(p, taken)|
    ensures Free(p, taken) - Free(p, st.used) == LeastFree(p, taken, k)
  {
    var free, left := Free(p, taken), Free(p, st.used);
    FreeShrinks(p, taken, st);
    assert free == left + Below(free, st.cursor);
    forall a | a in free ensures a in LeastFree(p, taken, k) <==> a !in left {
      BelowCount(free, a, st.cursor);
    }
  }

  lemma FreeShrinks(p: Params, taken: set<string>, st: LoopState)
    requires ValidParams(p) && CursorInv(p, st) && CursorAhead(p, taken, st)
    ensures Free(p, st.used) <= Free(p, taken)
    ensures forall a :: a in Free(p, taken) ==> (a in Free(p, st.used) <==> st.cursor <= a)
  {
    AllocFits(p);
  }

  /** A run hands out exactly the least free addresses, one for each node that needs one. */
  lemma HandsOutLeast(p: Params, ns: Json, seen: seq<Json>, a: nat)
    requires ValidParams(p) && NodesResult(p, ns, seen).Some? && a < 0x1_0000_0000
    ensures GivenTo(p, Nodes(ns), NodesResult(p, ns, seen).value.ips, SortedNames(Keys(Nodes(ns))), Dotted(a)) <==>
      a in LeastFree(p, Taken(p, ns, seen), |NewNodes(p, ns)|)
  {
    var names, taken, st := SortedNames(Keys(Nodes(ns))), Taken(p, ns, seen), NodesResult(p, ns, seen).value;
    NamesNoRepeats(ns);
    LoopAhead(p, Nodes(ns), TemplateVars(ns), taken, StartState(p, ns, seen), names);
    LoopCounts(p, Nodes(ns), TemplateVars(ns), StartState(p, ns, seen), names);
    ExhaustionExact(p, ns, seen);
    UsedAreLeast(p, taken, st, |NewNodes(p, ns)|);
    GivenInRange(p, ns, seen, a);
  }

  /** What a run was handed is not given out, and what it gives out lies in the range. */
  lemma GivenInRange(p: Params, ns: Json, seen: seq<Json>, a: nat)
    requires ValidParams(p) && NodesResult(p, ns, seen).Some? && a < 0x1_0000_0000
    ensures var taken, st := Taken(p, ns, seen), NodesResult(p, ns, seen).value;
      GivenTo(p, Nodes(ns), st.ips, SortedNames(Keys(Nodes(ns))), Dotted(a)) <==> a in Free(p, taken) - Free(p, st.used)
  {
    var names, taken, st := SortedNames(Keys(Nodes(ns))), Taken(p, ns, seen), NodesResult(p, ns, seen).value;
    NamesNoRepeats(ns);
    LoopGivesLeast(p, Nodes(ns), TemplateVars(ns), taken, StartState(p, ns, seen), names);
    if GivenTo(p, Nodes(ns), st.ips, names, Dotted(a)) {
      GivenIsFree(p, ns, seen, a);
    }
    AllocFits(p);
  }

  lemma GivenIsFree(p: Params, ns: Json, seen: seq<Json>, a: nat)
    requires ValidParams(p) && NodesResult(p, ns, seen).Some? && a < 0x1_0000_0000
    requires GivenTo(p, Nodes(ns), NodesResult(p, ns, seen).value.ips, SortedNames(Keys(Nodes(ns))), Dotted(a))
    ensures a in Free(p, Taken(p, ns, seen))
  {
    var names, st := SortedNames(Keys(Nodes(ns))), NodesResult(p, ns, seen).value;
    var n :| n in names && n in st.ips && IsNew(p, Nodes(ns), n) && st.ips[n] == Dotted(a);
    FreshAddresses(p, ns, seen);
    InRangeIs(p, a);
  }

  lemma InRangeIs(p: Params, a: nat)
    requires ValidParams(p) && a < 0x1_0000_0000 && InRange(p, Dotted(a))
    ensures AllocStart(p) <= a <= AllocEnd(p)
  {
    AllocFits(p);
    var b: nat :| AllocStart(p) <= b <= AllocEnd(p) && Dotted(a) == Dotted(b);
    DottedInjective(a, b);
  }

  // ---------------------------------------------------------------- unsettled nodes, over any sequence of runs

  /** The nodes whose first fabric entry lacks a fixedIP: no run settles them. */
  function StuckNodes(p: Params, ns: Json): set<string> {
    set n | n in Keys(Nodes(ns)) && !Settles(p, Field(Nodes(ns), n))
  }

  function EntryCount(ns: Json, name: string): nat {
    |NodeNets(Field(Nodes(ns), name))|
  }

  lemma StuckNodeAfter(p: Params, nets: seq<Json>, ip: string)
    requires ip != "" && FirstOwn(p, nets) < |nets| && FixedIp(p, nets) == ""
    ensures var after := nets + [FreshEntry(p, ip)]; FirstOwn(p, after) < |after| && FixedIp(p, after) == ""
  {
    FirstOwnAppend(p, nets, FreshEntry(p, ip));
  }

  /** A run gives every stuck node one more fabric entry and leaves it stuck. */
  lemma StuckStays(p: Params, netconfig: Json, ns: Json, all: seq<Json>, n: string)
    requires ValidParams(p) && PlanNodeSet(p, netconfig, ns, all).Some? && n in StuckNodes(p, ns)
    ensures var plan := PlanNodeSet(p, netconfig, ns, all).value; var after := Patched(ns, plan);
      n in StuckNodes(p, after) && n in plan.ips &&
      NodeNets(Field(Nodes(after), n)) == NodeNets(Field(Nodes(ns), n)) + [FreshEntry(p, plan.ips[n])]
  {
    var plan, names, st := PlanNodeSet(p, netconfig, ns, all).value, SortedNames(Keys(Nodes(ns))), NodesResult(p, ns, all).value;
    NamesNoRepeats(ns);
    NodeLoopDone(p, Nodes(ns), TemplateVars(ns), StartState(p, ns, all), names);
    PatchedNodes(p, ns, plan, st, names);
    assert NodeDone(p, TemplateVars(ns), st, n, Field(Nodes(ns), n));
    NodeAfterFields(p, TemplateVars(ns), Field(Nodes(ns), n), st.ips[n]);
    StuckNodeAfter(p, NodeNets(Field(Nodes(ns), n)), st.ips[n]);
  }

  lemma {:induction false} NewBagHolds(p: Params, nodes: Json, ips: map<string, string>, names: seq<string>, n: string)
    requires forall m :: m in names ==> m in ips
    requires n in names && IsNew(p, nodes, n)
    ensures ips[n] in NewBag(p, nodes, ips, names)
  {
    var front, last := names[..|names| - 1], names[|names| - 1];
    assert names == front + [last];
    if n == last {
    } else {
      NewBagHolds(p, nodes, ips, front, n);
    }
  }

  /** The addresses of the range that no NodeSet holds. */
  function FreeIn(p: Params, all: seq<Json>): set<nat>
    requires ValidParams(p)
  {
    AllocFits(p);
    set a: nat | AllocStart(p) <= a <= AllocEnd(p) && Dotted(a) !in FleetBag(p, all)
  }

  lemma FreeInTaken(p: Params, all: seq<Json>, used: set<string>)
    requires ValidParams(p) && forall ip :: ip in used <==> ip in FleetBag(p, all)
    ensures FreeIn(p, all) == Free(p, used)
  {
    AllocFits(p);
    forall a ensures a in FreeIn(p, all) <==> a in Free(p, used) {}
  }

  /** After a run the NodeSets hold exactly what the loop had marked as used. */
  lemma HeldAfter(p: Params, netconfig: Json, all: seq<Json>, i: nat, ip: string)
    requires ValidParams(p) && i < |all| && DistinctNodeSets(all) && PlanNodeSet(p, netconfig, all[i], all).Some?
    ensures ip in FleetBag(p, all[i := Patched(all[i], PlanNodeSet(p, netconfig, all[i], all).value)]) <==>
      ip in NodesResult(p, all[i], all).value.used
  {
    var ns, plan := all[i], PlanNodeSet(p, netconfig, all[i], all).value;
    var names, st := SortedNames(Keys(Nodes(ns))), NodesResult(p, ns, all).value;
    RolloutAdds(p, netconfig, all, i, all, ip);
    TakenIsEverything(p, all, i, ip);
    NamesNoRepeats(ns);
    LoopGivesLeast(p, Nodes(ns), TemplateVars(ns), Taken(p, ns, all), StartState(p, ns, all), names);
    NewBagMembers(p, Nodes(ns), plan.ips, names, ip);
    if n :| n in names && n in st.ips && IsNew(p, Nodes(ns), n) && st.ips[n] == ip {
      NewBagHolds(p, Nodes(ns), plan.ips, names, n);
    }
    assert ip in NewBag(p, Nodes(ns), plan.ips, names) <==> GivenTo(p, Nodes(ns), st.ips, names, ip);
  }

  /** A run uses up one free address for each node that needs one. */
  lemma RolloutUses(p: Params, netconfig: Json, all: seq<Json>, i: nat)
    requires ValidParams(p) && i < |all| && DistinctNodeSets(all) && Rollout(p, netconfig, all, i).Some?
    ensures |FreeIn(p, Rollout(p, netconfig, all, i).value)| + |NewNodes(p, all[i])| == |FreeIn(p, all)|
  {
    var after, used, taken := Rollout(p, netconfig, all, i).value, NodesResult(p, all[i], all).value.used, Taken(p, all[i], all);
    assert FreeIn(p, after) == Free(p, used) by {
      forall ip ensures ip in used <==> ip in FleetBag(p, after) { HeldAfter(p, netconfig, all, i, ip); }
      FreeInTaken(p, after, used);
    }
    assert FreeIn(p, all) == Free(p, taken) by {
      forall ip ensures ip in taken <==> ip in FleetBag(p, all) { TakenIsEverything(p, all, i, ip); }
      FreeInTaken(p, all, taken);
    }
    ExhaustionExact(p, all[i], all);
  }

  function Times(order: seq<(nat, string)>, i: nat): nat {
    if order == [] then 0 else (if order[0].0 == i then 1 else 0) + Times(order[1..], i)
  }

  lemma {:induction false} SameFirstOwn(p: Params, q: Params, nets: seq<Json>)
    requires q.network == p.network
    ensures FirstOwn(q, nets) == FirstOwn(p, nets)
  {
    if nets == [] {
    } else {
      SameFirstOwn(p, q, nets[1..]);
    }
  }

  /** The interface has no part in which addresses are free and which nodes are stuck. */
  lemma SameRange(p: Params, iface: string, all: seq<Json>, ns: Json)
    requires ValidParams(p)
    ensures var q := p.(iface := iface);
      ValidParams(q) && FreeIn(q, all) == FreeIn(p, all) && StuckNodes(q, ns) == StuckNodes(p, ns)
  {
    var q := p.(iface := iface);
    SameBags(p, q, all);
    forall n { SameFirstOwn(p, q, NodeNets(Field(Nodes(ns), n))); }
    forall a ensures a in FreeIn(q, all) <==> a in FreeIn(p, all) {}
  }

  /** What one run does to the stuck nodes of NodeSet i and to the range. */
  ghost predicate Drains(p: Params, all: seq<Json>, after: seq<Json>, i: nat, times: nat)
    requires ValidParams(p)
  {
    && i < |all| == |after|
    && times * |StuckNodes(p, all[i])| + |FreeIn(p, after)| <= |FreeIn(p, all)|
    && StuckNodes(p, all[i]) <= StuckNodes(p, after[i])
    && forall n :: n in StuckNodes(p, all[i]) ==> EntryCount(after[i], n) == EntryCount(all[i], n) + times
  }

  lemma RolloutDrains(p: Params, netconfig: Json, all: seq<Json>, j: nat, i: nat)
    requires ValidParams(p) && i < |all| && j < |all| && DistinctNodeSets(all) && Rollout(p, netconfig, all, j).Some?
    ensures var after := Rollout(p, netconfig, all, j).value; |after| == |all| && Drains(p, all, after, i, if i == j then 1 else 0)
  {
    RolloutUses(p, netconfig, all, j);
    var after := Rollout(p, netconfig, all, j).value;
    if i == j {
      StuckStay(p, netconfig, all[i], all);
      StuckAreNew(p, all[i]);
    } else {
      assert after[i] == all[i];
    }
  }

  lemma StuckAreNew(p: Params, ns: Json)
    ensures StuckNodes(p, ns) <= NewNodes(p, ns) && |StuckNodes(p, ns)| <= |NewNodes(p, ns)|
  {
    SubsetSize(StuckNodes(p, ns), NewNodes(p, ns));
  }

  lemma StuckStay(p: Params, netconfig: Json, ns: Json, all: seq<Json>)
    requires ValidParams(p) && PlanNodeSet(p, netconfig, ns, all).Some?
    ensures var after := Patched(ns, PlanNodeSet(p, netconfig, ns, all).value);
      && StuckNodes(p, ns) <= StuckNodes(p, after)
      && forall n :: n in StuckNodes(p, ns) ==> EntryCount(after, n) == EntryCount(ns, n) + 1
  {
    var after := Patched(ns, PlanNodeSet(p, netconfig, ns, all).value);
    forall n | n in StuckNodes(p, ns) ensures n in StuckNodes(p, after) && EntryCount(after, n) == EntryCount(ns, n) + 1 {
      StuckStays(p, netconfig, ns, all, n);
    }
  }

  lemma DrainsTwice(p: Params, a: seq<Json>, b: seq<Json>, c: seq<Json>, i: nat, m: nat, n: nat, both: nat)
    requires ValidParams(p) && both == m + n
    requires Drains(p, a, b, i, m) && Drains(p, b, c, i, n)
    ensures Drains(p, a, c, i, both)
  {
    SubsetSize(StuckNodes(p, a[i]), StuckNodes(p, b[i]));
    CostsAddUp(m, n, both, |StuckNodes(p, a[i])|, |StuckNodes(p, b[i])|, |FreeIn(p, a)|, |FreeIn(p, b)|, |FreeIn(p, c)|);
  }

  lemma CostsAddUp(m: nat, n: nat, both: nat, x: nat, y: nat, first: nat, second: nat, third: nat)
    requires both == m + n && x <= y && m * x + second <= first && n * y + third <= second
    ensures both * x + third <= first
  {
    Larger(n, x, y);
    assert both * x == m * x + n * x;
  }

  lemma Larger(n: nat, x: nat, y: nat)
    requires x <= y
    ensures n * x <= n * y
  {
  }

  lemma FirstOfRollouts(p: Params, netconfig: Json, all: seq<Json>, order: seq<(nat, string)>)
    requires ValidParams(p) && order != [] && Rollouts(p, netconfig, all, order).Some?
    ensures order[0].0 < |all|
    ensures var first := Rollout(p.(iface := order[0].1), netconfig, all, order[0].0);
      first.Some? && Rollouts(p, netconfig, all, order) == Rollouts(p, netconfig, first.value, order[1..])
  {
  }

  lemma NoDrain(p: Params, all: seq<Json>, i: nat)
    requires ValidParams(p) && i < |all|
    ensures Drains(p, all, all, i, 0)
  {
  }

  /** One run, with its own interface. */
  lemma FirstDrains(p: Params, netconfig: Json, all: seq<Json>, j: nat, iface: string, i: nat)
    requires ValidParams(p) && DistinctNodeSets(all) && i < |all| && j < |all|
    requires Rollout(p.(iface := iface), netconfig, all, j).Some?
    ensures var next := Rollout(p.(iface := iface), netconfig, all, j).value;
      |next| == |all| && DistinctNodeSets(next) && Drains(p, all, next, i, if i == j then 1 else 0)
  {
    var q := p.(iface := iface);
    RolloutKeepsNames(q, netconfig, all, j);
    RolloutDrains(q, netconfig, all, j, i);
    SameDrains(p, iface, all, Rollout(q, netconfig, all, j).value, i, if i == j then 1 else 0);
  }

  /**
   * Over any sequence of runs, each run of NodeSet i gives every stuck node of it yet another entry
   * and uses up a free address for it.
   */
  lemma {:induction false} RolloutsDrain(p: Params, netconfig: Json, all: seq<Json>, order: seq<(nat, string)>, i: nat, after: seq<Json>)
    requires ValidParams(p) && DistinctNodeSets(all) && i < |all|
    requires Rollouts(p, netconfig, all, order) == Some(after)
    ensures Drains(p, all, after, i, Times(order, i))
    decreases |order|
  {
    if order == [] {
      NoDrain(p, all, i);
    } else {
      var next, one := FirstOfRolloutsDrains(p, netconfig, all, order, i, after);
      RolloutsDrain(p, netconfig, next, order[1..], i, after);
      DrainsTwice(p, all, next, after, i, one, Times(order[1..], i), Times(order, i));
    }
  }

  lemma FirstOfRolloutsDrains(p: Params, netconfig: Json, all: seq<Json>, order: seq<(nat, string)>, i: nat, after: seq<Json>)
    returns (next: seq<Json>, one: nat)
    requires ValidParams(p) && DistinctNodeSets(all) && i < |all| && order != []
    requires Rollouts(p, netconfig, all, order) == Some(after)
    ensures |next| == |all| && DistinctNodeSets(next) && Drains(p, all, next, i, one)
    ensures Rollouts(p, netconfig, next, order[1..]) == Some(after)
    ensures Times(order, i) == one + Times(order[1..], i)
  {
    FirstOfRollouts(p, netconfig, all, order);
    FirstDrains(p, netconfig, all, order[0].0, order[0].1, i);
    next, one := Rollout(p.(iface := order[0].1), netconfig, all, order[0].0).value, if i == order[0].0 then 1 else 0;
  }

  lemma SameDrains(p: Params, iface: string, all: seq<Json>, after: seq<Json>, i: nat, times: nat)
    requires ValidParams(p) && i < |all| == |after| && Drains(p.(iface := iface), all, after, i, times)
    ensures Drains(p, all, after, i, times)
  {
    SameRange(p, iface, all, all[i]);
    SameRange(p, iface, after, after[i]);
  }

  /** So a NodeSet with a stuck node can be run only so often: past that, some run is exhausted or fails. */
  lemma StuckNodesExhaustTheRange(p: Params, netconfig: Json, all: seq<Json>, order: seq<(nat, string)>, i: nat)
    requires ValidParams(p) && DistinctNodeSets(all) && i < |all| && StuckNodes(p, all[i]) != {}
    requires Times(order, i) > |FreeIn(p, all)|
    ensures Rollouts(p, netconfig, all, order).None?
  {
    if Rollouts(p, netconfig, all, order).Some? {
      RolloutsDrain(p, netconfig, all, order, i, Rollouts(p, netconfig, all, order).value);
      Larger(Times(order, i), 1, |StuckNodes(p, all[i])|);
    }
  }

  /** A NodeSet with one node whose only fabric entry has no fixedIP. */
  function OneStuckNode(p: Params): Json {
    var node := Obj(map["networks" := Arr([Obj(map["name" := Str(p.network)])])]);
    Obj(map["metadata" := Obj(map["name" := Str("edpm")]),
            "spec" := Obj(map["nodes" := Obj(map["compute-0" := node]),
                              "nodeTemplate" := Obj(map["ansible" := Obj(map["ansibleVars" := Obj(map[TEMPLATE := Str("---")])])])])])
  }

  lemma StuckExampleNode(p: Params)
    ensures Keys(Nodes(OneStuckNode(p))) == {"compute-0"} && StuckNodes(p, OneStuckNode(p)) == {"compute-0"}
    ensures NodeSetIps(p, OneStuckNode(p)) == {}
  {
    var entry := Obj(map["name" := Str(p.network)]);
    assert NodeNets(Field(Nodes(OneStuckNode(p)), "compute-0")) == [entry];
    assert IsOwn(p, entry) && Field(entry, "fixedIP") == Null;
    assert FirstOwn(p, [entry]) == 0;
  }

  lemma OneNodeFits(p: Params, ns: Json, seen: seq<Json>)
    requires ValidParams(p) && AllocStart(p) in Free(p, Taken(p, ns, seen)) && Keys(Nodes(ns)) == {"compute-0"}
    ensures NodesResult(p, ns, seen).Some?
  {
    SubsetSize({AllocStart(p)}, Free(p, Taken(p, ns, seen)));
    SubsetSize(NewNodes(p, ns), {"compute-0"});
    ExhaustionExact(p, ns, seen);
  }

  /** It is planned, and planned again: its second run still changes it. */
  lemma StuckExample(p: Params, netconfig: Json)
    requires ValidParams(p) && AllocStart(p) <= AllocEnd(p)
    ensures var ns := OneStuckNode(p); var first := PlanNodeSet(p, netconfig, ns, [ns]);
      first.Some? &&
      var again := PlanNodeSet(p, netconfig, Patched(ns, first.value), [Patched(ns, first.value)]);
      again.None? || Changed(again.value)
  {
    var ns := OneStuckNode(p);
    StuckExampleNode(p);
    AllocFits(p);
    assert NodeSetIps(p, ns) == {} && Taken(p, ns, [ns]) == {};
    assert AllocStart(p) in Free(p, Taken(p, ns, [ns]));
    OneNodeFits(p, ns, [ns]);
    var first := PlanNodeSet(p, netconfig, ns, [ns]);
    assert "compute-0" in Keys(Nodes(ns)) && !Settles(p, Field(Nodes(ns), "compute-0"));
    NodeSetSettlesExact(p, netconfig, ns, [ns], [Patched(ns, first.value)]);
  }
}
