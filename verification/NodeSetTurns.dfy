/** When a rollout over several NodeSets keeps fabric IPs distinct: exactly, and so that it can be told beforehand. */
module NodeSetTurns {
  import opened Prelude
  import opened Numerals
  import opened JsonMerge
  import opened NetConfigPatch
  import opened NodeSetPatch
  import opened NodeSetTheorems
  import opened NodeSetAddresses
  import opened NodeSetRuns
  import opened NodeSetPlay

  // ---------------------------------------------------------------- one turn after another

  /** A list that names every address held is as good as the current one. */
  lemma FullListSafe(p: Params, all: seq<Json>, ns: Json, seen: seq<Json>)
    requires ValidParams(p) && forall ip :: ip in FleetBag(p, all) ==> ip in Taken(p, ns, seen)
    ensures Unheld(p, all, ns, seen)
  {
    AllocFits(p);
  }

  lemma NobodyNew(p: Params, all: seq<Json>, ns: Json, seen: seq<Json>)
    requires ValidParams(p) && NewNodes(p, ns) == {}
    ensures Unheld(p, all, ns, seen)
  {
    AllocFits(p);
    assert Handed(p, ns, seen) == {};
  }

  /** Others seen as they are, and oneself read anew: everything is named. */
  lemma OwnReadAnew(p: Params, all: seq<Json>, seen: seq<Json>, i: nat, ip: string)
    requires i < |all| == |seen| && DistinctNodeSets(all) && NameOf(seen[i]) == NameOf(all[i])
    requires forall x :: 0 <= x < |all| && x != i ==> seen[x] == all[x]
    ensures ip in FleetBag(p, all) ==> ip in Taken(p, all[i], seen)
  {
    if ip in FleetBag(p, all) {
      TakenIsEverything(p, all, i, ip);
      if o :| o in all && NameOf(o) != NameOf(all[i]) && ip in NodeSetIps(p, o) {
        var x :| 0 <= x < |all| && all[x] == o;
        assert seen[x] in seen && seen[x] == o;
      }
    }
  }

  /** The turn before was attempted, so this one is handed the list from before it. */
  lemma HandedOn(p: Params, netconfig: Json, max: nat, prev: Play, v: Visit, w: Visit)
    requires ValidParams(p)
    requires Patches(p, netconfig, max, Turn(p, netconfig, max, prev, v), w)
    ensures Turn(p, netconfig, max, prev, v).seen == prev.all
    ensures var cur := Turn(p, netconfig, max, prev, v);
      |cur.all| == |prev.all| && w.i < |cur.all| && forall x :: 0 <= x < |prev.all| && x != v.i ==> cur.all[x] == prev.all[x]
  {
    TurnShape(p, netconfig, max, prev, v);
    PatchesAt(p, netconfig, max, Turn(p, netconfig, max, prev, v), w);
  }

  lemma PatchesAt(p: Params, netconfig: Json, max: nat, play: Play, v: Visit)
    requires ValidParams(p) && Patches(p, netconfig, max, play, v)
    ensures play.failures <= max && v.i < |play.all|
    ensures NodesResult(p.(iface := v.iface), play.all[v.i], play.seen).Some?
  {
  }

  lemma NothingAdded(p: Params, netconfig: Json, max: nat, prev: Play, v: Visit, ip: string)
    requires ValidParams(p) && !Adds(p, netconfig, max, prev, v)
    ensures ip in FleetBag(p, Turn(p, netconfig, max, prev, v).all) <==> ip in FleetBag(p, prev.all)
  {
    TurnAdds(p, netconfig, max, prev, v, ip);
    if Patches(p, netconfig, max, prev, v) {
      assert Handed(p, prev.all[v.i], prev.seen) == {};
    }
  }

  /** After a turn that added nothing the handed list is as good as the current one. */
  lemma SafeAfterQuietTurn(p: Params, netconfig: Json, max: nat, prev: Play, v: Visit, w: Visit)
    requires ValidParams(p) && DistinctNodeSets(prev.all)
    requires Patches(p, netconfig, max, Turn(p, netconfig, max, prev, v), w)
    requires !Adds(p, netconfig, max, prev, v) && w.i != v.i
    ensures var cur := Turn(p, netconfig, max, prev, v); Unheld(p, cur.all, cur.all[w.i], cur.seen)
  {
    var cur := Turn(p, netconfig, max, prev, v);
    HandedOn(p, netconfig, max, prev, v, w);
    forall ip | ip in FleetBag(p, cur.all) ensures ip in Taken(p, cur.all[w.i], cur.seen) {
      NothingAdded(p, netconfig, max, prev, v, ip);
      TakenIsEverything(p, prev.all, w.i, ip);
    }
    FullListSafe(p, cur.all, cur.all[w.i], cur.seen);
  }

  /** So it is for the same NodeSet again: its own addresses are read anew. */
  lemma SafeAfterItself(p: Params, before: seq<Json>, cur: Play, i: nat)
    requires ValidParams(p) && DistinctNodeSets(before) && cur.seen == before && KeepsHeld(p, before, cur.all) && i < |before|
    requires forall x :: 0 <= x < |before| && x != i ==> cur.all[x] == before[x]
    ensures Unheld(p, cur.all, cur.all[i], cur.seen)
  {
    assert DistinctNodeSets(cur.all);
    forall ip | ip in FleetBag(p, cur.all) ensures ip in Taken(p, cur.all[i], cur.seen) {
      OwnReadAnew(p, cur.all, before, i, ip);
    }
    FullListSafe(p, cur.all, cur.all[i], cur.seen);
  }

  lemma {:induction false} Minimum(s: set<nat>) returns (m: nat)
    requires s != {}
    ensures m in s && forall b :: b in s ==> m <= b
    decreases s
  {
    m :| m in s;
    if s == {m} {
    } else {
      var n := Minimum(s - {m});
      var least := if n < m then n else m;
      forall b | b in s ensures least <= b {
        if b != m { assert b in s - {m}; }
      }
      m := least;
    }
  }

  /** The least free address is handed out as soon as one node needs an address. */
  lemma LeastIsHanded(p: Params, ns: Json, seen: seq<Json>, m: nat)
    requires ValidParams(p) && NewNodes(p, ns) != {}
    requires m in Free(p, Taken(p, ns, seen)) && forall b :: b in Free(p, Taken(p, ns, seen)) ==> m <= b
    ensures m in Handed(p, ns, seen)
  {
    assert Below(Free(p, Taken(p, ns, seen)), m) == {};
  }

  lemma SomeFree(p: Params, netconfig: Json, max: nat, play: Play, v: Visit)
    requires ValidParams(p) && Adds(p, netconfig, max, play, v)
    ensures Free(p, Taken(p, play.all[v.i], play.seen)) != {}
  {
    SameView(p, v.iface, play.all, play.all[v.i], play.seen);
    PatchesAt(p, netconfig, max, play, v);
    EnoughFree(p.(iface := v.iface), play.all[v.i], play.seen);
  }

  lemma EnoughFree(p: Params, ns: Json, seen: seq<Json>)
    requires ValidParams(p) && NodesResult(p, ns, seen).Some? && NewNodes(p, ns) != {}
    ensures Free(p, Taken(p, ns, seen)) != {}
  {
    ExhaustionExact(p, ns, seen);
  }

  /** The least free address stays the least one when others are taken. */
  lemma StillLeast(p: Params, fewer: set<string>, more: set<string>, m: nat)
    requires ValidParams(p) && fewer <= more
    requires m in Free(p, fewer) && forall b :: b in Free(p, fewer) ==> m <= b
    ensures m < 0x1_0000_0000
    ensures Dotted(m) !in more ==> m in Free(p, more)
    ensures forall b :: b in Free(p, more) ==> m <= b
  {
    AllocFits(p);
    forall b | b in Free(p, more) ensures b in Free(p, fewer) {
      assert Dotted(b) !in fewer;
    }
  }

  /** Both turns are given the least address that was free before the first of them. */
  lemma SameLeast(p: Params, prev: Play, ns: Json, other: Json) returns (m: nat)
    requires ValidParams(p) && NewNodes(p, ns) != {} && NewNodes(p, other) != {}
    requires Free(p, Taken(p, ns, prev.seen)) != {} && Unheld(p, prev.all, ns, prev.seen)
    requires forall ip :: ip in Taken(p, ns, prev.seen) ==> ip in FleetBag(p, prev.all)
    requires forall ip :: ip in Taken(p, other, prev.all) <==> ip in FleetBag(p, prev.all)
    ensures m < 0x1_0000_0000 && IsHanded(p, ns, prev.seen, Dotted(m)) && IsHanded(p, other, prev.all, Dotted(m))
  {
    AllocFits(p);
    m := Minimum(Free(p, Taken(p, ns, prev.seen)));
    LeastIsHanded(p, ns, prev.seen, m);
    assert IsHanded(p, ns, prev.seen, Dotted(m));
    StillLeast(p, Taken(p, ns, prev.seen), Taken(p, other, prev.all), m);
    LeastIsHanded(p, other, prev.all, m);
  }

  /** Two turns in a row that both give out an address, to different NodeSets, give out the same one. */
  lemma ClashAfterBusyTurn(p: Params, netconfig: Json, max: nat, prev: Play, v: Visit, w: Visit)
    requires ValidParams(p) && DistinctNodeSets(prev.all) && Stale(p, prev.seen, prev.all)
    requires TurnSafe(p, netconfig, max, prev, v) && Adds(p, netconfig, max, prev, v)
    requires Adds(p, netconfig, max, Turn(p, netconfig, max, prev, v), w) && w.i != v.i
    ensures var cur := Turn(p, netconfig, max, prev, v); !Unheld(p, cur.all, cur.all[w.i], cur.seen)
  {
    var cur := Turn(p, netconfig, max, prev, v);
    HandedOn(p, netconfig, max, prev, v, w);
    SomeFree(p, netconfig, max, prev, v);
    forall ip | ip in Taken(p, prev.all[v.i], prev.seen) ensures ip in FleetBag(p, prev.all) {
      StaleTaken(p, prev.all, prev.seen, v.i, ip);
    }
    forall ip ensures ip in Taken(p, prev.all[w.i], prev.all) <==> ip in FleetBag(p, prev.all) {
      TakenIsEverything(p, prev.all, w.i, ip);
    }
    var m := SameLeast(p, prev, prev.all[v.i], prev.all[w.i]);
    TurnAdds(p, netconfig, max, prev, v, Dotted(m));
  }

  /** A turn after a safe one is unsafe exactly when both give out an address, to different NodeSets. */
  lemma NextTurnSafeExact(p: Params, netconfig: Json, max: nat, prev: Play, v: Visit, cur: Play, w: Visit)
    requires ValidParams(p) && DistinctNodeSets(prev.all) && Stale(p, prev.seen, prev.all)
    requires TurnSafe(p, netconfig, max, prev, v) && cur == Turn(p, netconfig, max, prev, v)
    ensures TurnSafe(p, netconfig, max, cur, w) <==>
      !(Adds(p, netconfig, max, prev, v) && Adds(p, netconfig, max, cur, w) && w.i != v.i)
  {
    if !Patches(p, netconfig, max, cur, w) {
    } else if NewNodes(p, cur.all[w.i]) == {} {
      NobodyNew(p, cur.all, cur.all[w.i], cur.seen);
    } else if w.i == v.i {
      HandedOn(p, netconfig, max, prev, v, w);
      TurnKeepsHeld(p, netconfig, max, prev, v);
      SafeAfterItself(p, prev.all, cur, w.i);
    } else if Adds(p, netconfig, max, prev, v) {
      ClashAfterBusyTurn(p, netconfig, max, prev, v, w);
    } else {
      SafeAfterQuietTurn(p, netconfig, max, prev, v, w);
    }
  }

  // ---------------------------------------------------------------- over whole plays

  ghost predicate AddsAt(p: Params, netconfig: Json, max: nat, all: seq<Json>, visits: seq<Visit>, k: int)
    requires ValidParams(p)
  {
    0 <= k < |visits| && Adds(p, netconfig, max, PlayAfter(p, netconfig, max, all, visits[..k]), visits[k])
  }

  /** Turns k - 1 and k both give out an address, to different NodeSets. */
  ghost predicate InARow(p: Params, netconfig: Json, max: nat, all: seq<Json>, visits: seq<Visit>, k: int)
    requires ValidParams(p)
  {
    && 0 < k < |visits| && visits[k].i != visits[k - 1].i
    && AddsAt(p, netconfig, max, all, visits, k - 1) && AddsAt(p, netconfig, max, all, visits, k)
  }

  /** No two turns in a row do. */
  ghost predicate NoTwoInARow(p: Params, netconfig: Json, max: nat, all: seq<Json>, visits: seq<Visit>)
    requires ValidParams(p)
    decreases |visits|
  {
    |visits| < 2 ||
    (NoTwoInARow(p, netconfig, max, all, visits[..|visits| - 1]) && !InARow(p, netconfig, max, all, visits, |visits| - 1))
  }

  /** The first turn is handed nothing: none of the addresses it gives out is held by another NodeSet. */
  ghost predicate FirstSafe(p: Params, netconfig: Json, max: nat, all: seq<Json>, visits: seq<Visit>)
    requires ValidParams(p)
  {
    visits != [] ==> TurnSafe(p, netconfig, max, Begin(all), visits[0])
  }

  lemma {:induction false} PlayInv(p: Params, netconfig: Json, max: nat, all: seq<Json>, visits: seq<Visit>)
    requires ValidParams(p) && DistinctNodeSets(all)
    ensures var play := PlayAfter(p, netconfig, max, all, visits); DistinctNodeSets(play.all) && Stale(p, play.seen, play.all)
    decreases |visits|
  {
    if visits == [] {
    } else {
      var front, last := visits[..|visits| - 1], visits[|visits| - 1];
      PlayInv(p, netconfig, max, all, front);
      PlayStale(p, netconfig, max, PlayAfter(p, netconfig, max, all, front), last);
    }
  }

  lemma LastTurnSafe(p: Params, netconfig: Json, max: nat, all: seq<Json>, visits: seq<Visit>)
    requires ValidParams(p) && DistinctNodeSets(all) && |visits| >= 2
    requires var n := |visits| - 1; TurnSafe(p, netconfig, max, PlayAfter(p, netconfig, max, all, visits[..n - 1]), visits[n - 1])
    ensures var n := |visits| - 1;
      TurnSafe(p, netconfig, max, PlayAfter(p, netconfig, max, all, visits[..n]), visits[n]) <==>
      !InARow(p, netconfig, max, all, visits, n)
  {
    var n := |visits| - 1;
    var prev, cur := PlayAfter(p, netconfig, max, all, visits[..n - 1]), PlayAfter(p, netconfig, max, all, visits[..n]);
    PlayInv(p, netconfig, max, all, visits[..n - 1]);
    PlayNext(p, netconfig, max, all, visits, n - 1);
    NextTurnSafeExact(p, netconfig, max, prev, visits[n - 1], cur, visits[n]);
  }

  ghost predicate SafePlay(p: Params, netconfig: Json, max: nat, all: seq<Json>, visits: seq<Visit>)
    requires ValidParams(p)
  {
    FirstSafe(p, netconfig, max, all, visits) && NoTwoInARow(p, netconfig, max, all, visits)
  }

  lemma SafePlayNext(p: Params, netconfig: Json, max: nat, all: seq<Json>, visits: seq<Visit>)
    requires ValidParams(p) && DistinctNodeSets(all) && |visits| >= 2
    requires GloballyDistinct(p, PlayAfter(p, netconfig, max, all, visits[..|visits| - 1]).all)
    ensures var n := |visits| - 1;
      TurnSafe(p, netconfig, max, PlayAfter(p, netconfig, max, all, visits[..n]), visits[n]) <==>
      !InARow(p, netconfig, max, all, visits, n)
  {
    var n := |visits| - 1;
    SafeSoFar(p, netconfig, max, all, visits[..n]);
    assert visits[..n][..n - 1] == visits[..n - 1];
    LastTurnSafe(p, netconfig, max, all, visits);
  }

  lemma OneTurnPlay(p: Params, netconfig: Json, max: nat, all: seq<Json>, visits: seq<Visit>)
    requires ValidParams(p) && GloballyDistinct(p, all) && |visits| == 1
    ensures GloballyDistinct(p, PlayAfter(p, netconfig, max, all, visits).all) <==> SafePlay(p, netconfig, max, all, visits)
  {
    assert visits[..0] == [];
    TurnKeepsDistinctExact(p, netconfig, max, Begin(all), visits[0]);
  }

  /** One more turn. */
  lemma LongerPlay(p: Params, netconfig: Json, max: nat, all: seq<Json>, visits: seq<Visit>)
    requires ValidParams(p) && DistinctNodeSets(all) && |visits| >= 2
    requires var front := visits[..|visits| - 1];
      GloballyDistinct(p, PlayAfter(p, netconfig, max, all, front).all) <==> SafePlay(p, netconfig, max, all, front)
    ensures GloballyDistinct(p, PlayAfter(p, netconfig, max, all, visits).all) <==> SafePlay(p, netconfig, max, all, visits)
  {
    var n := |visits| - 1;
    var before := PlayAfter(p, netconfig, max, all, visits[..n]);
    assert visits[..n][0] == visits[0];
    if GloballyDistinct(p, before.all) {
      SafePlayNext(p, netconfig, max, all, visits);
      TurnKeepsDistinctExact(p, netconfig, max, before, visits[n]);
    } else {
      OnceBrokenStaysBroken(p, netconfig, max, before, visits[n]);
    }
  }

  /**
   * A rollout keeps fabric IPs distinct exactly when its first turn gives out no address held by a
   * NodeSet, and no two turns in a row give one out to different NodeSets.
   */
  lemma {:induction false} PlayDistinctExact(p: Params, netconfig: Json, max: nat, all: seq<Json>, visits: seq<Visit>)
    requires ValidParams(p) && DistinctNodeSets(all) && GloballyDistinct(p, all)
    ensures GloballyDistinct(p, PlayAfter(p, netconfig, max, all, visits).all) <==> SafePlay(p, netconfig, max, all, visits)
    decreases |visits|
  {
    if |visits| == 0 {
    } else if |visits| == 1 {
      OneTurnPlay(p, netconfig, max, all, visits);
    } else {
      PlayDistinctExact(p, netconfig, max, all, visits[..|visits| - 1]);
      LongerPlay(p, netconfig, max, all, visits);
    }
  }

  /** If the play so far kept addresses distinct, so did its last turn. */
  lemma SafeSoFar(p: Params, netconfig: Json, max: nat, all: seq<Json>, visits: seq<Visit>)
    requires ValidParams(p) && visits != [] && GloballyDistinct(p, PlayAfter(p, netconfig, max, all, visits).all)
    ensures TurnSafe(p, netconfig, max, PlayAfter(p, netconfig, max, all, visits[..|visits| - 1]), visits[|visits| - 1])
  {
    var before, last := PlayAfter(p, netconfig, max, all, visits[..|visits| - 1]), visits[|visits| - 1];
    if !GloballyDistinct(p, before.all) {
      OnceBrokenStaysBroken(p, netconfig, max, before, last);
    }
    TurnKeepsDistinctExact(p, netconfig, max, before, last);
  }

  // ---------------------------------------------------------------- told beforehand

  ghost predicate EachOnce(visits: seq<Visit>) {
    forall j, k :: 0 <= j < k < |visits| ==> visits[j].i != visits[k].i
  }

  lemma {:induction false} UntouchedYet(p: Params, netconfig: Json, max: nat, all: seq<Json>, visits: seq<Visit>, i: nat)
    requires ValidParams(p) && i < |all| && forall k :: 0 <= k < |visits| ==> visits[k].i != i
    ensures var play := PlayAfter(p, netconfig, max, all, visits); |play.all| == |all| && play.all[i] == all[i]
    decreases |visits|
  {
    if visits == [] {
    } else {
      var front, last := visits[..|visits| - 1], visits[|visits| - 1];
      UntouchedYet(p, netconfig, max, all, front, i);
      TurnShape(p, netconfig, max, PlayAfter(p, netconfig, max, all, front), last);
    }
  }

  /** Every turn got through: no NodeSet missing, no run exhausted, no deployment failed. */
  ghost predicate AllFinished(results: seq<Outcome>) {
    forall k :: 0 <= k < |results| ==> results[k] == Finished
  }

  /** A turn records one result, and `Finished` only if it patches. */
  lemma LastResult(p: Params, netconfig: Json, max: nat, play: Play, v: Visit) returns (result: Outcome)
    requires ValidParams(p)
    ensures Turn(p, netconfig, max, play, v).results == play.results + [result]
    ensures result == Finished ==> Patches(p, netconfig, max, play, v)
  {
    var patched := PatchedList(p, netconfig, play, v);
    result := if play.failures > max then NotAttempted else if patched.Some? && v.fate.ready then Finished else Failed;
  }

  lemma FinishedFront(p: Params, netconfig: Json, max: nat, all: seq<Json>, visits: seq<Visit>)
    requires ValidParams(p) && visits != [] && AllFinished(PlayAfter(p, netconfig, max, all, visits).results)
    ensures var before := PlayAfter(p, netconfig, max, all, visits[..|visits| - 1]);
      AllFinished(before.results) && PatchesIn(p, netconfig, max, all, visits, |visits| - 1)
  {
    var before, after := PlayAfter(p, netconfig, max, all, visits[..|visits| - 1]), PlayAfter(p, netconfig, max, all, visits);
    var result := LastResult(p, netconfig, max, before, visits[|visits| - 1]);
    FinishedBut(before.results, result, after.results);
  }

  lemma FinishedBut(before: seq<Outcome>, result: Outcome, after: seq<Outcome>)
    requires after == before + [result] && AllFinished(after)
    ensures AllFinished(before) && result == Finished
  {
    assert after[|before|] == result;
    forall j | 0 <= j < |before| ensures before[j] == Finished { assert after[j] == before[j]; }
  }

  lemma {:induction false} FinishedPatches(p: Params, netconfig: Json, max: nat, all: seq<Json>, visits: seq<Visit>, k: nat)
    requires ValidParams(p) && k < |visits| && AllFinished(PlayAfter(p, netconfig, max, all, visits).results)
    ensures PatchesIn(p, netconfig, max, all, visits, k)
    decreases |visits|
  {
    FinishedFront(p, netconfig, max, all, visits);
    if k == |visits| - 1 {
    } else {
      FinishedPatches(p, netconfig, max, all, visits[..|visits| - 1], k);
      PatchesInFront(p, netconfig, max, all, visits, k);
    }
  }

  ghost predicate PatchesIn(p: Params, netconfig: Json, max: nat, all: seq<Json>, visits: seq<Visit>, k: nat)
    requires ValidParams(p) && k < |visits|
  {
    Patches(p, netconfig, max, PlayAfter(p, netconfig, max, all, visits[..k]), visits[k])
  }

  lemma PatchesInFront(p: Params, netconfig: Json, max: nat, all: seq<Json>, visits: seq<Visit>, k: nat)
    requires ValidParams(p) && k + 1 < |visits|
    ensures PatchesIn(p, netconfig, max, all, visits[..|visits| - 1], k) == PatchesIn(p, netconfig, max, all, visits, k)
  {
    assert visits[..|visits| - 1][..k] == visits[..k];
  }

  lemma FinishedAdds(p: Params, netconfig: Json, max: nat, all: seq<Json>, visits: seq<Visit>, k: nat)
    requires ValidParams(p) && k < |visits| && EachOnce(visits)
    requires AllFinished(PlayAfter(p, netconfig, max, all, visits).results)
    ensures visits[k].i < |all| && (AddsAt(p, netconfig, max, all, visits, k) <==> NewNodes(p, all[visits[k].i]) != {})
  {
    FinishedPatches(p, netconfig, max, all, visits, k);
    StillAsBefore(p, netconfig, max, all, visits, k);
  }

  lemma StillAsBefore(p: Params, netconfig: Json, max: nat, all: seq<Json>, visits: seq<Visit>, k: nat)
    requires ValidParams(p) && k < |visits| && EachOnce(visits) && PatchesIn(p, netconfig, max, all, visits, k)
    ensures var play := PlayAfter(p, netconfig, max, all, visits[..k]);
      visits[k].i < |all| == |play.all| && play.all[visits[k].i] == all[visits[k].i]
  {
    PatchesAt(p, netconfig, max, PlayAfter(p, netconfig, max, all, visits[..k]), visits[k]);
    SameLength(p, netconfig, max, all, visits[..k]);
    NotVisitedBefore(visits, k);
    UntouchedYet(p, netconfig, max, all, visits[..k], visits[k].i);
  }

  lemma NotVisitedBefore(visits: seq<Visit>, k: nat)
    requires k < |visits| && EachOnce(visits)
    ensures forall j :: 0 <= j < |visits[..k]| ==> visits[..k][j].i != visits[k].i
  {
  }

  lemma {:induction false} SameLength(p: Params, netconfig: Json, max: nat, all: seq<Json>, visits: seq<Visit>)
    requires ValidParams(p)
    ensures |PlayAfter(p, netconfig, max, all, visits).all| == |all|
    decreases |visits|
  {
    if visits == [] {
    } else {
      var front, last := visits[..|visits| - 1], visits[|visits| - 1];
      SameLength(p, netconfig, max, all, front);
      TurnShape(p, netconfig, max, PlayAfter(p, netconfig, max, all, front), last);
    }
  }

  /** One of the NodeSets visited at turns k - 1 and k needs no address. */
  ghost predicate OneIdle(p: Params, all: seq<Json>, visits: seq<Visit>, k: int)
    requires 0 < k < |visits| && visits[k - 1].i < |all| && visits[k].i < |all|
  {
    NewNodes(p, all[visits[k - 1].i]) == {} || NewNodes(p, all[visits[k].i]) == {}
  }

  lemma FinishedInARow(p: Params, netconfig: Json, max: nat, all: seq<Json>, visits: seq<Visit>, k: nat)
    requires ValidParams(p) && 0 < k < |visits| && EachOnce(visits)
    requires AllFinished(PlayAfter(p, netconfig, max, all, visits).results)
    ensures visits[k - 1].i < |all| && visits[k].i < |all|
    ensures InARow(p, netconfig, max, all, visits, k) <==> !OneIdle(p, all, visits, k)
  {
    FinishedAdds(p, netconfig, max, all, visits, k - 1);
    FinishedAdds(p, netconfig, max, all, visits, k);
  }

  lemma FinishedFirst(p: Params, netconfig: Json, max: nat, all: seq<Json>, visits: seq<Visit>)
    requires ValidParams(p) && visits != [] && AllFinished(PlayAfter(p, netconfig, max, all, visits).results)
    ensures visits[0].i < |all|
    ensures FirstSafe(p, netconfig, max, all, visits) <==> Unheld(p, all, all[visits[0].i], [])
  {
    assert visits[..0] == [];
    FinishedPatches(p, netconfig, max, all, visits, 0);
    PatchesAt(p, netconfig, max, Begin(all), visits[0]);
  }

  ghost predicate AllFound(all: seq<Json>, visits: seq<Visit>) {
    forall k :: 0 <= k < |visits| ==> visits[k].i < |all|
  }

  /**
   * Told from the NodeSets as they are before the play: if every turn gets through and visits another
   * NodeSet, fabric IPs stay distinct exactly when none of the least addresses of the range that the first
   * NodeSet does not hold itself, as many as its nodes need, is held by another one, and of any two
   * NodeSets visited in a row at most one needs addresses.
   */
  lemma FinishedPlayDistinctExact(p: Params, netconfig: Json, max: nat, all: seq<Json>, visits: seq<Visit>)
    requires ValidParams(p) && DistinctNodeSets(all) && GloballyDistinct(p, all) && EachOnce(visits)
    requires AllFinished(PlayAfter(p, netconfig, max, all, visits).results)
    ensures AllFound(all, visits)
    ensures GloballyDistinct(p, PlayAfter(p, netconfig, max, all, visits).all) <==>
      (visits != [] ==> Unheld(p, all, all[visits[0].i], [])) && NeighboursIdle(p, all, visits)
  {
    PlayDistinctExact(p, netconfig, max, all, visits);
    forall k: nat | k < |visits| ensures visits[k].i < |all| { FinishedAdds(p, netconfig, max, all, visits, k); }
    if visits != [] {
      FinishedFirst(p, netconfig, max, all, visits);
      assert AllFound(all, visits);
      NoneInARow(p, netconfig, max, all, visits);
    }
  }

  /** Of any two NodeSets visited in a row at most one needs addresses. */
  ghost predicate NeighboursIdle(p: Params, all: seq<Json>, visits: seq<Visit>)
    requires AllFound(all, visits)
  {
    forall k :: 0 < k < |visits| ==> OneIdle(p, all, visits, k)
  }

  lemma NeighboursNext(p: Params, all: seq<Json>, visits: seq<Visit>)
    requires AllFound(all, visits) && |visits| >= 2
    ensures AllFound(all, visits[..|visits| - 1])
    ensures NeighboursIdle(p, all, visits) <==>
      NeighboursIdle(p, all, visits[..|visits| - 1]) && OneIdle(p, all, visits, |visits| - 1)
  {
    var front := visits[..|visits| - 1];
    forall k | 0 < k < |front| ensures OneIdle(p, all, front, k) == OneIdle(p, all, visits, k) {}
  }

  lemma {:induction false} NoneInARow(p: Params, netconfig: Json, max: nat, all: seq<Json>, visits: seq<Visit>)
    requires ValidParams(p) && EachOnce(visits) && AllFound(all, visits)
    requires AllFinished(PlayAfter(p, netconfig, max, all, visits).results)
    ensures NoTwoInARow(p, netconfig, max, all, visits) <==> NeighboursIdle(p, all, visits)
    decreases |visits|
  {
    if |visits| < 2 {
    } else {
      NeighboursNext(p, all, visits);
      FinishedFront(p, netconfig, max, all, visits);
      NoneInARow(p, netconfig, max, all, visits[..|visits| - 1]);
      FinishedLast(p, netconfig, max, all, visits);
    }
  }

  /** Whether the last two turns both give out an address is what decides the longer play. */
  lemma FinishedLast(p: Params, netconfig: Json, max: nat, all: seq<Json>, visits: seq<Visit>)
    requires ValidParams(p) && EachOnce(visits) && |visits| >= 2
    requires AllFinished(PlayAfter(p, netconfig, max, all, visits).results)
    ensures visits[|visits| - 2].i < |all| && visits[|visits| - 1].i < |all|
    ensures NoTwoInARow(p, netconfig, max, all, visits) <==>
      NoTwoInARow(p, netconfig, max, all, visits[..|visits| - 1]) && OneIdle(p, all, visits, |visits| - 1)
  {
    FinishedInARow(p, netconfig, max, all, visits, |visits| - 1);
    InARowNext(p, netconfig, max, all, visits);
  }

  lemma InARowNext(p: Params, netconfig: Json, max: nat, all: seq<Json>, visits: seq<Visit>)
    requires ValidParams(p) && |visits| >= 2
    ensures var n := |visits| - 1;
      NoTwoInARow(p, netconfig, max, all, visits) <==>
      NoTwoInARow(p, netconfig, max, all, visits[..n]) && !InARow(p, netconfig, max, all, visits, n)
  {
  }

  // ---------------------------------------------------------------- a rollout that hands an address out twice

  /** A NodeSet with a template and one node without networks. */
  function OneBareNode(name: string): Json {
    Obj(map["metadata" := Obj(map["name" := Str(name)]),
            "spec" := Obj(map["nodes" := Obj(map["compute-0" := Obj(map[])]),
                              "nodeTemplate" := Obj(map["ansible" := Obj(map["ansibleVars" := Obj(map[TEMPLATE := Str("---")])])])])])
  }

  lemma BareNode(p: Params, name: string)
    ensures Keys(Nodes(OneBareNode(name))) == {"compute-0"} && NewNodes(p, OneBareNode(name)) == {"compute-0"}
    ensures NodeSetIps(p, OneBareNode(name)) == {} && NameOf(OneBareNode(name)) == name
    ensures Text(Field(TemplateVars(OneBareNode(name)), TEMPLATE)) != ""
  {
    assert NodeNets(Field(Nodes(OneBareNode(name)), "compute-0")) == [];
  }

  lemma BareNodePlans(p: Params, netconfig: Json, name: string, seen: seq<Json>)
    requires ValidParams(p) && AllocStart(p) <= AllocEnd(p) && Taken(p, OneBareNode(name), seen) == {}
    ensures PlanNodeSet(p, netconfig, OneBareNode(name), seen).Some?
  {
    BareNode(p, name);
    AllocFits(p);
    assert AllocStart(p) in Free(p, {});
    OneNodeFits(p, OneBareNode(name), seen);
  }

  /** Two NodeSets that each need one address. */
  function TwoBareNodeSets(): seq<Json> { [OneBareNode("a"), OneBareNode("b")] }

  lemma BareNodeSetsDistinct(p: Params)
    ensures var all := TwoBareNodeSets();
      DistinctNodeSets(all) && GloballyDistinct(p, all) && NewNodes(p, all[0]) != {} && NewNodes(p, all[1]) != {}
  {
    BareNode(p, "a");
    BareNode(p, "b");
    NobodyHolds(p, TwoBareNodeSets());
  }

  lemma FirstPlans(p: Params, netconfig: Json)
    requires ValidParams(p) && AllocStart(p) <= AllocEnd(p)
    ensures PlanNodeSet(p, netconfig, TwoBareNodeSets()[0], []).Some?
  {
    BareNode(p, "a");
    NothingTaken(p, OneBareNode("a"), []);
    BareNodePlans(p, netconfig, "a", []);
  }

  lemma SecondPlans(p: Params, netconfig: Json)
    requires ValidParams(p) && AllocStart(p) <= AllocEnd(p)
    ensures PlanNodeSet(p, netconfig, TwoBareNodeSets()[1], TwoBareNodeSets()).Some?
  {
    BareNode(p, "a");
    BareNode(p, "b");
    NothingTaken(p, OneBareNode("b"), TwoBareNodeSets());
    BareNodePlans(p, netconfig, "b", TwoBareNodeSets());
  }

  lemma NothingTaken(p: Params, ns: Json, seen: seq<Json>)
    requires NodeSetIps(p, ns) == {} && forall o :: o in seen ==> NodeSetIps(p, o) == {}
    ensures Taken(p, ns, seen) == {}
  {
  }

  /** Both turns get through, and both give out the same address. */
  lemma FreshNodeSetsClash(p: Params, netconfig: Json, max: nat)
    requires ValidParams(p) && AllocStart(p) <= AllocEnd(p)
    ensures var all := TwoBareNodeSets();
      var play := PlayAfter(p, netconfig, max, all, [Visit(0, p.iface, Deployed(true)), Visit(1, p.iface, Deployed(true))]);
      GloballyDistinct(p, all) && play.results == [Finished, Finished] && !GloballyDistinct(p, play.all)
  {
    BareNodeSetsDistinct(p);
    FirstPlans(p, netconfig);
    SecondPlans(p, netconfig);
    FreshClash(p, netconfig, max, TwoBareNodeSets(), [Visit(0, p.iface, Deployed(true)), Visit(1, p.iface, Deployed(true))]);
  }

  lemma FreshClash(p: Params, netconfig: Json, max: nat, all: seq<Json>, visits: seq<Visit>)
    requires ValidParams(p) && |all| == |visits| == 2 && DistinctNodeSets(all) && GloballyDistinct(p, all)
    requires visits[0] == Visit(0, p.iface, Deployed(true)) && visits[1] == Visit(1, p.iface, Deployed(true))
    requires PlanNodeSet(p, netconfig, all[0], []).Some? && PlanNodeSet(p, netconfig, all[1], all).Some?
    requires NewNodes(p, all[0]) != {} && NewNodes(p, all[1]) != {}
    ensures var play := PlayAfter(p, netconfig, max, all, visits);
      play.results == [Finished, Finished] && !GloballyDistinct(p, play.all)
  {
    TwoGoodTurns(p, netconfig, max, all, visits);
    TwoVisits(p, all, visits);
    BothNeedAddresses(p, netconfig, max, all, visits);
  }

  lemma TwoVisits(p: Params, all: seq<Json>, visits: seq<Visit>)
    requires |all| == |visits| == 2 && visits[0].i == 0 && visits[1].i == 1
    requires NewNodes(p, all[0]) != {} && NewNodes(p, all[1]) != {}
    ensures EachOnce(visits) && AllFound(all, visits) && !OneIdle(p, all, visits, 1)
  {
  }

  /** Two turns that can be planned, the second with the list from before the first. */
  lemma TwoGoodTurns(p: Params, netconfig: Json, max: nat, all: seq<Json>, visits: seq<Visit>)
    requires ValidParams(p) && |all| == |visits| == 2
    requires visits[0] == Visit(0, p.iface, Deployed(true)) && visits[1] == Visit(1, p.iface, Deployed(true))
    requires PlanNodeSet(p, netconfig, all[0], []).Some? && PlanNodeSet(p, netconfig, all[1], all).Some?
    ensures PlayAfter(p, netconfig, max, all, visits).results == [Finished, Finished]
  {
    var first := Turn(p, netconfig, max, Begin(all), visits[0]);
    CanPatch(p, netconfig, Begin(all), visits[0]);
    GoodTurn(p, netconfig, max, Begin(all), visits[0]);
    SecondGoodTurn(p, netconfig, max, all, first, visits[1]);
    TwoTurns(p, netconfig, max, all, visits);
  }

  lemma SecondGoodTurn(p: Params, netconfig: Json, max: nat, all: seq<Json>, first: Play, w: Visit)
    requires ValidParams(p) && |all| == |first.all| == 2 && first.seen == all && first.all[1] == all[1]
    requires first.failures == 0 && first.results == [Finished] && w == Visit(1, p.iface, Deployed(true))
    requires PlanNodeSet(p, netconfig, all[1], all).Some?
    ensures Turn(p, netconfig, max, first, w).results == [Finished, Finished]
  {
    CanPatch(p, netconfig, first, w);
    GoodTurn(p, netconfig, max, first, w);
  }

  /** A turn that can be planned and goes well. */
  lemma GoodTurn(p: Params, netconfig: Json, max: nat, play: Play, v: Visit)
    requires ValidParams(p) && play.failures == 0 && v.fate == Deployed(true)
    requires PatchedList(p, netconfig, play, v).Some?
    ensures var after := Turn(p, netconfig, max, play, v);
      && after.results == play.results + [Finished] && after.failures == 0 && after.seen == play.all
      && |after.all| == |play.all| && forall x :: 0 <= x < |play.all| && x != v.i ==> after.all[x] == play.all[x]
  {
    TurnShape(p, netconfig, max, play, v);
    FinishedTurn(play, PatchedList(p, netconfig, play, v), v);
  }

  lemma FinishedTurn(play: Play, patched: Option<seq<Json>>, v: Visit)
    requires patched.Some? && v.fate == Deployed(true)
    ensures var after := TurnWith(play, patched, v); after.results == play.results + [Finished] && after.failures == play.failures
  {
  }

  lemma CanPatch(p: Params, netconfig: Json, play: Play, v: Visit)
    requires ValidParams(p) && v.i < |play.all| && v.iface == p.iface && v.fate.Deployed?
    requires PlanNodeSet(p, netconfig, play.all[v.i], play.seen).Some?
    ensures PatchedList(p, netconfig, play, v).Some?
  {
    assert p.(iface := v.iface) == p;
  }

  lemma BothNeedAddresses(p: Params, netconfig: Json, max: nat, all: seq<Json>, visits: seq<Visit>)
    requires ValidParams(p) && DistinctNodeSets(all) && GloballyDistinct(p, all) && |visits| == 2 && EachOnce(visits)
    requires AllFound(all, visits) && !OneIdle(p, all, visits, 1)
    requires PlayAfter(p, netconfig, max, all, visits).results == [Finished, Finished]
    ensures !GloballyDistinct(p, PlayAfter(p, netconfig, max, all, visits).all)
  {
    assert AllFinished([Finished, Finished]);
    FinishedPlayDistinctExact(p, netconfig, max, all, visits);
  }

  lemma TwoTurns(p: Params, netconfig: Json, max: nat, all: seq<Json>, visits: seq<Visit>)
    requires ValidParams(p) && |visits| == 2
    ensures PlayAfter(p, netconfig, max, all, visits) ==
      Turn(p, netconfig, max, Turn(p, netconfig, max, Begin(all), visits[0]), visits[1])
  {
    PlayNext(p, netconfig, max, all, visits, 0);
    PlayNext(p, netconfig, max, all, visits, 1);
    assert visits[..0] == [] && visits[..2] == visits;
  }

  lemma NobodyHolds(p: Params, all: seq<Json>)
    requires forall o :: o in all ==> NodeSetIps(p, o) == {}
    ensures GloballyDistinct(p, all)
  {
    forall ip ensures FleetBag(p, all)[ip] == 0 {
      FleetBagExact(p, all, ip);
    }
  }
}
