/** What the ledger planner guarantees for every ledger and every gateway list. */
module WgLedgerTheorems {
  import opened Prelude
  import opened NameSort
  import opened Cidr
  import opened WgLedger

  /** No two gateways hold the same address. */
  ghost predicate Distinct(ledger: Ledger) {
    forall j, k :: j in ledger && k in ledger && j != k && ledger[j].Ip? && ledger[k].Ip? ==> ledger[j].ip != ledger[k].ip
  }

  lemma {:induction false} LowestFreeExact(from: nat, end: nat, used: set<nat>)
    ensures var h := LowestFree(from, end, used);
      && (h.Some? ==> from <= h.value < end && h.value !in used && forall a :: from <= a < h.value ==> a in used)
      && (h.None? ==> forall a :: from <= a < end ==> a in used)
    decreases end - from
  {
    if end <= from || from !in used {
    } else {
      LowestFreeExact(from + 1, end, used);
    }
  }

  /** A host the loop may give out: no network or broadcast address, and not below the start offset. */
  predicate InScan(job: Job, a: int) {
    var net, size, offset := job.network.net, Size(job.network.len), job.startOffset;
    if job.network.len <= 30 then net + (if offset < 1 then 1 else offset) <= a < net + size - 1
    else net + (if offset < 1 then 0 else offset - 1) <= a < net + size
  }

  lemma LowestHost(job: Job, used: set<nat>)
    ensures var h := LowestFree(ScanStart(job), HostsEnd(job.network), used);
      && (h.Some? ==> InScan(job, h.value) && h.value !in used && forall a :: InScan(job, a) && a < h.value ==> a in used)
      && (h.None? <==> forall a :: InScan(job, a) ==> a in used)
  {
    LowestFreeExact(ScanStart(job), HostsEnd(job.network), used);
  }

  /** A new entry: the lowest host from the start offset on that was not in use or handed out before it. */
  ghost predicate HandedOut(job: Job, start: State, s: State, k: string) {
    && k in s.ledger && s.ledger[k].Ip? && s.ledger[k].mask == 32
    && InScan(job, s.ledger[k].ip)
    && s.ledger[k].ip !in start.used
    && (forall a :: InScan(job, a) && a < s.ledger[k].ip ==> a in start.used || HeldByEarlier(start, s, k, a))
  }

  ghost predicate HeldByEarlier(start: State, s: State, k: string, a: nat) {
    exists j :: j in s.ledger && j !in start.ledger && j != k && StrLe(j, k) && s.ledger[j].Ip? && s.ledger[j].ip == a
  }

  ghost predicate HeldByNew(start: State, s: State, a: nat) {
    exists j :: j in s.ledger && j !in start.ledger && s.ledger[j].Ip? && s.ledger[j].ip == a
  }

  /** What the loop keeps after the gateways gs, taken in name order. */
  ghost predicate LoopInv(job: Job, spec: Ledger, start: State, s: State, gs: seq<Gateway>) {
    && (forall k :: k in start.ledger ==> k in s.ledger && s.ledger[k] == start.ledger[k])
    && (forall k :: k in s.ledger && k !in start.ledger ==> HandedOut(job, start, s, k) && WantedBy(gs, spec, k))
    && (forall a :: a in s.used <==> a in start.used || HeldByNew(start, s, a))
    && (forall j, k :: j in s.ledger && k in s.ledger && j !in start.ledger && k !in start.ledger && j != k ==>
         s.ledger[j] != s.ledger[k])
    && (forall k :: k in s.exhausted <==> WantedBy(gs, spec, k) && k !in s.ledger)
    && (s.exhausted != {} ==> forall a :: InScan(job, a) ==> a in s.used)
  }

  ghost predicate WantedBy(gs: seq<Gateway>, spec: Ledger, k: string) {
    exists g :: g in gs && g.name == k && Wants(g, spec)
  }

  lemma WantedNext(gs: seq<Gateway>, g: Gateway, spec: Ledger)
    ensures forall k :: WantedBy(gs + [g], spec, k) <==> WantedBy(gs, spec, k) || (k == g.name && Wants(g, spec))
  {
    forall k | WantedBy(gs, spec, k) ensures WantedBy(gs + [g], spec, k) {
      var h :| h in gs && h.name == k && Wants(h, spec);
      assert h in gs + [g];
    }
    assert g in gs + [g];
  }

  /** The state after handing h to a gateway without an entry. */
  ghost predicate Extends(s: State, t: State, name: string, h: nat) {
    name !in s.ledger && t == s.(ledger := s.ledger[name := Ip(h, 32)], used := s.used + {h})
  }

  lemma EarlierSurvives(start: State, s: State, t: State, name: string, h: nat, k: string, a: nat)
    requires Extends(s, t, name, h) && HeldByEarlier(start, s, k, a)
    ensures HeldByEarlier(start, t, k, a)
  {
    var j :| j in s.ledger && j !in start.ledger && j != k && StrLe(j, k) && s.ledger[j].Ip? && s.ledger[j].ip == a;
    assert j in t.ledger && t.ledger[j] == s.ledger[j];
  }

  lemma OldHandOutSurvives(job: Job, start: State, s: State, t: State, name: string, h: nat, k: string)
    requires Extends(s, t, name, h) && HandedOut(job, start, s, k)
    ensures HandedOut(job, start, t, k)
  {
    assert t.ledger[k] == s.ledger[k];
    forall a | InScan(job, a) && a < t.ledger[k].ip ensures a in start.used || HeldByEarlier(start, t, k, a) {
      if HeldByEarlier(start, s, k, a) { EarlierSurvives(start, s, t, name, h, k, a); }
    }
  }

  lemma HeldNext(start: State, s: State, t: State, name: string, h: nat, a: nat)
    requires Extends(s, t, name, h) && name !in start.ledger
    ensures HeldByNew(start, t, a) <==> HeldByNew(start, s, a) || a == h
  {
    assert t.ledger[name] == Ip(h, 32);
    if HeldByNew(start, s, a) {
      var j :| j in s.ledger && j !in start.ledger && s.ledger[j].Ip? && s.ledger[j].ip == a;
      assert j in t.ledger && t.ledger[j] == s.ledger[j];
    }
    if HeldByNew(start, t, a) {
      var j :| j in t.ledger && j !in start.ledger && t.ledger[j].Ip? && t.ledger[j].ip == a;
      assert j != name ==> j in s.ledger && t.ledger[j] == s.ledger[j];
    }
  }

  lemma NewHandOut(job: Job, spec: Ledger, start: State, s: State, t: State, gs: seq<Gateway>, g: Gateway, h: nat)
    requires LoopInv(job, spec, start, s, gs) && Extends(s, t, g.name, h)
    requires forall x :: x in gs ==> StrLe(x.name, g.name)
    requires Some(h) == LowestFree(ScanStart(job), HostsEnd(job.network), s.used)
    ensures HandedOut(job, start, t, g.name)
  {
    LowestHost(job, s.used);
    forall a | InScan(job, a) && a < h ensures a in start.used || HeldByEarlier(start, t, g.name, a) {
      if a !in start.used {
        assert HeldByNew(start, s, a);
        var j :| j in s.ledger && j !in start.ledger && s.ledger[j].Ip? && s.ledger[j].ip == a;
        assert WantedBy(gs, spec, j);
        assert t.ledger[j] == s.ledger[j];
      }
    }
  }

  lemma NewAddressDiffers(job: Job, spec: Ledger, start: State, s: State, gs: seq<Gateway>, h: nat)
    requires LoopInv(job, spec, start, s, gs)
    requires Some(h) == LowestFree(ScanStart(job), HostsEnd(job.network), s.used)
    ensures h !in s.used && s.exhausted == {}
    ensures forall j :: j in s.ledger && j !in start.ledger ==> s.ledger[j] != Ip(h, 32)
  {
    LowestHost(job, s.used);
    forall j | j in s.ledger && j !in start.ledger ensures s.ledger[j].Ip? && s.ledger[j].ip in s.used {
      assert HandedOut(job, start, s, j);
      assert HeldByNew(start, s, s.ledger[j].ip);
    }
  }

  lemma AllHandedOut(job: Job, spec: Ledger, start: State, s: State, t: State, gs: seq<Gateway>, g: Gateway, h: nat)
    requires LoopInv(job, spec, start, s, gs) && Extends(s, t, g.name, h)
    requires forall x :: x in gs ==> StrLe(x.name, g.name)
    requires Some(h) == LowestFree(ScanStart(job), HostsEnd(job.network), s.used)
    ensures forall k :: k in t.ledger && k !in start.ledger ==> HandedOut(job, start, t, k)
  {
    forall k | k in t.ledger && k !in start.ledger ensures HandedOut(job, start, t, k) {
      if k == g.name {
        NewHandOut(job, spec, start, s, t, gs, g, h);
      } else {
        OldHandOutSurvives(job, start, s, t, g.name, h, k);
      }
    }
  }

  lemma HandOutOne(job: Job, spec: Ledger, start: State, s: State, t: State, gs: seq<Gateway>, g: Gateway, h: nat)
    requires LoopInv(job, spec, start, s, gs) && Extends(s, t, g.name, h) && Wants(g, spec)
    requires forall x :: x in gs ==> StrLe(x.name, g.name)
    requires Some(h) == LowestFree(ScanStart(job), HostsEnd(job.network), s.used)
    ensures LoopInv(job, spec, start, t, gs + [g])
  {
    NewAddressDiffers(job, spec, start, s, gs, h);
    WantedNext(gs, g, spec);
    AllHandedOut(job, spec, start, s, t, gs, g, h);
    forall a { HeldNext(start, s, t, g.name, h, a); }
  }

  lemma ExhaustOne(job: Job, spec: Ledger, start: State, s: State, gs: seq<Gateway>, g: Gateway)
    requires LoopInv(job, spec, start, s, gs) && Wants(g, spec) && g.name !in s.ledger
    requires LowestFree(ScanStart(job), HostsEnd(job.network), s.used).None?
    ensures LoopInv(job, spec, start, s.(exhausted := s.exhausted + {g.name}), gs + [g])
  {
    var t := s.(exhausted := s.exhausted + {g.name});
    LowestHost(job, s.used);
    WantedNext(gs, g, spec);
    forall k | k in s.ledger && k !in start.ledger ensures HandedOut(job, start, t, k) {
      SameLedgerHandOut(job, start, s, t, k);
    }
    forall a ensures HeldByNew(start, t, a) <==> HeldByNew(start, s, a) {}
  }

  lemma SameLedgerHandOut(job: Job, start: State, s: State, t: State, k: string)
    requires s.ledger == t.ledger && HandedOut(job, start, s, k)
    ensures HandedOut(job, start, t, k)
  {
    forall a | HeldByEarlier(start, s, k, a) ensures HeldByEarlier(start, t, k, a) {}
  }

  lemma StepKeepsInv(job: Job, spec: Ledger, start: State, s: State, gs: seq<Gateway>, g: Gateway)
    requires LoopInv(job, spec, start, s, gs)
    requires forall h :: h in gs ==> StrLe(h.name, g.name)
    ensures LoopInv(job, spec, start, Step(job, spec, s, g), gs + [g])
  {
    if !Wants(g, spec) || g.name in s.ledger {
      WantedNext(gs, g, spec);
    } else {
      var h := LowestFree(ScanStart(job), HostsEnd(job.network), s.used);
      if h.Some? {
        HandOutOne(job, spec, start, s, Step(job, spec, s, g), gs, g, h.value);
      } else {
        ExhaustOne(job, spec, start, s, gs, g);
      }
    }
  }

  lemma FrontBefore(gs: seq<Gateway>)
    requires SortedBy(GatewayName, gs) && gs != []
    ensures SortedBy(GatewayName, gs[..|gs| - 1])
    ensures forall h :: h in gs[..|gs| - 1] ==> StrLe(h.name, gs[|gs| - 1].name)
  {
    forall h | h in gs[..|gs| - 1] ensures StrLe(h.name, gs[|gs| - 1].name) {
      var i :| 0 <= i < |gs| - 1 && gs[i] == h;
      assert StrLe(GatewayName(gs[i]), GatewayName(gs[|gs| - 1]));
    }
  }

  lemma {:induction false} StepsKeepInv(job: Job, spec: Ledger, start: State, gs: seq<Gateway>)
    requires SortedBy(GatewayName, gs)
    requires start.exhausted == {}
    ensures LoopInv(job, spec, start, Steps(job, spec, start, gs), gs)
  {
    if gs == [] {
    } else {
      var front, g := gs[..|gs| - 1], gs[|gs| - 1];
      FrontBefore(gs);
      StepsKeepInv(job, spec, start, front);
      StepKeepsInv(job, spec, start, Steps(job, spec, start, front), front, g);
      assert gs == front + [g];
    }
  }

  // ---------------------------------------------------------------- one run

  lemma FinishInv(ledger: Ledger, job: Job)
    ensures LoopInv(job, SpecAddresses(job.gateways), Start(ledger, job), Finish(ledger, job), SortBy(GatewayName, job.gateways))
    ensures forall g :: g in SortBy(GatewayName, job.gateways) <==> g in job.gateways
  {
    var gs := SortBy(GatewayName, job.gateways);
    SortBySorts(GatewayName, job.gateways);
    StepsKeepInv(job, SpecAddresses(job.gateways), Start(ledger, job), gs);
    forall g ensures g in gs <==> g in job.gateways {
      assert g in multiset(gs) <==> g in multiset(job.gateways);
    }
  }

  /** Sticky: an entry survives unchanged exactly when its gateway is listed without a spec address. */
  lemma PlannerSticky(ledger: Ledger, job: Job, k: string)
    requires k in ledger
    ensures k in Names(job.gateways) && k !in SpecAddresses(job.gateways) ==>
      k in Allocated(ledger, job) && Allocated(ledger, job)[k] == ledger[k]
    ensures k !in Names(job.gateways) || k in SpecAddresses(job.gateways) ==> k !in Allocated(ledger, job)
  {
    FinishInv(ledger, job);
    OnlyListed(ledger, job);
  }

  /**
   * Least free: a new entry is the lowest host from the start offset on that no retained, spec or
   * reserved address uses and no gateway earlier in name order was just given.
   */
  lemma PlannerLeastFree(ledger: Ledger, job: Job, k: string)
    requires k in Allocated(ledger, job) && k !in Retained(ledger, job.gateways)
    ensures HandedOut(job, Start(ledger, job), Finish(ledger, job), k)
    ensures WantedBy(job.gateways, SpecAddresses(job.gateways), k)
  {
    FinishInv(ledger, job);
    var g :| g in SortBy(GatewayName, job.gateways) && g.name == k && Wants(g, SpecAddresses(job.gateways));
    assert g in job.gateways;
  }

  /** Exhaustion is reported for a wanting gateway left without an entry, and only when every host is in use. */
  lemma PlannerExhaustionExact(ledger: Ledger, job: Job, k: string)
    ensures NoFreeAddress(k) in Errors(ledger, job) <==>
      WantedBy(job.gateways, SpecAddresses(job.gateways), k) && k !in Allocated(ledger, job)
    ensures NoFreeAddress(k) in Errors(ledger, job) ==>
      forall a :: InScan(job, a) ==>
        a in Start(ledger, job).used || HeldByNew(Start(ledger, job), Finish(ledger, job), a)
  {
    FinishInv(ledger, job);
    CollisionsOnly(SpecAddresses(job.gateways), SortedNames(SpecAddresses(job.gateways).Keys));
    var spec, gs := SpecAddresses(job.gateways), SortBy(GatewayName, job.gateways);
    assert WantedBy(gs, spec, k) <==> WantedBy(job.gateways, spec, k);
  }

  lemma {:induction false} CollisionsOnly(spec: Ledger, names: seq<string>)
    requires forall n :: n in names ==> n in spec
    ensures forall e :: e in CollisionsAmong(spec, names) ==> e.BothUse?
  {
    if names == [] {
    } else {
      CollisionsOnly(spec, names[..|names| - 1]);
    }
  }

  /** Uniqueness is kept, whatever the gateway list says. */
  lemma PlannerKeepsDistinct(ledger: Ledger, job: Job)
    requires Distinct(ledger)
    ensures Distinct(Allocated(ledger, job))
  {
    FinishInv(ledger, job);
    var start, s := Start(ledger, job), Finish(ledger, job);
    forall k | k in start.ledger && start.ledger[k].Ip? ensures start.ledger[k].ip in start.used {
      assert start.ledger[k] in InUse(ledger, job);
    }
    forall j, k | j in s.ledger && k in s.ledger && j != k && s.ledger[j].Ip? && s.ledger[k].Ip?
      ensures s.ledger[j].ip != s.ledger[k].ip
    {
      if j !in start.ledger { assert HandedOut(job, start, s, j); }
      if k !in start.ledger { assert HandedOut(job, start, s, k); }
    }
  }

  // ---------------------------------------------------------------- running it again

  lemma SecondStart(ledger: Ledger, job: Job)
    ensures Start(Allocated(ledger, job), job).ledger == Allocated(ledger, job)
    ensures Start(Allocated(ledger, job), job).used == Finish(ledger, job).used
  {
    FinishInv(ledger, job);
    OnlyListed(ledger, job);
    var start, s, again := Start(ledger, job), Finish(ledger, job), Start(Allocated(ledger, job), job);
    var before, after := InUse(ledger, job), InUse(Allocated(ledger, job), job);
    assert again.ledger == s.ledger;
    forall a ensures a in again.used <==> a in s.used {
      if a in start.used {
        var t :| t in before && t.Ip? && t.ip == a;
        if t in start.ledger.Values {
          var k :| k in start.ledger && start.ledger[k] == t;
          assert s.ledger[k] == t;
        }
        assert t in after;
      }
      if HeldByNew(start, s, a) {
        var j :| j in s.ledger && j !in start.ledger && s.ledger[j].Ip? && s.ledger[j].ip == a;
        assert s.ledger[j] in after;
      }
      if a in again.used {
        var t :| t in after && t.Ip? && t.ip == a;
        if t in s.ledger.Values {
          var k :| k in s.ledger && s.ledger[k] == t;
          if k in start.ledger { assert start.ledger[k] in before; } else { assert HeldByNew(start, s, a); }
        } else {
          assert t in before;
        }
      }
    }
  }

  /** With nothing free for anyone still waiting, the loop changes neither the ledger nor the addresses in use. */
  lemma {:induction false} StepsIdle(job: Job, spec: Ledger, s: State, gs: seq<Gateway>)
    requires forall g :: g in gs && Wants(g, spec) && g.name !in s.ledger ==>
      LowestFree(ScanStart(job), HostsEnd(job.network), s.used).None?
    ensures Steps(job, spec, s, gs).ledger == s.ledger && Steps(job, spec, s, gs).used == s.used
  {
    if gs == [] {
    } else {
      assert gs[|gs| - 1] in gs;
      StepsIdle(job, spec, s, gs[..|gs| - 1]);
    }
  }

  /** Idempotent: rerun on its own output, the planner returns that same ledger, address map and exhaustion. */
  lemma PlannerIdempotent(ledger: Ledger, job: Job)
    ensures Allocated(Allocated(ledger, job), job) == Allocated(ledger, job)
    ensures AddressMap(Allocated(ledger, job), job) == AddressMap(ledger, job)
    ensures Finish(Allocated(ledger, job), job).exhausted == Finish(ledger, job).exhausted
  {
    var spec, gs := SpecAddresses(job.gateways), SortBy(GatewayName, job.gateways);
    var again := Start(Allocated(ledger, job), job);
    FinishInv(ledger, job);
    SecondStart(ledger, job);
    forall g | g in gs && Wants(g, spec) && g.name !in again.ledger
      ensures LowestFree(ScanStart(job), HostsEnd(job.network), again.used).None?
    {
      assert WantedBy(gs, spec, g.name);
      LowestHost(job, again.used);
    }
    StepsIdle(job, spec, again, gs);
    FinishInv(Allocated(ledger, job), job);
  }

  // ---------------------------------------------------------------- spec addresses

  lemma {:induction false} LastUserExact(spec: Ledger, names: seq<string>, ip: nat)
    requires forall n :: n in names ==> n in spec
    ensures LastUser(spec, names, ip).Some? <==> exists n :: n in names && spec[n].Ip? && spec[n].ip == ip
    ensures LastUser(spec, names, ip).Some? ==>
      var n := LastUser(spec, names, ip).value; n in names && spec[n].Ip? && spec[n].ip == ip
  {
    if names == [] {
    } else {
      LastUserExact(spec, names[..|names| - 1], ip);
      assert names == names[..|names| - 1] + [names[|names| - 1]];
    }
  }

  lemma {:induction false} CollisionsAmongExact(spec: Ledger, names: seq<string>)
    requires forall n :: n in names ==> n in spec
    requires forall i, j :: 0 <= i < j < |names| ==> names[i] != names[j]
    ensures CollisionsAmong(spec, names) == {} <==>
      forall j, k :: j in names && k in names && j != k && spec[j].Ip? && spec[k].Ip? ==> spec[j].ip != spec[k].ip
  {
    if names == [] {
    } else {
      var front, n := names[..|names| - 1], names[|names| - 1];
      assert names == front + [n];
      CollisionsAmongExact(spec, front);
      if spec[n].Ip? { LastUserExact(spec, front, spec[n].ip); }
    }
  }

  /** A collision is reported exactly when two gateways specify the same address. */
  lemma CollisionReportExact(spec: Ledger)
    ensures SpecCollisions(spec) == {} <==> Distinct(spec)
  {
    CollisionsAmongExact(spec, SortedNames(spec.Keys));
  }

  lemma {:induction false} SpecAddressesExact(gs: seq<Gateway>, k: string, a: AddressText)
    requires DistinctBy(GatewayName, gs)
    ensures k in SpecAddresses(gs) && SpecAddresses(gs)[k] == a <==> Specifies(gs, k, a)
  {
    if gs == [] {
    } else {
      var front, last := gs[..|gs| - 1], gs[|gs| - 1];
      OthersNamed(gs);
      SpecAddressesExact(front, k, a);
      SpecifiesNext(front, last, k, a);
      assert gs == front + [last];
      if last.name == k {
        SpecAddressesAbsent(front, k);
      }
    }
  }

  /** Some listed gateway of this name specifies this address. */
  ghost predicate Specifies(gs: seq<Gateway>, k: string, a: AddressText) {
    exists g :: g in gs && g.name == k && g.address == Some(a)
  }

  lemma SpecifiesNext(front: seq<Gateway>, last: Gateway, k: string, a: AddressText)
    ensures Specifies(front + [last], k, a) <==> Specifies(front, k, a) || (last.name == k && last.address == Some(a))
  {
    if g :| g in front && g.name == k && g.address == Some(a) { assert g in front + [last]; }
    assert last in front + [last];
  }

  lemma OthersNamed(gs: seq<Gateway>)
    requires DistinctBy(GatewayName, gs) && gs != []
    ensures forall g :: g in gs[..|gs| - 1] ==> g.name != gs[|gs| - 1].name
    ensures DistinctBy(GatewayName, gs[..|gs| - 1])
  {
    forall g | g in gs[..|gs| - 1] ensures g.name != gs[|gs| - 1].name {
      assert GatewayName(g) == g.name && GatewayName(gs[|gs| - 1]) == gs[|gs| - 1].name;
    }
  }

  lemma {:induction false} SpecAddressesAbsent(gs: seq<Gateway>, k: string)
    requires forall g :: g in gs ==> g.name != k
    ensures k !in SpecAddresses(gs)
  {
    if gs == [] {
    } else {
      SpecAddressesAbsent(gs[..|gs| - 1], k);
    }
  }

  /**
   * The planner raises exactly when some listed gateway specifies an address that does not parse,
   * although by then it has recorded that address as an error.
   */
  lemma PlannerRaisesExact(ledger: Ledger, job: Job)
    requires DistinctBy(GatewayName, job.gateways)
    ensures PlanAllocate(ledger, job).Raised? <==>
      exists g :: g in job.gateways && g.address.Some? && g.address.value.Unparsable?
    ensures forall g :: g in job.gateways && g.address.Some? && g.address.value.Unparsable? ==>
      BadAddress(g.address.value) in BadAddresses(InUse(ledger, job))
  {
    var gs, spec := job.gateways, SpecAddresses(job.gateways);
    if k :| k in spec && spec[k].Unparsable? {
      SpecAddressesExact(gs, k, spec[k]);
      var g :| g in gs && g.name == k && g.address == Some(spec[k]);
      assert g.address.value.Unparsable?;
    }
    forall g | g in gs && g.address.Some? && g.address.value.Unparsable?
      ensures !AllParse(spec) && BadAddress(g.address.value) in BadAddresses(InUse(ledger, job))
    {
      BadIsRecorded(ledger, job, g);
    }
  }

  lemma BadIsRecorded(ledger: Ledger, job: Job, g: Gateway)
    requires DistinctBy(GatewayName, job.gateways) && g in job.gateways && g.address.Some? && g.address.value.Unparsable?
    ensures !AllParse(SpecAddresses(job.gateways)) && BadAddress(g.address.value) in BadAddresses(InUse(ledger, job))
  {
    SpecAddressesExact(job.gateways, g.name, g.address.value);
    assert g.address.value in SpecAddresses(job.gateways).Values;
    assert g.address.value in InUse(ledger, job);
  }

  /** One gateway with such an address: its error is recorded, and no report leaves the planner. */
  lemma UnparsableSpecRaises(ledger: Ledger, raw: string, network: Block)
    ensures var job := Job([Gateway("a", Some(Unparsable(raw)), true, false)], network, [], 10);
      PlanAllocate(ledger, job) == Raised && BadAddress(Unparsable(raw)) in BadAddresses(InUse(ledger, job))
  {
    var g := Gateway("a", Some(Unparsable(raw)), true, false);
    assert g in [g];
    PlannerRaisesExact(ledger, Job([g], network, [], 10));
  }

  ghost predicate Apart(ledger: Ledger, spec: Ledger) {
    forall k, j :: k in ledger && j in spec && ledger[k].Ip? && spec[j].Ip? ==> ledger[k].ip != spec[j].ip
  }

  /**
   * The new ledger avoids every spec address exactly when the retained entries do: a new entry
   * never equals one, and a retained entry is kept even when a gateway specifies its address later.
   */
  lemma AvoidsSpecExact(ledger: Ledger, job: Job)
    ensures Apart(Allocated(ledger, job), SpecAddresses(job.gateways)) <==>
      Apart(Retained(ledger, job.gateways), SpecAddresses(job.gateways))
  {
    FinishInv(ledger, job);
    var spec, start, s := SpecAddresses(job.gateways), Start(ledger, job), Finish(ledger, job);
    forall j | j in spec && spec[j].Ip? ensures spec[j].ip in start.used {
      assert spec[j] in InUse(ledger, job);
    }
    if Apart(start.ledger, spec) {
      forall k, j | k in s.ledger && j in spec && s.ledger[k].Ip? && spec[j].Ip? ensures s.ledger[k].ip != spec[j].ip {
        if k !in start.ledger { assert HandedOut(job, start, s, k); }
      }
    }
    if Apart(s.ledger, spec) {
      assert forall k :: k in start.ledger ==> k in s.ledger && s.ledger[k] == start.ledger[k];
    }
  }

  /** The retained entries and the spec addresses: what the address map starts from. */
  ghost predicate DistinctStart(ledger: Ledger, job: Job) {
    var retained, spec := Retained(ledger, job.gateways), SpecAddresses(job.gateways);
    Distinct(retained) && Distinct(spec) && Apart(retained, spec)
  }

  lemma DistinctUnion(ledger: Ledger, spec: Ledger)
    requires ledger.Keys !! spec.Keys
    ensures Distinct(ledger + spec) <==> Distinct(ledger) && Distinct(spec) && Apart(ledger, spec)
  {
    var both := ledger + spec;
    if Distinct(both) {
      forall j, k | j in ledger && k in ledger && j != k && ledger[j].Ip? && ledger[k].Ip? ensures ledger[j].ip != ledger[k].ip {
        assert both[j] == ledger[j] && both[k] == ledger[k];
      }
      forall j, k | j in spec && k in spec && j != k && spec[j].Ip? && spec[k].Ip? ensures spec[j].ip != spec[k].ip {
        assert both[j] == spec[j] && both[k] == spec[k];
      }
      forall k, j | k in ledger && j in spec && ledger[k].Ip? && spec[j].Ip? ensures ledger[k].ip != spec[j].ip {
        assert both[k] == ledger[k] && both[j] == spec[j] && k != j;
      }
    }
  }

  lemma DistinctBefore(ledger: Ledger, job: Job)
    ensures Distinct(Allocated(ledger, job)) <==> Distinct(Retained(ledger, job.gateways))
  {
    FinishInv(ledger, job);
    var start, s := Start(ledger, job), Finish(ledger, job);
    if Distinct(s.ledger) {
      assert forall k :: k in start.ledger ==> k in s.ledger && s.ledger[k] == start.ledger[k];
    }
    if Distinct(start.ledger) {
      forall k | k in start.ledger && start.ledger[k].Ip? ensures start.ledger[k].ip in start.used {
        assert start.ledger[k] in InUse(ledger, job);
      }
      forall j, k | j in s.ledger && k in s.ledger && j != k && s.ledger[j].Ip? && s.ledger[k].Ip?
        ensures s.ledger[j].ip != s.ledger[k].ip
      {
        if j !in start.ledger { assert HandedOut(job, start, s, j); }
        if k !in start.ledger { assert HandedOut(job, start, s, k); }
      }
    }
  }

  /**
   * No two entries of the returned address map share an address, exactly when no two retained entries
   * do, no two spec addresses do, and no retained entry equals a spec address.
   */
  lemma AddressMapDistinctExact(ledger: Ledger, job: Job)
    ensures Distinct(AddressMap(ledger, job)) <==> DistinctStart(ledger, job)
  {
    OnlyListed(ledger, job);
    DistinctUnion(Allocated(ledger, job), SpecAddresses(job.gateways));
    DistinctBefore(ledger, job);
    AvoidsSpecExact(ledger, job);
  }

  // ---------------------------------------------------------------- exhaustion, counted

  /** The gateways that want an address and hold none. */
  ghost function Wanting(ledger: Ledger, job: Job): set<string> {
    set k | k in Names(job.gateways) && WantedBy(job.gateways, SpecAddresses(job.gateways), k) && k !in Retained(ledger, job.gateways)
  }

  /** The hosts from the start offset on that nothing uses. */
  ghost function FreeHosts(ledger: Ledger, job: Job): set<nat> {
    set a: nat | a < End(job.network) && InScan(job, a) && a !in Start(ledger, job).used
  }

  ghost function NewNames(ledger: Ledger, job: Job): set<string> {
    set k | k in Allocated(ledger, job) && k !in Retained(ledger, job.gateways)
  }

  lemma {:induction false} InjectiveImage(ledger: Ledger, names: set<string>)
    requires names <= ledger.Keys && forall k :: k in names ==> ledger[k].Ip?
    requires forall j, k :: j in names && k in names && j != k ==> ledger[j].ip != ledger[k].ip
    ensures |IpsOfNames(ledger, names)| == |names|
    decreases names
  {
    if names == {} {
      assert IpsOfNames(ledger, names) == {};
    } else {
      var n :| n in names;
      InjectiveImage(ledger, names - {n});
      assert IpsOfNames(ledger, names) == IpsOfNames(ledger, names - {n}) + {ledger[n].ip};
    }
  }

  ghost function IpsOfNames(ledger: Ledger, names: set<string>): set<nat>
    requires names <= ledger.Keys && forall k :: k in names ==> ledger[k].Ip?
  {
    set k | k in names :: ledger[k].ip
  }

  /** The new addresses are free hosts, one for each new entry. */
  lemma NewTakeFree(ledger: Ledger, job: Job)
    ensures var s, news := Finish(ledger, job), NewNames(ledger, job);
      && (forall k :: k in news ==> s.ledger[k].Ip?)
      && IpsOfNames(s.ledger, news) <= FreeHosts(ledger, job) && |IpsOfNames(s.ledger, news)| == |news|
  {
    FinishInv(ledger, job);
    var start, s, news := Start(ledger, job), Finish(ledger, job), NewNames(ledger, job);
    forall k | k in news ensures HandedOut(job, start, s, k) && s.ledger[k].mask == 32 {}
    InjectiveImage(s.ledger, news);
  }

  lemma WantingSplit(ledger: Ledger, job: Job)
    ensures Wanting(ledger, job) == NewNames(ledger, job) + Finish(ledger, job).exhausted
    ensures NewNames(ledger, job) !! Finish(ledger, job).exhausted
  {
    FinishInv(ledger, job);
    OnlyListed(ledger, job);
    var gs, spec, s := SortBy(GatewayName, job.gateways), SpecAddresses(job.gateways), Finish(ledger, job);
    forall k ensures WantedBy(gs, spec, k) <==> WantedBy(job.gateways, spec, k) {}
    forall k | k in s.exhausted ensures k in Names(job.gateways) && k !in Retained(ledger, job.gateways) {
      assert WantedBy(job.gateways, spec, k) && k !in s.ledger;
    }
  }

  /** As many gateways are left without an address as there are more wanting ones than free hosts. */
  lemma ExhaustionCountExact(ledger: Ledger, job: Job)
    ensures var want, free := |Wanting(ledger, job)|, |FreeHosts(ledger, job)|;
      |Finish(ledger, job).exhausted| == if want > free then want - free else 0
  {
    var s, news := Finish(ledger, job), NewNames(ledger, job);
    NewTakeFree(ledger, job);
    WantingSplit(ledger, job);
    SubsetSize(IpsOfNames(s.ledger, news), FreeHosts(ledger, job));
    if s.exhausted != {} {
      AllHostsTaken(ledger, job);
    }
  }

  lemma AllHostsTaken(ledger: Ledger, job: Job)
    requires Finish(ledger, job).exhausted != {}
    ensures var s, news := Finish(ledger, job), NewNames(ledger, job);
      (forall k :: k in news ==> s.ledger[k].Ip?) && FreeHosts(ledger, job) == IpsOfNames(s.ledger, news)
  {
    FinishInv(ledger, job);
    NewTakeFree(ledger, job);
    var start, s, news := Start(ledger, job), Finish(ledger, job), NewNames(ledger, job);
    forall a | a in FreeHosts(ledger, job) ensures a in IpsOfNames(s.ledger, news) {
      assert a in s.used && HeldByNew(start, s, a);
      var j :| j in s.ledger && j !in start.ledger && s.ledger[j].Ip? && s.ledger[j].ip == a;
      assert j in news;
    }
  }

  // ---------------------------------------------------------------- a silent clash

  /** Such a list exists: b specifies the address a already holds. */
  lemma RetainedMayEqualSpec(held: AddressText)
    requires held.Ip?
    ensures var gs := [Gateway("a", None, true, false)] + [Gateway("b", Some(held), true, false)];
      Distinct(map["a" := held]) && !Apart(Retained(map["a" := held], gs), SpecAddresses(gs))
  {
    var a, b := Gateway("a", None, true, false), Gateway("b", Some(held), true, false);
    var gs := [a] + [b];
    assert gs[..1] == [a] && [a][..0] == [];
    assert SpecAddresses([a]) == map[];
    assert SpecAddresses(gs) == map["b" := held];
    assert a in gs && a.name in Names(gs);
    var r, spec := Retained(map["a" := held], gs), SpecAddresses(gs);
    assert "a" in r && "b" in spec && r["a"].ip == spec["b"].ip;
  }

  /** On that list the planner returns one address twice, and reports nothing. */
  lemma ClashIsSilent(held: AddressText, network: Block)
    requires held.Ip?
    ensures var gs := [Gateway("a", None, true, false)] + [Gateway("b", Some(held), true, false)];
      var r := PlanAllocate(map["a" := held], Job(gs, network, [], 10));
      r.Done? && r.errors == {} && !Distinct(r.addresses)
  {
    var gs := [Gateway("a", None, true, false)] + [Gateway("b", Some(held), true, false)];
    var ledger, job := map["a" := held], Job(gs, network, [], 10);
    RetainedMayEqualSpec(held);
    AddressMapDistinctExact(ledger, job);
    TwoGateways(held, gs);
    NothingToReport(ledger, job);
  }

  lemma NothingToReport(ledger: Ledger, job: Job)
    requires forall t :: t in InUse(ledger, job) ==> t.Ip?
    requires forall g :: g in job.gateways && Wants(g, SpecAddresses(job.gateways)) ==> g.name in Retained(ledger, job.gateways)
    requires Distinct(SpecAddresses(job.gateways))
    ensures Errors(ledger, job) == {}
  {
    NobodyWants(ledger, job);
    CollisionReportExact(SpecAddresses(job.gateways));
  }

  lemma TwoGateways(held: AddressText, gs: seq<Gateway>)
    requires gs == [Gateway("a", None, true, false)] + [Gateway("b", Some(held), true, false)]
    ensures SpecAddresses(gs) == map["b" := held] && Retained(map["a" := held], gs) == map["a" := held]
    ensures forall g :: g in gs && Wants(g, SpecAddresses(gs)) ==> g.name == "a"
  {
    var a := Gateway("a", None, true, false);
    assert gs[..1] == [a] && [a][..0] == [];
    assert SpecAddresses([a]) == map[];
    assert SpecAddresses(gs) == map["b" := held];
    assert gs[0] in gs && "a" in Names(gs);
  }

  lemma NobodyWants(ledger: Ledger, job: Job)
    requires forall g :: g in job.gateways && Wants(g, SpecAddresses(job.gateways)) ==> g.name in Retained(ledger, job.gateways)
    ensures Finish(ledger, job).exhausted == {}
  {
    WantingSplit(ledger, job);
    assert Wanting(ledger, job) == {};
  }
}
