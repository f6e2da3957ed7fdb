/**
 * What `plan_allocate` returns, entry by entry, told from the ledger and the gateway list alone: who
 * keeps, gets or lacks an address, what is printed, and which errors are reported.
 */
module WgLedgerExact {
  import opened Prelude
  import opened NameSort
  import opened Cidr
  import opened WgLedger
  import opened WgLedgerTheorems

  // ---------------------------------------------------------------- the inputs

  /** A listed gateway of this name specifies no address. */
  ghost predicate Unspecified(gs: seq<Gateway>, k: string) {
    exists g :: g in gs && g.name == k && g.address.None?
  }

  /** It is a WireGuard gateway that is not being deleted, too. */
  ghost predicate Waits(gs: seq<Gateway>, k: string) {
    exists g :: g in gs && g.name == k && g.address.None? && g.wireguard && !g.deleting
  }

  ghost predicate Keeps(ledger: Ledger, gs: seq<Gateway>, k: string) {
    k in ledger && Unspecified(gs, k)
  }

  /** Specified by a listed gateway, held by an entry that is kept, or reserved. */
  ghost predicate Held(ledger: Ledger, job: Job, a: int) {
    || (exists g :: g in job.gateways && g.address.Some? && g.address.value.Ip? && g.address.value.ip == a)
    || (exists k :: Keeps(ledger, job.gateways, k) && ledger[k].Ip? && ledger[k].ip == a)
    || (exists t :: t in job.reserved && t.Ip? && t.ip == a)
  }

  /** The address was just given to a gateway. */
  ghost predicate Given(r: Result, ledger: Ledger, gs: seq<Gateway>, j: string, a: int)
    requires r.Done?
  {
    j in r.ledger && !Keeps(ledger, gs, j) && r.ledger[j].Ip? && r.ledger[j].ip == a
  }

  lemma {:induction false} OneNamed(gs: seq<Gateway>, g: Gateway, h: Gateway)
    requires DistinctBy(GatewayName, gs) && g in gs && h in gs && g.name == h.name
    ensures g == h
  {
    var i :| 0 <= i < |gs| && gs[i] == g;
    var j :| 0 <= j < |gs| && gs[j] == h;
    assert GatewayName(gs[i]) == GatewayName(gs[j]);
  }

  lemma SpecDomain(gs: seq<Gateway>, g: Gateway)
    requires DistinctBy(GatewayName, gs) && g in gs
    ensures g.name in SpecAddresses(gs) <==> g.address.Some?
    ensures g.address.Some? ==> SpecAddresses(gs)[g.name] == g.address.value
  {
    if g.address.Some? {
      SpecAddressesExact(gs, g.name, g.address.value);
      assert Specifies(gs, g.name, g.address.value);
    } else if g.name in SpecAddresses(gs) {
      SpecAddressesExact(gs, g.name, SpecAddresses(gs)[g.name]);
      var h :| h in gs && h.name == g.name && h.address == Some(SpecAddresses(gs)[g.name]);
      OneNamed(gs, g, h);
    }
  }

  lemma KeepsExact(ledger: Ledger, gs: seq<Gateway>, k: string)
    requires DistinctBy(GatewayName, gs)
    ensures Keeps(ledger, gs, k) <==> k in Retained(ledger, gs)
    ensures Waits(gs, k) <==> WantedBy(gs, SpecAddresses(gs), k)
  {
    forall g | g in gs { SpecDomain(gs, g); }
    if g :| g in gs && g.name == k && g.address.None? { assert g.name in Names(gs); }
    if k in Names(gs) && k !in SpecAddresses(gs) {
      var g :| g in gs && g.name == k;
      assert g.address.None?;
    }
  }

  ghost predicate SpecifiedText(gs: seq<Gateway>, t: AddressText) {
    exists g :: g in gs && g.address == Some(t)
  }

  ghost predicate KeptText(ledger: Ledger, gs: seq<Gateway>, t: AddressText) {
    exists k :: Keeps(ledger, gs, k) && ledger[k] == t
  }

  lemma SpecHolds(gs: seq<Gateway>, t: AddressText)
    requires DistinctBy(GatewayName, gs)
    ensures t in SpecAddresses(gs).Values <==> SpecifiedText(gs, t)
  {
    var spec := SpecAddresses(gs);
    if t in spec.Values {
      var k :| k in spec && spec[k] == t;
      SpecAddressesExact(gs, k, t);
    }
    if g :| g in gs && g.address == Some(t) { SpecDomain(gs, g); assert spec[g.name] in spec.Values; }
  }

  lemma KeptHolds(ledger: Ledger, gs: seq<Gateway>, t: AddressText)
    requires DistinctBy(GatewayName, gs)
    ensures t in Retained(ledger, gs).Values <==> KeptText(ledger, gs, t)
  {
    var kept := Retained(ledger, gs);
    if t in kept.Values {
      var k :| k in kept && kept[k] == t;
      KeepsExact(ledger, gs, k);
    }
    if k :| Keeps(ledger, gs, k) && ledger[k] == t {
      KeepsExact(ledger, gs, k);
      assert kept[k] in kept.Values;
    }
  }

  /** The texts in use before anything is handed out. */
  lemma TextsExact(ledger: Ledger, job: Job, t: AddressText)
    requires DistinctBy(GatewayName, job.gateways)
    ensures t in InUse(ledger, job) <==>
      SpecifiedText(job.gateways, t) || KeptText(ledger, job.gateways, t) || t in job.reserved
  {
    SpecHolds(job.gateways, t);
    KeptHolds(ledger, job.gateways, t);
  }

  lemma HeldText(ledger: Ledger, job: Job, t: AddressText)
    requires t.Ip?
    requires SpecifiedText(job.gateways, t) || KeptText(ledger, job.gateways, t) || t in job.reserved
    ensures Held(ledger, job, t.ip)
  {
  }

  lemma TextOfHeld(ledger: Ledger, job: Job, a: int) returns (t: AddressText)
    requires Held(ledger, job, a)
    ensures t.Ip? && t.ip == a
    ensures SpecifiedText(job.gateways, t) || KeptText(ledger, job.gateways, t) || t in job.reserved
  {
    if g :| g in job.gateways && g.address.Some? && g.address.value.Ip? && g.address.value.ip == a {
      t := g.address.value;
    } else if k :| Keeps(ledger, job.gateways, k) && ledger[k].Ip? && ledger[k].ip == a {
      t := ledger[k];
    } else {
      t :| t in job.reserved && t.Ip? && t.ip == a;
    }
  }

  lemma UsedExact(ledger: Ledger, job: Job, a: int)
    requires DistinctBy(GatewayName, job.gateways)
    ensures a in Start(ledger, job).used <==> Held(ledger, job, a)
  {
    if a in Start(ledger, job).used {
      var t :| t in InUse(ledger, job) && t.Ip? && t.ip == a;
      TextsExact(ledger, job, t);
      HeldText(ledger, job, t);
    }
    if Held(ledger, job, a) {
      var t := TextOfHeld(ledger, job, a);
      TextsExact(ledger, job, t);
    }
  }

  // ---------------------------------------------------------------- the ledger

  /** Host a is the lowest one not held and not just given to a gateway earlier in name order. */
  ghost predicate LowestFor(r: Result, ledger: Ledger, job: Job, k: string, a: int)
    requires r.Done?
  {
    && InScan(job, a) && !Held(ledger, job, a)
    && forall b :: InScan(job, b) && b < a ==>
         Held(ledger, job, b) || exists j :: j != k && StrLe(j, k) && Given(r, ledger, job.gateways, j, b)
  }

  /**
   * The new ledger, exactly: an entry is kept as it is when a listed gateway of its name specifies no
   * address; any other entry is the lowest host, given to a waiting gateway; and a waiting gateway is
   * left without one, and reported, only when every host is held or was just given.
   */
  lemma LedgerExact(ledger: Ledger, job: Job, k: string)
    requires DistinctBy(GatewayName, job.gateways) && PlanAllocate(ledger, job).Done?
    ensures var r, gs := PlanAllocate(ledger, job), job.gateways;
      && (Keeps(ledger, gs, k) ==> k in r.ledger && r.ledger[k] == ledger[k])
      && (k in r.ledger && !Keeps(ledger, gs, k) ==>
           Waits(gs, k) && r.ledger[k].Ip? && r.ledger[k].mask == 32 && LowestFor(r, ledger, job, k, r.ledger[k].ip))
      && (NoFreeAddress(k) in r.errors <==> Waits(gs, k) && k !in r.ledger)
      && (NoFreeAddress(k) in r.errors ==>
           forall a :: InScan(job, a) ==> Held(ledger, job, a) || exists j :: Given(r, ledger, gs, j, a))
  {
    var r, gs, start, s := PlanAllocate(ledger, job), job.gateways, Start(ledger, job), Finish(ledger, job);
    forall j { KeepsExact(ledger, gs, j); }
    forall a { UsedExact(ledger, job, a); }
    if Keeps(ledger, gs, k) { PlannerSticky(ledger, job, k); }
    PlannerExhaustionExact(ledger, job, k);
    if NoFreeAddress(k) in r.errors {
      forall a | InScan(job, a) ensures Held(ledger, job, a) || exists j :: Given(r, ledger, gs, j, a) {
        if HeldByNew(start, s, a) {
          var j :| j in s.ledger && j !in start.ledger && s.ledger[j].Ip? && s.ledger[j].ip == a;
          assert Given(r, ledger, gs, j, a);
        }
      }
    }
    if k in r.ledger && !Keeps(ledger, gs, k) {
      PlannerLeastFree(ledger, job, k);
      LowestIs(ledger, job, k);
    }
  }

  lemma LowestIs(ledger: Ledger, job: Job, k: string)
    requires DistinctBy(GatewayName, job.gateways) && PlanAllocate(ledger, job).Done?
    requires HandedOut(job, Start(ledger, job), Finish(ledger, job), k)
    ensures LowestFor(PlanAllocate(ledger, job), ledger, job, k, Finish(ledger, job).ledger[k].ip)
  {
    var r, start, s := PlanAllocate(ledger, job), Start(ledger, job), Finish(ledger, job);
    forall j { KeepsExact(ledger, job.gateways, j); }
    forall a { UsedExact(ledger, job, a); }
    forall b | InScan(job, b) && b < s.ledger[k].ip
      ensures Held(ledger, job, b) || exists j :: j != k && StrLe(j, k) && Given(r, ledger, job.gateways, j, b)
    {
      if HeldByEarlier(start, s, k, b) {
        var j :| j in s.ledger && j !in start.ledger && j != k && StrLe(j, k) && s.ledger[j].Ip? && s.ledger[j].ip == b;
        assert Given(r, ledger, job.gateways, j, b);
      }
    }
  }

  /**
   * The address map, exactly: a specified address as it is, the ledger entry of every other gateway that
   * has one, and nothing else.
   */
  lemma AddressesExact(ledger: Ledger, job: Job)
    requires DistinctBy(GatewayName, job.gateways) && PlanAllocate(ledger, job).Done?
    ensures var r := PlanAllocate(ledger, job);
      && (forall g :: g in job.gateways && g.address.Some? ==> g.name in r.addresses && r.addresses[g.name] == g.address.value)
      && (forall g :: g in job.gateways && g.address.None? ==> (g.name in r.addresses <==> g.name in r.ledger))
      && (forall g :: g in job.gateways && g.name in r.ledger ==> g.address.None? && r.addresses[g.name] == r.ledger[g.name])
      && (forall k :: k in r.addresses ==> exists g :: g in job.gateways && g.name == k)
  {
    var r, spec := PlanAllocate(ledger, job), SpecAddresses(job.gateways);
    OnlyListed(ledger, job);
    forall g | g in job.gateways { SpecDomain(job.gateways, g); }
    forall k | k in r.addresses ensures exists g :: g in job.gateways && g.name == k {
      if k in spec {
        SpecAddressesExact(job.gateways, k, spec[k]);
      } else {
        assert k in Names(job.gateways);
      }
    }
  }

  // ---------------------------------------------------------------- the errors

  /** Two specify the same address, and none between them in this order does. */
  ghost predicate Adjacent(spec: Ledger, names: seq<string>, e: LedgerError, i: int, j: int)
    requires e.BothUse? && forall n :: n in names ==> n in spec
  {
    && 0 <= i < j < |names| && e == BothUse(names[i], names[j], e.ip)
    && Uses(spec, names[i], e.ip) && Uses(spec, names[j], e.ip)
    && forall m :: i < m < j ==> !Uses(spec, names[m], e.ip)
  }

  predicate Uses(spec: Ledger, n: string, ip: nat) {
    n in spec && spec[n].Ip? && spec[n].ip == ip
  }

  lemma {:induction false} LastUserIs(spec: Ledger, names: seq<string>, ip: nat) returns (i: int)
    requires forall n :: n in names ==> n in spec
    ensures -1 <= i < |names|
    ensures LastUser(spec, names, ip) == if i < 0 then None else Some(names[i])
    ensures i >= 0 ==> Uses(spec, names[i], ip)
    ensures forall m :: i < m < |names| ==> !Uses(spec, names[m], ip)
  {
    if names == [] {
      i := -1;
    } else if Uses(spec, names[|names| - 1], ip) {
      i := |names| - 1;
    } else {
      i := LastUserIs(spec, names[..|names| - 1], ip);
    }
  }

  lemma {:induction false} CollisionIs(spec: Ledger, names: seq<string>, e: LedgerError)
    requires e.BothUse? && forall n :: n in names ==> n in spec
    ensures e in CollisionsAmong(spec, names) <==> exists i, j :: Adjacent(spec, names, e, i, j)
  {
    if names == [] {
    } else {
      var n := |names| - 1;
      var front := names[..n];
      CollisionIs(spec, front, e);
      forall i, j | j < n ensures Adjacent(spec, front, e, i, j) <==> Adjacent(spec, names, e, i, j) {}
      var last := LastUserIs(spec, front, e.ip);
      if exists i :: Adjacent(spec, names, e, i, n) {
        var i :| Adjacent(spec, names, e, i, n);
        assert last >= i && last <= i;
      }
      if Uses(spec, names[n], e.ip) && last >= 0 && e == BothUse(front[last], names[n], e.ip) {
        assert Adjacent(spec, names, e, last, n);
      }
      if e in CollisionsAmong(spec, front) {
        var i, j :| Adjacent(spec, front, e, i, j);
        assert Adjacent(spec, names, e, i, j);
      }
      if i, j :| Adjacent(spec, names, e, i, j) {
        if j < n { assert Adjacent(spec, front, e, i, j); }
      }
    }
  }

  /** The two gateways specify this address, and no gateway between them in name order does. */
  ghost predicate NeighboursUse(gs: seq<Gateway>, first: string, second: string, ip: nat) {
    && first != second && StrLe(first, second)
    && SpecifiesIp(gs, first, ip) && SpecifiesIp(gs, second, ip)
    && forall m :: SpecifiesIp(gs, m, ip) && StrLe(first, m) && StrLe(m, second) ==> m == first || m == second
  }

  ghost predicate SpecifiesIp(gs: seq<Gateway>, k: string, ip: nat) {
    exists g :: g in gs && g.name == k && g.address.Some? && g.address.value.Ip? && g.address.value.ip == ip
  }

  lemma UsesExact(gs: seq<Gateway>, k: string, ip: nat)
    requires DistinctBy(GatewayName, gs)
    ensures Uses(SpecAddresses(gs), k, ip) <==> SpecifiesIp(gs, k, ip)
  {
    var spec := SpecAddresses(gs);
    if Uses(spec, k, ip) {
      SpecAddressesExact(gs, k, spec[k]);
      var g :| g in gs && g.name == k && g.address == Some(spec[k]);
    }
    if g :| g in gs && g.name == k && g.address.Some? && g.address.value.Ip? && g.address.value.ip == ip {
      SpecDomain(gs, g);
    }
  }

  lemma OrderByPosition(names: seq<string>, i: nat, j: nat)
    requires i < |names| && j < |names|
    requires forall a, b :: 0 <= a < b < |names| ==> names[a] != names[b] && StrLe(names[a], names[b])
    ensures i < j <==> names[i] != names[j] && StrLe(names[i], names[j])
  {
    if j < i && StrLe(names[i], names[j]) { StrLeAntisymmetric(names[i], names[j]); }
  }

  lemma AdjacentExact(spec: Ledger, names: seq<string>, e: LedgerError)
    requires e.BothUse? && forall n :: n in names <==> n in spec
    requires forall a, b :: 0 <= a < b < |names| ==> names[a] != names[b] && StrLe(names[a], names[b])
    ensures (exists i, j :: Adjacent(spec, names, e, i, j)) <==>
      && e.first != e.second && StrLe(e.first, e.second) && Uses(spec, e.first, e.ip) && Uses(spec, e.second, e.ip)
      && forall m :: Uses(spec, m, e.ip) && StrLe(e.first, m) && StrLe(m, e.second) ==> m == e.first || m == e.second
  {
    if i, j :| Adjacent(spec, names, e, i, j) {
      forall m | Uses(spec, m, e.ip) && StrLe(e.first, m) && StrLe(m, e.second) ensures m == e.first || m == e.second {
        var x :| 0 <= x < |names| && names[x] == m;
        OrderByPosition(names, i, x);
        OrderByPosition(names, x, j);
      }
    }
    if e.first != e.second && StrLe(e.first, e.second) && Uses(spec, e.first, e.ip) && Uses(spec, e.second, e.ip)
       && forall m :: Uses(spec, m, e.ip) && StrLe(e.first, m) && StrLe(m, e.second) ==> m == e.first || m == e.second {
      var i :| 0 <= i < |names| && names[i] == e.first;
      var j :| 0 <= j < |names| && names[j] == e.second;
      OrderByPosition(names, i, j);
      forall m | i < m < j ensures !Uses(spec, names[m], e.ip) {}
      assert Adjacent(spec, names, e, i, j);
    }
  }

  lemma BadAmongErrors(ledger: Ledger, job: Job, t: AddressText)
    ensures BadAddress(t) in Errors(ledger, job) <==> t.Unparsable? && t in InUse(ledger, job)
  {
    CollisionsOnly(SpecAddresses(job.gateways), SortedNames(SpecAddresses(job.gateways).Keys));
  }

  /** Of what does not parse, exactly the kept entries and the reserved texts are reported: a specified one raises. */
  lemma BadAddressExact(ledger: Ledger, job: Job, t: AddressText)
    requires DistinctBy(GatewayName, job.gateways) && PlanAllocate(ledger, job).Done?
    ensures BadAddress(t) in PlanAllocate(ledger, job).errors <==>
      t.Unparsable? && (t in job.reserved || exists k :: Keeps(ledger, job.gateways, k) && ledger[k] == t)
  {
    BadAmongErrors(ledger, job, t);
    TextsExact(ledger, job, t);
    if t.Unparsable? { NotSpecified(job.gateways, t); }
  }

  lemma NotSpecified(gs: seq<Gateway>, t: AddressText)
    requires DistinctBy(GatewayName, gs) && SpecParses(gs) && t.Unparsable?
    ensures !SpecifiedText(gs, t)
  {
    SpecHolds(gs, t);
    assert t !in SpecAddresses(gs).Values;
  }

  /** Shared addresses are reported exactly for neighbours in name order. */
  lemma BothUseExact(ledger: Ledger, job: Job, first: string, second: string, ip: nat)
    requires DistinctBy(GatewayName, job.gateways) && PlanAllocate(ledger, job).Done?
    ensures BothUse(first, second, ip) in PlanAllocate(ledger, job).errors <==> NeighboursUse(job.gateways, first, second, ip)
  {
    var gs, spec := job.gateways, SpecAddresses(job.gateways);
    var names, e := SortedNames(spec.Keys), BothUse(first, second, ip);
    CollisionIs(spec, names, e);
    AdjacentExact(spec, names, e);
    forall k { UsesExact(gs, k, ip); }
  }

  // ---------------------------------------------------------------- one run

  lemma SizeOf24()
    ensures Size(24) == 256
    ensures 0x0AFF_0000 % Size(24) == 0 && 0x0AFF_0000 + Size(24) <= Pow2(MAX_LEN)
  {
    assert Pow2(4) == 16;
    Pow2Plus(4, 4);
    BlockSizes();
  }

  /** One WireGuard gateway without an address, and nothing held: it gets the first host there is. */
  lemma OnlyGateway(name: string, network: Block, offset: int, a: nat)
    requires var job := Job([Gateway(name, None, true, false)], network, [], offset);
      InScan(job, a) && forall b :: InScan(job, b) ==> a <= b
    ensures var r := PlanAllocate(map[], Job([Gateway(name, None, true, false)], network, [], offset));
      r.Done? && r.ledger == map[name := Ip(a, 32)] && r.addresses == r.ledger
  {
    var g := Gateway(name, None, true, false);
    var job := Job([g], network, [], offset);
    PlannerRaisesExact(map[], job);
    var r := PlanAllocate(map[], job);
    assert g in job.gateways && Waits(job.gateways, name);
    NothingHeld(job, a);
    OnlyNewEntry(job, name, a);
    AddressesExact(map[], job);
  }

  lemma NothingHeld(job: Job, a: int)
    requires job.reserved == [] && forall g :: g in job.gateways ==> g.address.None?
    ensures !Held(map[], job, a)
  {
  }

  lemma OnlyNewEntry(job: Job, name: string, a: nat)
    requires DistinctBy(GatewayName, job.gateways) && PlanAllocate(map[], job).Done?
    requires InScan(job, a) && forall b :: InScan(job, b) ==> a <= b
    requires job.reserved == [] && (forall g :: g in job.gateways ==> g.address.None?)
    requires forall k :: Waits(job.gateways, k) <==> k == name
    ensures PlanAllocate(map[], job).ledger == map[name := Ip(a, 32)]
  {
    var r := PlanAllocate(map[], job);
    forall k | k in r.ledger ensures k == name { LedgerExact(map[], job, k); }
    LedgerExact(map[], job, name);
    NothingHeld(job, a);
    if name in r.ledger {
      assert LowestFor(r, map[], job, name, r.ledger[name].ip);
      assert a == r.ledger[name].ip;
    }
  }

  /** 10.255.0.0/24 with the default offset: the first gateway gets 10.255.0.10. */
  lemma FirstRun(name: string)
    ensures var network := (SizeOf24(); Prefix(0x0AFF_0000, 24));
      var r := PlanAllocate(map[], Job([Gateway(name, None, true, false)], network, [], 10));
      r.Done? && r.ledger == map[name := Ip(0x0AFF_000A, 32)] && r.addresses == r.ledger
  {
    SizeOf24();
    OnlyGateway(name, Prefix(0x0AFF_0000, 24), 10, 0x0AFF_000A);
  }
}
