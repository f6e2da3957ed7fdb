/**
 * `plan_allocate` of fabric_wg_ledger.py: which WireGuard tunnel address each gateway holds.
 *
 * An address text is either an IPv4 address with its mask or something `ip_interface` rejects.
 */
module WgLedger {
  import opened Prelude
  import opened NameSort
  import opened Cidr

  datatype AddressText = Ip(ip: nat, mask: nat) | Unparsable(raw: string)

  type Ledger = map<string, AddressText>

  /** A CloudGateway; no `address` when spec.wireguard.address is unset or empty. */
  datatype Gateway = Gateway(name: string, address: Option<AddressText>, wireguard: bool, deleting: bool)

  datatype Job = Job(gateways: seq<Gateway>, network: Block, reserved: seq<AddressText>, startOffset: int)

  datatype LedgerError =
    | BadAddress(text: AddressText)
    | NoFreeAddress(gateway: string)
    | BothUse(first: string, second: string, ip: nat)

  /** `Raised` is the ValueError of `ip_interface` on an unparsable spec address. */
  datatype Result = Done(ledger: Ledger, addresses: Ledger, errors: set<LedgerError>) | Raised

  // ---------------------------------------------------------------- the pieces of one run

  function Names(gs: seq<Gateway>): set<string> {
    set g | g in gs :: g.name
  }

  /** `spec_addr`: a later gateway of the same name overrides. */
  function SpecAddresses(gs: seq<Gateway>): Ledger {
    if gs == [] then map[] else
      var n := |gs| - 1;
      var m := SpecAddresses(gs[..n]);
      if gs[n].address.Some? then m[gs[n].name := gs[n].address.value] else m
  }

  /** Entries of gateways that still exist and have no spec address. */
  function Retained(ledger: Ledger, gs: seq<Gateway>): Ledger {
    map k | k in ledger && k in Names(gs) && k !in SpecAddresses(gs) :: ledger[k]
  }

  function IpsOf(ts: set<AddressText>): set<nat> {
    set t | t in ts && t.Ip? :: t.ip
  }

  function Texts(ts: seq<AddressText>): set<AddressText> {
    set t | t in ts
  }

  /** Every address text that counts as in use before anything is handed out. */
  function InUse(ledger: Ledger, job: Job): set<AddressText> {
    SpecAddresses(job.gateways).Values + Retained(ledger, job.gateways).Values + Texts(job.reserved)
  }

  // `net.hosts()`: all but network and broadcast, except for /31 and /32.
  function FirstHost(n: Block): nat { if n.len >= 31 then n.net else n.net + 1 }

  function HostsEnd(n: Block): nat { if n.len >= 31 then End(n) else Broadcast(n) }

  /** First host at or above the start offset: `list(net.hosts())[max(0, start_offset - 1):]`. */
  function ScanStart(job: Job): nat {
    FirstHost(job.network) + if job.startOffset <= 1 then 0 else job.startOffset - 1
  }

  function LowestFree(from: nat, end: nat, used: set<nat>): Option<nat>
    decreases end - from
  {
    if from >= end then None else if from !in used then Some(from) else LowestFree(from + 1, end, used)
  }

  /** A gateway the loop may hand an address to. */
  predicate Wants(g: Gateway, spec: Ledger) {
    g.name !in spec && g.wireguard && !g.deleting
  }

  datatype State = State(ledger: Ledger, used: set<nat>, exhausted: set<string>)

  function Step(job: Job, spec: Ledger, s: State, g: Gateway): State {
    if !Wants(g, spec) || g.name in s.ledger then s
    else
      match LowestFree(ScanStart(job), HostsEnd(job.network), s.used)
      case None => s.(exhausted := s.exhausted + {g.name})
      case Some(h) => s.(ledger := s.ledger[g.name := Ip(h, 32)], used := s.used + {h})
  }

  function Steps(job: Job, spec: Ledger, s: State, gs: seq<Gateway>): State {
    if gs == [] then s else Step(job, spec, Steps(job, spec, s, gs[..|gs| - 1]), gs[|gs| - 1])
  }

  function GatewayName(g: Gateway): string { g.name }

  function Start(ledger: Ledger, job: Job): State {
    State(Retained(ledger, job.gateways), IpsOf(InUse(ledger, job)), {})
  }

  function Finish(ledger: Ledger, job: Job): State {
    Steps(job, SpecAddresses(job.gateways), Start(ledger, job), SortBy(GatewayName, job.gateways))
  }

  predicate AllParse(spec: Ledger) {
    forall k :: k in spec ==> spec[k].Ip?
  }

  predicate SpecParses(gs: seq<Gateway>) {
    AllParse(SpecAddresses(gs))
  }

  function Allocated(ledger: Ledger, job: Job): Ledger {
    Finish(ledger, job).ledger
  }

  /** The address map: spec addresses, and the ledger entry of every other gateway that has one. */
  function AddressMap(ledger: Ledger, job: Job): Ledger {
    Allocated(ledger, job) + SpecAddresses(job.gateways)
  }

  function SpecCollisions(spec: Ledger): set<LedgerError> {
    CollisionsAmong(spec, SortedNames(spec.Keys))
  }

  /** The last name before position i that uses this address. */
  function LastUser(spec: Ledger, names: seq<string>, ip: nat): Option<string>
    requires forall n :: n in names ==> n in spec
  {
    if names == [] then None
    else
      var n := names[|names| - 1];
      if spec[n].Ip? && spec[n].ip == ip then Some(n) else LastUser(spec, names[..|names| - 1], ip)
  }

  function CollisionsAmong(spec: Ledger, names: seq<string>): set<LedgerError>
    requires forall n :: n in names ==> n in spec
  {
    if names == [] then {}
    else
      var front, n := names[..|names| - 1], names[|names| - 1];
      CollisionsAmong(spec, front) +
      if spec[n].Ip? && LastUser(spec, front, spec[n].ip).Some?
      then {BothUse(LastUser(spec, front, spec[n].ip).value, n, spec[n].ip)} else {}
  }

  /** One error for each address text in use that does not parse. */
  function BadAddresses(texts: set<AddressText>): set<LedgerError> {
    set t | t in texts && t.Unparsable? :: BadAddress(t)
  }

  function Errors(ledger: Ledger, job: Job): set<LedgerError> {
    BadAddresses(InUse(ledger, job))
    + (set n | n in Finish(ledger, job).exhausted :: NoFreeAddress(n))
    + SpecCollisions(SpecAddresses(job.gateways))
  }

  function PlanAllocate(ledger: Ledger, job: Job): Result {
    if SpecParses(job.gateways) then Done(Allocated(ledger, job), AddressMap(ledger, job), Errors(ledger, job)) else Raised
  }

  // ---------------------------------------------------------------- the program

  method CollectSpec(gs: seq<Gateway>) returns (spec: Ledger)
    ensures spec == SpecAddresses(gs)
  {
    spec := map[];
    for i := 0 to |gs|
      invariant spec == SpecAddresses(gs[..i])
    {
      assert gs[..i + 1][..i] == gs[..i];
      if gs[i].address.Some? {
        spec := spec[gs[i].name := gs[i].address.value];
      }
    }
    assert gs[..|gs|] == gs;
  }

  /** The loop that fills `used` and reports unparsable texts. */
  method ReadInUse(texts: set<AddressText>) returns (used: set<nat>, errors: set<LedgerError>)
    ensures used == IpsOf(texts)
    ensures errors == BadAddresses(texts)
  {
    used, errors := {}, {};
    var left := texts;
    while left != {}
      invariant left <= texts
      invariant used == IpsOf(texts - left)
      invariant errors == BadAddresses(texts - left)
      decreases left
    {
      var t :| t in left;
      assert texts - (left - {t}) == (texts - left) + {t};
      left := left - {t};
      if t.Ip? {
        used := used + {t.ip};
      } else {
        errors := errors + {BadAddress(t)};
      }
    }
  }

  method FindFree(from: nat, end: nat, used: set<nat>) returns (h: Option<nat>)
    ensures h == LowestFree(from, end, used)
  {
    var a := from;
    while a < end
      invariant LowestFree(a, end, used) == LowestFree(from, end, used)
    {
      if a !in used {
        return Some(a);
      }
      a := a + 1;
    }
    h := None;
  }

  method HandOut(job: Job, spec: Ledger, start: State, gs: seq<Gateway>) returns (s: State, out: Ledger)
    ensures s == Steps(job, spec, start, gs)
    ensures forall k :: k in out <==> k in Names(gs) && k !in spec && k in s.ledger
    ensures forall k :: k in out ==> out[k] == s.ledger[k]
  {
    s, out := start, map[];
    for i := 0 to |gs|
      invariant s == Steps(job, spec, start, gs[..i])
      invariant forall k :: k in out <==> k in Names(gs[..i]) && k !in spec && k in s.ledger
      invariant forall k :: k in out ==> out[k] == s.ledger[k]
    {
      var g := gs[i];
      assert gs[..i + 1][..i] == gs[..i];
      assert Names(gs[..i + 1]) == Names(gs[..i]) + {g.name};
      if g.name in spec {
        continue;
      }
      if g.name in s.ledger {
        out := out[g.name := s.ledger[g.name]];
        continue;
      }
      if !g.wireguard || g.deleting {
        continue;
      }
      var h := FindFree(ScanStart(job), HostsEnd(job.network), s.used);
      if h.None? {
        s := s.(exhausted := s.exhausted + {g.name});
        continue;
      }
      s := s.(ledger := s.ledger[g.name := Ip(h.value, 32)], used := s.used + {h.value});
      out := out[g.name := Ip(h.value, 32)];
    }
    assert gs[..|gs|] == gs;
  }

  ghost predicate Remembers(spec: Ledger, names: seq<string>, seen: map<nat, string>)
    requires forall n :: n in names ==> n in spec
  {
    forall ip :: LastUser(spec, names, ip) == if ip in seen then Some(seen[ip]) else None
  }

  lemma RememberNext(spec: Ledger, names: seq<string>, n: string, seen: map<nat, string>)
    requires forall m :: m in names ==> m in spec
    requires n in spec && spec[n].Ip? && Remembers(spec, names, seen)
    ensures Remembers(spec, names + [n], seen[spec[n].ip := n])
  {
    assert (names + [n])[..|names|] == names;
  }

  /** Every one of these spec addresses parses. */
  ghost predicate Parsed(spec: Ledger, names: seq<string>) {
    forall n :: n in names ==> n in spec && spec[n].Ip?
  }

  /** The loop after these names: who used which address last, and the errors so far. */
  ghost predicate ReportedSoFar(spec: Ledger, names: seq<string>, seen: map<nat, string>, errors: set<LedgerError>) {
    Parsed(spec, names) && Remembers(spec, names, seen) && errors == CollisionsAmong(spec, names)
  }

  lemma NextCollision(spec: Ledger, names: seq<string>, n: string, seen: map<nat, string>, errors: set<LedgerError>)
    requires ReportedSoFar(spec, names, seen, errors) && n in spec && spec[n].Ip?
    ensures var ip := spec[n].ip;
      ReportedSoFar(spec, names + [n], seen[ip := n], errors + if ip in seen then {BothUse(seen[ip], n, ip)} else {})
  {
    assert (names + [n])[..|names|] == names;
    RememberNext(spec, names, n, seen);
  }

  lemma AllParsed(spec: Ledger, names: seq<string>)
    requires Parsed(spec, names) && forall n :: n in names <==> n in spec
    ensures AllParse(spec)
  {
  }

  method ReportCollisions(spec: Ledger) returns (raised: bool, errors: set<LedgerError>)
    ensures raised <==> !AllParse(spec)
    ensures !raised ==> errors == SpecCollisions(spec)
  {
    raised, errors := false, {};
    var names := SortedNames(spec.Keys);
    var seen: map<nat, string> := map[];
    ghost var done: seq<string> := [];
    for i := 0 to |names|
      invariant !raised && done == names[..i]
      invariant ReportedSoFar(spec, done, seen, errors)
    {
      var n := names[i];
      assert n in spec;
      if spec[n].Unparsable? {
        return true, {};
      }
      var ip := spec[n].ip;
      NextCollision(spec, done, n, seen, errors);
      if ip in seen {
        errors := errors + {BothUse(seen[ip], n, ip)};
      }
      seen := seen[ip := n];
      done := done + [n];
    }
    assert done == names;
    AllParsed(spec, names);
  }

  /** `plan_allocate`. */
  method PlanAddresses(ledger: Ledger, job: Job) returns (r: Result)
    ensures r == PlanAllocate(ledger, job)
  {
    var gs := job.gateways;
    var spec := CollectSpec(gs);
    var kept := map k | k in ledger && k in Names(gs) && k !in spec :: ledger[k];
    assert kept == Retained(ledger, gs);
    var used, errors := ReadInUse(spec.Values + kept.Values + Texts(job.reserved));
    var s, out := HandOut(job, spec, State(kept, used, {}), SortBy(GatewayName, gs));
    OnlyListed(ledger, job);
    assert out == s.ledger;
    var raised, collisions := ReportCollisions(spec);
    if raised {
      return Raised;
    }
    r := Done(s.ledger, out + spec, errors + (set n | n in s.exhausted :: NoFreeAddress(n)) + collisions);
  }

  // ---------------------------------------------------------------- what every step keeps

  lemma {:induction false} StepsOnlyListed(job: Job, spec: Ledger, s: State, gs: seq<Gateway>)
    ensures Steps(job, spec, s, gs).ledger.Keys <= s.ledger.Keys + Names(gs)
    ensures forall k :: k in Steps(job, spec, s, gs).ledger && k !in s.ledger ==> k !in spec
  {
    if gs == [] {
    } else {
      StepsOnlyListed(job, spec, s, gs[..|gs| - 1]);
      assert gs[|gs| - 1].name in Names(gs);
      assert Names(gs[..|gs| - 1]) <= Names(gs);
    }
  }

  lemma SortedNamesSame(gs: seq<Gateway>)
    ensures Names(SortBy(GatewayName, gs)) == Names(gs)
  {
    SortBySorts(GatewayName, gs);
    forall g ensures g in SortBy(GatewayName, gs) <==> g in gs {
      assert g in multiset(gs) <==> g in multiset(SortBy(GatewayName, gs));
    }
  }

  /** The new ledger holds listed gateways without a spec address only. */
  lemma OnlyListed(ledger: Ledger, job: Job)
    ensures forall k :: k in Allocated(ledger, job) ==> k in Names(job.gateways) && k !in SpecAddresses(job.gateways)
    ensures Names(SortBy(GatewayName, job.gateways)) == Names(job.gateways)
  {
    StepsOnlyListed(job, SpecAddresses(job.gateways), Start(ledger, job), SortBy(GatewayName, job.gateways));
    SortedNamesSame(job.gateways);
  }
}
