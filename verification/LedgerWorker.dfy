/**
 * `main` of fabric_wg_ledger.py as it runs: one worker's retry loop against the API server, with
 * whatever other writers commit between its GET and its PUT.
 */
module LedgerWorker {
  import opened Prelude
  import opened NameSort
  import opened WgLedger
  import opened WgLedgerTheorems
  import opened WgLedgerExact
  import opened LedgerProtocol

  /** The API server's copy of the ConfigMap; `log` is every version it ever committed. */
  class ConfigMap {
    var data: Data
    var version: nat
    ghost var log: seq<Version>

    ghost predicate Valid()
      reads this
    {
      |log| == version + 1 && Last(log) == data
    }

    constructor (initial: Data)
      ensures Valid() && version == 0 && log == [Version(initial, OtherWriter)]
    {
      data := initial;
      version := 0;
      log := [Version(initial, OtherWriter)];
    }

    /** GET. */
    method Get() returns (seen: nat, d: Data)
      requires Valid()
      ensures seen == version && d == data == log[seen].data
    {
      seen, d := version, data;
    }

    /** PUT with a resourceVersion: accepted exactly when nothing was committed since; else 409. */
    method Put(seen: nat, d: Data, author: Author) returns (accepted: bool)
      requires Valid()
      modifies this
      ensures Valid()
      ensures accepted <==> seen == old(version)
      ensures log == if accepted then old(log) + [Version(d, author)] else old(log)
    {
      accepted := seen == version;
      if accepted {
        data := d;
        version := version + 1;
        log := log + [Version(d, author)];
      }
    }
  }

  /** Somebody else who commits while the worker is between GET and PUT. */
  datatype Rival = RivalWorker(request: Request) | RivalWriter(others: map<string, string>)

  datatype GetAnswer = GotIt | NotFound | GetRefused

  /** `PutRefused` is any status but success and 409; the write may have landed all the same. */
  datatype PutAnswer = PutAnswered | PutRefused(applied: bool)

  /** What one attempt meets: the answers, and who commits between its GET and its PUT. */
  datatype Round = Round(get: GetAnswer, rivals: seq<Rival>, put: PutAnswer)

  const QUIET := Round(GotIt, [], PutAnswered)

  datatype Ending =
    | Same(addresses: Ledger)
    | Written(addresses: Ledger)
    | Absent(addresses: Ledger)   // 404
    | Conflicted                  // ten 409s
    | Failed                      // any other status
    | Crashed                     // planning raised

  method PlanRequest(r: Request, ledger: Ledger) returns (new': Option<Ledger>, addresses: Ledger)
    ensures new' == Wanted(r, ledger)
    ensures new'.Some? ==> addresses == Reported(r, ledger)
  {
    match r
    case ReleaseName(name) =>
      new', addresses := Some(ledger - {name}), ledger - {name};
    case AllocateFor(job) =>
      var result := PlanAddresses(ledger, job);
      match result
      case Raised => new', addresses := None, map[];
      case Done(l, a, _) => new', addresses := Some(l), a;
  }

  /** The addresses printed for a request planned on this ledger. */
  function Reported(r: Request, ledger: Ledger): Ledger {
    match r
    case ReleaseName(name) => ledger - {name}
    case AllocateFor(job) => AddressMap(ledger, job)
  }

  method RivalsCommit(cm: ConfigMap, rivals: seq<Rival>)
    requires cm.Valid() && GoodHistory(cm.log)
    modifies cm
    ensures cm.Valid() && GoodHistory(cm.log)
    ensures old(cm.log) <= cm.log
    ensures rivals == [] ==> cm.log == old(cm.log)
  {
    for i := 0 to |rivals|
      invariant cm.Valid() && GoodHistory(cm.log)
      invariant old(cm.log) <= cm.log
      invariant i == 0 ==> cm.log == old(cm.log)
    {
      var v, d := cm.Get();
      ghost var before := cm.log;
      match rivals[i]
      case RivalWriter(others) =>
        CommitKeepsHistory(before, Version(Data(d.ledger, others), OtherWriter));
        var _ := cm.Put(v, Data(d.ledger, others), OtherWriter);
      case RivalWorker(r) =>
        var wanted, _ := PlanRequest(r, d.ledger);
        if wanted.Some? && wanted.value != d.ledger {
          CommitKeepsHistory(before, Version(Data(wanted.value, d.others), Worker(r)));
          var _ := cm.Put(v, Data(wanted.value, d.others), Worker(r));
        }
    }
  }

  /** The newest version is the worker's own plan, on top of the version before it. */
  ghost predicate WroteItsPlan(log: seq<Version>, request: Request, addresses: Ledger) {
    && |log| >= 2
    && var (before, last) := (log[|log| - 2].data, log[|log| - 1]);
      && last.author == Worker(request) && last.data.ledger != before.ledger
      && addresses == Reported(request, before.ledger)
  }

  /** The plan on this ledger is this ledger. */
  ghost predicate NothingToWrite(request: Request, ledger: Ledger, addresses: Ledger) {
    Wanted(request, ledger) == Some(ledger) && addresses == Reported(request, ledger)
  }

  method TryWrite(cm: ConfigMap, seen: nat, d: Data, new': Ledger, request: Request, ghost addresses: Ledger) returns (accepted: bool)
    requires cm.Valid() && GoodHistory(cm.log)
    requires seen < |cm.log| && cm.log[seen].data == d
    requires Wanted(request, d.ledger) == Some(new') && new' != d.ledger && addresses == Reported(request, d.ledger)
    modifies cm
    ensures cm.Valid() && GoodHistory(cm.log) && old(cm.log) <= cm.log
    ensures accepted <==> seen == old(cm.version)
    ensures accepted ==> WroteItsPlan(cm.log, request, addresses)
    ensures |cm.log| == |old(cm.log)| + if accepted then 1 else 0
  {
    ghost var next := Version(Data(new', d.others), Worker(request));
    if seen == cm.version {
      CommitKeepsHistory(cm.log, next);
    }
    accepted := cm.Put(seen, Data(new', d.others), Worker(request));
  }

  /** The addresses printed when the ConfigMap does not exist. */
  function SpecOnly(r: Request): Ledger {
    match r
    case ReleaseName(_) => map[]
    case AllocateFor(job) => SpecAddresses(job.gateways)
  }

  /** What a worker that ended says about the history and about the round it ended in. */
  ghost predicate EndsWell(request: Request, before: seq<Version>, log: seq<Version>, round: Round, ending: Ending)
    requires log != []
  {
    match ending
    case Written(addresses) => WroteItsPlan(log, request, addresses) && |log| > |before|
    case Same(addresses) => NothingToWrite(request, Last(log).ledger, addresses)
    case Crashed => Wanted(request, Last(log).ledger) == None
    case Absent(addresses) => addresses == SpecOnly(request) && round.get.NotFound?
    case Failed => round.get.GetRefused? || round.put.PutRefused?
    case Conflicted => false
  }

  /** One turn of the retry loop; no ending after a 409, which means that somebody else committed. */
  method OneAttempt(cm: ConfigMap, request: Request, round: Round) returns (ending: Option<Ending>)
    requires cm.Valid() && GoodHistory(cm.log)
    modifies cm
    ensures cm.Valid() && GoodHistory(cm.log) && old(cm.log) <= cm.log
    ensures ending.Some? ==> EndsWell(request, old(cm.log), cm.log, round, ending.value)
    ensures ending.None? ==> |cm.log| > |old(cm.log)|
    ensures round.rivals == [] ==> ending.Some? && |cm.log| <= |old(cm.log)| + 1
  {
    if round.get.NotFound? {
      return Some(Absent(SpecOnly(request)));
    }
    if round.get.GetRefused? {
      return Some(Failed);
    }
    var seen, d := cm.Get();
    var new', addresses := PlanRequest(request, d.ledger);
    if new'.None? {
      return Some(Crashed);
    }
    if new'.value == d.ledger {
      return Some(Same(addresses));
    }
    RivalsCommit(cm, round.rivals);
    var accepted := false;
    if round.put.PutAnswered? || round.put.applied {
      accepted := TryWrite(cm, seen, d, new'.value, request, addresses);
    }
    if round.put.PutRefused? {
      return Some(Failed);
    }
    ending := if accepted then Some(Written(addresses)) else None;
  }

  /** What the k-th attempt meets; past the list nobody else writes and every call is answered. */
  function RoundAt(rounds: seq<Round>, k: nat): Round {
    if k < |rounds| then rounds[k] else QUIET
  }

  /**
   * The retry loop. Whatever the rivals and the server do, the history stays good; a write is this
   * worker's plan on top of the version it read; it ends in one of ten attempts, or gives up, and then
   * ten other commits landed.
   */
  method RunWorker(cm: ConfigMap, request: Request, rounds: seq<Round>) returns (ending: Ending)
    requires cm.Valid() && GoodHistory(cm.log)
    modifies cm
    ensures cm.Valid() && GoodHistory(cm.log) && old(cm.log) <= cm.log
    ensures ending.Conflicted? ==> |cm.log| >= |old(cm.log)| + 10
    ensures !ending.Conflicted? ==>
      exists k :: 0 <= k < 10 && EndsWell(request, old(cm.log), cm.log, RoundAt(rounds, k), ending)
    ensures rounds == [] ==> |cm.log| <= |old(cm.log)| + 1 && !ending.Conflicted?
  {
    for attempt := 0 to MAX_ATTEMPTS
      invariant cm.Valid() && GoodHistory(cm.log) && old(cm.log) <= cm.log
      invariant |cm.log| >= |old(cm.log)| + attempt
      invariant rounds == [] ==> attempt == 0 && |cm.log| == |old(cm.log)|
    {
      var ended := OneAttempt(cm, request, RoundAt(rounds, attempt));
      if ended.Some? {
        assert EndsWell(request, old(cm.log), cm.log, RoundAt(rounds, attempt), ended.value);
        return ended.value;
      }
    }
    ending := Conflicted;
  }

  // ---------------------------------------------------------------- what a worker prints

  /**
   * Every listed gateway that specifies an address prints it, every other one prints its entry in this
   * ledger if it has one, and nobody else prints anything.
   */
  ghost predicate Prints(gs: seq<Gateway>, ledger: Ledger, addresses: Ledger) {
    && (forall g :: g in gs && g.address.Some? ==> g.name in addresses && addresses[g.name] == g.address.value)
    && (forall g :: g in gs && g.address.None? ==> (g.name in addresses <==> g.name in ledger))
    && (forall g :: g in gs && g.address.None? && g.name in ledger ==> addresses[g.name] == ledger[g.name])
    && (forall k :: k in addresses ==> exists g :: g in gs && g.name == k)
  }

  lemma PlanPrints(ledger: Ledger, job: Job)
    requires DistinctBy(GatewayName, job.gateways) && PlanAllocate(ledger, job).Done?
    ensures Prints(job.gateways, PlanAllocate(ledger, job).ledger, AddressMap(ledger, job))
  {
    AddressesExact(ledger, job);
  }

  /** An allocating worker that ends normally prints the map of the newest ledger, its own or the one it left as it was. */
  lemma AllocatePrintsExact(job: Job, before: seq<Version>, log: seq<Version>, round: Round, ending: Ending)
    requires DistinctBy(GatewayName, job.gateways) && GoodHistory(log)
    requires EndsWell(AllocateFor(job), before, log, round, ending) && (ending.Same? || ending.Written?)
    ensures Prints(job.gateways, Last(log).ledger, ending.addresses)
  {
    match ending
    case Same(_) => PlanPrints(Last(log).ledger, job);
    case Written(_) =>
      assert FollowsFrom(log[|log| - 2].data, log[|log| - 1]);
      PlanPrints(log[|log| - 2].data.ledger, job);
  }

  /** A releasing worker prints, and commits if it differs, the ledger it read without that one name. */
  lemma ReleasePrintsExact(name: string, before: seq<Version>, log: seq<Version>, round: Round, ending: Ending)
    requires GoodHistory(log)
    requires EndsWell(ReleaseName(name), before, log, round, ending) && (ending.Same? || ending.Written?)
    ensures ending.addresses == Last(log).ledger
    ensures var read := if ending.Written? then log[|log| - 2].data.ledger else Last(log).ledger;
      && (forall k :: k in ending.addresses <==> k in read && k != name)
      && (forall k :: k in ending.addresses ==> ending.addresses[k] == read[k])
      && (ending.Same? <==> name !in read)
  {
    if ending.Written? {
      assert FollowsFrom(log[|log| - 2].data, log[|log| - 1]);
    }
  }

  /** Without a ConfigMap an allocating worker prints the specified addresses, a releasing one nothing. */
  lemma AbsentPrintsExact(request: Request, before: seq<Version>, log: seq<Version>, round: Round, ending: Ending)
    requires log != [] && EndsWell(request, before, log, round, ending) && ending.Absent?
    ensures request.ReleaseName? ==> ending.addresses == map[]
    ensures request.AllocateFor? && DistinctBy(GatewayName, request.job.gateways) ==>
      Prints(request.job.gateways, map[], ending.addresses)
  {
    if request.AllocateFor? && DistinctBy(GatewayName, request.job.gateways) {
      forall g | g in request.job.gateways { SpecDomain(request.job.gateways, g); }
      forall k | k in ending.addresses ensures exists g :: g in request.job.gateways && g.name == k {
        SpecAddressesExact(request.job.gateways, k, ending.addresses[k]);
      }
    }
  }

  /** Planning raises for nobody but an allocating worker whose list has an address that does not parse. */
  lemma CrashedExact(request: Request, before: seq<Version>, log: seq<Version>, round: Round, ending: Ending)
    requires GoodHistory(log) && EndsWell(request, before, log, round, ending)
    requires request.AllocateFor? ==> DistinctBy(GatewayName, request.job.gateways)
    ensures ending.Crashed? ==>
      request.AllocateFor? && exists g :: g in request.job.gateways && g.address.Some? && g.address.value.Unparsable?
    ensures ending.Same? || ending.Written? ==>
      request.ReleaseName? || forall g :: g in request.job.gateways && g.address.Some? ==> g.address.value.Ip?
  {
    if request.AllocateFor? {
      var read := if ending.Written? then log[|log| - 2].data.ledger else Last(log).ledger;
      PlannerRaisesExact(read, request.job);
      if ending.Written? { assert FollowsFrom(log[|log| - 2].data, log[|log| - 1]); }
    }
  }
}
