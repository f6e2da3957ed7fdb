/**
 * The optimistic-concurrency loop of fabric_wg_ledger.py: GET the shared ConfigMap, plan, PUT with
 * the resourceVersion that was read, start over on 409.
 *
 * Any number of allocate and release workers interleave at their GETs and PUTs, each with its own,
 * possibly stale, gateway list, beside writers of the ConfigMap's other keys. `log` is the history
 * of committed versions; a resourceVersion is a position in it.
 */
module LedgerProtocol {
  import opened Prelude
  import opened Cidr
  import opened WgLedger
  import opened WgLedgerTheorems

  const MAX_ATTEMPTS := 10

  /** The ConfigMap: the decoded `wgAddresses` key and the text of every other key (the VNI ledger). */
  datatype Data = Data(ledger: Ledger, others: map<string, string>)

  datatype Request = AllocateFor(job: Job) | ReleaseName(name: string)

  datatype Author = Worker(request: Request) | OtherWriter

  datatype Version = Version(data: Data, author: Author)

  /** The ledger a worker wants to write; None when planning raises. */
  function Wanted(r: Request, ledger: Ledger): Option<Ledger> {
    match r
    case ReleaseName(name) => Some(ledger - {name})
    case AllocateFor(job) =>
      match PlanAllocate(ledger, job)
      case Raised => None
      case Done(new', _, _) => Some(new')
  }

  // ---------------------------------------------------------------- histories

  /** One commit on top of another: the worker's own plan, or a change to the other keys only. */
  ghost predicate FollowsFrom(before: Data, after: Version) {
    match after.author
    case Worker(r) => Wanted(r, before.ledger) == Some(after.data.ledger) && after.data.others == before.others
    case OtherWriter => after.data.ledger == before.ledger
  }

  /** No lost update, and no two gateways with one address, in any version. */
  ghost predicate GoodHistory(log: seq<Version>) {
    && log != []
    && (forall v :: 0 <= v < |log| ==> Distinct(log[v].data.ledger))
    && (forall v :: 0 < v < |log| ==> FollowsFrom(log[v - 1].data, log[v]))
  }

  function Last(log: seq<Version>): Data
    requires log != []
  {
    log[|log| - 1].data
  }

  lemma WantedKeepsDistinct(r: Request, ledger: Ledger)
    requires Distinct(ledger) && Wanted(r, ledger).Some?
    ensures Distinct(Wanted(r, ledger).value)
  {
    match r
    case ReleaseName(_) =>
    case AllocateFor(job) => PlannerKeepsDistinct(ledger, job);
  }

  lemma CommitKeepsHistory(log: seq<Version>, next: Version)
    requires GoodHistory(log) && FollowsFrom(Last(log), next)
    ensures GoodHistory(log + [next])
  {
    if next.author.Worker? {
      WantedKeepsDistinct(next.author.request, Last(log).ledger);
    }
    var longer := log + [next];
    forall v | 0 < v < |longer| ensures FollowsFrom(longer[v - 1].data, longer[v]) {
      if v < |log| { assert FollowsFrom(log[v - 1].data, log[v]); }
    }
  }

  // ---------------------------------------------------------------- the state machine

  datatype Exit = Unchanged | Changed(version: nat) | GaveUp | Stopped

  datatype Phase = BeforeGet | BeforePut(seen: nat, new': Ledger) | Finished(exit: Exit)

  /** `began` is the newest version when the worker started; `conflicts` counts its 409s. */
  datatype WorkerState = WorkerState(request: Request, phase: Phase, conflicts: nat, began: nat)

  datatype System = System(log: seq<Version>, workers: map<nat, WorkerState>)

  datatype Move =
    | Get
    | Put
    | PutUnanswered   // the write lands, the answer is lost
    | Stop            // 404, any other status, or a crash

  datatype Action =
    | Begin(w: nat, request: Request)
    | Work(w: nat, move: Move)
    | WriteOthers(others: map<string, string>)

  function AfterConflict(me: WorkerState): WorkerState {
    me.(conflicts := me.conflicts + 1,
        phase := if me.conflicts + 1 == MAX_ATTEMPTS then Finished(GaveUp) else BeforeGet)
  }

  function AfterGet(me: WorkerState, v: nat, ledger: Ledger): WorkerState {
    match Wanted(me.request, ledger)
    case None => me.(phase := Finished(Stopped))
    case Some(new') => me.(phase := if new' == ledger then Finished(Unchanged) else BeforePut(v, new'))
  }

  /** One move of a worker: the version it commits, if any, and its own state after; None when it cannot move so. */
  function MoveOf(log: seq<Version>, me: WorkerState, m: Move): Option<(Option<Version>, WorkerState)>
    requires log != []
  {
    var newest := |log| - 1;
    match m
    case Get =>
      if me.phase != BeforeGet then None else Some((None, AfterGet(me, newest, Last(log).ledger)))
    case Put =>
      if !me.phase.BeforePut? then None
      else if me.phase.seen != newest then Some((None, AfterConflict(me)))
      else Some((Some(Commit(log, me)), me.(phase := Finished(Changed(newest + 1)))))
    case PutUnanswered =>
      if !me.phase.BeforePut? || me.phase.seen != newest then None
      else Some((Some(Commit(log, me)), me.(phase := Finished(Stopped))))
    case Stop =>
      if me.phase.Finished? then None else Some((None, me.(phase := Finished(Stopped))))
  }

  /** The state after an action; None when the action is not possible. */
  function Act(s: System, a: Action): Option<System>
    requires s.log != []
  {
    match a
    case Begin(w, r) =>
      if w in s.workers then None else Some(s.(workers := s.workers[w := WorkerState(r, BeforeGet, 0, |s.log| - 1)]))
    case Work(w, m) =>
      if w !in s.workers || MoveOf(s.log, s.workers[w], m).None? then None else
        var (commit, me) := MoveOf(s.log, s.workers[w], m).value;
        Some(System(if commit.Some? then s.log + [commit.value] else s.log, s.workers[w := me]))
    case WriteOthers(others) =>
      Some(s.(log := s.log + [Version(Data(Last(s.log).ledger, others), OtherWriter)]))
  }

  /** What a PUT writes: the new ledger and the other keys exactly as they were read. */
  function Commit(log: seq<Version>, me: WorkerState): Version
    requires me.phase.BeforePut? && me.phase.seen < |log|
  {
    Version(Data(me.phase.new', log[me.phase.seen].data.others), Worker(me.request))
  }

  // ---------------------------------------------------------------- safety over every interleaving

  ghost predicate WorkerInv(log: seq<Version>, me: WorkerState) {
    && (me.phase.BeforePut? ==>
         me.began + me.conflicts <= me.phase.seen < |log| &&
         Wanted(me.request, log[me.phase.seen].data.ledger) == Some(me.phase.new'))
    && me.began + me.conflicts < |log|
    && (me.phase == BeforeGet || me.phase.BeforePut? ==> me.conflicts < 10)
    && me.conflicts <= 10 && (me.phase == Finished(GaveUp) <==> me.conflicts == 10)
    && (me.phase.Finished? && me.phase.exit.Changed? ==>
         var v := me.phase.exit.version; 0 < v < |log| && log[v].author == Worker(me.request))
  }

  ghost predicate Inv(s: System) {
    GoodHistory(s.log) && forall w :: w in s.workers ==> WorkerInv(s.log, s.workers[w])
  }

  lemma WorkerInvGrows(log: seq<Version>, next: Version, me: WorkerState)
    requires log != [] && WorkerInv(log, me)
    ensures WorkerInv(log + [next], me)
  {
  }

  lemma GetKeepsInv(log: seq<Version>, me: WorkerState)
    requires GoodHistory(log) && WorkerInv(log, me) && me.phase == BeforeGet
    ensures WorkerInv(log, AfterGet(me, |log| - 1, Last(log).ledger))
  {
    var wanted := Wanted(me.request, Last(log).ledger);
    if wanted.Some? && wanted.value != Last(log).ledger {
      ReadsPlan(log, me, wanted.value);
    }
  }

  lemma ReadsPlan(log: seq<Version>, me: WorkerState, wanted: Ledger)
    requires log != [] && WorkerInv(log, me) && me.phase == BeforeGet
    requires Wanted(me.request, log[|log| - 1].data.ledger) == Some(wanted)
    ensures WorkerInv(log, me.(phase := BeforePut(|log| - 1, wanted)))
  {
  }

  lemma PutKeepsInv(log: seq<Version>, me: WorkerState, exit: Exit)
    requires GoodHistory(log) && WorkerInv(log, me) && me.phase.BeforePut? && me.phase.seen == |log| - 1
    requires exit == Changed(|log|) || exit == Stopped
    ensures FollowsFrom(Last(log), Commit(log, me)) && WorkerInv(log + [Commit(log, me)], me.(phase := Finished(exit)))
  {
  }

  lemma ConflictKeepsInv(log: seq<Version>, me: WorkerState)
    requires GoodHistory(log) && WorkerInv(log, me) && me.phase.BeforePut? && me.phase.seen != |log| - 1
    ensures WorkerInv(log, AfterConflict(me))
  {
  }

  lemma MoveKeepsInv(log: seq<Version>, me: WorkerState, m: Move)
    requires GoodHistory(log) && WorkerInv(log, me) && MoveOf(log, me, m).Some?
    ensures var (commit, after) := MoveOf(log, me, m).value;
      && (commit.Some? ==> FollowsFrom(Last(log), commit.value) && WorkerInv(log + [commit.value], after))
      && (commit.None? ==> WorkerInv(log, after))
  {
    match m
    case Get => GetKeepsInv(log, me);
    case Put =>
      if me.phase.seen == |log| - 1 { PutKeepsInv(log, me, Changed(|log|)); } else { ConflictKeepsInv(log, me); }
    case PutUnanswered => PutKeepsInv(log, me, Stopped);
    case Stop =>
  }

  lemma ActKeepsInv(s: System, a: Action)
    requires Inv(s) && Act(s, a).Some?
    ensures Inv(Act(s, a).value)
    ensures s.log <= Act(s, a).value.log
  {
    var t := Act(s, a).value;
    if a.Work? {
      MoveKeepsInv(s.log, s.workers[a.w], a.move);
    }
    if t.log != s.log {
      var next := t.log[|s.log|];
      assert t.log == s.log + [next];
      CommitKeepsHistory(s.log, next);
      forall w | w in s.workers ensures WorkerInv(t.log, s.workers[w]) {
        WorkerInvGrows(s.log, next, s.workers[w]);
      }
    }
  }

  function RunActions(s: System, actions: seq<Action>): (t: Option<System>)
    requires s.log != []
    ensures t.Some? ==> t.value.log != []
    decreases |actions|
  {
    if actions == [] then Some(s)
    else
      var t := Act(s, actions[0]);
      if t.None? then None else RunActions(t.value, actions[1..])
  }

  /** Before any worker started: one version whose addresses are distinct. */
  ghost predicate Initial(s: System) {
    |s.log| == 1 && Distinct(s.log[0].data.ledger) && s.workers == map[]
  }

  lemma {:induction false} RunKeepsInv(s: System, actions: seq<Action>)
    requires Inv(s) && RunActions(s, actions).Some?
    ensures Inv(RunActions(s, actions).value)
    ensures s.log <= RunActions(s, actions).value.log
    decreases |actions|
  {
    if actions == [] {
    } else {
      ActKeepsInv(s, actions[0]);
      RunKeepsInv(Act(s, actions[0]).value, actions[1..]);
    }
  }

  /**
   * Over every interleaving: in every committed version the addresses are pairwise distinct, every
   * commit is the planner applied to the version right before it, and a worker leaves every other
   * key as that version had it.
   */
  lemma EveryInterleavingIsSafe(s: System, actions: seq<Action>)
    requires Initial(s) && RunActions(s, actions).Some?
    ensures GoodHistory(RunActions(s, actions).value.log)
  {
    RunKeepsInv(s, actions);
  }

  /** A worker gives up at its tenth conflict, exactly, and by then ten other commits landed since it began. */
  lemma GivingUpNeedsTenCommits(s: System, actions: seq<Action>, w: nat)
    requires Initial(s) && RunActions(s, actions).Some?
    requires w in RunActions(s, actions).value.workers
    ensures var t := RunActions(s, actions).value; var me := t.workers[w];
      && me.conflicts <= 10 && (me.phase == Finished(GaveUp) <==> me.conflicts == 10)
      && (me.phase == Finished(GaveUp) ==> me.began + 10 < |t.log|)
  {
    RunKeepsInv(s, actions);
  }

  /** A worker that reports a change has its own plan in the history, on top of the version before. */
  lemma ChangedMeansCommitted(s: System, actions: seq<Action>, w: nat)
    requires Initial(s) && RunActions(s, actions).Some?
    requires var t := RunActions(s, actions).value;
      w in t.workers && t.workers[w].phase.Finished? && t.workers[w].phase.exit.Changed?
    ensures var t := RunActions(s, actions).value; var v := t.workers[w].phase.exit.version;
      0 < v < |t.log| && Wanted(t.workers[w].request, t.log[v - 1].data.ledger) == Some(t.log[v].data.ledger)
  {
    RunKeepsInv(s, actions);
  }

  // ---------------------------------------------------------------- stability

  /** The commit's request keeps this entry: it lists the gateway without a spec address, or releases another. */
  predicate Keeps(author: Author, k: string) {
    match author
    case OtherWriter => true
    case Worker(ReleaseName(name)) => name != k
    case Worker(AllocateFor(job)) => k in Names(job.gateways) && k !in SpecAddresses(job.gateways)
  }

  /** A commit keeps an entry exactly when its request does; a stale gateway list drops a live gateway. */
  lemma CommitKeepsEntryExactly(before: Data, after: Version, k: string)
    requires FollowsFrom(before, after) && k in before.ledger
    ensures Keeps(after.author, k) ==> k in after.data.ledger && after.data.ledger[k] == before.ledger[k]
    ensures !Keeps(after.author, k) ==> k !in after.data.ledger
  {
    match after.author
    case OtherWriter =>
    case Worker(ReleaseName(_)) =>
    case Worker(AllocateFor(job)) => PlannerSticky(before.ledger, job, k);
  }

  /** A worker whose list has no gateways: the entry of a gateway is gone after its three moves. */
  lemma StaleListDropsEntry(held: AddressText, network: Block)
    ensures var job := Job([], network, [], 10);
      var s := System([Version(Data(map["a" := held], map[]), OtherWriter)], map[]);
      var t := RunActions(s, [Begin(0, AllocateFor(job)), Work(0, Get), Work(0, Put)]);
      Initial(s) && t.Some? && |t.value.log| == 2 && t.value.log[1].data.ledger == map[]
  {
    var job := Job([], network, [], 10);
    var s := System([Version(Data(map["a" := held], map[]), OtherWriter)], map[]);
    var begun := Act(s, Begin(0, AllocateFor(job))).value;
    EmptyListPlansNothing(map["a" := held], job);
    assert map["a" := held] != map[] by { assert "a" in map["a" := held]; }
    var read := Act(begun, Work(0, Get)).value;
    var written := Act(read, Work(0, Put)).value;
    var actions := [Begin(0, AllocateFor(job)), Work(0, Get), Work(0, Put)];
    assert actions[1..] == [Work(0, Get), Work(0, Put)] && actions[1..][1..] == [Work(0, Put)] && [Work(0, Put)][1..] == [];
    assert RunActions(read, [Work(0, Put)]) == Some(written);
    assert RunActions(begun, actions[1..]) == RunActions(read, actions[1..][1..]);
  }

  lemma EmptyListPlansNothing(ledger: Ledger, job: Job)
    requires job.gateways == []
    ensures Wanted(AllocateFor(job), ledger) == Some(map[])
  {
    OnlyListed(ledger, job);
    assert forall k :: k !in Allocated(ledger, job);
  }

  /** While every commit keeps it, a gateway's address never changes. */
  lemma {:induction false} AddressStable(log: seq<Version>, k: string, u: nat, v: nat)
    requires u <= v < |log| && k in log[u].data.ledger
    requires forall i :: u < i <= v ==> FollowsFrom(log[i - 1].data, log[i]) && Keeps(log[i].author, k)
    ensures k in log[v].data.ledger && log[v].data.ledger[k] == log[u].data.ledger[k]
    decreases v
  {
    if u == v {
    } else {
      AddressStable(log, k, u, v - 1);
      CommitKeepsEntryExactly(log[v - 1].data, log[v], k);
    }
  }
}
