/**
 * git_sync.py: one reconcile pass of the config-as-code mirror. Every listing, upload, local write,
 * delete and unlink may fail on its own; a pass takes the outcome of each call as data.
 */
module Mirror {
  import opened Prelude
  import opened JsonMerge
  import opened RepoPath

  /** An upload may fail with its effect applied; a failed write may leave other content behind. */
  datatype Fate = Synced | UpsertFailed(applied: bool) | WriteFailed(leaves: Option<Json>)
  datatype DeleteFate = Deleted | DeleteFailed(applied: bool) | UnlinkFailed
  datatype Attempt = Attempt(obj: Json, fate: Fate)
  /** `ListFailed` is an ApiException, which is caught; anything else a list call raises ends the pass. */
  datatype ListAnswer = Found(items: seq<Attempt>) | ListFailed | ListRaised
  /** One watched kind and the answer to its list call. */
  datatype Listing = Listing(kind: string, answer: ListAnswer)
  datatype Pass = Pass(listings: seq<Listing>, deletes: string -> DeleteFate)

  datatype Sent = Sent(path: string, content: Json, fate: Fate)
  datatype SyncError = NotSynced(path: string) | NotDeleted(path: string)
  datatype KindCount = KindCount(kind: string, count: nat)
  datatype Report = Report(synced: nat, errors: seq<SyncError>, kinds: seq<KindCount>)
  datatype State = State(tracked: set<string>, remote: map<string, Json>, local: map<string, Json>)

  // ---------------------------------------------------------------- what a pass sends

  function KindOf(kind: string, obj: Json): string {
    if Field(obj, "kind").Str? then Field(obj, "kind").s else kind
  }

  function ObjectPath(kind: string, obj: Json): string {
    var metadata := Field(obj, "metadata");
    PathOf(Text(Field(metadata, "namespace")), KindOf(kind, obj), Text(Field(metadata, "name")))
  }

  function SentFor(kind: string, a: Attempt): Sent {
    Sent(ObjectPath(kind, a.obj), StripCr(a.obj), a.fate)
  }

  /** A failed list call reads as an empty list. */
  function Listed(l: Listing): seq<Attempt> {
    if l.answer.Found? then l.answer.items else []
  }

  function SentForAll(kind: string, items: seq<Attempt>): (r: seq<Sent>)
    ensures |r| == |items|
  {
    if items == [] then []
    else SentForAll(kind, items[..|items| - 1]) + [SentFor(kind, items[|items| - 1])]
  }

  function Work(listings: seq<Listing>): seq<Sent>
    decreases |listings|
  {
    if listings == [] then []
    else
      var last := listings[|listings| - 1];
      Work(listings[..|listings| - 1]) + SentForAll(last.kind, Listed(last))
  }

  /** A list call raised: the pass ends there, before any orphan is looked at. */
  predicate Aborted(listings: seq<Listing>) {
    exists l :: l in listings && l.answer.ListRaised?
  }

  /** The kinds before the list call that raised. */
  function Reached(listings: seq<Listing>): seq<Listing> {
    if listings == [] || listings[0].answer.ListRaised? then [] else [listings[0]] + Reached(listings[1..])
  }

  /** Everything a pass sends. */
  function Sends(pass: Pass): seq<Sent> {
    Work(Reached(pass.listings))
  }

  predicate NoneRaised(listings: seq<Listing>) {
    forall k :: 0 <= k < |listings| ==> !listings[k].answer.ListRaised?
  }

  lemma OneMoreListed(listings: seq<Listing>, i: nat)
    requires i < |listings| && NoneRaised(listings[..i]) && !listings[i].answer.ListRaised?
    ensures listings[..i + 1] == listings[..i] + [listings[i]] && NoneRaised(listings[..i] + [listings[i]])
  {
  }

  lemma {:induction false} ReachedTo(listings: seq<Listing>, i: nat)
    requires i <= |listings| && NoneRaised(listings[..i])
    requires i < |listings| ==> listings[i].answer.ListRaised?
    ensures Reached(listings) == listings[..i]
    ensures Aborted(listings) <==> i < |listings|
  {
    if i == 0 {
    } else {
      assert listings[1..][..i - 1] == listings[..i][1..];
      assert listings[0] == listings[..i][0];
      ReachedTo(listings[1..], i - 1);
      assert listings == [listings[0]] + listings[1..];
      assert listings[..i] == [listings[0]] + listings[1..][..i - 1];
    }
  }

  // ---------------------------------------------------------------- what a pass leaves behind

  function RemoteWrite(s: Sent): Option<Json> {
    if s.fate.UpsertFailed? && !s.fate.applied then None else Some(s.content)
  }

  function LocalWrite(s: Sent): Option<Json> {
    match s.fate
    case Synced => Some(s.content)
    case UpsertFailed(_) => None
    case WriteFailed(leaves) => leaves
  }

  function Apply(m: map<string, Json>, s: Sent, write: Sent -> Option<Json>): map<string, Json> {
    if write(s).Some? then m[s.path := write(s).value] else m
  }

  function Replay(m: map<string, Json>, work: seq<Sent>, write: Sent -> Option<Json>): map<string, Json>
    decreases |work|
  {
    if work == [] then m else Apply(Replay(m, work[..|work| - 1], write), work[|work| - 1], write)
  }

  function Expected(work: seq<Sent>): set<string> {
    set i | 0 <= i < |work| && work[i].fate.Synced? :: work[i].path
  }

  function SyncedIn(work: seq<Sent>): nat
    decreases |work|
  {
    if work == [] then 0 else SyncedIn(work[..|work| - 1]) + if work[|work| - 1].fate.Synced? then 1 else 0
  }

  function Unsynced(work: seq<Sent>): seq<SyncError>
    decreases |work|
  {
    if work == [] then []
    else Unsynced(work[..|work| - 1]) + if work[|work| - 1].fate.Synced? then [] else [NotSynced(work[|work| - 1].path)]
  }

  function KindCounts(listings: seq<Listing>): seq<KindCount>
    decreases |listings|
  {
    if listings == [] then []
    else
      var last := listings[|listings| - 1];
      KindCounts(listings[..|listings| - 1]) + [KindCount(last.kind, SyncedIn(SentForAll(last.kind, Listed(last))))]
  }

  predicate LeavesRemote(f: DeleteFate) { f.Deleted? || f.UnlinkFailed? || f.applied }

  function RemovedRemotely(orphans: set<string>, deletes: string -> DeleteFate): set<string> {
    set p | p in orphans && LeavesRemote(deletes(p))
  }

  function RemovedLocally(orphans: set<string>, deletes: string -> DeleteFate): set<string> {
    set p | p in orphans && deletes(p).Deleted?
  }

  function Undeleted(orphans: set<string>, deletes: string -> DeleteFate): set<SyncError> {
    set p | p in orphans && !deletes(p).Deleted? :: NotDeleted(p)
  }

  function Orphans(tracked: set<string>, pass: Pass): set<string> {
    if Aborted(pass.listings) then {} else tracked - Expected(Sends(pass))
  }

  function AfterPass(s: State, pass: Pass): State {
    var work, orphans := Sends(pass), Orphans(s.tracked, pass);
    State(if Aborted(pass.listings) then s.tracked else Expected(work),
          Replay(s.remote, work, RemoteWrite) - RemovedRemotely(orphans, pass.deletes),
          Replay(s.local, work, LocalWrite) - RemovedLocally(orphans, pass.deletes))
  }

  /** The report of a pass: one error per object not synced and one per orphan not fully removed. */
  ghost predicate Reports(s: State, pass: Pass, report: Report) {
    && !Aborted(pass.listings)
    && report.synced == SyncedIn(Work(pass.listings))
    && report.kinds == KindCounts(pass.listings)
    && multiset(report.errors) ==
       multiset(Unsynced(Work(pass.listings))) + multiset(Undeleted(Orphans(s.tracked, pass), pass.deletes))
  }

  ghost predicate Purged(remote0: map<string, Json>, local0: map<string, Json>, gone: set<string>, deletes: string -> DeleteFate,
                         remote: map<string, Json>, local: map<string, Json>, errors: seq<SyncError>) {
    && remote == remote0 - RemovedRemotely(gone, deletes)
    && local == local0 - RemovedLocally(gone, deletes)
    && multiset(errors) == multiset(Undeleted(gone, deletes))
  }

  lemma NothingPurged(remote: map<string, Json>, local: map<string, Json>, deletes: string -> DeleteFate)
    ensures Purged(remote, local, {}, deletes, remote, local, [])
  {
    assert RemovedRemotely({}, deletes) == {} && RemovedLocally({}, deletes) == {} && Undeleted({}, deletes) == {};
  }

  lemma PurgedOne(remote0: map<string, Json>, local0: map<string, Json>, gone: set<string>, p: string, deletes: string -> DeleteFate,
                  remote: map<string, Json>, local: map<string, Json>, errors: seq<SyncError>)
    requires p !in gone && Purged(remote0, local0, gone, deletes, remote, local, errors)
    ensures Purged(remote0, local0, gone + {p}, deletes,
                   remote - if LeavesRemote(deletes(p)) then {p} else {}, local - if deletes(p).Deleted? then {p} else {},
                   if deletes(p).Deleted? then errors else errors + [NotDeleted(p)])
  {
    UndeletedOne(gone, p, deletes);
    MinusTwice(remote0, RemovedRemotely(gone, deletes), if LeavesRemote(deletes(p)) then {p} else {});
    MinusTwice(local0, RemovedLocally(gone, deletes), if deletes(p).Deleted? then {p} else {});
    MultisetAdd(Undeleted(gone, deletes), NotDeleted(p));
  }

  lemma MinusTwice<K, V>(m: map<K, V>, a: set<K>, b: set<K>)
    ensures m - (a + b) == m - a - b
  {
  }

  lemma MultisetAdd<T>(s: set<T>, e: T)
    requires e !in s
    ensures multiset(s + {e}) == multiset(s) + multiset{e}
    ensures multiset(s + {}) == multiset(s)
  {
    assert s + {} == s;
  }

  lemma SendOne(done: seq<Sent>, one: Sent)
    ensures SyncedIn(done + [one]) == SyncedIn(done) + if one.fate.Synced? then 1 else 0
    ensures Unsynced(done + [one]) == Unsynced(done) + if one.fate.Synced? then [] else [NotSynced(one.path)]
    ensures Expected(done + [one]) == Expected(done) + if one.fate.Synced? then {one.path} else {}
  {
    var both := done + [one];
    assert both[..|both| - 1] == done;
    var n := |done|;
    assert both[n] == one;
    forall p | p in Expected(both) ensures p in Expected(done) || (one.fate.Synced? && p == one.path) {
      var i :| 0 <= i < |both| && both[i].fate.Synced? && both[i].path == p;
      if i < n { assert done[i] == both[i]; }
    }
    forall p | p in Expected(done) ensures p in Expected(both) {
      var i :| 0 <= i < n && done[i].fate.Synced? && done[i].path == p;
      assert both[i] == done[i];
    }
  }

  /** How far a pass has come: the objects in `work` have been sent, the orphans not yet looked at. */
  ghost predicate Progress(start: State, work: seq<Sent>, remote: map<string, Json>, local: map<string, Json>,
                           expected: set<string>, total: nat, errors: seq<SyncError>) {
    && remote == Replay(start.remote, work, RemoteWrite) && local == Replay(start.local, work, LocalWrite)
    && expected == Expected(work) && total == SyncedIn(work) && errors == Unsynced(work)
  }

  lemma ProgressOne(start: State, work: seq<Sent>, one: Sent, remote: map<string, Json>, local: map<string, Json>,
                    expected: set<string>, total: nat, errors: seq<SyncError>)
    requires Progress(start, work, remote, local, expected, total, errors)
    ensures Progress(start, work + [one], Apply(remote, one, RemoteWrite), Apply(local, one, LocalWrite),
                     if one.fate.Synced? then expected + {one.path} else expected,
                     if one.fate.Synced? then total + 1 else total,
                     if one.fate.Synced? then errors else errors + [NotSynced(one.path)])
  {
    assert (work + [one])[..|work|] == work;
    SendOne(work, one);
  }

  lemma SentForNext(work: seq<Sent>, kind: string, items: seq<Attempt>, i: nat)
    requires i < |items|
    ensures work + SentForAll(kind, items[..i + 1]) == work + SentForAll(kind, items[..i]) + [SentFor(kind, items[i])]
  {
    assert items[..i + 1][..i] == items[..i];
  }

  class GitSyncEngine {
    var trackedPaths: set<string>
    var remote: map<string, Json>
    var local: map<string, Json>

    constructor (remote: map<string, Json>, local: map<string, Json>)
      ensures Current() == State({}, remote, local)
    {
      this.trackedPaths, this.remote, this.local := {}, remote, local;
    }

    ghost function Current(): State
      reads this
    {
      State(trackedPaths, remote, local)
    }

    /** Upload one object and write its file; false when either call raised. */
    method Send(kind: string, a: Attempt) returns (path: string, ok: bool)
      modifies this`remote, this`local
      ensures path == SentFor(kind, a).path && ok == a.fate.Synced?
      ensures remote == Apply(old(remote), SentFor(kind, a), RemoteWrite)
      ensures local == Apply(old(local), SentFor(kind, a), LocalWrite)
    {
      var content := Strip(a.obj);
      path := ObjectPath(kind, a.obj);
      ok := false;
      match a.fate {
        case UpsertFailed(applied) =>
          if applied { remote := remote[path := content]; }
        case WriteFailed(leaves) =>
          remote := remote[path := content];
          if leaves.Some? { local := local[path := leaves.value]; }
        case Synced =>
          remote := remote[path := content];
          local := local[path := content];
          ok := true;
      }
    }

    /** The loop over one kind's objects. */
    method SyncKind(l: Listing, ghost done: seq<Sent>, ghost after: seq<Sent>, ghost start: State,
                    expected0: set<string>, total0: nat, errors0: seq<SyncError>)
      returns (expected: set<string>, total: nat, errors: seq<SyncError>)
      requires Progress(start, done, remote, local, expected0, total0, errors0)
      requires after == done + SentForAll(l.kind, Listed(l))
      modifies this`remote, this`local
      ensures Progress(start, after, remote, local, expected, total, errors)
      ensures total == total0 + SyncedIn(SentForAll(l.kind, Listed(l)))
    {
      var items := Listed(l);
      expected, total, errors := expected0, total0, errors0;
      assert done + SentForAll(l.kind, items[..0]) == done;
      for i := 0 to |items|
        invariant Progress(start, done + SentForAll(l.kind, items[..i]), remote, local, expected, total, errors)
      {
        ProgressOne(start, done + SentForAll(l.kind, items[..i]), SentFor(l.kind, items[i]), remote, local, expected, total, errors);
        SentForNext(done, l.kind, items, i);
        var path, ok := Send(l.kind, items[i]);
        if ok {
          expected, total := expected + {path}, total + 1;
        } else {
          errors := errors + [NotSynced(path)];
        }
      }
      assert items[..|items|] == items;
      SyncedInAppend(done, SentForAll(l.kind, items));
    }

    /** Remove one orphan from the remote, then its file; false when either call raised. */
    method Remove(path: string, fate: DeleteFate) returns (ok: bool)
      modifies this`remote, this`local
      ensures ok == fate.Deleted?
      ensures remote == old(remote) - if LeavesRemote(fate) then {path} else {}
      ensures local == old(local) - if fate.Deleted? then {path} else {}
    {
      ok := false;
      match fate {
        case Deleted => remote, local, ok := remote - {path}, local - {path}, true;
        case UnlinkFailed => remote := remote - {path};
        case DeleteFailed(applied) => if applied { remote := remote - {path}; }
      }
    }

    /** The loop over the orphans, in whatever order the set yields them. */
    method RemoveOrphans(orphans: set<string>, deletes: string -> DeleteFate) returns (errors: seq<SyncError>)
      modifies this`remote, this`local
      ensures Purged(old(remote), old(local), orphans, deletes, remote, local, errors)
    {
      var left := orphans;
      errors := [];
      ghost var done, remote0, local0 := {}, remote, local;
      NothingPurged(remote, local, deletes);
      while left != {}
        invariant done + left == orphans && done !! left
        invariant Purged(remote0, local0, done, deletes, remote, local, errors)
        decreases |left|
      {
        var path :| path in left;
        PurgedOne(remote0, local0, done, path, deletes, remote, local, errors);
        var ok := Remove(path, deletes(path));
        left, done := left - {path}, done + {path};
        if !ok { errors := errors + [NotDeleted(path)]; }
      }
      assert done == orphans;
    }

    /** One turn of the loop over the watched kinds: the objects of one kind, and their count. */
    method SyncNext(l: Listing, ghost done: seq<Listing>, ghost start: State,
                    expected0: set<string>, before: nat, errors0: seq<SyncError>, kinds0: seq<KindCount>)
      returns (expected: set<string>, total: nat, errors: seq<SyncError>, kinds: seq<KindCount>)
      requires Progress(start, Work(done), remote, local, expected0, before, errors0) && kinds0 == KindCounts(done)
      modifies this`remote, this`local
      ensures Progress(start, Work(done + [l]), remote, local, expected, total, errors) && kinds == KindCounts(done + [l])
    {
      WorkNext(done, l);
      expected, total, errors := SyncKind(l, Work(done), Work(done + [l]), start, expected0, before, errors0);
      KindsNext(done, l, total - before);
      kinds := kinds0 + [KindCount(l.kind, total - before)];
    }

    /** The loop over the watched kinds. */
    method SyncKinds(listings: seq<Listing>, ghost start: State)
      returns (aborted: bool, expected: set<string>, total: nat, errors: seq<SyncError>, kinds: seq<KindCount>)
      requires remote == start.remote && local == start.local
      modifies this`remote, this`local
      ensures aborted <==> Aborted(listings)
      ensures Progress(start, Work(Reached(listings)), remote, local, expected, total, errors)
      ensures !aborted ==> Reached(listings) == listings && kinds == KindCounts(listings)
    {
      expected, total, errors, kinds := {}, 0, [], [];
      ghost var done: seq<Listing> := [];
      var i := 0;
      while i < |listings| && !listings[i].answer.ListRaised?
        invariant i <= |listings| && done == listings[..i]
        invariant NoneRaised(done)
        invariant Progress(start, Work(done), remote, local, expected, total, errors) && kinds == KindCounts(done)
      {
        expected, total, errors, kinds := SyncNext(listings[i], done, start, expected, total, errors, kinds);
        OneMoreListed(listings, i);
        done, i := done + [listings[i]], i + 1;
      }
      ReachedTo(listings, i);
      aborted := i < |listings|;
    }

    /** One pass; no report when a list call raised, which leaves the tracked set as it was. */
    method FullSync(pass: Pass) returns (report: Option<Report>)
      modifies this
      ensures Current() == AfterPass(old(Current()), pass)
      ensures report.None? <==> Aborted(pass.listings)
      ensures report.Some? ==> Reports(old(Current()), pass, report.value)
    {
      ghost var start := Current();
      var aborted, expected, total, errors, kinds := SyncKinds(pass.listings, start);
      if aborted {
        NothingPurged(remote, local, pass.deletes);
        return None;
      }
      var orphaned := trackedPaths - expected;
      var undeleted := RemoveOrphans(orphaned, pass.deletes);
      trackedPaths := expected;
      report := Some(Report(total, errors + undeleted, kinds));
    }
  }

  lemma WorkNext(done: seq<Listing>, l: Listing)
    ensures Work(done + [l]) == Work(done) + SentForAll(l.kind, Listed(l))
  {
    assert (done + [l])[..|done|] == done;
  }

  lemma KindsNext(done: seq<Listing>, l: Listing, count: nat)
    requires count == SyncedIn(SentForAll(l.kind, Listed(l)))
    ensures KindCounts(done + [l]) == KindCounts(done) + [KindCount(l.kind, count)]
  {
    assert (done + [l])[..|done|] == done;
  }

  lemma UndeletedOne(done: set<string>, p: string, deletes: string -> DeleteFate)
    requires p !in done
    ensures RemovedRemotely(done + {p}, deletes) == RemovedRemotely(done, deletes) + if LeavesRemote(deletes(p)) then {p} else {}
    ensures RemovedLocally(done + {p}, deletes) == RemovedLocally(done, deletes) + if deletes(p).Deleted? then {p} else {}
    ensures Undeleted(done + {p}, deletes) == Undeleted(done, deletes) + if deletes(p).Deleted? then {} else {NotDeleted(p)}
    ensures NotDeleted(p) !in Undeleted(done, deletes)
  {
    forall e | e in Undeleted(done, deletes) ensures e in Undeleted(done + {p}, deletes) && e != NotDeleted(p) {}
    if !deletes(p).Deleted? { assert p in done + {p} && NotDeleted(p) in Undeleted(done + {p}, deletes); }
  }

  lemma {:induction false} SyncedInAppend(a: seq<Sent>, b: seq<Sent>)
    ensures SyncedIn(a + b) == SyncedIn(a) + SyncedIn(b)
    decreases |b|
  {
    if b == [] {
      assert a + b == a;
    } else {
      var front, last := b[..|b| - 1], b[|b| - 1];
      SyncedInAppend(a, front);
      assert b == front + [last] && a + b == (a + front) + [last];
      SendOne(a + front, last);
      SendOne(front, last);
    }
  }
}
