/**
 * The mirror on the smallest passes: what one object, one orphan and one aborted listing leave in the
 * remote, in the local tree, in the tracked set and in the report, for every way a call can end.
 */
module MirrorExact {
  import opened Prelude
  import opened JsonMerge
  import opened RepoPath
  import opened Mirror
  import opened MirrorTheorems

  /** The path of an object: its own kind, if it names one, or the watched kind. */
  lemma ObjectPathExact(kind: string, obj: Json, namespace: string, name: string)
    requires Field(Field(obj, "metadata"), "namespace") == Str(namespace) && Field(Field(obj, "metadata"), "name") == Str(name)
    ensures forall own :: Field(obj, "kind") == Str(own) ==> ObjectPath(kind, obj) == PathOf(namespace, own, name)
    ensures Field(obj, "kind") == Null ==> ObjectPath(kind, obj) == PathOf(namespace, kind, name)
  {
  }

  function OneObject(kind: string, obj: Json, fate: Fate, deletes: string -> DeleteFate): Pass {
    Pass([Listing(kind, Found([Attempt(obj, fate)]))], deletes)
  }

  lemma OneObjectSends(kind: string, obj: Json, fate: Fate, deletes: string -> DeleteFate)
    ensures var pass := OneObject(kind, obj, fate, deletes);
      !Aborted(pass.listings) && Sends(pass) == [Sent(ObjectPath(kind, obj), StripCr(obj), fate)]
  {
    var pass := OneObject(kind, obj, fate, deletes);
    OneKind(pass.listings[0], deletes);
    assert [Attempt(obj, fate)][..0] == [];
  }

  lemma ReplayOne(m: map<string, Json>, s: Sent, write: Sent -> Option<Json>)
    ensures Replay(m, [s], write) == if write(s).Some? then m[s.path := write(s).value] else m
  {
    assert [s][..0] == [];
  }

  lemma ExpectedOne(s: Sent)
    ensures Expected([s]) == if s.fate.Synced? then {s.path} else {}
    ensures SyncedIn([s]) == (if s.fate.Synced? then 1 else 0)
    ensures Unsynced([s]) == if s.fate.Synced? then [] else [NotSynced(s.path)]
  {
    SendOne([], s);
    assert [] + [s] == [s];
  }

  /**
   * One object, sent by an engine that tracks nothing: uploaded and written, it is tracked; if either
   * call fails it is not, although what the call did may stay.
   */
  lemma OneObjectExact(s: State, kind: string, obj: Json, fate: Fate, deletes: string -> DeleteFate)
    requires s.tracked == {}
    ensures var t, p, content := AfterPass(s, OneObject(kind, obj, fate, deletes)), ObjectPath(kind, obj), StripCr(obj);
      match fate
      case Synced => t == State({p}, s.remote[p := content], s.local[p := content])
      case UpsertFailed(applied) => t == State({}, if applied then s.remote[p := content] else s.remote, s.local)
      case WriteFailed(leaves) =>
        t == State({}, s.remote[p := content], if leaves.Some? then s.local[p := leaves.value] else s.local)
  {
    var sent := Sent(ObjectPath(kind, obj), StripCr(obj), fate);
    OneObjectSends(kind, obj, fate, deletes);
    AfterOneSend(s, OneObject(kind, obj, fate, deletes), sent);
  }

  lemma AfterOneSend(s: State, pass: Pass, sent: Sent)
    requires s.tracked == {} && !Aborted(pass.listings) && Sends(pass) == [sent]
    ensures AfterPass(s, pass) ==
      State(if sent.fate.Synced? then {sent.path} else {},
            if RemoteWrite(sent).Some? then s.remote[sent.path := RemoteWrite(sent).value] else s.remote,
            if LocalWrite(sent).Some? then s.local[sent.path := LocalWrite(sent).value] else s.local)
  {
    ReplayOne(s.remote, sent, RemoteWrite);
    ReplayOne(s.local, sent, LocalWrite);
    ExpectedOne(sent);
    NothingPurged(Replay(s.remote, [sent], RemoteWrite), Replay(s.local, [sent], LocalWrite), pass.deletes);
  }

  lemma OneObjectCounts(kind: string, obj: Json, fate: Fate, deletes: string -> DeleteFate)
    ensures var pass, sent := OneObject(kind, obj, fate, deletes), Sent(ObjectPath(kind, obj), StripCr(obj), fate);
      && Work(pass.listings) == [sent] && KindCounts(pass.listings) == [KindCount(kind, if fate.Synced? then 1 else 0)]
  {
    var pass, sent := OneObject(kind, obj, fate, deletes), Sent(ObjectPath(kind, obj), StripCr(obj), fate);
    var l := pass.listings[0];
    AllReached(pass.listings);
    OneObjectSends(kind, obj, fate, deletes);
    OneKind(l, deletes);
    ExpectedOne(sent);
    KindsNext([], l, SyncedIn([sent]));
    assert [] + [l] == pass.listings;
  }

  lemma NoOrphans(pass: Pass)
    ensures Orphans({}, pass) == {} && Undeleted({}, pass.deletes) == {}
  {
  }

  /** ... and its report. */
  lemma OneObjectReport(s: State, kind: string, obj: Json, fate: Fate, deletes: string -> DeleteFate, report: Report)
    requires s.tracked == {} && Reports(s, OneObject(kind, obj, fate, deletes), report)
    ensures var count := if fate.Synced? then 1 else 0;
      && report.synced == count && report.kinds == [KindCount(kind, count)]
      && report.errors == if fate.Synced? then [] else [NotSynced(ObjectPath(kind, obj))]
  {
    OneObjectCounts(kind, obj, fate, deletes);
    NoOrphans(OneObject(kind, obj, fate, deletes));
    ExpectedOne(Sent(ObjectPath(kind, obj), StripCr(obj), fate));
    OnlyError(report.errors, if fate.Synced? then [] else [NotSynced(ObjectPath(kind, obj))]);
  }

  lemma OnlyError(errors: seq<SyncError>, one: seq<SyncError>)
    requires |one| <= 1 && multiset(errors) == multiset(one)
    ensures errors == one
  {
    assert |multiset(errors)| == |errors| && |multiset(one)| == |one|;
    if |one| == 1 { assert errors[0] in multiset(one); }
  }

  function NothingListed(kind: string, deletes: string -> DeleteFate): Pass {
    Pass([Listing(kind, Found([]))], deletes)
  }

  lemma NothingSent(kind: string, deletes: string -> DeleteFate)
    ensures var pass := NothingListed(kind, deletes);
      !Aborted(pass.listings) && Sends(pass) == [] && Work(pass.listings) == [] && Expected(Sends(pass)) == {}
  {
    var pass := NothingListed(kind, deletes);
    OneKind(pass.listings[0], deletes);
    AllReached(pass.listings);
  }

  /** One orphan: removed from both places, or kept where the call that failed had not got to it; untracked either way. */
  lemma OneOrphanExact(s: State, kind: string, p: string, deletes: string -> DeleteFate)
    requires s.tracked == {p}
    ensures var t := AfterPass(s, NothingListed(kind, deletes));
      match deletes(p)
      case Deleted => t == State({}, s.remote - {p}, s.local - {p})
      case DeleteFailed(applied) => t == State({}, if applied then s.remote - {p} else s.remote, s.local)
      case UnlinkFailed => t == State({}, s.remote - {p}, s.local)
  {
    var pass := NothingListed(kind, deletes);
    NothingSent(kind, deletes);
    assert Orphans(s.tracked, pass) == {p};
    assert RemovedRemotely({p}, deletes) == if LeavesRemote(deletes(p)) then {p} else {};
    assert RemovedLocally({p}, deletes) == if deletes(p).Deleted? then {p} else {};
    assert s.remote - {} == s.remote && s.local - {} == s.local;
  }

  /** ... and its report: an error exactly when the delete did not go through. */
  lemma OneOrphanReport(s: State, kind: string, p: string, deletes: string -> DeleteFate, report: Report)
    requires s.tracked == {p} && Reports(s, NothingListed(kind, deletes), report)
    ensures report.synced == 0 && report.errors == if deletes(p).Deleted? then [] else [NotDeleted(p)]
  {
    var pass := NothingListed(kind, deletes);
    NothingSent(kind, deletes);
    assert Orphans(s.tracked, pass) == {p};
    var undeleted := Undeleted({p}, deletes);
    assert undeleted == if deletes(p).Deleted? then {} else {NotDeleted(p)};
    OnlyError(report.errors, if deletes(p).Deleted? then [] else [NotDeleted(p)]);
  }

  /** A list call that raises ends the pass: what was listed before is sent, and nothing is deleted or untracked. */
  lemma AbortExact(s: State, front: seq<Listing>, kind: string, rest: seq<Listing>, deletes: string -> DeleteFate)
    requires NoneRaised(front)
    ensures var pass := Pass(front + [Listing(kind, ListRaised)] + rest, deletes); var t := AfterPass(s, pass);
      && Sends(pass) == Sends(Pass(front, deletes)) == Work(front)
      && t.tracked == s.tracked
      && t.remote == Replay(s.remote, Work(front), RemoteWrite) && t.local == Replay(s.local, Work(front), LocalWrite)
  {
    var listings := front + [Listing(kind, ListRaised)] + rest;
    assert listings[..|front|] == front && front[..|front|] == front;
    ReachedTo(listings, |front|);
    ReachedTo(front, |front|);
    NothingPurged(Replay(s.remote, Work(front), RemoteWrite), Replay(s.local, Work(front), LocalWrite), deletes);
  }
}
