/** What a mirror pass, and any run of passes, leaves in the remote and in the local tree. */
module MirrorTheorems {
  import opened Prelude
  import opened JsonMerge
  import opened RepoPath
  import opened Mirror

  // ---------------------------------------------------------------- one pass, any failures

  /** Write i is the one that decides what path p holds. */
  ghost predicate Deciding(work: seq<Sent>, write: Sent -> Option<Json>, p: string, i: int) {
    && 0 <= i < |work| && work[i].path == p && write(work[i]).Some?
    && forall j :: i < j < |work| && work[j].path == p ==> write(work[j]).None?
  }

  ghost predicate Unwritten(work: seq<Sent>, write: Sent -> Option<Json>, p: string) {
    forall i :: 0 <= i < |work| && work[i].path == p ==> write(work[i]).None?
  }

  function Lookup(m: map<string, Json>, p: string): Option<Json> {
    if p in m then Some(m[p]) else None
  }

  lemma {:induction false} ReplayExact(m: map<string, Json>, work: seq<Sent>, write: Sent -> Option<Json>, p: string)
    ensures Unwritten(work, write, p) ==> Lookup(Replay(m, work, write), p) == Lookup(m, p)
    ensures forall i :: Deciding(work, write, p, i) ==> Lookup(Replay(m, work, write), p) == write(work[i])
    ensures Unwritten(work, write, p) || exists i :: Deciding(work, write, p, i)
    decreases |work|
  {
    if work == [] {
    } else {
      var n := |work| - 1;
      var front := work[..n];
      ReplayExact(m, front, write, p);
      if work[n].path == p && write(work[n]).Some? {
        assert Deciding(work, write, p, n);
      } else {
        forall i ensures Deciding(front, write, p, i) <==> Deciding(work, write, p, i) {
          DecidingFront(work, write, p, i);
        }
        if Unwritten(front, write, p) {
          assert Unwritten(work, write, p);
        } else {
          var i :| Deciding(front, write, p, i);
          assert Deciding(work, write, p, i);
        }
      }
    }
  }

  lemma DecidingFront(work: seq<Sent>, write: Sent -> Option<Json>, p: string, i: int)
    requires work != []
    requires var last := work[|work| - 1]; !(last.path == p && write(last).Some?)
    ensures Deciding(work[..|work| - 1], write, p, i) <==> Deciding(work, write, p, i)
  {
    var n := |work| - 1;
    if Deciding(work, write, p, i) {
      forall j | i < j < n && work[..n][j].path == p ensures write(work[..n][j]).None? { assert work[..n][j] == work[j]; }
    }
    if Deciding(work[..n], write, p, i) {
      forall j | i < j < |work| && work[j].path == p ensures write(work[j]).None? {
        if j < n { assert work[..n][j] == work[j]; }
      }
    }
  }

  lemma InExpected(work: seq<Sent>, p: string)
    ensures p in Expected(work) <==> exists i :: 0 <= i < |work| && work[i].path == p && work[i].fate.Synced?
  {
  }

  /**
   * A pass, exactly, for every pattern of failures. A path no object synced to and tracked before
   * is an orphan unless the pass was aborted, and gone if its delete took effect; every other path
   * holds what the last write that took effect sent there, or what it held before if none did.
   */
  lemma PassExact(s: State, pass: Pass, p: string)
    ensures var work, t := Sends(pass), AfterPass(s, pass);
      var orphan := p in Orphans(s.tracked, pass);
      && (orphan && LeavesRemote(pass.deletes(p)) ==> p !in t.remote)
      && (orphan && pass.deletes(p).Deleted? ==> p !in t.local)
      && (!(orphan && LeavesRemote(pass.deletes(p))) ==>
            && (Unwritten(work, RemoteWrite, p) ==> Lookup(t.remote, p) == Lookup(s.remote, p))
            && (forall i :: Deciding(work, RemoteWrite, p, i) ==> Lookup(t.remote, p) == Some(work[i].content)))
      && (!(orphan && pass.deletes(p).Deleted?) ==>
            && (Unwritten(work, LocalWrite, p) ==> Lookup(t.local, p) == Lookup(s.local, p))
            && (forall i :: Deciding(work, LocalWrite, p, i) ==> Lookup(t.local, p) == LocalWrite(work[i])))
  {
    var work := Sends(pass);
    ReplayExact(s.remote, work, RemoteWrite, p);
    ReplayExact(s.local, work, LocalWrite, p);
  }

  // ---------------------------------------------------------------- the tracked set

  ghost predicate TracksExisting(s: State) {
    s.tracked <= s.remote.Keys && s.tracked <= s.local.Keys
  }

  /**
   * After any pass, whatever failed, every tracked path exists in both places; only a pass that was
   * aborted, and so kept the old tracked set, relies on that having been so before.
   */
  lemma PassTracksExisting(s: State, pass: Pass)
    requires Aborted(pass.listings) ==> TracksExisting(s)
    ensures TracksExisting(AfterPass(s, pass))
  {
    var work, t := Sends(pass), AfterPass(s, pass);
    forall p | p in t.tracked ensures p in t.remote && p in t.local {
      PassExact(s, pass, p);
      ReplayExact(s.remote, work, RemoteWrite, p);
      ReplayExact(s.local, work, LocalWrite, p);
      if !Aborted(pass.listings) {
        SyncedWritten(work, p);
      }
    }
  }

  lemma SyncedWritten(work: seq<Sent>, p: string)
    requires p in Expected(work)
    ensures !Unwritten(work, RemoteWrite, p) && !Unwritten(work, LocalWrite, p)
  {
    InExpected(work, p);
    var i :| 0 <= i < |work| && work[i].path == p && work[i].fate.Synced?;
    assert RemoteWrite(work[i]).Some? && LocalWrite(work[i]).Some?;
  }

  function AfterRun(s: State, passes: seq<Pass>): State
    decreases |passes|
  {
    if passes == [] then s else AfterPass(AfterRun(s, passes[..|passes| - 1]), passes[|passes| - 1])
  }

  /** ... and so after any run of passes of a new engine. */
  lemma RunTracksExisting(remote: map<string, Json>, local: map<string, Json>, passes: seq<Pass>)
    ensures TracksExisting(AfterRun(State({}, remote, local), passes))
  {
    if passes != [] {
      PassTracksExisting(AfterRun(State({}, remote, local), passes[..|passes| - 1]), passes[|passes| - 1]);
    }
  }

  /**
   * A tracked path that existed is lost exactly when the pass is not aborted, no object synced to it
   * and its delete took effect: a failed list call or a failed upload is enough, whether or not the
   * CR still lives.
   */
  lemma TrackedPathLostExact(s: State, pass: Pass, p: string)
    requires TracksExisting(s) && p in s.tracked
    ensures p !in AfterPass(s, pass).remote <==>
      !Aborted(pass.listings) && p !in Expected(Sends(pass)) && LeavesRemote(pass.deletes(p))
  {
    PassExact(s, pass, p);
    ReplayExact(s.remote, Sends(pass), RemoteWrite, p);
  }

  /** What a pass synced is there after it, and tracked unless the pass was aborted and did not track it before. */
  lemma SyncedThere(s: State, pass: Pass, p: string)
    requires p in Expected(Sends(pass))
    ensures p in AfterPass(s, pass).remote && p in AfterPass(s, pass).local
    ensures p in AfterPass(s, pass).tracked <==> !Aborted(pass.listings) || p in s.tracked
  {
    PassExact(s, pass, p);
    SyncedWritten(Sends(pass), p);
    ReplayExact(s.remote, Sends(pass), RemoteWrite, p);
    ReplayExact(s.local, Sends(pass), LocalWrite, p);
  }

  /**
   * What one pass synced, the next loses exactly when it is tracked, the next pass is not aborted
   * and does not sync it again, and its delete takes effect.
   */
  lemma SyncedThenLostExact(s: State, pass: Pass, next: Pass, p: string)
    requires p in Expected(Sends(pass))
    ensures p !in AfterPass(AfterPass(s, pass), next).remote <==>
      && (!Aborted(pass.listings) || p in s.tracked)
      && !Aborted(next.listings) && p !in Expected(Sends(next)) && LeavesRemote(next.deletes(p))
  {
    SyncedThere(s, pass, p);
    PassExact(AfterPass(s, pass), next, p);
    ReplayExact(AfterPass(s, pass).remote, Sends(next), RemoteWrite, p);
  }

  lemma OneKind(l: Listing, deletes: string -> DeleteFate)
    requires !l.answer.ListRaised?
    ensures !Aborted([l]) && Sends(Pass([l], deletes)) == SentForAll(l.kind, Listed(l))
  {
    ReachedTo([l], 1);
    assert [l][..1] == [l] && [l][..0] == [];
    WorkNext([], l);
    assert [] + [l] == [l];
  }

  /** A live CR whose list call fails loses its file: one pass synced it, the next removes it. */
  lemma ListFailureRemovesLiveFile(s: State, kind: string, obj: Json, deletes: string -> DeleteFate)
    requires deletes(ObjectPath(kind, obj)).Deleted?
    ensures var live := Pass([Listing(kind, Found([Attempt(obj, Synced)]))], deletes);
      var blind := Pass([Listing(kind, ListFailed)], deletes);
      var p := ObjectPath(kind, obj);
      p in AfterPass(s, live).remote && p !in AfterPass(AfterPass(s, live), blind).remote
  {
    var live := Pass([Listing(kind, Found([Attempt(obj, Synced)]))], deletes);
    var blind := Pass([Listing(kind, ListFailed)], deletes);
    var p := ObjectPath(kind, obj);
    OneKind(live.listings[0], deletes);
    OneKind(blind.listings[0], deletes);
    assert [Attempt(obj, Synced)][..0] == [];
    assert Sends(live)[0].path == p && p in Expected(Sends(live));
    assert Expected(Sends(blind)) == {};
    SyncedThere(s, live, p);
    SyncedThenLostExact(s, live, blind, p);
  }

  /**
   * A path that is not tracked stays, remotely and locally and with the same content, through every
   * later run that sends nothing to it.
   */
  lemma {:induction false} ForgottenPathStays(s: State, passes: seq<Pass>, p: string)
    requires p !in s.tracked
    requires forall k :: 0 <= k < |passes| ==> NothingFor(passes[k], p)
    ensures var t := AfterRun(s, passes);
      p !in t.tracked && Lookup(t.remote, p) == Lookup(s.remote, p) && Lookup(t.local, p) == Lookup(s.local, p)
    decreases |passes|
  {
    if passes == [] {
    } else {
      var n := |passes| - 1;
      forall k | 0 <= k < n ensures passes[..n][k] == passes[k] {}
      ForgottenPathStays(s, passes[..n], p);
      var before, work := AfterRun(s, passes[..n]), Sends(passes[n]);
      InExpected(work, p);
      assert NothingFor(passes[n], p) && Unwritten(work, RemoteWrite, p) && Unwritten(work, LocalWrite, p);
      PassExact(before, passes[n], p);
    }
  }

  ghost predicate NothingFor(pass: Pass, p: string) {
    forall i :: 0 <= i < |Sends(pass)| ==> Sends(pass)[i].path != p
  }

  /**
   * An orphan is untracked after the pass, whether or not its delete worked: nothing retries it. It
   * stays remotely unless the delete took effect, and locally unless the file was unlinked.
   */
  lemma FailedDeleteIsForgotten(s: State, pass: Pass, p: string)
    requires p in Orphans(s.tracked, pass) && NothingFor(pass, p)
    ensures var t := AfterPass(s, pass);
      && p !in t.tracked
      && Lookup(t.remote, p) == (if LeavesRemote(pass.deletes(p)) then None else Lookup(s.remote, p))
      && Lookup(t.local, p) == (if pass.deletes(p).Deleted? then None else Lookup(s.local, p))
  {
    assert Unwritten(Sends(pass), RemoteWrite, p) && Unwritten(Sends(pass), LocalWrite, p);
    PassExact(s, pass, p);
  }

  /** A CR is mirrored, then gone while its delete fails: the file stays and nothing tracks it. */
  lemma FailedDeleteLeavesFile(s: State, kind: string, obj: Json, deletes: string -> DeleteFate)
    requires deletes(ObjectPath(kind, obj)) == DeleteFailed(false)
    ensures var live := Pass([Listing(kind, Found([Attempt(obj, Synced)]))], deletes);
      var gone := Pass([Listing(kind, Found([]))], deletes);
      var p, t := ObjectPath(kind, obj), AfterPass(AfterPass(s, live), gone);
      p in t.remote && p in t.local && p !in t.tracked
  {
    var live := Pass([Listing(kind, Found([Attempt(obj, Synced)]))], deletes);
    var gone := Pass([Listing(kind, Found([]))], deletes);
    var p := ObjectPath(kind, obj);
    OneKind(live.listings[0], deletes);
    OneKind(gone.listings[0], deletes);
    assert [Attempt(obj, Synced)][..0] == [];
    assert Sends(live)[0].path == p && p in Expected(Sends(live));
    SyncedThere(s, live, p);
    assert Expected(Sends(gone)) == {} && NothingFor(gone, p);
    FailedDeleteIsForgotten(AfterPass(s, live), gone, p);
  }

  // ---------------------------------------------------------------- error-free passes

  ghost predicate AllSynced(work: seq<Sent>) {
    forall i :: 0 <= i < |work| ==> work[i].fate.Synced?
  }

  ghost predicate ErrorFree(s: State, pass: Pass) {
    && (forall l :: l in pass.listings ==> l.answer.Found?)
    && AllSynced(Sends(pass))
    && forall p :: p in Orphans(s.tracked, pass) ==> pass.deletes(p).Deleted?
  }

  /** Objects that share a path agree on what it should hold. */
  ghost predicate Consistent(work: seq<Sent>) {
    forall i, j :: 0 <= i < j < |work| && work[i].path == work[j].path ==> work[i].content == work[j].content
  }

  /** `m` holds each live object's stripped content at its path. */
  ghost predicate Holds(m: map<string, Json>, work: seq<Sent>) {
    forall i :: 0 <= i < |work| ==> Lookup(m, work[i].path) == Some(work[i].content)
  }

  ghost predicate Live(work: seq<Sent>, p: string) {
    exists i :: 0 <= i < |work| && work[i].path == p
  }

  lemma SyncedDeciding(work: seq<Sent>, p: string, i: int)
    requires AllSynced(work)
    ensures Unwritten(work, RemoteWrite, p) <==> !Live(work, p)
    ensures Unwritten(work, LocalWrite, p) <==> !Live(work, p)
    ensures Live(work, p) <==> p in Expected(work)
  {
    InExpected(work, p);
    if Live(work, p) {
      var i :| 0 <= i < |work| && work[i].path == p;
      assert RemoteWrite(work[i]).Some? && LocalWrite(work[i]).Some?;
    }
  }

  /**
   * The mirror after an error-free pass, path by path: a live path holds what its last object sent,
   * a path tracked before and no longer live is absent, and no other path is touched.
   */
  lemma ErrorFreePass(s: State, pass: Pass, p: string)
    requires ErrorFree(s, pass)
    ensures var work, t := Sends(pass), AfterPass(s, pass);
      && (p in t.tracked <==> Live(work, p))
      && (Live(work, p) ==>
            exists i :: Deciding(work, RemoteWrite, p, i) && Lookup(t.remote, p) == Some(work[i].content) == Lookup(t.local, p))
      && (!Live(work, p) && p in s.tracked ==> p !in t.remote && p !in t.local)
      && (!Live(work, p) && p !in s.tracked ==>
            Lookup(t.remote, p) == Lookup(s.remote, p) && Lookup(t.local, p) == Lookup(s.local, p))
  {
    var work, t := Sends(pass), AfterPass(s, pass);
    PassExact(s, pass, p);
    SyncedDeciding(work, p, 0);
    ReplayExact(s.remote, work, RemoteWrite, p);
    if Live(work, p) {
      var i :| Deciding(work, RemoteWrite, p, i);
      assert work[i].fate.Synced?;
      assert Deciding(work, LocalWrite, p, i);
    } else if p in s.tracked {
      assert p in Orphans(s.tracked, pass);
    }
  }

  /**
   * Mirror correctness, exactly: after an error-free pass the remote and the local tree both hold
   * every live CR if and only if CRs that share a path agree on its content.
   */
  lemma MirrorCorrectExact(s: State, pass: Pass)
    requires ErrorFree(s, pass)
    ensures Holds(AfterPass(s, pass).remote, Sends(pass)) <==> Consistent(Sends(pass))
    ensures Holds(AfterPass(s, pass).local, Sends(pass)) <==> Consistent(Sends(pass))
  {
    var work, t := Sends(pass), AfterPass(s, pass);
    if Consistent(work) {
      forall k | 0 <= k < |work| ensures Lookup(t.remote, work[k].path) == Some(work[k].content) == Lookup(t.local, work[k].path) {
        ErrorFreePass(s, pass, work[k].path);
        assert Live(work, work[k].path);
        var i :| Deciding(work, RemoteWrite, work[k].path, i) &&
          Lookup(t.remote, work[k].path) == Some(work[i].content) == Lookup(t.local, work[k].path);
      }
    }
    if Holds(t.remote, work) || Holds(t.local, work) {
      forall i, j | 0 <= i < j < |work| && work[i].path == work[j].path ensures work[i].content == work[j].content {}
    }
  }

  // ---------------------------------------------------------------- which CRs clash

  datatype Named = Named(kind: string, obj: Json) {
    function Namespace(): string { Text(Field(Field(obj, "metadata"), "namespace")) }
    function Name(): string { Text(Field(Field(obj, "metadata"), "name")) }
    function Kind(): string { KindOf(kind, obj) }
  }

  function NamedAll(kind: string, items: seq<Attempt>): seq<Named> {
    if items == [] then [] else NamedAll(kind, items[..|items| - 1]) + [Named(kind, items[|items| - 1].obj)]
  }

  /** Every object a pass lists, in order. */
  function Objects(listings: seq<Listing>): seq<Named>
    decreases |listings|
  {
    if listings == [] then []
    else
      var last := listings[|listings| - 1];
      Objects(listings[..|listings| - 1]) + NamedAll(last.kind, Listed(last))
  }

  ghost predicate SameObjects(work: seq<Sent>, objects: seq<Named>) {
    && |work| == |objects|
    && forall i :: 0 <= i < |work| ==>
         work[i].path == ObjectPath(objects[i].kind, objects[i].obj) && work[i].content == StripCr(objects[i].obj)
  }

  lemma SameObjectsAppend(work: seq<Sent>, objects: seq<Named>, work': seq<Sent>, objects': seq<Named>)
    requires SameObjects(work, objects) && SameObjects(work', objects')
    ensures SameObjects(work + work', objects + objects')
  {
  }

  lemma {:induction false} SentForAllObjects(kind: string, items: seq<Attempt>)
    ensures SameObjects(SentForAll(kind, items), NamedAll(kind, items))
  {
    if items == [] {
    } else {
      var front, last := items[..|items| - 1], items[|items| - 1];
      SentForAllObjects(kind, front);
      SameObjectsAppend(SentForAll(kind, front), NamedAll(kind, front), [SentFor(kind, last)], [Named(kind, last.obj)]);
    }
  }

  lemma {:induction false} WorkObjects(listings: seq<Listing>)
    ensures SameObjects(Work(listings), Objects(listings))
    decreases |listings|
  {
    if listings == [] {
    } else {
      var front, last := listings[..|listings| - 1], listings[|listings| - 1];
      WorkObjects(front);
      SentForAllObjects(last.kind, Listed(last));
      SameObjectsAppend(Work(front), Objects(front), SentForAll(last.kind, Listed(last)), NamedAll(last.kind, Listed(last)));
    }
  }

  /** Two CRs of one kind and name whose namespaces are x and "entity-" + x, x not itself so prefixed. */
  ghost predicate Twins(a: Named, b: Named) {
    a.Kind() == b.Kind() && a.Name() == b.Name() && a.Namespace() == ENTITY + b.Namespace() && !(ENTITY <= b.Namespace())
  }

  ghost predicate OneCr(a: Named, b: Named) {
    a.Kind() == b.Kind() && a.Name() == b.Name() && a.Namespace() == b.Namespace()
  }

  /** As Kubernetes guarantees: names without slashes, and each CR listed once. */
  ghost predicate ProperListing(objects: seq<Named>) {
    && (forall i :: 0 <= i < |objects| ==> SlashFree(objects[i].Namespace()) && SlashFree(objects[i].Kind()))
    && forall i, j :: 0 <= i < j < |objects| ==> !OneCr(objects[i], objects[j])
  }

  ghost predicate NoTwins(objects: seq<Named>) {
    forall i, j :: 0 <= i < j < |objects| ==> !Twins(objects[i], objects[j]) && !Twins(objects[j], objects[i])
  }

  /** Twins share a path but never its content: the stripped CR still carries its namespace. */
  lemma TwinsClash(a: Named, b: Named)
    requires Twins(a, b)
    ensures ObjectPath(a.kind, a.obj) == ObjectPath(b.kind, b.obj)
    ensures StripCr(a.obj) != StripCr(b.obj)
  {
    EntityCollision(a.Namespace(), b.Namespace());
    assert |a.Namespace()| > |b.Namespace()|;
    assert Field(Field(StripCr(a.obj), "metadata"), "namespace") == Str(a.Namespace());
    assert Field(Field(StripCr(b.obj), "metadata"), "namespace") != Str(a.Namespace());
  }

  lemma SamePathExact(a: Named, b: Named)
    requires SlashFree(a.Namespace()) && SlashFree(a.Kind()) && SlashFree(b.Namespace()) && SlashFree(b.Kind())
    requires !OneCr(a, b)
    ensures ObjectPath(a.kind, a.obj) == ObjectPath(b.kind, b.obj) <==> Twins(a, b) || Twins(b, a)
  {
    PathCollisionExact(a.Namespace(), a.Kind(), a.Name(), b.Namespace(), b.Kind(), b.Name());
  }

  lemma AllReached(listings: seq<Listing>)
    requires forall l :: l in listings ==> l.answer.Found?
    ensures Reached(listings) == listings && !Aborted(listings)
  {
    assert listings[..|listings|] == listings;
    ReachedTo(listings, |listings|);
  }

  /** Mirror correctness by names: an error-free pass mirrors every live CR if and only if no two are twins. */
  lemma MirrorCorrectByNames(s: State, pass: Pass)
    requires ErrorFree(s, pass) && ProperListing(Objects(pass.listings))
    ensures Holds(AfterPass(s, pass).remote, Sends(pass)) <==> NoTwins(Objects(pass.listings))
    ensures Holds(AfterPass(s, pass).local, Sends(pass)) <==> NoTwins(Objects(pass.listings))
  {
    var work, objects := Sends(pass), Objects(pass.listings);
    MirrorCorrectExact(s, pass);
    WorkObjects(pass.listings);
    AllReached(pass.listings);
    forall i, j | 0 <= i < j < |objects|
      ensures work[i].path == work[j].path ==> work[i].content != work[j].content
      ensures work[i].path == work[j].path <==> Twins(objects[i], objects[j]) || Twins(objects[j], objects[i])
    {
      SamePathExact(objects[i], objects[j]);
      if Twins(objects[i], objects[j]) { TwinsClash(objects[i], objects[j]); }
      if Twins(objects[j], objects[i]) { TwinsClash(objects[j], objects[i]); }
    }
  }

  // ---------------------------------------------------------------- the whole mirror

  /** The cluster, as the mirror should hold it. */
  function Image(work: seq<Sent>): map<string, Json> {
    Replay(map[], work, RemoteWrite)
  }

  ghost predicate NothingStray(s: State) {
    s.remote.Keys <= s.tracked && s.local.Keys <= s.tracked
  }

  /** From a mirror with no untracked files, an error-free pass leaves exactly the image of the cluster. */
  lemma ErrorFreePassMirrors(s: State, pass: Pass)
    requires NothingStray(s) && ErrorFree(s, pass)
    ensures var t := AfterPass(s, pass); NothingStray(t) && t.remote == t.local == Image(Sends(pass))
  {
    var work, t := Sends(pass), AfterPass(s, pass);
    forall p ensures Lookup(t.remote, p) == Lookup(t.local, p) == Lookup(Image(work), p) && (p in t.remote <==> p in t.tracked) {
      ErrorFreePass(s, pass, p);
      SyncedDeciding(work, p, 0);
      ReplayExact(map[], work, RemoteWrite, p);
    }
    SameLookups(t.remote, t.local);
    SameLookups(t.remote, Image(work));
  }

  lemma SameLookups(a: map<string, Json>, b: map<string, Json>)
    requires forall p :: Lookup(a, p) == Lookup(b, p)
    ensures a == b
  {
    forall p ensures p in a <==> p in b { assert Lookup(a, p) == Lookup(b, p); }
    forall p | p in a ensures a[p] == b[p] { assert Lookup(a, p) == Lookup(b, p); }
  }

  ghost predicate ErrorFreeRun(s: State, passes: seq<Pass>)
    decreases |passes|
  {
    passes == [] ||
    (ErrorFreeRun(s, passes[..|passes| - 1]) && ErrorFree(AfterRun(s, passes[..|passes| - 1]), passes[|passes| - 1]))
  }

  /** Over any error-free run of a new engine on an empty repository, the mirror is always the last listing's image. */
  lemma {:induction false} ErrorFreeRunMirrors(passes: seq<Pass>)
    requires ErrorFreeRun(State({}, map[], map[]), passes)
    ensures var t := AfterRun(State({}, map[], map[]), passes);
      && NothingStray(t)
      && (passes != [] ==> t.remote == t.local == Image(Sends(passes[|passes| - 1])))
    decreases |passes|
  {
    if passes == [] {
    } else {
      var n := |passes| - 1;
      ErrorFreeRunMirrors(passes[..n]);
      ErrorFreePassMirrors(AfterRun(State({}, map[], map[]), passes[..n]), passes[n]);
    }
  }

  // ---------------------------------------------------------------- the report

  function Total(kinds: seq<KindCount>): nat
    decreases |kinds|
  {
    if kinds == [] then 0 else Total(kinds[..|kinds| - 1]) + kinds[|kinds| - 1].count
  }

  function ListedCount(listings: seq<Listing>): nat
    decreases |listings|
  {
    if listings == [] then 0 else ListedCount(listings[..|listings| - 1]) + |Listed(listings[|listings| - 1])|
  }

  lemma {:induction false} SyncedOrNot(work: seq<Sent>)
    ensures SyncedIn(work) + |Unsynced(work)| == |work|
    decreases |work|
  {
    if work == [] {
    } else {
      SyncedOrNot(work[..|work| - 1]);
    }
  }

  lemma OneMoreCount(kinds: seq<KindCount>, k: KindCount, done: seq<Listing>, l: Listing)
    ensures Total(kinds + [k]) == Total(kinds) + k.count
    ensures ListedCount(done + [l]) == ListedCount(done) + |Listed(l)|
  {
    assert (kinds + [k])[..|kinds|] == kinds && (done + [l])[..|done|] == done;
  }

  ghost predicate AddsUp(listings: seq<Listing>) {
    Total(KindCounts(listings)) == SyncedIn(Work(listings)) && |Work(listings)| == ListedCount(listings)
  }

  lemma CountsNext(done: seq<Listing>, l: Listing, all: seq<Listing>)
    requires AddsUp(done) && all == done + [l]
    ensures AddsUp(all)
  {
    var own := SentForAll(l.kind, Listed(l));
    WorkNext(done, l);
    KindsNext(done, l, SyncedIn(own));
    SyncedInAppend(Work(done), own);
    OneMoreCount(KindCounts(done), KindCount(l.kind, SyncedIn(own)), done, l);
  }

  lemma {:induction false} CountsAddUp(listings: seq<Listing>)
    ensures AddsUp(listings)
    decreases |listings|
  {
    if listings == [] {
    } else {
      var front, last := listings[..|listings| - 1], listings[|listings| - 1];
      CountsAddUp(front);
      assert listings == front + [last];
      CountsNext(front, last, listings);
    }
  }

  /**
   * The report: the per-kind counts sum to `synced`, every listed object is either synced or an
   * error, and the remaining errors are the orphans not fully removed.
   */
  lemma ReportAddsUp(s: State, pass: Pass, report: Report)
    requires Reports(s, pass, report)
    ensures Total(report.kinds) == report.synced
    ensures report.synced + |report.errors| == ListedCount(pass.listings) + |Undeleted(Orphans(s.tracked, pass), pass.deletes)|
  {
    CountsAddUp(pass.listings);
    SyncedOrNot(Work(pass.listings));
    assert |report.errors| == |multiset(report.errors)|;
  }
}
