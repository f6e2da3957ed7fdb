/** strip.py: which repository path a CR is mirrored to, and which of its fields. */
module RepoPath {
  import opened Numerals
  import opened JsonMerge

  const PLUGINS := "sovereign-cloud-plugins"
  const ENTITY := "entity-"
  const SLASH := '/'

  function EntityFromNamespace(namespace: string): string {
    if namespace == PLUGINS then namespace
    else if ENTITY <= namespace then namespace[|ENTITY|..]
    else namespace
  }

  function GiteaPath(entity: string, kind: string, name: string): string {
    entity + [SLASH] + (kind + [SLASH] + (name + ".yaml"))
  }

  function PathOf(namespace: string, kind: string, name: string): string {
    GiteaPath(EntityFromNamespace(namespace), kind, name)
  }

  predicate SlashFree(s: string) {
    SLASH !in s
  }

  lemma EntityCollision(a: string, b: string)
    ensures EntityFromNamespace(a) == EntityFromNamespace(b) <==>
      a == b || (a == ENTITY + b && !(ENTITY <= b)) || (b == ENTITY + a && !(ENTITY <= a))
  {
    assert ENTITY <= ENTITY + a && (ENTITY + a)[|ENTITY|..] == a;
    assert ENTITY <= ENTITY + b && (ENTITY + b)[|ENTITY|..] == b;
    if ENTITY <= a { assert a == ENTITY + a[|ENTITY|..]; }
    if ENTITY <= b { assert b == ENTITY + b[|ENTITY|..]; }
    assert ENTITY[0] == 'e' && PLUGINS[0] == 's';
  }

  lemma EntitySlashFree(namespace: string)
    requires SlashFree(namespace)
    ensures SlashFree(EntityFromNamespace(namespace))
  {
    var e := EntityFromNamespace(namespace);
    forall i | 0 <= i < |e| ensures e[i] != SLASH {
      if ENTITY <= namespace && namespace != PLUGINS { assert e[i] == namespace[|ENTITY| + i]; }
    }
  }

  lemma GiteaPathInjective(e: string, k: string, n: string, e': string, k': string, n': string)
    requires SlashFree(e) && SlashFree(k) && SlashFree(e') && SlashFree(k')
    requires GiteaPath(e, k, n) == GiteaPath(e', k', n')
    ensures e == e' && k == k' && n == n'
  {
    PartitionAt(e, SLASH, k + [SLASH] + (n + ".yaml"));
    PartitionAt(e', SLASH, k' + [SLASH] + (n' + ".yaml"));
    PartitionAt(k, SLASH, n + ".yaml");
    PartitionAt(k', SLASH, n' + ".yaml");
    assert n == (n + ".yaml")[..|n|] && n' == (n' + ".yaml")[..|n'|];
    assert |n| == |n'|;
  }

  /**
   * Path collisions, exactly: for slash-free names two CRs share a path when they share kind and
   * name and their namespaces are equal or are x and "entity-" + x for an x that does not itself
   * start with "entity-".
   */
  lemma PathCollisionExact(a: string, kind: string, name: string, b: string, kind': string, name': string)
    requires SlashFree(a) && SlashFree(kind) && SlashFree(b) && SlashFree(kind')
    ensures PathOf(a, kind, name) == PathOf(b, kind', name') <==>
      kind == kind' && name == name' &&
      (a == b || (a == ENTITY + b && !(ENTITY <= b)) || (b == ENTITY + a && !(ENTITY <= a)))
  {
    EntityCollision(a, b);
    EntitySlashFree(a);
    EntitySlashFree(b);
    if PathOf(a, kind, name) == PathOf(b, kind', name') {
      GiteaPathInjective(EntityFromNamespace(a), kind, name, EntityFromNamespace(b), kind', name');
    }
  }

  /** The path itself: the namespace without a leading "entity-", then kind and name, with the extension. */
  lemma PathExact(namespace: string, kind: string, name: string)
    ensures PathOf("entity-" + namespace, kind, name) == namespace + "/" + kind + "/" + name + ".yaml"
    ensures !("entity-" <= namespace) ==> PathOf(namespace, kind, name) == namespace + "/" + kind + "/" + name + ".yaml"
  {
    var prefixed := "entity-" + namespace;
    assert prefixed[|ENTITY|..] == namespace && ENTITY <= prefixed;
    assert prefixed[0] == 'e' && PLUGINS[0] == 's';
    assert namespace + "/" + kind + "/" + name + ".yaml" == GiteaPath(namespace, kind, name);
  }

  // ---------------------------------------------------------------- strip_cr

  const KEPT := ["name", "namespace", "labels"]

  function KeptMeta(meta: Json, keys: seq<string>): map<string, Json> {
    map k | k in keys && Truthy(Field(meta, k)) :: Field(meta, k)
  }

  function SpecOrEmpty(spec: Json): Json { if Truthy(spec) then spec else Obj(map[]) }

  function StripCr(obj: Json): Json {
    Obj(map["apiVersion" := Field(obj, "apiVersion"), "kind" := Field(obj, "kind"),
            "metadata" := Obj(KeptMeta(Field(obj, "metadata"), KEPT)), "spec" := SpecOrEmpty(Field(obj, "spec"))])
  }

  method Strip(obj: Json) returns (result: Json)
    ensures result == StripCr(obj)
  {
    var metadata := Field(obj, "metadata");
    var stripped: map<string, Json> := map[];
    for i := 0 to |KEPT|
      invariant stripped == KeptMeta(metadata, KEPT[..i])
    {
      var key := KEPT[i];
      assert KEPT[..i + 1] == KEPT[..i] + [key];
      if Truthy(Field(metadata, key)) {
        stripped := stripped[key := Field(metadata, key)];
      }
    }
    assert KEPT[..|KEPT|] == KEPT;
    result := Obj(map["apiVersion" := Field(obj, "apiVersion"), "kind" := Field(obj, "kind"),
                      "metadata" := Obj(stripped), "spec" := SpecOrEmpty(Field(obj, "spec"))]);
  }

  /** The stripped CR, member by member: what is kept, what an unset spec becomes, and that there is nothing else. */
  lemma StripExact(obj: Json)
    ensures Keys(StripCr(obj)) == {"apiVersion", "kind", "metadata", "spec"}
    ensures Field(StripCr(obj), "apiVersion") == Field(obj, "apiVersion") && Field(StripCr(obj), "kind") == Field(obj, "kind")
    ensures Field(StripCr(obj), "spec") == if Truthy(Field(obj, "spec")) then Field(obj, "spec") else Obj(map[])
    ensures var meta, kept := Field(obj, "metadata"), Field(StripCr(obj), "metadata");
      && kept.Obj?
      && (forall k :: k in Keys(kept) <==> k in {"name", "namespace", "labels"} && Truthy(Field(meta, k)))
      && (forall k :: k in Keys(kept) ==> Field(kept, k) == Field(meta, k))
  {
    assert forall k :: k in KEPT <==> k in {"name", "namespace", "labels"};
  }

  /** Both unset, or the same value. */
  predicate SameIfSet(a: Json, b: Json) {
    Truthy(a) == Truthy(b) && (Truthy(a) ==> a == b)
  }

  /** Two CRs are mirrored alike exactly when they agree on the spec, on what they are and on how they are named. */
  lemma StripSameExact(a: Json, b: Json)
    ensures StripCr(a) == StripCr(b) <==>
      && Field(a, "apiVersion") == Field(b, "apiVersion") && Field(a, "kind") == Field(b, "kind")
      && SameIfSet(Field(a, "spec"), Field(b, "spec"))
      && forall k :: k in {"name", "namespace", "labels"} ==>
           SameIfSet(Field(Field(a, "metadata"), k), Field(Field(b, "metadata"), k))
  {
    StripExact(a);
    StripExact(b);
    var x, y := StripCr(a), StripCr(b);
    var m, n := Field(x, "metadata"), Field(y, "metadata");
    if x == y {
      forall k | k in {"name", "namespace", "labels"}
        ensures SameIfSet(Field(Field(a, "metadata"), k), Field(Field(b, "metadata"), k))
      {
        assert k in Keys(m) <==> k in Keys(n);
      }
    }
    if SameIfSet(Field(a, "spec"), Field(b, "spec"))
       && forall k :: k in {"name", "namespace", "labels"} ==>
            SameIfSet(Field(Field(a, "metadata"), k), Field(Field(b, "metadata"), k)) {
      assert m.fields == n.fields;
    }
  }

  /** Stripping again changes nothing, and a stripped CR still names the same file. */
  lemma StripIdempotent(obj: Json)
    ensures StripCr(StripCr(obj)) == StripCr(obj)
  {
    var once := StripCr(obj);
    var meta, again := KeptMeta(Field(obj, "metadata"), KEPT), KeptMeta(Field(once, "metadata"), KEPT);
    forall k ensures k in again <==> k in meta {}
    assert again == meta;
  }

  /** Server-side noise is invisible: metadata other than name, namespace and labels, status, anything else. */
  lemma StripIgnoresTheRest(obj: map<string, Json>, meta: map<string, Json>, noise: map<string, Json>, metaNoise: map<string, Json>)
    requires noise.Keys !! {"apiVersion", "kind", "metadata", "spec"}
    requires metaNoise.Keys !! {"name", "namespace", "labels"}
    ensures StripCr(Obj(obj["metadata" := Obj(meta + metaNoise)] + noise)) == StripCr(Obj(obj["metadata" := Obj(meta)]))
  {
    forall k | k in KEPT ensures Field(Obj(meta + metaNoise), k) == Field(Obj(meta), k) {
      assert k == "name" || k == "namespace" || k == "labels";
    }
    assert KeptMeta(Obj(meta + metaNoise), KEPT) == KeptMeta(Obj(meta), KEPT);
  }
}
