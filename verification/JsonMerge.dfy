/** JSON values and the merge patch of section 2 of RFC 7396. */
module JsonMerge {

  datatype Json =
    | Null
    | Bool(b: bool)
    | Num(n: int)
    | Str(s: string)
    | Arr(items: seq<Json>)
    | Obj(fields: map<string, Json>)

  /** `obj.get(key)`, with a missing key, a null and a value that is no object all read as nothing. */
  function Field(j: Json, key: string): Json {
    if j.Obj? && key in j.fields then j.fields[key] else Null
  }

  function Items(j: Json): seq<Json> {
    if j.Arr? then j.items else []
  }

  function Text(j: Json): string {
    if j.Str? then j.s else ""
  }

  function Keys(j: Json): set<string> {
    if j.Obj? then j.fields.Keys else {}
  }

  function MergePatch(target: Json, patch: Json): Json
    decreases patch
  {
    if !patch.Obj? then patch
    else
      Obj(map k | k in Keys(target) + patch.fields.Keys && !(k in patch.fields && patch.fields[k].Null?) ::
        if k in patch.fields then MergePatch(Field(target, k), patch.fields[k]) else Field(target, k))
  }

  /** A member the patch does not name is left alone; one it names is patched in turn. */
  lemma MergeField(target: Json, patch: map<string, Json>, key: string)
    ensures Field(MergePatch(target, Obj(patch)), key) ==
      if key in patch then MergePatch(Field(target, key), patch[key]) else Field(target, key)
  {
  }

  lemma MergeKeys(target: Json, patch: map<string, Json>)
    requires patch.Keys <= Keys(target)
    requires forall k :: k in patch ==> !patch[k].Null?
    ensures Keys(MergePatch(target, Obj(patch))) == Keys(target)
  {
  }

  /** Python compares True and 1, and False and 0, as equal, at any depth. */
  function Comparable(j: Json): Json
    decreases j
  {
    match j
    case Bool(b) => Num(if b then 1 else 0)
    case Arr(items) => Arr(seq(|items|, i requires 0 <= i < |items| => Comparable(items[i])))
    case Obj(fields) => Obj(map k | k in fields :: Comparable(fields[k]))
    case _ => j
  }

  predicate PyEqual(a: Json, b: Json) {
    Comparable(a) == Comparable(b)
  }

  /** Python's truth value of a JSON value. */
  predicate Truthy(j: Json) {
    match j
    case Null => false
    case Bool(b) => b
    case Num(n) => n != 0
    case Str(s) => s != ""
    case Arr(items) => items != []
    case Obj(fields) => fields != map[]
  }

  function Or(a: Json, b: Json): Json { if Truthy(a) then a else b }

  function Lower(s: string): string {
    seq(|s|, i requires 0 <= i < |s| => if 'A' <= s[i] <= 'Z' then s[i] - 'A' + 'a' else s[i])
  }

  // ---------------------------------------------------------------- what these mean

  /** What is read from a value of another kind: nothing. */
  lemma ReadsNothing(j: Json, key: string)
    ensures !j.Obj? ==> Field(j, key) == Null && Keys(j) == {}
    ensures j.Obj? && key !in j.fields ==> Field(j, key) == Null
    ensures !j.Arr? ==> Items(j) == []
    ensures !j.Str? ==> Text(j) == ""
  {
  }

  /** A merge patch that is no object replaces the target; one that is decides each member, and null removes it. */
  lemma MergePatchExact(target: Json, patch: Json)
    ensures !patch.Obj? ==> MergePatch(target, patch) == patch
    ensures patch.Obj? ==>
      && MergePatch(target, patch).Obj?
      && forall k :: k in Keys(MergePatch(target, patch)) <==>
           if k in Keys(patch) then !Field(patch, k).Null? else k in Keys(target)
  {
  }

  /** What counts as unset. */
  lemma TruthyExact(j: Json)
    ensures !Truthy(j) <==> j in {Null, Bool(false), Num(0), Str(""), Arr([]), Obj(map[])}
  {
  }

  predicate Numeric(j: Json) { j.Num? || j.Bool? }

  function Value(j: Json): int
    requires Numeric(j)
  {
    if j == Bool(true) then 1 else if j == Bool(false) then 0 else j.n
  }

  /** Python's equality, kind by kind. */
  lemma PyEqualExact(a: Json, b: Json)
    ensures PyEqual(a, b) <==>
      || (a.Null? && b.Null?)
      || (a.Str? && b.Str? && a.s == b.s)
      || (Numeric(a) && Numeric(b) && Value(a) == Value(b))
      || (a.Arr? && b.Arr? && |a.items| == |b.items| && forall i :: 0 <= i < |a.items| ==> PyEqual(a.items[i], b.items[i]))
      || (a.Obj? && b.Obj? && a.fields.Keys == b.fields.Keys && forall k :: k in a.fields ==> PyEqual(a.fields[k], b.fields[k]))
  {
    var x, y := Comparable(a), Comparable(b);
    if a.Arr? && b.Arr? && x == y {
      assert |x.items| == |y.items|;
      forall i | 0 <= i < |a.items| ensures PyEqual(a.items[i], b.items[i]) { assert x.items[i] == y.items[i]; }
    }
    if a.Arr? && b.Arr? && |a.items| == |b.items| && forall i :: 0 <= i < |a.items| ==> PyEqual(a.items[i], b.items[i]) {
      assert x.items == y.items;
    }
    if a.Obj? && b.Obj? && x == y {
      assert x.fields.Keys == a.fields.Keys && y.fields.Keys == b.fields.Keys;
      forall k | k in a.fields ensures PyEqual(a.fields[k], b.fields[k]) { assert x.fields[k] == y.fields[k]; }
    }
    if a.Obj? && b.Obj? && a.fields.Keys == b.fields.Keys && forall k :: k in a.fields ==> PyEqual(a.fields[k], b.fields[k]) {
      assert x.fields == y.fields;
    }
  }

  /** One letter in either case, or the same character. */
  predicate SameLetter(c: char, d: char) {
    || c == d
    || ('A' <= c <= 'Z' && 'a' <= d <= 'z' && d as int - c as int == 32)
    || ('A' <= d <= 'Z' && 'a' <= c <= 'z' && c as int - d as int == 32)
  }

  /** Texts are equal once lowered exactly when they differ in the case of letters only. */
  lemma LowerExact(s: string, t: string)
    ensures Lower(s) == Lower(t) <==> |s| == |t| && forall i :: 0 <= i < |s| ==> SameLetter(s[i], t[i])
  {
    if Lower(s) == Lower(t) {
      assert |Lower(s)| == |s| && |Lower(t)| == |t|;
      forall i | 0 <= i < |s| ensures SameLetter(s[i], t[i]) { assert Lower(s)[i] == Lower(t)[i]; }
    }
  }
}
