/** Route-target and peer-group strings: `l2_rt` and `pg_name` of bgw_rt_policy.py. */
module RouteTargets {
  import opened Numerals

  // ---------------------------------------------------------------- asn:vni

  /** `l2_rt`: the macVRF route target derived from an L3 one; empty when there is no numeric VNI. */
  function L2Rt(rt: string, offset: nat): string
  {
    var (a, v) := Partition(rt, ':');
    if v != "" && AllDigits(v) then a + [':'] + Decimal(offset + Number(v)) else ""
  }

  function CanonicalRt(asn: string, vni: nat): string {
    asn + [':'] + Decimal(vni)
  }

  lemma L2RtOfCanonical(asn: string, vni: nat, offset: nat)
    requires ':' !in asn
    ensures L2Rt(CanonicalRt(asn, vni), offset) == CanonicalRt(asn, offset + vni)
  {
    PartitionAt(asn, ':', Decimal(vni));
    NumberOfDecimal(vni);
  }

  /** For every text: the part after the first colon must be a number, and the offset is added to it. */
  lemma L2RtExact(a: string, v: string, rt: string, offset: nat)
    requires ':' !in a
    ensures L2Rt(a + ":" + v, offset) ==
      if v != "" && (forall i :: 0 <= i < |v| ==> '0' <= v[i] <= '9') then a + ":" + Decimal(offset + Number(v)) else ""
    ensures ':' !in rt ==> L2Rt(rt, offset) == ""
  {
    PartitionAt(a, ':', v);
    if ':' !in rt { PartitionNone(rt, ':'); }
  }

  lemma CanonicalRtInjective(asn: string, vni: nat, asn': string, vni': nat)
    requires ':' !in asn && ':' !in asn'
    requires CanonicalRt(asn, vni) == CanonicalRt(asn', vni')
    ensures asn == asn' && vni == vni'
  {
    PartitionAt(asn, ':', Decimal(vni));
    PartitionAt(asn', ':', Decimal(vni'));
    NumberOfDecimal(vni);
    NumberOfDecimal(vni');
  }

  // ---------------------------------------------------------------- peer-group names

  predicate IsPlain(c: char) {
    'A' <= c <= 'Z' || 'a' <= c <= 'z' || IsDigit(c) || c == '_' || c == '-'
  }

  /** `pg_name`: every other character becomes a dash. */
  function PgName(prefix: string, name: string): string {
    prefix + seq(|name|, i requires 0 <= i < |name| => if IsPlain(name[i]) then name[i] else '-')
  }

  /** The prefix, and then the name with every character but letters, digits, `_` and `-` replaced. */
  lemma PgNameExact(prefix: string, name: string)
    ensures prefix <= PgName(prefix, name) && |PgName(prefix, name)| == |prefix| + |name|
    ensures forall i :: 0 <= i < |name| ==>
      var c := name[i];
      PgName(prefix, name)[|prefix| + i] ==
        if 'A' <= c <= 'Z' || 'a' <= c <= 'z' || '0' <= c <= '9' || c in {'_', '-'} then c else '-'
  {
  }

  predicate BecomesDash(c: char) {
    c == '-' || !IsPlain(c)
  }

  predicate SameUpToDashes(a: string, b: string) {
    |a| == |b| && forall i :: 0 <= i < |a| ==> a[i] == b[i] || (BecomesDash(a[i]) && BecomesDash(b[i]))
  }

  /** Two gateways share a peer-group name exactly when their names differ in dashed characters only. */
  lemma PgNameCollision(prefix: string, a: string, b: string)
    ensures PgName(prefix, a) == PgName(prefix, b) <==> SameUpToDashes(a, b)
  {
    var x, y := PgName(prefix, a), PgName(prefix, b);
    if x == y {
      forall i | 0 <= i < |a| ensures a[i] == b[i] || (BecomesDash(a[i]) && BecomesDash(b[i])) {
        assert x[|prefix| + i] == y[|prefix| + i];
      }
    }
  }

  lemma PgNameNotInjective()
    ensures "site.a" != "site-a" && PgName("SITE-", "site.a") == PgName("SITE-", "site-a")
  {
    assert "site.a"[4] == '.' && "site-a"[4] == '-';
    PgNameCollision("SITE-", "site.a", "site-a");
  }
}
