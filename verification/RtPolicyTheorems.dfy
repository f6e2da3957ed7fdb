/** What the per-site policy guarantees: listen ranges, route-target isolation, independence of order. */
module RtPolicyTheorems {
  import opened Prelude
  import opened NameSort
  import opened Cidr
  import opened Carving
  import opened Collapse
  import opened RouteTargets
  import opened RtPolicy

  // ---------------------------------------------------------------- which sites are kept

  predicate KeptAt(gs: seq<Gateway>, i: nat)
    requires i < |gs|
  {
    gs[i].siteCidr.Some? && Misses(gs[i].siteCidr.value, SiteCidrs(KeptSites(gs[..i])))
  }

  function SiteOf(g: Gateway): Site
    requires g.siteCidr.Some?
  {
    Site(g.name, g.siteCidr.value, g.site, g.legacyCloudOSO)
  }

  lemma KeptSitesStep(gs: seq<Gateway>, s: Site)
    requires gs != []
    ensures var n := |gs| - 1;
      s in KeptSites(gs) <==> s in KeptSites(gs[..n]) || (KeptAt(gs, n) && s == SiteOf(gs[n]))
  {
  }

  lemma KeptAtPrefix(gs: seq<Gateway>, n: nat, i: nat)
    requires i < n <= |gs|
    ensures KeptAt(gs[..n], i) <==> KeptAt(gs, i)
  {
    assert gs[..n][..i] == gs[..i];
  }

  ghost predicate HasKept(gs: seq<Gateway>, s: Site) {
    exists i :: 0 <= i < |gs| && KeptAt(gs, i) && s == SiteOf(gs[i])
  }

  lemma HasKeptStep(gs: seq<Gateway>, s: Site)
    requires gs != []
    ensures var n := |gs| - 1; HasKept(gs, s) <==> HasKept(gs[..n], s) || (KeptAt(gs, n) && s == SiteOf(gs[n]))
  {
    var n := |gs| - 1;
    forall i | 0 <= i < n ensures KeptAt(gs[..n], i) <==> KeptAt(gs, i) { KeptAtPrefix(gs, n, i); }
    if i :| 0 <= i < n && KeptAt(gs, i) && s == SiteOf(gs[i]) {
      assert KeptAt(gs[..n], i) && s == SiteOf(gs[..n][i]);
    }
  }

  lemma {:induction false} KeptSitesMembers(gs: seq<Gateway>, s: Site)
    ensures s in KeptSites(gs) <==> HasKept(gs, s)
  {
    if gs == [] {
    } else {
      KeptSitesStep(gs, s);
      KeptSitesMembers(gs[..|gs| - 1], s);
      HasKeptStep(gs, s);
    }
  }

  lemma {:induction false} KeptSitesDisjoint(gs: seq<Gateway>)
    ensures PairwiseDisjoint(SiteCidrs(KeptSites(gs)))
  {
    if gs == [] {
    } else {
      var kept, g := KeptSites(gs[..|gs| - 1]), gs[|gs| - 1];
      KeptSitesDisjoint(gs[..|gs| - 1]);
      if KeptSites(gs) != kept {
        DisjointConcat(SiteCidrs(kept), [g.siteCidr.value]);
        assert SiteCidrs(KeptSites(gs)) == SiteCidrs(kept) + [g.siteCidr.value];
      }
    }
  }

  /**
   * The greedy rule: a gateway is left out exactly when its CIDR is bad or overlaps the CIDR of a
   * gateway kept before it in name order.
   */
  lemma LeftOutExact(gs: seq<Gateway>, i: nat)
    requires i < |gs|
    ensures !KeptAt(gs, i) <==>
      gs[i].siteCidr.None? ||
      exists j :: 0 <= j < i && KeptAt(gs, j) && Overlaps(gs[j].siteCidr.value, gs[i].siteCidr.value)
  {
    var front := gs[..i];
    if gs[i].siteCidr.Some? {
      var cidr, kept := gs[i].siteCidr.value, KeptSites(front);
      if !KeptAt(gs, i) {
        var b :| b in SiteCidrs(kept) && Overlaps(cidr, b);
        var k :| 0 <= k < |kept| && kept[k].cidr == b;
        KeptSitesMembers(front, kept[k]);
        var j :| 0 <= j < i && KeptAt(front, j) && kept[k] == SiteOf(front[j]);
        KeptAtPrefix(gs, i, j);
        assert KeptAt(gs, j) && Overlaps(gs[j].siteCidr.value, cidr);
      }
      if j :| 0 <= j < i && KeptAt(gs, j) && Overlaps(gs[j].siteCidr.value, cidr) {
        var s := SiteOf(gs[j]);
        KeptAtPrefix(gs, i, j);
        assert KeptAt(front, j) && s == SiteOf(front[j]);
        KeptSitesMembers(front, s);
        var k :| 0 <= k < |kept| && kept[k] == s;
        assert SiteCidrs(kept)[k] in SiteCidrs(kept);
      }
    }
  }

  // ---------------------------------------------------------------- listen ranges

  lemma {:induction false} AllRangesOfSites(gs: seq<Group>, sites: seq<Site>)
    requires |gs| == |sites| + 1
    requires forall i :: 0 <= i < |sites| ==> gs[i + 1].ranges == [sites[i].cidr]
    ensures AllRanges(gs) == gs[0].ranges + SiteCidrs(sites)
  {
    var n := |sites|;
    if n == 0 {
      assert AllRanges(gs[..0]) == [] && AllRanges(gs) == gs[0].ranges;
    } else {
      AllRangesOfSites(gs[..n], sites[..n - 1]);
      assert SiteCidrs(sites) == SiteCidrs(sites[..n - 1]) + [sites[n - 1].cidr];
    }
  }

  lemma AllRangesOfGroups(inp: Inputs)
    ensures AllRanges(UnderlayGroups(inp)) == HubRanges(inp) + SiteCidrs(Sites(inp))
    ensures AllRanges(Groups(inp)) ==
      HubRanges(inp) + SiteCidrs(Sites(inp)) + if TunnelFree(inp) then [inp.tunnel.value] else []
  {
    UnderlayRanges(inp);
    TunnelRange(UnderlayGroups(inp), if TunnelFree(inp) then [Group("TUNNEL", TunnelGroup, [inp.tunnel.value], {}, "")] else []);
  }

  lemma UnderlayRanges(inp: Inputs)
    ensures AllRanges(UnderlayGroups(inp)) == HubRanges(inp) + SiteCidrs(Sites(inp))
  {
    AllRangesOfSites(UnderlayGroups(inp), Sites(inp));
  }

  lemma TunnelRange(gs: seq<Group>, last: seq<Group>)
    requires |last| <= 1
    ensures AllRanges(gs + last) == AllRanges(gs) + if last == [] then [] else last[0].ranges
  {
    if last == [] {
      assert gs + last == gs;
    } else {
      assert (gs + last)[..|gs|] == gs;
    }
  }

  /** FRR rejects overlapping listen ranges: across HUB, every SITE group and TUNNEL none overlap. */
  lemma ListenRangesDisjoint(inp: Inputs)
    ensures PairwiseDisjoint(AllRanges(Groups(inp)))
  {
    AllRangesOfGroups(inp);
    var hub, sites := HubRanges(inp), SiteCidrs(Sites(inp));
    KeptSitesDisjoint(SortBy(GatewayName, inp.gateways));
    if inp.underlay.Some? {
      CarveExact(inp.underlay.value, sites);
      forall x, y | x in hub && y in sites ensures !Overlaps(x, y) {
        assert InOne(x, hub);
        CarveCanonical(inp.underlay.value, sites, x);
      }
    }
    DisjointConcat(hub, sites);
    if TunnelFree(inp) {
      DisjointConcat(hub + sites, [inp.tunnel.value]);
    }
  }

  /**
   * Every address a per-site group listens on is in the single-group fallback, and the fallback
   * listens on nothing else unless the tunnel subnet was refused.
   */
  lemma FallbackCoversGroups(inp: Inputs, out: Policy, a: Address)
    requires IsPolicy(inp, out)
    ensures Covers(AllRanges(out.groups), a) ==> Covers(out.spokes, a)
    ensures inp.tunnel.None? || TunnelFree(inp) ==> (Covers(out.spokes, a) ==> Covers(AllRanges(out.groups), a))
  {
    AllRangesOfGroups(inp);
    var hub, sites := HubRanges(inp), SiteCidrs(Sites(inp));
    var last := if TunnelFree(inp) then [inp.tunnel.value] else [];
    if inp.underlay.Some? {
      CarveExact(inp.underlay.value, sites);
      CoversOne(inp.underlay.value, a);
    }
    CoversConcat(hub, sites, a);
    CoversConcat(hub + sites, last, a);
    CoversConcat(Maybe(inp.underlay), sites, a);
    CoversConcat(Maybe(inp.underlay) + sites, Maybe(inp.tunnel), a);
  }

  /** The hub VTEP error is raised exactly when the block leaves the underlay or a kept site overlaps it. */
  lemma HubBlockErrorExact(inp: Inputs, b: Block)
    ensures HubBlockOutside(b) in Errors(inp) <==>
      inp.hubBlock == Some(b) &&
      (inp.underlay.None? || !SubnetOf(b, inp.underlay.value) || exists s :: s in Sites(inp) && Overlaps(b, s.cidr))
  {
    SiteErrorsOnly(SortBy(GatewayName, inp.gateways), HubBlockOutside(b));
    OverlapsSomeSite(Sites(inp), b);
    if inp.underlay.Some? {
      CarveCanonical(inp.underlay.value, SiteCidrs(Sites(inp)), b);
    }
  }

  lemma OverlapsSomeSite(sites: seq<Site>, b: Block)
    ensures !Misses(b, SiteCidrs(sites)) <==> exists s :: s in sites && Overlaps(b, s.cidr)
  {
    if !Misses(b, SiteCidrs(sites)) {
      var i :| 0 <= i < |sites| && Overlaps(b, SiteCidrs(sites)[i]);
      assert sites[i] in sites;
    }
    if s :| s in sites && Overlaps(b, s.cidr) {
      var i :| 0 <= i < |sites| && sites[i] == s;
      assert SiteCidrs(sites)[i] in SiteCidrs(sites);
    }
  }

  lemma {:induction false} SiteErrorsOnly(gs: seq<Gateway>, e: PolicyError)
    ensures e in SiteErrors(gs) ==> e.BadSiteCidr? || e.SiteOverlap?
  {
    if gs == [] {
    } else {
      SiteErrorsOnly(gs[..|gs| - 1], e);
    }
  }

  // ---------------------------------------------------------------- lookup tables, in terms of the lists

  predicate DistinctNetworks(ns: seq<Network>) {
    forall i, j :: 0 <= i < j < |ns| ==> NetworkKey(ns[i]) != NetworkKey(ns[j])
  }

  predicate DistinctCloudOSOs(os: seq<CloudOSO>) {
    forall i, j :: 0 <= i < j < |os| ==> CloudOSOKey(os[i]) != CloudOSOKey(os[j])
  }

  lemma {:induction false} NetworkTableExact(fabric: string, ns: seq<Network>, k: Key, rt: string)
    requires DistinctNetworks(ns)
    ensures k in NetworkTable(fabric, ns) && NetworkTable(fabric, ns)[k] == rt <==>
      exists n :: n in ns && Numbered(fabric, n) && NetworkKey(n) == k && n.rt == rt
  {
    if ns == [] {
    } else {
      var front, n := ns[..|ns| - 1], ns[|ns| - 1];
      NetworkTableExact(fabric, front, k, rt);
      assert ns == front + [n];
      if m :| m in front && NetworkKey(m) == k {
        assert NetworkKey(n) != k;
      }
    }
  }

  lemma {:induction false} CloudOSOTableExact(os: seq<CloudOSO>, k: Key, ref: string)
    requires DistinctCloudOSOs(os)
    ensures k in CloudOSOTable(os) && CloudOSOTable(os)[k] == ref <==>
      exists o :: o in os && CloudOSOKey(o) == k && o.cloudRef == ref
  {
    if os == [] {
    } else {
      var front, o := os[..|os| - 1], os[|os| - 1];
      CloudOSOTableExact(front, k, ref);
      assert os == front + [o];
      if m :| m in front && CloudOSOKey(m) == k {
        assert CloudOSOKey(o) != k;
      }
    }
  }

  // ---------------------------------------------------------------- route-target isolation

  /** A live placement puts a network of this fabric with this RT somewhere. */
  ghost predicate Places(inp: Inputs, p: Placement, rt: string) {
    && p in inp.placements && !p.deleting && !p.absent && rt != ""
    && exists n :: n in inp.networks && (n.fabric == "" || n.fabric == inp.fabric)
                   && n.namespace == p.namespace && n.name == p.network && n.rt == rt
  }

  /** The CloudOSO the placement names has this non-empty cloudRef. */
  ghost predicate RefersTo(inp: Inputs, p: Placement, infra: string) {
    && infra != "" && p.backend.Some?
    && exists o :: o in inp.cloudosos && o.namespace == p.namespace && o.name == p.backend.value && o.cloudRef == infra
  }

  /** Bound by cloudRef or, lacking one, by the legacy name. */
  ghost predicate OnSite(inp: Inputs, p: Placement, s: Site) {
    && p.kind == OpenStack
    && (RefersTo(inp, p, s.site) || ((forall infra :: !RefersTo(inp, p, infra)) && s.legacyCloudOSO == p.backend))
  }

  lemma CarriedExact(inp: Inputs, p: Placement, rt: string)
    requires DistinctNetworks(inp.networks) && p in inp.placements
    ensures rt in Carried(ContextOf(inp), p) <==> rt in inp.allowed && Places(inp, p, rt)
  {
    NetworkTableExact(inp.fabric, inp.networks, (p.namespace, p.network), rt);
    if Places(inp, p, rt) {
      var n :| n in inp.networks && (n.fabric == "" || n.fabric == inp.fabric)
               && n.namespace == p.namespace && n.name == p.network && n.rt == rt;
      assert NetworkKey(n) == (p.namespace, p.network);
    }
  }

  lemma BoundExact(inp: Inputs, p: Placement, s: Site)
    requires DistinctCloudOSOs(inp.cloudosos) && p.kind == OpenStack
    ensures Bound(ContextOf(inp), p, s) <==> OnSite(inp, p, s)
  {
    var c := ContextOf(inp);
    forall infra ensures RefersTo(inp, p, infra) <==> infra != "" && Infrastructure(c, p) == infra {
      if p.backend.Some? {
        var k := (p.namespace, p.backend.value);
        CloudOSOTableExact(inp.cloudosos, k, infra);
        if o :| o in inp.cloudosos && o.namespace == p.namespace && o.name == p.backend.value && o.cloudRef == infra {
          assert CloudOSOKey(o) == k;
        }
      }
    }
    var infra := Infrastructure(c, p);
    if infra != "" { assert RefersTo(inp, p, infra); }
  }

  /**
   * Isolation is exact: an RT is in a site's group exactly when it is allow-listed and some live
   * placement puts a network of this fabric with that RT on a CloudOSO of that site.
   */
  lemma SiteIsolationExact(inp: Inputs, name: string, rt: string)
    requires DistinctNetworks(inp.networks) && DistinctCloudOSOs(inp.cloudosos)
    ensures rt in SiteRts(ContextOf(inp), inp.placements, name) <==>
      rt in inp.allowed &&
      exists p, s :: s in Sites(inp) && s.name == name && Places(inp, p, rt) && OnSite(inp, p, s)
  {
    var c := ContextOf(inp);
    if rt in SiteRts(c, inp.placements, name) {
      var p, s :| p in inp.placements && s in c.sites && s.name == name && rt in SiteShare(c, p, s);
      CarriedExact(inp, p, rt);
      BoundExact(inp, p, s);
      assert s in Sites(inp) && Places(inp, p, rt) && OnSite(inp, p, s);
    }
    if rt in inp.allowed {
      if p, s :| s in Sites(inp) && s.name == name && Places(inp, p, rt) && OnSite(inp, p, s) {
        CarriedExact(inp, p, rt);
        BoundExact(inp, p, s);
        assert s in c.sites && rt in SiteShare(c, p, s);
      }
    }
  }

  /** The hub group: the RT itself, or the macVRF RT derived from one that a CloudVirt placement carries. */
  lemma HubIsolationExact(inp: Inputs, rt: string)
    requires DistinctNetworks(inp.networks)
    ensures rt in HubRts(ContextOf(inp), inp.placements) <==>
      rt in inp.allowed &&
      exists p, base ::
        Places(inp, p, base) && base in inp.allowed &&
        ((rt == base && (p.kind == CloudVirt || p.kind == PlatformOpenshift)) ||
         (p.kind == CloudVirt && inp.hubBlock.Some? && inp.l2Offset != 0 && rt != "" && rt == L2Rt(base, inp.l2Offset)))
  {
    var c := ContextOf(inp);
    if rt in HubRts(c, inp.placements) {
      var p :| p in inp.placements && rt in HubShare(c, p);
      var base :| base in Carried(c, p) && (rt == base || (p.kind == CloudVirt && rt in Derived(c, base)));
      CarriedExact(inp, p, base);
      assert Places(inp, p, base) && base in inp.allowed;
    }
    if rt in inp.allowed {
      if p, base :|
        Places(inp, p, base) && base in inp.allowed &&
        ((rt == base && (p.kind == CloudVirt || p.kind == PlatformOpenshift)) ||
         (p.kind == CloudVirt && inp.hubBlock.Some? && inp.l2Offset != 0 && rt != "" && rt == L2Rt(base, inp.l2Offset)))
      {
        CarriedExact(inp, p, base);
        assert rt == base || rt in Derived(c, base);
        assert rt in HubShare(c, p);
      }
    }
  }

  /** Every RT of every group is in the ledger allow-list. */
  lemma EveryRtAllowed(inp: Inputs, g: Group)
    requires g in Groups(inp)
    ensures g.rts <= inp.allowed
  {
    assert g.kind == HubGroup ==> g == HubPeers(inp);
    assert g.kind == SiteGroup ==> exists s :: s in Sites(inp) && g == SitePeers(inp, s);
  }

  lemma GroupsInOrder(inp: Inputs)
    ensures |Groups(inp)| == 1 + |Sites(inp)| + if TunnelFree(inp) then 1 else 0
    ensures Groups(inp)[0] == HubPeers(inp)
    ensures forall i :: 0 <= i < |Sites(inp)| ==> Groups(inp)[i + 1] == SitePeers(inp, Sites(inp)[i])
    ensures TunnelFree(inp) ==>
      Groups(inp)[|Sites(inp)| + 1] == Group("TUNNEL", TunnelGroup, [inp.tunnel.value], {}, "")
  {
    var sites, under := Sites(inp), UnderlayGroups(inp);
    assert |under| == 1 + |sites| && under[0] == HubPeers(inp);
    forall i | 0 <= i < |sites| ensures Groups(inp)[i + 1] == SitePeers(inp, sites[i]) {
      assert Groups(inp)[i + 1] == under[i + 1];
    }
  }

  lemma PlacementsAsideRanges(inp: Inputs, ps: seq<Placement>)
    ensures var other := inp.(placements := ps);
      && Sites(other) == Sites(inp) && HubRanges(other) == HubRanges(inp)
      && (TunnelFree(other) <==> TunnelFree(inp))
  {
    var other := inp.(placements := ps);
    assert Sites(other) == Sites(inp) && HubRanges(other) == HubRanges(inp);
    AllRangesOfGroups(inp);
    AllRangesOfGroups(other);
  }

  /** Whatever the placements are: the groups, their names and ranges, and the errors are the same. */
  lemma PlacementsTouchRtsOnly(inp: Inputs, ps: seq<Placement>)
    ensures var other := inp.(placements := ps);
      && Errors(other) == Errors(inp) && |Groups(other)| == |Groups(inp)|
      && forall i :: 0 <= i < |Groups(inp)| ==> Groups(other)[i].(rts := {}) == Groups(inp)[i].(rts := {})
  {
    var other := inp.(placements := ps);
    PlacementsAsideRanges(inp, ps);
    GroupsInOrder(inp);
    GroupsInOrder(other);
    forall i | 0 <= i < |Groups(inp)| ensures Groups(other)[i].(rts := {}) == Groups(inp)[i].(rts := {}) {
      if 0 < i <= |Sites(inp)| {
        assert Groups(inp)[i - 1 + 1] == SitePeers(inp, Sites(inp)[i - 1]);
        assert Groups(other)[i - 1 + 1] == SitePeers(other, Sites(inp)[i - 1]);
      }
    }
    assert forall b :: InsideHubRange(other, b) <==> InsideHubRange(inp, b);
  }

  /**
   * One more placement, anywhere in the list: each group gains exactly the placement's own share,
   * which is empty unless the placement targets that group.
   */
  lemma PlacementAddsItsShare(inp: Inputs, at: nat, p: Placement, i: nat)
    requires at <= |inp.placements| && i < |Sites(inp)|
    ensures var more, c := inp.(placements := inp.placements[..at] + [p] + inp.placements[at..]), ContextOf(inp);
      && i + 1 < |Groups(more)| && i + 1 < |Groups(inp)|
      && Groups(more)[0].rts == Groups(inp)[0].rts + HubShare(c, p)
      && Groups(more)[i + 1].rts == Groups(inp)[i + 1].rts + SharesOf(c, p, Sites(inp)[i].name)
  {
    var ps := inp.placements;
    var qs := ps[..at] + [p] + ps[at..];
    var more, c := inp.(placements := qs), ContextOf(inp);
    assert ps == ps[..at] + ps[at..];
    assert forall q :: q in qs <==> q in ps || q == p;
    assert Sites(more) == Sites(inp) && ContextOf(more) == c;
    GroupsInOrder(inp);
    GroupsInOrder(more);
    RtsOfOneMore(c, ps, qs, p, Sites(inp)[i].name);
  }

  /** What one placement adds to the sites of this name. */
  function SharesOf(c: Context, p: Placement, name: string): set<string> {
    set s, rt | s in c.sites && s.name == name && rt in SiteShare(c, p, s) :: rt
  }

  lemma RtsOfOneMore(c: Context, ps: seq<Placement>, qs: seq<Placement>, p: Placement, name: string)
    requires forall q :: q in qs <==> q in ps || q == p
    ensures SiteRts(c, qs, name) == SiteRts(c, ps, name) + SharesOf(c, p, name)
    ensures HubRts(c, qs) == HubRts(c, ps) + HubShare(c, p)
  {
    assert p in qs;
  }

  // ---------------------------------------------------------------- independence of list order

  /** The same records in another order; names and keys are unique, as Kubernetes guarantees. */
  ghost predicate Reordered(inp: Inputs, other: Inputs) {
    && multiset(other.gateways) == multiset(inp.gateways) && DistinctBy(GatewayName, inp.gateways)
    && multiset(other.networks) == multiset(inp.networks)
    && DistinctNetworks(inp.networks) && DistinctNetworks(other.networks)
    && multiset(other.cloudosos) == multiset(inp.cloudosos)
    && DistinctCloudOSOs(inp.cloudosos) && DistinctCloudOSOs(other.cloudosos)
    && multiset(other.placements) == multiset(inp.placements)
    && other == inp.(gateways := other.gateways, networks := other.networks,
                     cloudosos := other.cloudosos, placements := other.placements)
  }

  lemma SameElements<T>(xs: seq<T>, ys: seq<T>)
    requires multiset(xs) == multiset(ys)
    ensures forall x :: x in xs <==> x in ys
  {
    forall x ensures x in xs <==> x in ys {
      assert x in xs <==> x in multiset(xs);
      assert x in ys <==> x in multiset(ys);
    }
  }

  predicate Maps(t: map<Key, string>, k: Key, v: string) {
    k in t && t[k] == v
  }

  lemma NetworkTableForgetsOrder(fabric: string, xs: seq<Network>, ys: seq<Network>)
    requires DistinctNetworks(xs) && DistinctNetworks(ys) && forall n :: n in xs <==> n in ys
    ensures NetworkTable(fabric, xs) == NetworkTable(fabric, ys)
  {
    var s, t := NetworkTable(fabric, xs), NetworkTable(fabric, ys);
    forall k, rt ensures Maps(s, k, rt) <==> Maps(t, k, rt) {
      NetworkTableExact(fabric, xs, k, rt);
      NetworkTableExact(fabric, ys, k, rt);
    }
    MapsAgree(s, t);
  }

  lemma CloudOSOTableForgetsOrder(xs: seq<CloudOSO>, ys: seq<CloudOSO>)
    requires DistinctCloudOSOs(xs) && DistinctCloudOSOs(ys) && forall o :: o in xs <==> o in ys
    ensures CloudOSOTable(xs) == CloudOSOTable(ys)
  {
    var s, t := CloudOSOTable(xs), CloudOSOTable(ys);
    forall k, ref ensures Maps(s, k, ref) <==> Maps(t, k, ref) {
      CloudOSOTableExact(xs, k, ref);
      CloudOSOTableExact(ys, k, ref);
    }
    MapsAgree(s, t);
  }

  lemma MapsAgree(s: map<Key, string>, t: map<Key, string>)
    requires forall k, v :: Maps(s, k, v) <==> Maps(t, k, v)
    ensures s == t
  {
    forall k ensures k in s <==> k in t {
      if k in s { assert Maps(s, k, s[k]); }
      if k in t { assert Maps(t, k, t[k]); }
    }
    forall k | k in s ensures s[k] == t[k] {
      assert Maps(s, k, s[k]);
    }
  }

  lemma ReorderedContext(inp: Inputs, other: Inputs)
    requires Reordered(inp, other)
    ensures SortBy(GatewayName, other.gateways) == SortBy(GatewayName, inp.gateways)
    ensures ContextOf(other) == ContextOf(inp)
    ensures HubRts(ContextOf(inp), other.placements) == HubRts(ContextOf(inp), inp.placements)
    ensures forall name :: SiteRts(ContextOf(inp), other.placements, name) == SiteRts(ContextOf(inp), inp.placements, name)
  {
    SortByForgetsOrder(GatewayName, inp.gateways, other.gateways);
    SameElements(inp.networks, other.networks);
    SameElements(inp.cloudosos, other.cloudosos);
    SameElements(inp.placements, other.placements);
    NetworkTableForgetsOrder(inp.fabric, inp.networks, other.networks);
    CloudOSOTableForgetsOrder(inp.cloudosos, other.cloudosos);
  }

  /** The whole policy is the same for every order of the four input lists. */
  lemma PolicyForgetsOrder(inp: Inputs, other: Inputs, out: Policy, out': Policy)
    requires Reordered(inp, other) && IsPolicy(inp, out) && IsPolicy(other, out')
    ensures out == out'
  {
    ReorderedContext(inp, other);
    assert HubPeers(other) == HubPeers(inp);
    forall s ensures SitePeers(other, s) == SitePeers(inp, s) {}
    assert UnderlayGroups(other) == UnderlayGroups(inp);
    assert Groups(other) == Groups(inp);
    assert HubRanges(other) == HubRanges(inp);
    assert Errors(other) == Errors(inp);
    CollapseUnique(Every(inp), out.spokes, Every(other), out'.spokes);
  }

  // ---------------------------------------------------------------- macVRF route targets

  /** Ledger numbering: every network of the fabric has its own <asn>:<vni>, with vni below the L2 offset. */
  ghost predicate LedgerNumbered(inp: Inputs, asn: string, vni: map<Key, nat>) {
    && ':' !in asn && DistinctNetworks(inp.networks)
    && (forall n :: n in inp.networks && Numbered(inp.fabric, n) ==>
         NetworkKey(n) in vni && n.rt == CanonicalRt(asn, vni[NetworkKey(n)]) && vni[NetworkKey(n)] < inp.l2Offset)
    && (forall j, k :: j in vni && k in vni && vni[j] == vni[k] ==> j == k)
  }

  /** The RT comes from this network: its canonical RT or the macVRF RT derived from it. */
  ghost predicate ComesFrom(inp: Inputs, rt: string, n: Network) {
    n in inp.networks && (n.fabric == "" || n.fabric == inp.fabric) && n.rt != "" && (rt == n.rt || rt == L2Rt(n.rt, inp.l2Offset))
  }

  /** Each RT of the hub group comes from exactly one network. */
  lemma HubRtNamesOneNetwork(inp: Inputs, asn: string, vni: map<Key, nat>, rt: string)
    requires LedgerNumbered(inp, asn, vni)
    requires rt in HubRts(ContextOf(inp), inp.placements)
    ensures exists n :: ComesFrom(inp, rt, n) && forall m :: ComesFrom(inp, rt, m) ==> m == n
  {
    HubIsolationExact(inp, rt);
    var p, base :|
      Places(inp, p, base) && base in inp.allowed &&
      ((rt == base && (p.kind == CloudVirt || p.kind == PlatformOpenshift)) ||
       (p.kind == CloudVirt && inp.hubBlock.Some? && inp.l2Offset != 0 && rt != "" && rt == L2Rt(base, inp.l2Offset)));
    var n :| n in inp.networks && (n.fabric == "" || n.fabric == inp.fabric)
             && n.namespace == p.namespace && n.name == p.network && n.rt == base;
    assert ComesFrom(inp, rt, n);
    forall m | ComesFrom(inp, rt, m) ensures m == n {
      OneSource(inp, asn, vni, rt, n, m);
    }
  }

  lemma OneSource(inp: Inputs, asn: string, vni: map<Key, nat>, rt: string, n: Network, m: Network)
    requires LedgerNumbered(inp, asn, vni)
    requires ComesFrom(inp, rt, n) && ComesFrom(inp, rt, m)
    ensures m == n
  {
    var x, y, d := vni[NetworkKey(n)], vni[NetworkKey(m)], inp.l2Offset;
    L2RtOfCanonical(asn, x, d);
    L2RtOfCanonical(asn, y, d);
    var x' := if rt == n.rt then x else d + x;
    var y' := if rt == m.rt then y else d + y;
    assert rt == CanonicalRt(asn, x') == CanonicalRt(asn, y');
    CanonicalRtInjective(asn, x', asn, y');
    assert x == y;
    assert NetworkKey(n) == NetworkKey(m);
  }

  // ---------------------------------------------------------------- names

  ghost predicate NamesDiffer(gs: seq<Group>) {
    forall i, j :: 0 <= i < j < |gs| ==> gs[i].name != gs[j].name
  }

  ghost predicate SitesTellApart(sites: seq<Site>) {
    forall i, j :: 0 <= i < j < |sites| ==> !SameUpToDashes(sites[i].name, sites[j].name)
  }

  /** All group names differ exactly when no two kept sites have names equal up to dashed characters. */
  lemma GroupNamesDistinctExact(inp: Inputs)
    ensures NamesDiffer(Groups(inp)) <==> SitesTellApart(Sites(inp))
  {
    if SitesTellApart(Sites(inp)) { ApartMeansDiffer(inp); }
    if NamesDiffer(Groups(inp)) { DifferMeansApart(inp); }
  }

  lemma ApartMeansDiffer(inp: Inputs)
    requires SitesTellApart(Sites(inp))
    ensures NamesDiffer(Groups(inp))
  {
    var gs, sites := Groups(inp), Sites(inp);
    forall i, j | 0 <= i < j < |gs| ensures gs[i].name != gs[j].name {
      if 0 < i && j <= |sites| {
        SiteGroupNames(inp, i - 1, j - 1);
      } else {
        OtherInitial(inp, i, j);
      }
    }
  }

  lemma DifferMeansApart(inp: Inputs)
    requires NamesDiffer(Groups(inp))
    ensures SitesTellApart(Sites(inp))
  {
    var sites := Sites(inp);
    forall i, j | 0 <= i < j < |sites| ensures !SameUpToDashes(sites[i].name, sites[j].name) {
      SiteGroupNames(inp, i, j);
    }
  }

  lemma SiteGroupNames(inp: Inputs, i: nat, j: nat)
    requires i < j < |Sites(inp)|
    ensures j + 1 < |Groups(inp)|
    ensures Groups(inp)[i + 1].name == Groups(inp)[j + 1].name <==> SameUpToDashes(Sites(inp)[i].name, Sites(inp)[j].name)
  {
    GroupsInOrder(inp);
    PgNameCollision("SITE-", Sites(inp)[i].name, Sites(inp)[j].name);
  }

  lemma OtherInitial(inp: Inputs, i: nat, j: nat)
    requires i < j < |Groups(inp)| && (i == 0 || |Sites(inp)| < j)
    ensures Groups(inp)[i].name != Groups(inp)[j].name
  {
    GroupsInOrder(inp);
    var gs := Groups(inp);
    assert gs[0].name[0] == 'H';
    if 0 < j <= |Sites(inp)| { assert gs[j - 1 + 1].name[0] == 'S'; } else { assert gs[j].name[0] == 'T'; }
    if 0 < i { assert gs[i - 1 + 1].name[0] == 'S'; }
  }
}
