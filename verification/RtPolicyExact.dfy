/**
 * The policy that `plan` returns, group by group and error by error, told from its inputs and the
 * kept sites.
 */
module RtPolicyExact {
  import opened Prelude
  import opened NameSort
  import opened Cidr
  import opened Carving
  import opened Collapse
  import opened RouteTargets
  import opened RtPolicy
  import opened RtPolicyTheorems

  // ---------------------------------------------------------------- the sites

  /** The gateways in name order, each once. */
  ghost predicate InNameOrder(gs: seq<Gateway>, sorted: seq<Gateway>) {
    multiset(sorted) == multiset(gs) && forall i, j :: 0 <= i < j < |sorted| ==> StrLe(sorted[i].name, sorted[j].name)
  }

  /**
   * The sites are the kept gateways in name order (which ones these are is LeftOutExact), each with its own
   * fields; and the gateways left out are as many as the site errors.
   */
  lemma SitesExact(inp: Inputs)
    ensures var gs := SortBy(GatewayName, inp.gateways);
      && InNameOrder(inp.gateways, gs)
      && (forall i, j :: 0 <= i < j < |Sites(inp)| ==> StrLe(Sites(inp)[i].name, Sites(inp)[j].name))
      && (forall s :: s in Sites(inp) <==>
           exists i :: 0 <= i < |gs| && KeptAt(gs, i) && s == Site(gs[i].name, gs[i].siteCidr.value, gs[i].site, gs[i].legacyCloudOSO))
      && |Sites(inp)| + |SiteErrors(gs)| == |inp.gateways|
  {
    var gs := SortBy(GatewayName, inp.gateways);
    SortBySorts(GatewayName, inp.gateways);
    forall i, j | 0 <= i < j < |gs| ensures StrLe(gs[i].name, gs[j].name) {
      assert StrLe(GatewayName(gs[i]), GatewayName(gs[j]));
    }
    KeptInOrder(gs);
    OneErrorEach(gs);
    assert |multiset(gs)| == |multiset(inp.gateways)|;
    forall s ensures s in Sites(inp) <==>
      exists i :: 0 <= i < |gs| && KeptAt(gs, i) && s == Site(gs[i].name, gs[i].siteCidr.value, gs[i].site, gs[i].legacyCloudOSO)
    {
      KeptSitesMembers(gs, s);
    }
  }

  lemma KeptName(gs: seq<Gateway>, s: Site) returns (i: nat)
    requires s in KeptSites(gs)
    ensures i < |gs| && gs[i].name == s.name && KeptAt(gs, i) && SiteOf(gs[i]) == s
  {
    KeptSitesMembers(gs, s);
    i :| 0 <= i < |gs| && KeptAt(gs, i) && s == SiteOf(gs[i]);
  }

  ghost predicate NamesAscend(sites: seq<Site>) {
    forall i, j :: 0 <= i < j < |sites| ==> StrLe(sites[i].name, sites[j].name)
  }

  lemma {:induction false} KeptInOrder(gs: seq<Gateway>)
    requires forall i, j :: 0 <= i < j < |gs| ==> StrLe(gs[i].name, gs[j].name)
    ensures NamesAscend(KeptSites(gs))
  {
    if gs == [] {
    } else {
      var n := |gs| - 1;
      KeptInOrder(gs[..n]);
      forall s | s in KeptSites(gs[..n]) ensures StrLe(s.name, gs[n].name) {
        var i := KeptName(gs[..n], s);
      }
    }
  }

  lemma {:induction false} OneErrorEach(gs: seq<Gateway>)
    ensures |KeptSites(gs)| + |SiteErrors(gs)| == |gs|
  {
    if gs == [] {
    } else {
      OneErrorEach(gs[..|gs| - 1]);
    }
  }

  // ---------------------------------------------------------------- the groups

  /** The hub group: what it is called, where it listens and which RTs it may exchange. */
  lemma HubGroupExact(inp: Inputs, out: Policy, rt: string, b: Block)
    requires IsPolicy(inp, out) && DistinctNetworks(inp.networks)
    ensures out.groups != []
    ensures var hub := out.groups[0];
      && hub.name == "HUB" && hub.kind == HubGroup && hub.gateway == ""
      && (InOne(b, hub.ranges) <==>
           inp.underlay.Some? && SubnetOf(b, inp.underlay.value) && forall s :: s in Sites(inp) ==> !Overlaps(b, s.cidr))
      && (forall i, j :: 0 <= i < j < |hub.ranges| ==> End(hub.ranges[i]) <= hub.ranges[j].net)
      && (rt in hub.rts <==>
           rt in inp.allowed &&
           exists p, base ::
             Places(inp, p, base) && base in inp.allowed &&
             ((rt == base && (p.kind == CloudVirt || p.kind == PlatformOpenshift)) ||
              (p.kind == CloudVirt && inp.hubBlock.Some? && inp.l2Offset != 0 && rt != "" && rt == L2Rt(base, inp.l2Offset))))
  {
    GroupsInOrder(inp);
    HubIsolationExact(inp, rt);
    HubRangesExact(inp, b);
  }

  lemma HubRangesExact(inp: Inputs, b: Block)
    ensures InOne(b, HubRanges(inp)) <==>
      inp.underlay.Some? && SubnetOf(b, inp.underlay.value) && forall s :: s in Sites(inp) ==> !Overlaps(b, s.cidr)
    ensures forall i, j :: 0 <= i < j < |HubRanges(inp)| ==> End(HubRanges(inp)[i]) <= HubRanges(inp)[j].net
  {
    OverlapsSomeSite(Sites(inp), b);
    if inp.underlay.Some? {
      CarveCanonical(inp.underlay.value, SiteCidrs(Sites(inp)), b);
      CarveExact(inp.underlay.value, SiteCidrs(Sites(inp)));
      Ascending(HubRanges(inp));
    }
  }

  /**
   * The group of a kept site, one for each in their order: it listens on the site's CIDR only, and
   * carries an RT exactly when that is allow-listed and a live placement puts a network of this fabric
   * with it on that site.
   */
  lemma SiteGroupExact(inp: Inputs, out: Policy, i: nat, rt: string)
    requires IsPolicy(inp, out) && DistinctNetworks(inp.networks) && DistinctCloudOSOs(inp.cloudosos)
    requires i < |Sites(inp)|
    ensures i + 1 < |out.groups|
    ensures var g, s := out.groups[i + 1], Sites(inp)[i];
      && g.kind == SiteGroup && g.gateway == s.name && g.ranges == [s.cidr] && g.name == PgName("SITE-", s.name)
      && (rt in g.rts <==>
           rt in inp.allowed &&
           exists p, t :: t in Sites(inp) && t.name == s.name && Places(inp, p, rt) && OnSite(inp, p, t))
  {
    GroupsInOrder(inp);
    SiteIsolationExact(inp, Sites(inp)[i].name, rt);
  }

  /** The tunnel subnet overlaps the hub underlay or a site. */
  ghost predicate TunnelClashes(inp: Inputs, t: Block) {
    || (inp.underlay.Some? && Overlaps(t, inp.underlay.value))
    || exists s :: s in Sites(inp) && Overlaps(t, s.cidr)
  }

  lemma TunnelFreeExact(inp: Inputs)
    ensures TunnelFree(inp) <==> inp.tunnel.Some? && !TunnelClashes(inp, inp.tunnel.value)
  {
    AllRangesOfGroups(inp);
    if inp.tunnel.Some? {
      var t, hub, sites := inp.tunnel.value, HubRanges(inp), SiteCidrs(Sites(inp));
      OverlapsSomeSite(Sites(inp), t);
      MissesBoth(t, hub, sites);
      if inp.underlay.Some? {
        TunnelMeetsHub(inp, t);
      }
    }
  }

  lemma MissesBoth(t: Block, xs: seq<Block>, ys: seq<Block>)
    ensures Misses(t, xs + ys) <==> Misses(t, xs) && Misses(t, ys)
  {
    forall h ensures h in xs + ys <==> h in xs || h in ys {}
  }

  lemma TunnelMeetsHub(inp: Inputs, t: Block)
    requires inp.underlay.Some?
    ensures !Misses(t, HubRanges(inp)) ==> Overlaps(t, inp.underlay.value)
    ensures Overlaps(t, inp.underlay.value) && Misses(t, SiteCidrs(Sites(inp))) ==> !Misses(t, HubRanges(inp))
  {
    var hub, sites := HubRanges(inp), SiteCidrs(Sites(inp));
    CarveExact(inp.underlay.value, sites);
    if !Misses(t, hub) {
      var q :| q in hub && Overlaps(t, q);
      CarveCanonical(inp.underlay.value, sites, q);
      assert InOne(q, hub);
    }
    if Overlaps(t, inp.underlay.value) && Misses(t, sites) {
      var a :| Contains(t, a) && Contains(inp.underlay.value, a);
      assert Covers(hub, a) by {
        forall q | q in sites ensures !Contains(q, a) { assert !Overlaps(t, q); }
      }
    }
  }

  /** There are no other groups but the tunnel's, which is there exactly when its subnet overlaps neither underlay. */
  lemma TunnelGroupExact(inp: Inputs, out: Policy)
    requires IsPolicy(inp, out)
    ensures var n, listens := |Sites(inp)|, inp.tunnel.Some? && !TunnelClashes(inp, inp.tunnel.value);
      && |out.groups| == n + (if listens then 2 else 1)
      && (listens ==> out.groups[n + 1] == Group("TUNNEL", TunnelGroup, [inp.tunnel.value], {}, ""))
  {
    GroupsInOrder(inp);
    TunnelFreeExact(inp);
  }

  /** The fallback listens on the underlay, the sites and the tunnel subnet, in ascending order, and nowhere else. */
  lemma SpokesExact(inp: Inputs, out: Policy, a: Address)
    requires IsPolicy(inp, out)
    ensures Covers(out.spokes, a) <==>
      || (inp.underlay.Some? && Contains(inp.underlay.value, a))
      || (inp.tunnel.Some? && Contains(inp.tunnel.value, a))
      || exists s :: s in Sites(inp) && Contains(s.cidr, a)
    ensures forall i, j :: 0 <= i < j < |out.spokes| ==> End(out.spokes[i]) <= out.spokes[j].net
  {
    Ascending(out.spokes);
    var sites := SiteCidrs(Sites(inp));
    CoversConcat(Maybe(inp.underlay), sites, a);
    CoversConcat(Maybe(inp.underlay) + sites, Maybe(inp.tunnel), a);
    CoversMaybe(inp.underlay, a);
    CoversMaybe(inp.tunnel, a);
    CoversSites(Sites(inp), a);
  }

  lemma CoversMaybe(b: Option<Block>, a: Address)
    ensures Covers(Maybe(b), a) <==> b.Some? && Contains(b.value, a)
  {
    if b.Some? { assert b.value in Maybe(b); }
  }

  lemma CoversSites(sites: seq<Site>, a: Address)
    ensures Covers(SiteCidrs(sites), a) <==> exists s :: s in sites && Contains(s.cidr, a)
  {
    if Covers(SiteCidrs(sites), a) {
      var i :| 0 <= i < |sites| && Contains(SiteCidrs(sites)[i], a);
      assert sites[i] in sites;
    }
    if s :| s in sites && Contains(s.cidr, a) {
      var i :| 0 <= i < |sites| && sites[i] == s;
      assert SiteCidrs(sites)[i] in SiteCidrs(sites);
    }
  }

  // ---------------------------------------------------------------- the errors

  /** Gateway i overlaps a kept one before it, and this is the first such. */
  ghost predicate FirstClash(gs: seq<Gateway>, b: Block, j: int) {
    && 0 <= j < |gs| && KeptAt(gs, j) && Overlaps(gs[j].siteCidr.value, b)
    && forall m :: 0 <= m < j && KeptAt(gs, m) ==> !Overlaps(gs[m].siteCidr.value, b)
  }

  lemma {:induction false} FirstOverlapAppend(sites: seq<Site>, s: Site, b: Block)
    requires !Misses(b, SiteCidrs(sites + [s]))
    ensures FirstOverlap(sites + [s], b) == if Misses(b, SiteCidrs(sites)) then s else FirstOverlap(sites, b)
  {
    if sites == [] {
      assert [] + [s] == [s];
      assert SiteCidrs([s]) == [s.cidr];
    } else {
      assert (sites + [s])[0] == sites[0] && (sites + [s])[1..] == sites[1..] + [s];
      assert SiteCidrs(sites) == [sites[0].cidr] + SiteCidrs(sites[1..]);
      assert SiteCidrs(sites + [s]) == [sites[0].cidr] + SiteCidrs(sites[1..] + [s]);
      if !Overlaps(sites[0].cidr, b) {
        FirstOverlapAppend(sites[1..], s, b);
      } else {
        assert sites[0].cidr in SiteCidrs(sites);
      }
    }
  }

  lemma KeptCidr(gs: seq<Gateway>, j: nat)
    requires j < |gs| && KeptAt(gs, j)
    ensures gs[j].siteCidr.value in SiteCidrs(KeptSites(gs))
  {
    KeptSitesMembers(gs, SiteOf(gs[j]));
    assert HasKept(gs, SiteOf(gs[j]));
    var k :| 0 <= k < |KeptSites(gs)| && KeptSites(gs)[k] == SiteOf(gs[j]);
    assert SiteCidrs(KeptSites(gs))[k] == gs[j].siteCidr.value;
  }

  lemma {:induction false} FirstOverlapIs(gs: seq<Gateway>, b: Block) returns (j: int)
    requires !Misses(b, SiteCidrs(KeptSites(gs)))
    ensures FirstClash(gs, b, j) && FirstOverlap(KeptSites(gs), b) == SiteOf(gs[j])
  {
    var n := |gs| - 1;
    var front := gs[..n];
    var kept := KeptSites(front);
    forall m | 0 <= m < n ensures KeptAt(front, m) <==> KeptAt(gs, m) { KeptAtPrefix(gs, n, m); }
    if KeptAt(gs, n) { FirstOverlapAppend(kept, SiteOf(gs[n]), b); }
    if Misses(b, SiteCidrs(kept)) {
      j := n;
      forall m | 0 <= m < n && KeptAt(gs, m) ensures !Overlaps(gs[m].siteCidr.value, b) {
        assert front[m] == gs[m];
        KeptCidr(front, m);
      }
      assert SiteCidrs(kept + [SiteOf(gs[n])]) == SiteCidrs(kept) + [SiteOf(gs[n]).cidr];
    } else {
      j := FirstOverlapIs(front, b);
    }
  }

  lemma FirstClashUnique(gs: seq<Gateway>, b: Block, i: int, j: int)
    requires FirstClash(gs, b, i) && FirstClash(gs, b, j)
    ensures i == j
  {
  }

  /** The error of gateway i, if it is left out. */
  ghost predicate ErrorOf(gs: seq<Gateway>, i: int, e: PolicyError) {
    && 0 <= i < |gs|
    && match e
       case BadSiteCidr(g) => gs[i].siteCidr.None? && g == gs[i].name
       case SiteOverlap(g, cidr, kept) =>
         && g == gs[i].name && gs[i].siteCidr == Some(cidr)
         && exists j :: FirstClash(gs[..i], cidr, j) && kept == gs[j].name
       case _ => false
  }

  lemma LastError(gs: seq<Gateway>, e: PolicyError)
    requires gs != []
    ensures var n := |gs| - 1;
      e in SiteErrors(gs) <==> e in SiteErrors(gs[..n]) || ErrorOf(gs, n, e)
  {
    var n := |gs| - 1;
    var front, g := gs[..n], gs[n];
    if g.siteCidr.Some? {
      var cidr := g.siteCidr.value;
      if !Misses(cidr, SiteCidrs(KeptSites(front))) {
        var j := FirstOverlapIs(front, cidr);
        forall i | FirstClash(front, cidr, i) { FirstClashUnique(front, cidr, i, j); }
        assert FirstClash(gs[..n], cidr, j) && gs[j].name == FirstOverlap(KeptSites(front), cidr).name;
      } else {
        forall j | 0 <= j < n && KeptAt(front, j) ensures !FirstClash(front, cidr, j) { KeptCidr(front, j); }
      }
    }
  }

  ghost predicate HasError(gs: seq<Gateway>, e: PolicyError) {
    exists i :: ErrorOf(gs, i, e)
  }

  lemma HasErrorStep(gs: seq<Gateway>, e: PolicyError)
    requires gs != []
    ensures HasError(gs, e) <==> HasError(gs[..|gs| - 1], e) || ErrorOf(gs, |gs| - 1, e)
  {
    var n := |gs| - 1;
    forall i | 0 <= i < n ensures ErrorOf(gs[..n], i, e) <==> ErrorOf(gs, i, e) { assert gs[..n][..i] == gs[..i]; }
  }

  lemma {:induction false} SiteErrorsExact(gs: seq<Gateway>, e: PolicyError)
    ensures e in SiteErrors(gs) <==> HasError(gs, e)
  {
    if gs == [] {
    } else {
      SiteErrorsExact(gs[..|gs| - 1], e);
      LastError(gs, e);
      HasErrorStep(gs, e);
    }
  }

  /**
   * The errors, exactly: a gateway whose CIDR is bad, one whose CIDR overlaps a kept site, named with the
   * first such site, a hub block outside the hub ranges, and a tunnel subnet that is not listened on.
   */
  lemma ErrorsExact(inp: Inputs, out: Policy, e: PolicyError)
    requires IsPolicy(inp, out)
    ensures e in out.errors <==>
      match e
      case BadSiteCidr(_) => HasError(SortBy(GatewayName, inp.gateways), e)
      case SiteOverlap(_, _, _) => HasError(SortBy(GatewayName, inp.gateways), e)
      case HubBlockOutside(b) =>
        inp.hubBlock == Some(b) &&
        (inp.underlay.None? || !SubnetOf(b, inp.underlay.value) || exists s :: s in Sites(inp) && Overlaps(b, s.cidr))
      case TunnelOverlap(t) => inp.tunnel == Some(t) && TunnelClashes(inp, t)
  {
    SiteErrorsExact(SortBy(GatewayName, inp.gateways), e);
    SiteErrorsOnly(SortBy(GatewayName, inp.gateways), e);
    TunnelFreeExact(inp);
    if e.HubBlockOutside? { HubBlockErrorExact(inp, e.hubBlock); }
  }
}
