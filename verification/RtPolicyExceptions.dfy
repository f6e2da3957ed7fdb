/** Where the policy does not do what its description promises, and exactly when it does. */
module RtPolicyExceptions {
  import opened Prelude
  import opened NameSort
  import opened Cidr
  import opened RouteTargets
  import opened RtPolicy
  import opened RtPolicyTheorems

  // ---------------------------------------------------------------- sites without a legacy reference

  /** No gateway of this name sets openstackCloudOSORef; the play that lists gateways writes it as "" then. */
  ghost predicate NoLegacyReference(inp: Inputs, name: string) {
    forall s :: s in Sites(inp) && s.name == name ==> s.legacyCloudOSO.GetOr("") == ""
  }

  ghost predicate ByCloudRef(inp: Inputs, p: Placement, name: string) {
    p.kind == OpenStack && exists s :: s in Sites(inp) && s.name == name && RefersTo(inp, p, s.site)
  }

  /** Every placement that puts a route target on the site is bound to it by cloudRef. */
  ghost predicate OnlyByCloudRef(inp: Inputs, name: string) {
    forall p :: p in inp.placements && SharesOf(ContextOf(inp), p, name) != {} ==> ByCloudRef(inp, p, name)
  }

  /** A live placement of an allow-listed RT whose backend name equals the site's empty legacy field. */
  ghost predicate Nameless(inp: Inputs, p: Placement, rt: string, s: Site) {
    && rt in inp.allowed && Places(inp, p, rt) && p.kind == OpenStack
    && p.backend == s.legacyCloudOSO && forall infra :: !RefersTo(inp, p, infra)
  }

  lemma ShareExact(inp: Inputs, p: Placement, rt: string, s: Site)
    requires DistinctNetworks(inp.networks) && DistinctCloudOSOs(inp.cloudosos) && p in inp.placements
    ensures rt in SiteShare(ContextOf(inp), p, s) <==> rt in inp.allowed && Places(inp, p, rt) && OnSite(inp, p, s)
  {
    CarriedExact(inp, p, rt);
    if p.kind == OpenStack { BoundExact(inp, p, s); }
  }

  lemma SharesExact(inp: Inputs, p: Placement, rt: string, name: string)
    requires DistinctNetworks(inp.networks) && DistinctCloudOSOs(inp.cloudosos) && p in inp.placements
    ensures rt in SharesOf(ContextOf(inp), p, name) <==>
      exists s :: s in Sites(inp) && s.name == name && rt in inp.allowed && Places(inp, p, rt) && OnSite(inp, p, s)
  {
    var c := ContextOf(inp);
    forall s { ShareExact(inp, p, rt, s); }
    if s :| s in Sites(inp) && s.name == name && rt in inp.allowed && Places(inp, p, rt) && OnSite(inp, p, s) {
      assert s in c.sites && rt in SiteShare(c, p, s);
    }
  }

  /**
   * A site whose gateway sets no legacy reference is meant to be reached by cloudRef only. It is,
   * exactly when no live placement of an allow-listed RT has a backend name equal to that empty
   * field and a CloudOSO without cloudRef, or none at all.
   */
  lemma OnlyByCloudRefExact(inp: Inputs, name: string)
    requires DistinctNetworks(inp.networks) && DistinctCloudOSOs(inp.cloudosos)
    requires NoLegacyReference(inp, name)
    ensures OnlyByCloudRef(inp, name) <==>
      !exists p, rt, s :: s in Sites(inp) && s.name == name && Nameless(inp, p, rt, s)
    ensures forall p, rt, s :: s in Sites(inp) && s.name == name && Nameless(inp, p, rt, s) ==>
      p.backend.GetOr("") == "" && rt in SitePeers(inp, s).rts
  {
    forall p, rt, s | s in Sites(inp) && s.name == name && Nameless(inp, p, rt, s)
      ensures rt in SharesOf(ContextOf(inp), p, name) && !ByCloudRef(inp, p, name)
      ensures rt in SitePeers(inp, s).rts
    {
      SharesExact(inp, p, rt, name);
      SiteIsolationExact(inp, name, rt);
    }
    if !exists p, rt, s :: s in Sites(inp) && s.name == name && Nameless(inp, p, rt, s) {
      forall p | p in inp.placements && SharesOf(ContextOf(inp), p, name) != {} ensures ByCloudRef(inp, p, name) {
        var rt :| rt in SharesOf(ContextOf(inp), p, name);
        SharesExact(inp, p, rt, name);
        var s :| s in Sites(inp) && s.name == name && rt in inp.allowed && Places(inp, p, rt) && OnSite(inp, p, s);
        assert !Nameless(inp, p, rt, s);
      }
    }
  }

  /** One gateway of any site without a legacy reference, and one placement whose backend name is "". */
  function EmptyNames(rt: string, cidr: Block, site: string): Inputs {
    Inputs("f", None, None, {rt},
           [Gateway("edge", Some(cidr), site, Some(""))],
           [Placement("ns", "net", false, false, OpenStack, Some(""))],
           [Network("ns", "net", "f", rt)], [], 0, None)
  }

  lemma EmptyNamesSites(rt: string, cidr: Block, site: string)
    ensures Sites(EmptyNames(rt, cidr, site)) == [Site("edge", cidr, site, Some(""))]
  {
    var gs := EmptyNames(rt, cidr, site).gateways;
    assert gs[..0] == [] && gs[1..] == [] && SortBy(GatewayName, gs) == gs;
    assert KeptSites(gs[..0]) == [];
  }

  /** The two empty names are equal, so the site gets the placement's RT although nothing refers to it. */
  lemma EmptyNamesBind(rt: string, cidr: Block, site: string)
    requires rt != ""
    ensures var inp := EmptyNames(rt, cidr, site);
      NoLegacyReference(inp, "edge") && !OnlyByCloudRef(inp, "edge") && |Groups(inp)| == 2 && rt in Groups(inp)[1].rts
  {
    var inp := EmptyNames(rt, cidr, site);
    EmptyNamesSites(rt, cidr, site);
    var p, n, s := inp.placements[0], inp.networks[0], Site("edge", cidr, site, Some(""));
    assert n in inp.networks && Numbered(inp.fabric, n) && p in inp.placements;
    assert Nameless(inp, p, rt, s);
    OnlyByCloudRefExact(inp, "edge");
    GroupsInOrder(inp);
    assert s in Sites(inp) && Groups(inp)[0 + 1] == SitePeers(inp, Sites(inp)[0]);
  }

  // ---------------------------------------------------------------- group names, by gateway names

  function DashedName(g: Gateway): string { PgName("", g.name) }

  /** No two gateway names are equal up to replaced characters. */
  ghost predicate GatewaysTellApart(gs: seq<Gateway>) {
    forall i, j :: 0 <= i < j < |gs| ==> !SameUpToDashes(gs[i].name, gs[j].name)
  }

  /** The same gateways with other site CIDRs. */
  function WithCidrs(inp: Inputs, cidrs: seq<Option<Block>>): Inputs
    requires |cidrs| == |inp.gateways|
  {
    inp.(gateways := seq(|cidrs|, i requires 0 <= i < |cidrs| => inp.gateways[i].(siteCidr := cidrs[i])))
  }

  lemma TellApartDistinct(gs: seq<Gateway>)
    ensures GatewaysTellApart(gs) <==> DistinctBy(DashedName, gs)
  {
    forall i, j | 0 <= i < j < |gs| ensures SameUpToDashes(gs[i].name, gs[j].name) <==> DashedName(gs[i]) == DashedName(gs[j]) {
      PgNameCollision("", gs[i].name, gs[j].name);
    }
  }

  lemma {:induction false} KeptTellApart(gs: seq<Gateway>)
    requires GatewaysTellApart(gs)
    ensures SitesTellApart(KeptSites(gs))
  {
    if gs == [] {
    } else {
      var n := |gs| - 1;
      var kept := KeptSites(gs[..n]);
      KeptTellApart(gs[..n]);
      forall i | 0 <= i < |kept| ensures !SameUpToDashes(kept[i].name, gs[n].name) {
        KeptSitesMembers(gs[..n], kept[i]);
        var k :| 0 <= k < n && KeptAt(gs[..n], k) && kept[i] == SiteOf(gs[..n][k]);
        assert gs[..n][k] == gs[k];
      }
    }
  }

  lemma SortedTellApart(gs: seq<Gateway>)
    requires GatewaysTellApart(gs)
    ensures GatewaysTellApart(SortBy(GatewayName, gs))
  {
    TellApartDistinct(gs);
    SortBySorts(GatewayName, gs);
    DistinctPermuted(DashedName, gs, SortBy(GatewayName, gs));
    TellApartDistinct(SortBy(GatewayName, gs));
  }

  lemma NamesDifferWhenApart(inp: Inputs)
    requires GatewaysTellApart(inp.gateways)
    ensures NamesDiffer(Groups(inp))
  {
    SortedTellApart(inp.gateways);
    KeptTellApart(SortBy(GatewayName, inp.gateways));
    GroupNamesDistinctExact(inp);
  }

  // 10.132.0.0/14 and 172.31.0.0/16: two site underlays that do not overlap.
  const FIRST_CIDR: Block := (BlockSizes(); Prefix(0x0A84_0000, 14))
  const SECOND_CIDR: Block := (BlockSizes(); Prefix(0xAC1F_0000, 16))

  lemma CidrsApart()
    ensures !Overlaps(FIRST_CIDR, SECOND_CIDR) && FIRST_CIDR != SECOND_CIDR
  {
    BlockSizes();
  }

  /** Site CIDRs for two gateways, none for the others. */
  function TwoCidrs(n: nat, i: nat, j: nat): seq<Option<Block>> {
    seq(n, k => if k == i then Some(FIRST_CIDR) else if k == j then Some(SECOND_CIDR) else None)
  }

  lemma KeptAmongTwo(gs: seq<Gateway>, g: Gateway, other: Gateway)
    requires g in gs && g.siteCidr.Some? && other.siteCidr.Some? && !Overlaps(other.siteCidr.value, g.siteCidr.value)
    requires forall x :: x in gs && x.siteCidr.Some? ==> x == g || x == other
    ensures SiteOf(g) in KeptSites(gs)
  {
    var i :| 0 <= i < |gs| && gs[i] == g;
    LeftOutExact(gs, i);
    if KeptAt(gs, i) {
      KeptSitesMembers(gs, SiteOf(g));
    } else {
      var j :| 0 <= j < i && KeptAt(gs, j) && Overlaps(gs[j].siteCidr.value, gs[i].siteCidr.value);
      assert gs[j] in gs && gs[j] == g;
      KeptSitesMembers(gs, SiteOf(g));
    }
  }

  lemma OnlyTwo(inp: Inputs, i: nat, j: nat)
    requires i < j < |inp.gateways|
    ensures var gs := WithCidrs(inp, TwoCidrs(|inp.gateways|, i, j)).gateways;
      && gs[i].siteCidr == Some(FIRST_CIDR) && gs[j].siteCidr == Some(SECOND_CIDR)
      && forall x :: x in gs && x.siteCidr.Some? ==> x == gs[i] || x == gs[j]
  {
    var gs := WithCidrs(inp, TwoCidrs(|inp.gateways|, i, j)).gateways;
    forall x | x in gs && x.siteCidr.Some? ensures x == gs[i] || x == gs[j] {
      var k :| 0 <= k < |gs| && gs[k] == x;
    }
  }

  lemma SortedMembers(gs: seq<Gateway>)
    ensures forall x :: x in SortBy(GatewayName, gs) <==> x in gs
  {
    SortBySorts(GatewayName, gs);
    forall x ensures x in SortBy(GatewayName, gs) <==> x in gs {
      assert x in multiset(SortBy(GatewayName, gs)) <==> x in multiset(gs);
    }
  }

  lemma BothKept(inp: Inputs, i: nat, j: nat)
    requires i < j < |inp.gateways|
    ensures var other := WithCidrs(inp, TwoCidrs(|inp.gateways|, i, j));
      SiteOf(other.gateways[i]) in Sites(other) && SiteOf(other.gateways[j]) in Sites(other)
  {
    var other := WithCidrs(inp, TwoCidrs(|inp.gateways|, i, j));
    var gs, a, b := SortBy(GatewayName, other.gateways), other.gateways[i], other.gateways[j];
    OnlyTwo(inp, i, j);
    SortedMembers(other.gateways);
    assert a in other.gateways && b in other.gateways;
    CidrsApart();
    KeptAmongTwo(gs, a, b);
    KeptAmongTwo(gs, b, a);
  }

  /** Gateways whose names agree up to replaced characters clash whenever both CIDRs are fine and disjoint. */
  lemma ClashingNames(inp: Inputs, i: nat, j: nat)
    requires i < j < |inp.gateways| && SameUpToDashes(inp.gateways[i].name, inp.gateways[j].name)
    ensures !NamesDiffer(Groups(WithCidrs(inp, TwoCidrs(|inp.gateways|, i, j))))
  {
    var other := WithCidrs(inp, TwoCidrs(|inp.gateways|, i, j));
    BothKept(inp, i, j);
    CidrsApart();
    var sites, s, t := Sites(other), SiteOf(other.gateways[i]), SiteOf(other.gateways[j]);
    assert s != t;
    var k :| 0 <= k < |sites| && sites[k] == s;
    var l :| 0 <= l < |sites| && sites[l] == t;
    assert k != l && SameUpToDashes(s.name, t.name) && SameUpToDashes(t.name, s.name);
    GroupNamesDistinctExact(other);
  }

  /** Group names differ whatever the site CIDRs are, exactly when no two gateway names agree up to replaced characters. */
  lemma GroupNamesSafeExact(inp: Inputs)
    ensures GatewaysTellApart(inp.gateways) <==>
      forall cidrs: seq<Option<Block>> :: |cidrs| == |inp.gateways| ==> NamesDiffer(Groups(WithCidrs(inp, cidrs)))
  {
    if GatewaysTellApart(inp.gateways) {
      forall cidrs: seq<Option<Block>> | |cidrs| == |inp.gateways| ensures NamesDiffer(Groups(WithCidrs(inp, cidrs))) {
        NamesDifferWhenApart(WithCidrs(inp, cidrs));
      }
    } else {
      var i, j :| 0 <= i < j < |inp.gateways| && SameUpToDashes(inp.gateways[i].name, inp.gateways[j].name);
      ClashingNames(inp, i, j);
      assert |TwoCidrs(|inp.gateways|, i, j)| == |inp.gateways|;
    }
  }

  /** `site.a` and `site-a` on disjoint underlays are both accepted and get one group name. */
  lemma DottedGatewaysClash()
    ensures var gs := [Gateway("site.a", Some(FIRST_CIDR), "", Some(""))] + [Gateway("site-a", Some(SECOND_CIDR), "", Some(""))];
      !NamesDiffer(Groups(Inputs("f", None, None, {}, gs, [], [], [], 0, None)))
  {
    var gs := [Gateway("site.a", Some(FIRST_CIDR), "", Some(""))] + [Gateway("site-a", Some(SECOND_CIDR), "", Some(""))];
    var inp := Inputs("f", None, None, {}, gs, [], [], [], 0, None);
    PgNameNotInjective();
    PgNameCollision("SITE-", "site.a", "site-a");
    ClashingNames(inp, 0, 1);
    assert WithCidrs(inp, TwoCidrs(2, 0, 1)).gateways == gs;
  }
}
