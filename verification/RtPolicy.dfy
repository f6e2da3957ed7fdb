/**
 * `plan` of bgw_rt_policy.py: one FRR peer-group per site, its listen ranges and the route
 * targets it may exchange.
 */
module RtPolicy {
  import opened Prelude
  import opened NameSort
  import opened Cidr
  import opened Carving
  import opened Collapse
  import opened RouteTargets

  // ---------------------------------------------------------------- inputs

  /** A HybridNetwork; an empty `fabric` or `rt` stands for a status field that is not set. */
  datatype Network = Network(namespace: string, name: string, fabric: string, rt: string)

  /** A CloudOSO; an empty `cloudRef` stands for none. */
  datatype CloudOSO = CloudOSO(namespace: string, name: string, cloudRef: string)

  /** A WireGuard CloudGateway; no `siteCidr` when it is missing or does not parse. */
  datatype Gateway = Gateway(name: string, siteCidr: Option<Block>, site: string, legacyCloudOSO: Option<string>)

  datatype BackendKind = CloudVirt | PlatformOpenshift | OpenStack | OtherKind

  datatype Placement = Placement(namespace: string, network: string, deleting: bool, absent: bool,
                                 kind: BackendKind, backend: Option<string>)

  datatype Inputs = Inputs(fabric: string, underlay: Option<Block>, tunnel: Option<Block>, allowed: set<string>,
                           gateways: seq<Gateway>, placements: seq<Placement>, networks: seq<Network>,
                           cloudosos: seq<CloudOSO>, l2Offset: nat, hubBlock: Option<Block>)

  // ---------------------------------------------------------------- outputs

  datatype Site = Site(name: string, cidr: Block, site: string, legacyCloudOSO: Option<string>)

  datatype GroupKind = HubGroup | SiteGroup | TunnelGroup

  datatype Group = Group(name: string, kind: GroupKind, ranges: seq<Block>, rts: set<string>, gateway: string)

  datatype PolicyError =
    | BadSiteCidr(gateway: string)
    | SiteOverlap(gateway: string, cidr: Block, keptSite: string)
    | HubBlockOutside(hubBlock: Block)
    | TunnelOverlap(tunnel: Block)

  datatype Policy = Policy(groups: seq<Group>, spokes: seq<Block>, errors: seq<PolicyError>)

  // ---------------------------------------------------------------- lookup tables

  type Key = (string, string)

  function NetworkKey(n: Network): Key { (n.namespace, n.name) }

  function CloudOSOKey(o: CloudOSO): Key { (o.namespace, o.name) }

  /** The network belongs to the fabric (an unset status.fabric passes) and has a canonical RT. */
  predicate Numbered(fabric: string, n: Network) {
    (n.fabric == "" || n.fabric == fabric) && n.rt != ""
  }

  function NetworkTable(fabric: string, ns: seq<Network>): map<Key, string> {
    if ns == [] then map[] else
      var n := ns[|ns| - 1];
      var t := NetworkTable(fabric, ns[..|ns| - 1]);
      if Numbered(fabric, n) then t[NetworkKey(n) := n.rt] else t
  }

  function CloudOSOTable(os: seq<CloudOSO>): map<Key, string> {
    if os == [] then map[] else
      var o := os[|os| - 1];
      CloudOSOTable(os[..|os| - 1])[CloudOSOKey(o) := o.cloudRef]
  }

  // ---------------------------------------------------------------- sites

  /** Gateways taken in name order; one whose CIDR overlaps a kept one is dropped. */
  function KeptSites(gs: seq<Gateway>): seq<Site> {
    if gs == [] then [] else
      var kept, g := KeptSites(gs[..|gs| - 1]), gs[|gs| - 1];
      if g.siteCidr.None? || !Misses(g.siteCidr.value, SiteCidrs(kept)) then kept
      else kept + [Site(g.name, g.siteCidr.value, g.site, g.legacyCloudOSO)]
  }

  function SiteCidrs(sites: seq<Site>): seq<Block> {
    seq(|sites|, i requires 0 <= i < |sites| => sites[i].cidr)
  }

  function SiteErrors(gs: seq<Gateway>): seq<PolicyError> {
    if gs == [] then [] else
      var kept, g := KeptSites(gs[..|gs| - 1]), gs[|gs| - 1];
      SiteErrors(gs[..|gs| - 1]) +
      if g.siteCidr.None? then [BadSiteCidr(g.name)]
      else if Misses(g.siteCidr.value, SiteCidrs(kept)) then []
      else [SiteOverlap(g.name, g.siteCidr.value, FirstOverlap(kept, g.siteCidr.value).name)]
  }

  function FirstOverlap(sites: seq<Site>, b: Block): Site
    requires !Misses(b, SiteCidrs(sites))
  {
    if Overlaps(sites[0].cidr, b) then sites[0] else
      assert SiteCidrs(sites) == [sites[0].cidr] + SiteCidrs(sites[1..]);
      FirstOverlap(sites[1..], b)
  }

  function GatewayName(g: Gateway): string { g.name }

  function Sites(inp: Inputs): seq<Site> {
    KeptSites(SortBy(GatewayName, inp.gateways))
  }

  // ---------------------------------------------------------------- route targets

  /** Everything the placement loop reads. */
  datatype Context = Context(nets: map<Key, string>, osos: map<Key, string>, allowed: set<string>,
                             sites: seq<Site>, l2Offset: nat, hubLocalnet: bool)

  function ContextOf(inp: Inputs): Context {
    Context(NetworkTable(inp.fabric, inp.networks), CloudOSOTable(inp.cloudosos), inp.allowed,
            Sites(inp), inp.l2Offset, inp.hubBlock.Some?)
  }

  predicate Live(p: Placement) {
    !p.deleting && !p.absent
  }

  /** The allow-listed RT a live placement carries: at most one. */
  function Carried(c: Context, p: Placement): set<string> {
    var k := (p.namespace, p.network);
    if Live(p) && k in c.nets && c.nets[k] in c.allowed then {c.nets[k]} else {}
  }

  /** The macVRF RT that comes with an RT on a localnet hub: at most one, and allow-listed. */
  function Derived(c: Context, rt: string): set<string> {
    var l2 := L2Rt(rt, c.l2Offset);
    if c.hubLocalnet && c.l2Offset != 0 && l2 != "" && l2 in c.allowed then {l2} else {}
  }

  function HubShare(c: Context, p: Placement): set<string> {
    if p.kind == CloudVirt then Carried(c, p) + (set rt, l2 | rt in Carried(c, p) && l2 in Derived(c, rt) :: l2)
    else if p.kind == PlatformOpenshift then Carried(c, p)
    else {}
  }

  function Infrastructure(c: Context, p: Placement): string {
    if p.backend.Some? && (p.namespace, p.backend.value) in c.osos then c.osos[(p.namespace, p.backend.value)] else ""
  }

  predicate Bound(c: Context, p: Placement, s: Site) {
    var infra := Infrastructure(c, p);
    (infra != "" && s.site == infra) || (infra == "" && s.legacyCloudOSO == p.backend)
  }

  function SiteShare(c: Context, p: Placement, s: Site): set<string> {
    if p.kind == OpenStack && Bound(c, p, s) then Carried(c, p) else {}
  }

  function HubRts(c: Context, ps: seq<Placement>): set<string> {
    set p, rt | p in ps && rt in HubShare(c, p) :: rt
  }

  /** `site_rts[name]`. */
  function SiteRts(c: Context, ps: seq<Placement>, name: string): set<string> {
    set p, s, rt | p in ps && s in c.sites && s.name == name && rt in SiteShare(c, p, s) :: rt
  }

  // ---------------------------------------------------------------- groups

  function HubRanges(inp: Inputs): seq<Block> {
    if inp.underlay.Some? then Carve(inp.underlay.value, SiteCidrs(Sites(inp))) else []
  }

  function HubPeers(inp: Inputs): Group {
    Group("HUB", HubGroup, HubRanges(inp), HubRts(ContextOf(inp), inp.placements), "")
  }

  function SitePeers(inp: Inputs, s: Site): Group {
    Group(PgName("SITE-", s.name), SiteGroup, [s.cidr], SiteRts(ContextOf(inp), inp.placements, s.name), s.name)
  }

  function UnderlayGroups(inp: Inputs): seq<Group> {
    var sites := Sites(inp);
    [HubPeers(inp)] + seq(|sites|, i requires 0 <= i < |sites| => SitePeers(inp, sites[i]))
  }

  function AllRanges(gs: seq<Group>): seq<Block> {
    if gs == [] then [] else AllRanges(gs[..|gs| - 1]) + gs[|gs| - 1].ranges
  }

  predicate TunnelFree(inp: Inputs) {
    inp.tunnel.Some? && Misses(inp.tunnel.value, AllRanges(UnderlayGroups(inp)))
  }

  function Groups(inp: Inputs): seq<Group> {
    UnderlayGroups(inp) + if TunnelFree(inp) then [Group("TUNNEL", TunnelGroup, [inp.tunnel.value], {}, "")] else []
  }

  predicate InsideHubRange(inp: Inputs, b: Block) {
    exists r :: r in HubRanges(inp) && SubnetOf(b, r)
  }

  function Errors(inp: Inputs): seq<PolicyError> {
    SiteErrors(SortBy(GatewayName, inp.gateways))
    + (if inp.hubBlock.Some? && !InsideHubRange(inp, inp.hubBlock.value) then [HubBlockOutside(inp.hubBlock.value)] else [])
    + (if inp.tunnel.Some? && !TunnelFree(inp) then [TunnelOverlap(inp.tunnel.value)] else [])
  }

  function Maybe(b: Option<Block>): seq<Block> {
    if b.Some? then [b.value] else []
  }

  /** The blocks the single-group fallback collapses. */
  function Every(inp: Inputs): seq<Block> {
    Maybe(inp.underlay) + SiteCidrs(Sites(inp)) + Maybe(inp.tunnel)
  }

  ghost predicate IsPolicy(inp: Inputs, out: Policy) {
    out.groups == Groups(inp) && out.errors == Errors(inp) && IsCollapse(Every(inp), out.spokes)
  }

  // ---------------------------------------------------------------- the program

  method BuildNetworkTable(fabric: string, networks: seq<Network>) returns (nets: map<Key, string>)
    ensures nets == NetworkTable(fabric, networks)
  {
    nets := map[];
    for i := 0 to |networks|
      invariant nets == NetworkTable(fabric, networks[..i])
    {
      assert networks[..i + 1][..i] == networks[..i];
      if Numbered(fabric, networks[i]) {
        nets := nets[NetworkKey(networks[i]) := networks[i].rt];
      }
    }
    assert networks[..|networks|] == networks;
  }

  method BuildCloudOSOTable(cloudosos: seq<CloudOSO>) returns (osos: map<Key, string>)
    ensures osos == CloudOSOTable(cloudosos)
  {
    osos := map[];
    for i := 0 to |cloudosos|
      invariant osos == CloudOSOTable(cloudosos[..i])
    {
      assert cloudosos[..i + 1][..i] == cloudosos[..i];
      osos := osos[CloudOSOKey(cloudosos[i]) := cloudosos[i].cloudRef];
    }
    assert cloudosos[..|cloudosos|] == cloudosos;
  }

  method AcceptSites(gs: seq<Gateway>) returns (sites: seq<Site>, errors: seq<PolicyError>)
    ensures sites == KeptSites(gs) && errors == SiteErrors(gs)
  {
    sites, errors := [], [];
    for i := 0 to |gs|
      invariant sites == KeptSites(gs[..i]) && errors == SiteErrors(gs[..i])
    {
      assert gs[..i + 1][..i] == gs[..i];
      var g := gs[i];
      if g.siteCidr.None? {
        errors := errors + [BadSiteCidr(g.name)];
        continue;
      }
      var cidr := g.siteCidr.value;
      if !Misses(cidr, SiteCidrs(sites)) {
        errors := errors + [SiteOverlap(g.name, cidr, FirstOverlap(sites, cidr).name)];
        continue;
      }
      sites := sites + [Site(g.name, cidr, g.site, g.legacyCloudOSO)];
    }
    assert gs[..|gs|] == gs;
  }

  lemma RtsGrow(c: Context, ps: seq<Placement>, p: Placement, name: string)
    ensures HubRts(c, ps + [p]) == HubRts(c, ps) + HubShare(c, p)
    ensures SiteRts(c, ps + [p], name) == SiteRts(c, ps, name) + SiteRts(c, [p], name)
  {
  }

  lemma NoSiteShare(c: Context, p: Placement, name: string)
    requires p.kind != OpenStack || Carried(c, p) == {}
    ensures SiteRts(c, [p], name) == {}
  {
  }

  method HubRtsOf(c: Context, p: Placement, rt: string) returns (share: set<string>)
    requires Carried(c, p) == {rt} && (p.kind == CloudVirt || p.kind == PlatformOpenshift)
    ensures share == HubShare(c, p)
  {
    assert (set r, l2 | r in Carried(c, p) && l2 in Derived(c, r) :: l2) == Derived(c, rt);
    share := {rt};
    if p.kind == CloudVirt && c.hubLocalnet && c.l2Offset != 0 {
      var l2 := L2Rt(rt, c.l2Offset);
      if l2 != "" && l2 in c.allowed {
        share := share + {l2};
      }
    }
  }

  ghost predicate Collected(c: Context, ps: seq<Placement>, bySite: map<string, set<string>>) {
    && bySite.Keys == (set s | s in c.sites :: s.name)
    && forall name :: name in bySite ==> bySite[name] == SiteRts(c, ps, name)
  }

  method CollectRts(c: Context, ps: seq<Placement>) returns (hub: set<string>, bySite: map<string, set<string>>)
    ensures hub == HubRts(c, ps)
    ensures Collected(c, ps, bySite)
  {
    hub := {};
    bySite := map s | s in c.sites :: s.name := {};
    for i := 0 to |ps|
      invariant hub == HubRts(c, ps[..i])
      invariant Collected(c, ps[..i], bySite)
    {
      var p := ps[i];
      assert ps[..i + 1] == ps[..i] + [p];
      forall name { RtsGrow(c, ps[..i], p, name); }
      var key := (p.namespace, p.network);
      if !Live(p) || key !in c.nets || c.nets[key] !in c.allowed {
        forall name { NoSiteShare(c, p, name); }
        continue;
      }
      var rt := c.nets[key];
      if p.kind == CloudVirt || p.kind == PlatformOpenshift {
        forall name { NoSiteShare(c, p, name); }
        var share := HubRtsOf(c, p, rt);
        hub := hub + share;
      } else if p.kind == OpenStack {
        bySite := BindToSites(c, p, rt, bySite);
      } else {
        forall name { NoSiteShare(c, p, name); }
      }
    }
    assert ps[..|ps|] == ps;
  }

  ghost predicate BoundAmong(c: Context, p: Placement, sites: seq<Site>, name: string) {
    exists s :: s in sites && s.name == name && Bound(c, p, s)
  }

  lemma BoundAmongGrows(c: Context, p: Placement, sites: seq<Site>, s: Site, name: string)
    ensures BoundAmong(c, p, sites + [s], name) <==> BoundAmong(c, p, sites, name) || (s.name == name && Bound(c, p, s))
  {
    if t :| t in sites && t.name == name && Bound(c, p, t) { assert t in sites + [s]; }
    assert s in sites + [s];
  }

  lemma OnePlacementRts(c: Context, p: Placement, rt: string, name: string)
    requires p.kind == OpenStack && Carried(c, p) == {rt}
    ensures SiteRts(c, [p], name) == if BoundAmong(c, p, c.sites, name) then {rt} else {}
  {
    if s :| s in c.sites && s.name == name && Bound(c, p, s) {
      assert p in [p] && rt in SiteShare(c, p, s);
    }
  }

  method BindToSites(c: Context, p: Placement, rt: string, bySite: map<string, set<string>>)
    returns (after: map<string, set<string>>)
    requires p.kind == OpenStack && Carried(c, p) == {rt}
    requires forall s :: s in c.sites ==> s.name in bySite
    ensures after.Keys == bySite.Keys
    ensures forall name :: name in bySite ==> after[name] == bySite[name] + SiteRts(c, [p], name)
  {
    after := bySite;
    var infra := Infrastructure(c, p);
    for j := 0 to |c.sites|
      invariant after.Keys == bySite.Keys
      invariant forall name :: name in bySite ==>
        after[name] == if BoundAmong(c, p, c.sites[..j], name) then bySite[name] + {rt} else bySite[name]
    {
      var s := c.sites[j];
      assert s in c.sites;
      assert c.sites[..j + 1] == c.sites[..j] + [s];
      forall name { BoundAmongGrows(c, p, c.sites[..j], s, name); }
      if (infra != "" && s.site == infra) || (infra == "" && s.legacyCloudOSO == p.backend) {
        after := after[s.name := after[s.name] + {rt}];
      }
    }
    assert c.sites[..|c.sites|] == c.sites;
    forall name { OnePlacementRts(c, p, rt, name); }
  }

  method BuildSiteGroups(inp: Inputs, sites: seq<Site>, siteRts: map<string, set<string>>, hub: Group)
    returns (groups: seq<Group>)
    requires sites == Sites(inp) && hub == HubPeers(inp)
    requires forall s :: s in sites ==>
      s.name in siteRts && siteRts[s.name] == SiteRts(ContextOf(inp), inp.placements, s.name)
    ensures groups == UnderlayGroups(inp)
  {
    groups := [hub];
    for i := 0 to |sites|
      invariant groups == UnderlayGroups(inp)[..i + 1]
    {
      var s := sites[i];
      assert s in sites;
      groups := groups + [Group(PgName("SITE-", s.name), SiteGroup, [s.cidr], siteRts[s.name], s.name)];
    }
  }

  /** The tunnel group, or an error when its subnet overlaps a range already listened on. */
  method AddTunnel(inp: Inputs, underlay: seq<Group>, before: seq<PolicyError>) returns (groups: seq<Group>, errors: seq<PolicyError>)
    requires underlay == UnderlayGroups(inp)
    ensures groups == Groups(inp)
    ensures errors == before + if inp.tunnel.Some? && !TunnelFree(inp) then [TunnelOverlap(inp.tunnel.value)] else []
  {
    groups, errors := underlay, before;
    if inp.tunnel.Some? {
      if !Misses(inp.tunnel.value, AllRanges(groups)) {
        errors := errors + [TunnelOverlap(inp.tunnel.value)];
      } else {
        groups := groups + [Group("TUNNEL", TunnelGroup, [inp.tunnel.value], {}, "")];
      }
    }
  }

  /** `plan`. */
  method PlanPolicy(inp: Inputs) returns (out: Policy)
    ensures IsPolicy(inp, out)
  {
    var nets := BuildNetworkTable(inp.fabric, inp.networks);
    var osos := BuildCloudOSOTable(inp.cloudosos);
    var sites, errors := AcceptSites(SortBy(GatewayName, inp.gateways));
    var c := Context(nets, osos, inp.allowed, sites, inp.l2Offset, inp.hubBlock.Some?);
    var hubRts, siteRts := CollectRts(c, inp.placements);
    var hubRanges := [];
    if inp.underlay.Some? {
      hubRanges := CarveBlocks(inp.underlay.value, SiteCidrs(sites));
    }
    if inp.hubBlock.Some? && !(exists r :: r in hubRanges && SubnetOf(inp.hubBlock.value, r)) {
      errors := errors + [HubBlockOutside(inp.hubBlock.value)];
    }
    var groups := BuildSiteGroups(inp, sites, siteRts, Group("HUB", HubGroup, hubRanges, hubRts, ""));
    groups, errors := AddTunnel(inp, groups, errors);
    var spokes := CollapseAddresses(Maybe(inp.underlay) + SiteCidrs(sites) + Maybe(inp.tunnel));
    out := Policy(groups, spokes, errors);
  }
}
