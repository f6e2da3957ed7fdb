/** The NetConfig half of edpm_fabric_patch.py: the `fabric` network and the patch that installs it. */
module NetConfigPatch {
  import opened Prelude
  import opened Cidr
  import opened Numerals
  import opened JsonMerge

  datatype Params = Params(network: string, subnet: string, cidr: Block, mtu: int, gateway: string, asn: int,
                           loopback: string, routes: seq<string>, nftSources: seq<string>,
                           startOffset: nat, endOffset: nat, iface: string)

  /** Address arithmetic past the IPv4 space raises before anything is computed. */
  predicate ValidParams(p: Params) {
    && p.cidr.net + p.startOffset < 0x1_0000_0000 && p.cidr.net + p.endOffset < 0x1_0000_0000
    && 1 <= Broadcast(p.cidr) < 0x1_0000_0000
  }

  function AllocStart(p: Params): nat {
    p.cidr.net + p.startOffset
  }

  function AllocEnd(p: Params): nat
    requires ValidParams(p)
  {
    var end := p.cidr.net + p.endOffset;
    if end <= Broadcast(p.cidr) - 1 then end else Broadcast(p.cidr) - 1
  }

  // ---------------------------------------------------------------- the desired network

  predicate IsOwn(p: Params, net: Json) {
    Lower(Text(Field(net, "name"))) == Lower(p.network)
  }

  /** The domain of the first other network that has a dotted one, without its first label. */
  function BaseDomain(p: Params, nets: seq<Json>): string {
    if nets == [] then ""
    else if '.' in Text(Field(nets[0], "dnsDomain")) && !IsOwn(p, nets[0])
    then Partition(Text(Field(nets[0], "dnsDomain")), '.').1
    else BaseDomain(p, nets[1..])
  }

  function Routes(p: Params): seq<Json> {
    seq(|p.routes|, i requires 0 <= i < |p.routes| =>
      Obj(map["destination" := Str(p.routes[i]), "nexthop" := Str(p.gateway)]))
  }

  function Subnet(p: Params): Json
    requires ValidParams(p)
  {
    AllocFits(p);
    Obj(map["name" := Str(p.subnet),
            "cidr" := Str(Dotted(p.cidr.net) + "/" + Decimal(p.cidr.len)),
            "allocationRanges" := Arr([Obj(map["start" := Str(Dotted(AllocStart(p))), "end" := Str(Dotted(AllocEnd(p)))])]),
            "routes" := Arr(Routes(p))])
  }

  lemma AllocFits(p: Params)
    requires ValidParams(p)
    ensures p.cidr.net <= Broadcast(p.cidr) && AllocStart(p) < 0x1_0000_0000 && AllocEnd(p) < 0x1_0000_0000
  {
  }

  /** `desired_network`. */
  function DesiredNetwork(p: Params, nets: seq<Json>): Json
    requires ValidParams(p)
  {
    var base := BaseDomain(p, nets);
    Obj(map["name" := Str(p.network),
            "dnsDomain" := Str(if base == "" then p.network else p.network + "." + base),
            "mtu" := Num(p.mtu),
            "serviceNetwork" := Str(p.network),
            "subnets" := Arr([Subnet(p)])])
  }

  // ---------------------------------------------------------------- the patch

  function Networks(netconfig: Json): seq<Json> {
    Items(Field(Field(netconfig, "spec"), "networks"))
  }

  predicate Differs(cur: Json, desired: Json) {
    || !PyEqual(Field(cur, "dnsDomain"), Field(desired, "dnsDomain"))
    || !PyEqual(Field(cur, "mtu"), Field(desired, "mtu"))
    || !PyEqual(Field(cur, "subnets"), Field(desired, "subnets"))
  }

  /** Position of the first network of this name, or the length of the list. */
  function FirstOwn(p: Params, nets: seq<Json>): (i: nat)
    ensures i <= |nets|
  {
    if nets == [] || IsOwn(p, nets[0]) then 0 else 1 + FirstOwn(p, nets[1..])
  }

  /** The list with its first own network replaced, or with the network appended. */
  function WithNetwork(p: Params, nets: seq<Json>, desired: Json): seq<Json> {
    var i := FirstOwn(p, nets);
    if i < |nets| then nets[i := desired] else nets + [desired]
  }

  function NetConfigChanged(p: Params, netconfig: Json): bool
    requires ValidParams(p)
  {
    var nets := Networks(netconfig);
    var i := FirstOwn(p, nets);
    i == |nets| || Differs(nets[i], DesiredNetwork(p, nets))
  }

  /** `meta`. */
  function Meta(obj: Json): Json {
    var metadata := Field(obj, "metadata");
    Obj(map["name" := Field(metadata, "name"), "namespace" := Field(metadata, "namespace")])
  }

  /** The patch file of an object: what identifies it, and the new spec members. */
  function PatchFile(obj: Json, spec: map<string, Json>): map<string, Json> {
    map["apiVersion" := Field(obj, "apiVersion"), "kind" := Field(obj, "kind"), "metadata" := Meta(obj), "spec" := Obj(spec)]
  }

  function NetConfigPatchOf(p: Params, netconfig: Json): Json
    requires ValidParams(p)
  {
    var nets := Networks(netconfig);
    Obj(PatchFile(netconfig, map["networks" := Arr(WithNetwork(p, nets, DesiredNetwork(p, nets)))]))
  }

  method FindBaseDomain(p: Params, nets: seq<Json>) returns (base: string)
    ensures base == BaseDomain(p, nets)
  {
    base := "";
    for i := 0 to |nets|
      invariant BaseDomain(p, nets[i..]) == BaseDomain(p, nets) && base == ""
    {
      assert nets[i..][1..] == nets[i + 1..];
      var dd := Text(Field(nets[i], "dnsDomain"));
      if '.' in dd && !IsOwn(p, nets[i]) {
        return Partition(dd, '.').1;
      }
    }
  }

  /** netconfig mode: the patch to write, if any. */
  method ComputeNetConfig(p: Params, netconfig: Json) returns (patch: Option<Json>)
    requires ValidParams(p)
    ensures patch == if NetConfigChanged(p, netconfig) then Some(NetConfigPatchOf(p, netconfig)) else None
  {
    var networks := Networks(netconfig);
    var base := FindBaseDomain(p, networks);
    var desired := Obj(map["name" := Str(p.network),
                           "dnsDomain" := Str(if base == "" then p.network else p.network + "." + base),
                           "mtu" := Num(p.mtu),
                           "serviceNetwork" := Str(p.network),
                           "subnets" := Arr([Subnet(p)])]);
    var i := FirstOwn(p, networks);
    var changed := true;
    if i < |networks| {
      changed := Differs(networks[i], desired);
    }
    patch := None;
    if changed {
      networks := if i < |networks| then networks[i := desired] else networks + [desired];
      patch := Some(Obj(map["apiVersion" := Field(netconfig, "apiVersion"), "kind" := Field(netconfig, "kind"),
                            "metadata" := Meta(netconfig), "spec" := Obj(map["networks" := Arr(networks)])]));
    }
  }

  // ---------------------------------------------------------------- fixed point

  function NetConfigStep(p: Params, netconfig: Json): Json
    requires ValidParams(p)
  {
    if NetConfigChanged(p, netconfig) then MergePatch(netconfig, NetConfigPatchOf(p, netconfig)) else netconfig
  }

  lemma {:induction false} FirstOwnExact(p: Params, nets: seq<Json>, i: nat)
    requires i <= |nets|
    requires forall j :: 0 <= j < i ==> !IsOwn(p, nets[j])
    requires i < |nets| ==> IsOwn(p, nets[i])
    ensures FirstOwn(p, nets) == i
  {
    if i == 0 {
    } else {
      assert forall j :: 0 <= j < i - 1 ==> nets[1..][j] == nets[j + 1];
      FirstOwnExact(p, nets[1..], i - 1);
    }
  }

  lemma {:induction false} FirstOwnFound(p: Params, nets: seq<Json>)
    ensures var i := FirstOwn(p, nets);
      (forall j :: 0 <= j < i ==> !IsOwn(p, nets[j])) && (i < |nets| ==> IsOwn(p, nets[i]))
  {
    if nets == [] || IsOwn(p, nets[0]) {
    } else {
      FirstOwnFound(p, nets[1..]);
      forall j | 0 <= j < FirstOwn(p, nets) ensures !IsOwn(p, nets[j]) {
        if j > 0 { assert nets[j] == nets[1..][j - 1]; }
      }
    }
  }

  lemma TailOf(a: seq<Json>, b: seq<Json>, c: seq<Json>)
    requires a != []
    ensures (a + b + c)[0] == a[0] && (a + b + c)[1..] == a[1..] + b + c
  {
  }

  /** The base domain comes from the other networks only. */
  lemma {:induction false} BaseDomainSkipsOwn(p: Params, front: seq<Json>, x: seq<Json>, y: seq<Json>, back: seq<Json>)
    requires forall n :: n in x + y ==> IsOwn(p, n)
    ensures BaseDomain(p, front + x + back) == BaseDomain(p, front + y + back)
  {
    if front != [] {
      TailOf(front, x, back);
      TailOf(front, y, back);
      BaseDomainSkipsOwn(p, front[1..], x, y, back);
    } else {
      OwnPrefix(p, x, back);
      OwnPrefix(p, y, back);
      assert front + x + back == x + back && front + y + back == y + back;
    }
  }

  lemma {:induction false} OwnPrefix(p: Params, x: seq<Json>, back: seq<Json>)
    requires forall n :: n in x ==> IsOwn(p, n)
    ensures BaseDomain(p, x + back) == BaseDomain(p, back)
  {
    if x == [] {
      assert x + back == back;
    } else {
      assert (x + back)[1..] == x[1..] + back;
      OwnPrefix(p, x[1..], back);
    }
  }

  lemma PatchedNetworks(p: Params, netconfig: Json)
    requires ValidParams(p) && NetConfigChanged(p, netconfig)
    ensures Networks(NetConfigStep(p, netconfig)) == WithNetwork(p, Networks(netconfig), DesiredNetwork(p, Networks(netconfig)))
  {
    var nets := Networks(netconfig);
    var inner := map["networks" := Arr(WithNetwork(p, nets, DesiredNetwork(p, nets)))];
    MergeField(netconfig, PatchFile(netconfig, inner), "spec");
    MergeField(Field(netconfig, "spec"), inner, "networks");
  }

  lemma ReplacedBaseDomain(p: Params, nets: seq<Json>, desired: Json, i: nat)
    requires i < |nets| && IsOwn(p, nets[i]) && IsOwn(p, desired)
    ensures BaseDomain(p, nets[i := desired]) == BaseDomain(p, nets)
  {
    BaseDomainSkipsOwn(p, nets[..i], [nets[i]], [desired], nets[i + 1..]);
    assert nets == nets[..i] + [nets[i]] + nets[i + 1..];
    assert nets[i := desired] == nets[..i] + [desired] + nets[i + 1..];
  }

  lemma AppendedBaseDomain(p: Params, nets: seq<Json>, desired: Json)
    requires IsOwn(p, desired)
    ensures BaseDomain(p, nets + [desired]) == BaseDomain(p, nets)
  {
    BaseDomainSkipsOwn(p, nets, [], [desired], []);
    assert nets == nets + [] + [];
    assert nets + [desired] == nets + [desired] + [];
  }

  lemma SameBaseDomain(p: Params, nets: seq<Json>, desired: Json)
    requires IsOwn(p, desired)
    ensures BaseDomain(p, WithNetwork(p, nets, desired)) == BaseDomain(p, nets)
  {
    var i := FirstOwn(p, nets);
    FirstOwnFound(p, nets);
    if i < |nets| { ReplacedBaseDomain(p, nets, desired, i); } else { AppendedBaseDomain(p, nets, desired); }
  }

  /** Every other network is untouched and keeps its place; a missing network is added at the end. */
  lemma NetConfigFramesTheRest(p: Params, netconfig: Json)
    requires ValidParams(p)
    ensures var nets, after := Networks(netconfig), Networks(NetConfigStep(p, netconfig));
      && (forall i :: 0 <= i < |nets| && i != FirstOwn(p, nets) ==> i < |after| && after[i] == nets[i])
      && |after| == |nets| + (if FirstOwn(p, nets) == |nets| then 1 else 0)
      && (NetConfigChanged(p, netconfig) ==> after[FirstOwn(p, nets)] == DesiredNetwork(p, nets))
  {
    if NetConfigChanged(p, netconfig) {
      PatchedNetworks(p, netconfig);
    }
  }

  lemma InstalledNetwork(p: Params, nets: seq<Json>)
    requires ValidParams(p)
    ensures var after := WithNetwork(p, nets, DesiredNetwork(p, nets));
      && FirstOwn(p, after) < |after| && after[FirstOwn(p, after)] == DesiredNetwork(p, nets)
      && DesiredNetwork(p, after) == DesiredNetwork(p, nets)
  {
    var desired := DesiredNetwork(p, nets);
    SameBaseDomain(p, nets, desired);
    FirstOwnFound(p, nets);
    FirstOwnExact(p, WithNetwork(p, nets, desired), FirstOwn(p, nets));
  }

  lemma NoDifference(net: Json)
    ensures !Differs(net, net)
  {
  }

  /** Applying the patch settles the NetConfig: recomputing wants the same network and reports no change. */
  lemma NetConfigSettles(p: Params, netconfig: Json)
    requires ValidParams(p)
    ensures !NetConfigChanged(p, NetConfigStep(p, netconfig))
    ensures DesiredNetwork(p, Networks(NetConfigStep(p, netconfig))) == DesiredNetwork(p, Networks(netconfig))
  {
    if NetConfigChanged(p, netconfig) {
      PatchedNetworks(p, netconfig);
      InstalledNetwork(p, Networks(netconfig));
      NoDifference(DesiredNetwork(p, Networks(netconfig)));
    }
  }
}
