/**
 * The network that netconfig mode wants, member by member, and what its patch does to the NetConfig.
 */
module NetConfigExact {
  import opened Prelude
  import opened Cidr
  import opened Numerals
  import opened JsonMerge
  import opened NetConfigPatch

  // ---------------------------------------------------------------- the fabric network among others

  /** The network, or the node's entry, is the fabric's, whatever the case of its letters. */
  ghost predicate FabricEntry(p: Params, net: Json) {
    var name := Text(Field(net, "name"));
    |name| == |p.network| && forall i :: 0 <= i < |name| ==> SameLetter(name[i], p.network[i])
  }

  lemma FabricEntryExact(p: Params, net: Json)
    ensures IsOwn(p, net) <==> FabricEntry(p, net)
  {
    LowerExact(Text(Field(net, "name")), p.network);
  }

  ghost predicate FirstFabric(p: Params, nets: seq<Json>, i: int) {
    0 <= i < |nets| && FabricEntry(p, nets[i]) && forall j :: 0 <= j < i ==> !FabricEntry(p, nets[j])
  }

  lemma FirstFabricExact(p: Params, nets: seq<Json>, i: int)
    ensures FirstFabric(p, nets, i) <==> 0 <= i == FirstOwn(p, nets) < |nets|
  {
    FirstOwnFound(p, nets);
    forall j | 0 <= j < |nets| { FabricEntryExact(p, nets[j]); }
    if FirstFabric(p, nets, i) { FirstOwnExact(p, nets, i); }
  }

  // ---------------------------------------------------------------- the wanted network

  predicate InAllocation(p: Params, a: int) {
    var net, size := p.cidr.net, Size(p.cidr.len);
    net + p.startOffset <= a <= net + p.endOffset && a <= net + size - 2
  }

  lemma AllocationExact(p: Params, a: int)
    requires ValidParams(p)
    ensures AllocStart(p) <= a <= AllocEnd(p) <==> InAllocation(p, a)
    ensures InAllocation(p, a) ==> 0 <= a < 0x1_0000_0000
  {
    AllocFits(p);
  }

  lemma LastAddress(p: Params)
    requires ValidParams(p)
    ensures var net, size := p.cidr.net, Size(p.cidr.len);
      AllocEnd(p) == if net + p.endOffset <= net + size - 2 then net + p.endOffset else net + size - 2
  {
  }

  /** The range in the wanted subnet: its first and its last address, the last at most the one before broadcast. */
  lemma RangeTexts(p: Params)
    requires ValidParams(p)
    ensures var net, size := p.cidr.net, Size(p.cidr.len);
      var last := if net + p.endOffset <= net + size - 2 then net + p.endOffset else net + size - 2;
      && 0 <= last < 0x1_0000_0000
      && Field(Subnet(p), "allocationRanges") ==
           Arr([Obj(map["start" := Str(Dotted(net + p.startOffset)), "end" := Str(Dotted(last))])])
  {
    AllocFits(p);
    LastAddress(p);
    RangeMember(p, AllocStart(p), AllocEnd(p));
  }

  lemma RangeMember(p: Params, first: nat, last: nat)
    requires ValidParams(p) && first == AllocStart(p) < 0x1_0000_0000 && last == AllocEnd(p) < 0x1_0000_0000
    ensures Field(Subnet(p), "allocationRanges") == Arr([Obj(map["start" := Str(Dotted(first)), "end" := Str(Dotted(last))])])
  {
  }

  /** One route to each destination, all through the gateway. */
  ghost predicate RoutesTo(p: Params, routes: Json) {
    && routes.Arr? && |routes.items| == |p.routes|
    && forall i :: 0 <= i < |p.routes| ==>
         routes.items[i] == Obj(map["destination" := Str(p.routes[i]), "nexthop" := Str(p.gateway)])
  }

  lemma SubnetExact(p: Params)
    requires ValidParams(p)
    ensures var subnet := Subnet(p);
      && Keys(subnet) == {"name", "cidr", "allocationRanges", "routes"}
      && Field(subnet, "name") == Str(p.subnet)
      && Field(subnet, "cidr") == Str(Dotted(p.cidr.net) + "/" + Decimal(p.cidr.len))
      && RoutesTo(p, Field(subnet, "routes"))
  {
    AllocFits(p);
  }

  /** Another network with a dot in its domain. */
  ghost predicate Dotful(p: Params, net: Json) {
    !FabricEntry(p, net) && '.' in Text(Field(net, "dnsDomain"))
  }

  /** The first of them has this domain: a label, a dot and the rest. */
  ghost predicate FirstDomain(p: Params, nets: seq<Json>, front: string, rest: string) {
    && '.' !in front
    && exists i :: 0 <= i < |nets| && Text(Field(nets[i], "dnsDomain")) == front + "." + rest && !FabricEntry(p, nets[i])
                   && forall j :: 0 <= j < i ==> !Dotful(p, nets[j])
  }

  lemma {:induction false} BaseDomainExact(p: Params, nets: seq<Json>, front: string, rest: string)
    ensures (forall j :: 0 <= j < |nets| ==> !Dotful(p, nets[j])) ==> BaseDomain(p, nets) == ""
    ensures FirstDomain(p, nets, front, rest) ==> BaseDomain(p, nets) == rest
  {
    if nets == [] {
    } else {
      FabricEntryExact(p, nets[0]);
      BaseDomainExact(p, nets[1..], front, rest);
      if FirstDomain(p, nets, front, rest) {
        var i :| 0 <= i < |nets| && Text(Field(nets[i], "dnsDomain")) == front + "." + rest && !FabricEntry(p, nets[i])
                 && forall j :: 0 <= j < i ==> !Dotful(p, nets[j]);
        if i == 0 {
          PartitionAt(front, '.', rest);
          assert (front + "." + rest)[|front|] == '.';
        } else {
          assert nets[1..][i - 1] == nets[i];
          assert FirstDomain(p, nets[1..], front, rest);
        }
      }
    }
  }

  /**
   * The wanted network: its domain is its own name, followed by the domain of the first other network
   * that has a dotted one, without that one's first label.
   */
  lemma DesiredNetworkExact(p: Params, nets: seq<Json>, front: string, rest: string)
    requires ValidParams(p)
    ensures var net := DesiredNetwork(p, nets);
      && Keys(net) == {"name", "dnsDomain", "mtu", "serviceNetwork", "subnets"}
      && Field(net, "name") == Str(p.network) && Field(net, "serviceNetwork") == Str(p.network)
      && Field(net, "mtu") == Num(p.mtu) && Field(net, "subnets") == Arr([Subnet(p)])
      && ((forall j :: 0 <= j < |nets| ==> !Dotful(p, nets[j])) ==> Field(net, "dnsDomain") == Str(p.network))
      && (FirstDomain(p, nets, front, rest) ==>
           Field(net, "dnsDomain") == Str(if rest == "" then p.network else p.network + "." + rest))
  {
    BaseDomainExact(p, nets, front, rest);
  }

  // ---------------------------------------------------------------- the patch

  function NetworksOf(netconfig: Json): seq<Json> {
    Items(Field(Field(netconfig, "spec"), "networks"))
  }

  /** What is compared. */
  ghost predicate SameInstalled(a: Json, b: Json) {
    forall k :: k in {"dnsDomain", "mtu", "subnets"} ==> PyEqual(Field(a, k), Field(b, k))
  }

  /** A patch is due exactly when no network is the fabric's, or the first that is differs in what is compared. */
  lemma ChangedExact(p: Params, netconfig: Json)
    requires ValidParams(p)
    ensures var nets := NetworksOf(netconfig);
      !NetConfigChanged(p, netconfig) <==>
        exists i :: FirstFabric(p, nets, i) && SameInstalled(nets[i], DesiredNetwork(p, nets))
  {
    var nets := NetworksOf(netconfig);
    var first, desired := FirstOwn(p, nets), DesiredNetwork(p, nets);
    forall i ensures FirstFabric(p, nets, i) <==> i == first < |nets| { FirstFabricExact(p, nets, i); }
    if first < |nets| { ComparedExact(nets[first], desired); }
  }

  lemma ComparedExact(a: Json, b: Json)
    ensures SameInstalled(a, b) <==> !Differs(a, b)
  {
    var compared := {"dnsDomain", "mtu", "subnets"};
    assert "dnsDomain" in compared && "mtu" in compared && "subnets" in compared;
  }

  /** The patched list: the first fabric network replaced, or the wanted one added at the end; all else stays. */
  lemma InstalledExact(p: Params, netconfig: Json, key: string)
    requires ValidParams(p) && NetConfigChanged(p, netconfig)
    ensures var nets, after := NetworksOf(netconfig), NetConfigStep(p, netconfig);
      && (forall i :: FirstFabric(p, nets, i) ==> NetworksOf(after) == nets[i := DesiredNetwork(p, nets)])
      && ((forall i :: 0 <= i < |nets| ==> !FabricEntry(p, nets[i])) ==> NetworksOf(after) == nets + [DesiredNetwork(p, nets)])
      && (key != "networks" ==> Field(Field(after, "spec"), key) == Field(Field(netconfig, "spec"), key))
      && (key !in {"apiVersion", "kind", "metadata", "spec"} ==> Field(after, key) == Field(netconfig, key))
  {
    var nets := NetworksOf(netconfig);
    PatchedNetworks(p, netconfig);
    forall i { FirstFabricExact(p, nets, i); }
    FirstOwnFound(p, nets);
    if forall i :: 0 <= i < |nets| ==> !FabricEntry(p, nets[i]) {
      forall i | 0 <= i < |nets| { FabricEntryExact(p, nets[i]); }
    }
    NetConfigFrame(p, netconfig, key);
  }

  lemma NetConfigFrame(p: Params, netconfig: Json, key: string)
    requires ValidParams(p) && NetConfigChanged(p, netconfig)
    ensures var after := NetConfigStep(p, netconfig);
      && (key != "networks" ==> Field(Field(after, "spec"), key) == Field(Field(netconfig, "spec"), key))
      && (key !in {"apiVersion", "kind", "metadata", "spec"} ==> Field(after, key) == Field(netconfig, key))
  {
    var inner := map["networks" := Arr(WithNetwork(p, Networks(netconfig), DesiredNetwork(p, Networks(netconfig))))];
    MergeField(netconfig, PatchFile(netconfig, inner), key);
    MergeField(netconfig, PatchFile(netconfig, inner), "spec");
    MergeField(Field(netconfig, "spec"), inner, key);
  }
}
