/** What creating, deleting and patching a network does to lab.json. */
module NetworkSpec {
  import opened Collections
  import opened Text
  import opened LabModel
  import opened LinkSpec

  const LINUX_BRIDGE := "linux_bridge"
  const BRIDGE_CLOUD := "bridge_cloud"

  datatype NetworkResult =
    | Done(lab: Lab, id: int, promoted: bool)
    | Refused(code: int)

  /** How two display names are compared. */
  function NameKey(name: string): string {
    Lower(Strip(name))
  }

  /** Network `n` is visible under the name `key`, and is not the one excluded. */
  predicate Bears(networks: map<int, Network>, n: int, key: string, exclude: Option<int>) {
    n in networks && !networks[n].implicit && exclude != Some(n) && NameKey(networks[n].name) == key
  }

  ghost predicate NameInUse(networks: map<int, Network>, name: string, exclude: Option<int>) {
    NameKey(name) != "" && exists n :: Bears(networks, n, NameKey(name), exclude)
  }

  function KindOr(kind: string): string {
    if kind == "" then LINUX_BRIDGE else kind
  }

  const NAT_CLOUD := "nat_cloud"

  /** What the checks of the request's configuration find: the text of its CIDR,
      the verdict on a NAT-Cloud (`CloudModel` says which), and the host bridge of
      a bridge-cloud. */
  datatype Config = Config(cidrMalformed: bool, cloudRefusal: Option<int>, hostBridgeNamed: bool, hostBridgeExists: bool)

  /** The error of a configuration, by the kind of network. */
  function ConfigRefusal(kind: string, config: Config): Option<int> {
    if kind == NAT_CLOUD then config.cloudRefusal
    else if kind == BRIDGE_CLOUD && !config.hostBridgeNamed then Some(400)
    else if kind == BRIDGE_CLOUD && !config.hostBridgeExists then Some(404)
    else None
  }

  /** `provisioned` says whether the host sets the bridge up; when it does not, the
      record is taken back.  A bridge-cloud has nothing to set up. */
  ghost function CreateNetwork(lab: Lab, name: string, kind: string, config: Config, provisioned: bool): NetworkResult {
    var refusal := ConfigRefusal(KindOr(kind), config);
    if config.cidrMalformed && KindOr(kind) != NAT_CLOUD then Refused(422)
    else if Strip(name) == "" then Refused(422)
    else if NameInUse(lab.networks, Strip(name), None) then Refused(409)
    else if refusal.Some? then Refused(refusal.value)
    else if !provisioned && KindOr(kind) != BRIDGE_CLOUD then Refused(409)
    else
      var id := NextNetworkId(lab.networks);
      var network := Network(Strip(name), KindOr(kind), true, false);
      Done(Lab(lab.networks[id := network], lab.links), id, false)
  }

  /** `shared` says whether another record still borrows this network's cloud. */
  function DeleteNetwork(lab: Lab, id: int, shared: bool): NetworkResult {
    if id !in lab.networks || lab.networks[id].implicit then Refused(404)
    else if Refcount(lab.links, id) > 0 || shared then Refused(409)
    else Done(Lab(Without(lab.networks, id), lab.links), id, false)
  }

  datatype NamePatch = Keep | Null | To(name: string)
  datatype ConfigPatch = Untouched | Plain | SetsHostBridge

  /** The fields of a PATCH body that matter here; `managed` is set when it
      names one of the service-managed fields. */
  datatype Patch = Patch(name: NamePatch, kind: Option<string>, visible: Option<bool>,
                         config: ConfigPatch, managed: bool)

  /** The record after the name part of a patch. */
  function Renamed(network: Network, patch: NamePatch): Network {
    match patch
    case To(name) =>
      if Strip(name) != "" && network.implicit
      then network.(name := Strip(name), implicit := false, visible := true)
      else network.(name := Strip(name))
    case _ => network
  }

  ghost function NameRefusal(networks: map<int, Network>, id: int, patch: NamePatch): Option<int>
    requires id in networks
  {
    match patch
    case Keep => None
    case Null => if networks[id].implicit then None else Some(422)
    case To(name) =>
      if Strip(name) != "" && NameInUse(networks, Strip(name), Some(id)) then Some(409) else None
  }

  /** PATCH is not the way to make, retarget or unmake a host-owned bridge. */
  predicate FieldsRefused(network: Network, patch: Patch) {
    var kind := KindOr(network.kind);
    || (patch.kind.Some? && patch.kind.value != kind
        && (patch.kind.value == BRIDGE_CLOUD || kind == BRIDGE_CLOUD))
    || (patch.config.SetsHostBridge? && kind != BRIDGE_CLOUD)
    || (kind == BRIDGE_CLOUD && !patch.config.Untouched?)
    || patch.managed
  }

  function WithFields(network: Network, patch: Patch): Network {
    network.(kind := if patch.kind.Some? then patch.kind.value else network.kind,
             visible := if patch.visible.Some? then patch.visible.value else network.visible)
  }

  ghost function PatchNetwork(lab: Lab, id: int, patch: Patch): NetworkResult {
    if id !in lab.networks then Refused(404)
    else
      var refusal := NameRefusal(lab.networks, id, patch.name);
      if refusal.Some? then Refused(refusal.value)
      else
        var renamed := Renamed(lab.networks[id], patch.name);
        if FieldsRefused(renamed, patch) then Refused(422)
        else
          Done(Lab(lab.networks[id := WithFields(renamed, patch)], lab.links), id,
               lab.networks[id].implicit && !renamed.implicit)
  }

  // ---------------------------------------------------------------------
  // The invariant of the topology
  // ---------------------------------------------------------------------

  /** Replacing records without making any network implicit, and without taking
      one away, keeps the invariant. */
  lemma {:induction false} RecordsKeepInv(lab: Lab, networks: map<int, Network>)
    requires Inv(lab)
    requires PositiveIds(networks)
    requires forall n :: n in lab.networks ==> n in networks
    requires forall n :: IsImplicit(networks, n) ==> IsImplicit(lab.networks, n)
    ensures Inv(Lab(networks, lab.links))
  {
    var made := Lab(networks, lab.links);
    forall i | 0 <= i < |lab.links|
      ensures EndExists(networks, lab.links[i].src) && EndExists(networks, lab.links[i].dst)
      ensures BridgesExplicit(networks, lab.links[i])
    {
      assert EndExists(lab.networks, lab.links[i].src) && EndExists(lab.networks, lab.links[i].dst);
      assert BridgesExplicit(lab.networks, lab.links[i]);
    }
    assert NoDangling(made) && BridgesJoinOrdinary(made);
    assert ImplicitPaired(made);
  }

  lemma {:induction false} CreateNetworkKeepsInv(lab: Lab, name: string, kind: string, config: Config, provisioned: bool)
    requires Inv(lab)
    requires CreateNetwork(lab, name, kind, config, provisioned).Done?
    ensures Inv(CreateNetwork(lab, name, kind, config, provisioned).lab)
  {
    RecordsKeepInv(lab, CreateNetwork(lab, name, kind, config, provisioned).lab.networks);
  }

  lemma {:induction false} PatchNetworkKeepsInv(lab: Lab, id: int, patch: Patch)
    requires Inv(lab)
    requires PatchNetwork(lab, id, patch).Done?
    ensures Inv(PatchNetwork(lab, id, patch).lab)
  {
    RecordsKeepInv(lab, PatchNetwork(lab, id, patch).lab.networks);
  }

  /** A patch promotes exactly the implicit network it gives a name that is not
      blank, under that name; it never hides a network behind its back. */
  lemma {:induction false} PatchPromotesIff(lab: Lab, id: int, patch: Patch)
    requires PatchNetwork(lab, id, patch).Done?
    ensures var r := PatchNetwork(lab, id, patch);
      var before, after := lab.networks[id], r.lab.networks[id];
      && (r.promoted <==> before.implicit && patch.name.To? && Strip(patch.name.name) != "")
      && (after.implicit <==> before.implicit && !r.promoted)
      && (r.promoted ==> after.name == Strip(patch.name.name) && (patch.visible.None? ==> after.visible))
      && (!r.promoted && patch.visible.None? ==> after.visible == before.visible)
      && (patch.name.To? && !before.implicit && NameKey(after.name) != "" ==> !NameInUse(lab.networks, after.name, Some(id)))
      && Without(r.lab.networks, id) == Without(lab.networks, id) && r.lab.links == lab.links
  {
    if patch.name.To? && Strip(patch.name.name) == "" {
      assert NameKey("") == "";
    }
  }

  /** What a patch that goes through leaves of the record: each field the body gives
      has the value given, the name without white space around it, and each field
      it does not give is as it was, but that promotion makes the network visible. */
  lemma {:induction false} PatchedFields(lab: Lab, id: int, patch: Patch)
    requires PatchNetwork(lab, id, patch).Done?
    ensures var r := PatchNetwork(lab, id, patch);
      r.id == id && id in lab.networks && id in r.lab.networks
      && var before, after := lab.networks[id], r.lab.networks[id];
      && after.name == (if patch.name.To? then Strip(patch.name.name) else before.name)
      && (patch.kind == if patch.kind.Some? then Some(after.kind) else None)
      && (patch.kind.None? ==> after.kind == before.kind)
      && (patch.visible == if patch.visible.Some? then Some(after.visible) else None)
      && (patch.visible.None? ==> after.visible == (before.visible || r.promoted))
  {
  }

  /** A body that touches what only the service or a new network may set: a managed
      field, the kind to or from a host-owned bridge, or the configuration of one. */
  predicate Reserved(network: Network, patch: Patch) {
    var owned := network.kind == "bridge_cloud";
    || patch.managed
    || (patch.kind.Some? && (patch.kind.value == "bridge_cloud") != owned)
    || (if owned then patch.config.Plain? || patch.config.SetsHostBridge? else patch.config.SetsHostBridge?)
  }

  /** A patch of a network on file goes through exactly when it neither takes the
      name off a visible network, nor takes the name of another visible network,
      nor touches what is reserved; the error says which. */
  lemma {:induction false} PatchServedIff(lab: Lab, id: int, patch: Patch)
    ensures var r := PatchNetwork(lab, id, patch);
      && (id !in lab.networks <==> r == Refused(404))
      && (id in lab.networks ==>
            var network := lab.networks[id];
            var unnames := patch.name.Null? && !network.implicit;
            var clashes := patch.name.To? && NameInUse(lab.networks, patch.name.name, Some(id));
            && (r.Done? <==> !unnames && !clashes && !Reserved(network, patch))
            && (r == Refused(409) <==> clashes)
            && (r == Refused(422) <==> unnames || (!clashes && Reserved(network, patch))))
  {
    if patch.name.To? {
      StripTwice(patch.name.name);
    }
  }

  /** A name is taken exactly when some other visible network has it, white space
      around it and case aside; a blank name never is. */
  lemma {:induction false} NameTakenIff(networks: map<int, Network>, name: string, exclude: Option<int>)
    ensures NameInUse(networks, name, exclude) <==>
      && Strip(name) != ""
      && exists n :: n in networks && !networks[n].implicit && exclude != Some(n)
           && SameLetters(Strip(networks[n].name), Strip(name))
  {
    forall n | n in networks
      ensures NameKey(networks[n].name) == NameKey(name) <==> SameLetters(Strip(networks[n].name), Strip(name))
    {
      LowerIff(Strip(networks[n].name), Strip(name));
    }
    if NameInUse(networks, name, exclude) {
      var n :| Bears(networks, n, NameKey(name), exclude);
      assert n in networks && SameLetters(Strip(networks[n].name), Strip(name));
    }
    if n :| n in networks && !networks[n].implicit && exclude != Some(n) && SameLetters(Strip(networks[n].name), Strip(name)) {
      assert Bears(networks, n, NameKey(name), exclude) || Strip(name) == "";
    }
  }

  /** What the configuration must be for the kind of network: a cloud passes its own
      check, a host-owned bridge is named and is on the host. */
  predicate ConfigFits(kind: string, config: Config) {
    && (kind == "nat_cloud" ==> config.cloudRefusal.None?)
    && (kind == "bridge_cloud" ==> config.hostBridgeNamed && config.hostBridgeExists)
    && (kind != "nat_cloud" ==> !config.cidrMalformed)
  }

  lemma {:induction false} SameNameInUse(networks: map<int, Network>, name: string)
    ensures NameInUse(networks, Strip(name), None) == NameInUse(networks, name, None)
  {
    StripTwice(name);
    assert NameKey(Strip(name)) == NameKey(name);
  }

  /** A network is made exactly when it has a name that nothing visible has, its
      configuration fits, and the host sets its bridge up or already owns it. */
  lemma {:induction false} NetworkServedIff(lab: Lab, name: string, kind: string, config: Config, provisioned: bool)
    ensures CreateNetwork(lab, name, kind, config, provisioned).Done? <==>
      && Strip(name) != "" && !NameInUse(lab.networks, name, None)
      && ConfigFits(kind, config) && (provisioned || kind == "bridge_cloud")
  {
    SameNameInUse(lab.networks, name);
  }

  /** Why it is refused: the text of its CIDR and a blank name come first, then a
      name that is taken, then what its kind asks for, then the host. */
  lemma {:induction false} NetworkRefusal(lab: Lab, name: string, kind: string, config: Config, provisioned: bool)
    requires !CreateNetwork(lab, name, kind, config, provisioned).Done?
    ensures CreateNetwork(lab, name, kind, config, provisioned) == Refused(
      if Strip(name) == "" || (config.cidrMalformed && kind != "nat_cloud") then 422
      else if NameInUse(lab.networks, name, None) then 409
      else if kind == "nat_cloud" && config.cloudRefusal.Some? then config.cloudRefusal.value
      else if kind == "bridge_cloud" then if config.hostBridgeNamed then 404 else 400
      else 409)
  {
    SameNameInUse(lab.networks, name);
  }

  /** A network leaves exactly when it is there, visible to users, on no link and
      lent to nobody; nothing else leaves with it. */
  lemma {:induction false} DeleteServedIff(lab: Lab, id: int, shared: bool)
    requires id != 0
    ensures var r := DeleteNetwork(lab, id, shared);
      var there := id in lab.networks && !lab.networks[id].implicit;
      && (!there <==> r == Refused(404))
      && (there ==> (r.Done? <==> !shared && forall i :: 0 <= i < |lab.links| ==> !Touches(lab.links[i], Net(id))))
      && (r.Done? ==> r.id == id && !r.promoted && r.lab == Lab(Without(lab.networks, id), lab.links))
      && (there && !r.Done? ==> r == Refused(409))
  {
    RefcountIsCount(lab.links, id);
    CountZero(lab.links, Net(id));
  }

  /** A new network has the name asked for, the kind asked for or a Linux bridge, is
      visible and explicit, stands under a new id, and nothing else changes. */
  lemma {:induction false} NewNetworkIs(lab: Lab, name: string, kind: string, config: Config, provisioned: bool)
    requires CreateNetwork(lab, name, kind, config, provisioned).Done?
    ensures var r := CreateNetwork(lab, name, kind, config, provisioned);
      && r.id >= 1 && r.id !in lab.networks && !r.promoted && r.lab.links == lab.links
      && r.lab.networks.Keys == lab.networks.Keys + {r.id} && Without(r.lab.networks, r.id) == lab.networks
      && r.lab.networks[r.id] == Network(Strip(name), if kind == "" then "linux_bridge" else kind, true, false)
      && !NameInUse(lab.networks, name, None)
  {
    SameNameInUse(lab.networks, name);
    assert Without(CreateNetwork(lab, name, kind, config, provisioned).lab.networks, NextNetworkId(lab.networks)) == lab.networks;
  }

  lemma {:induction false} DeleteNetworkKeepsInv(lab: Lab, id: int, shared: bool)
    requires Inv(lab)
    requires DeleteNetwork(lab, id, shared).Done?
    ensures Inv(DeleteNetwork(lab, id, shared).lab)
  {
    RefcountIsCount(lab.links, id);
    UnusedNetworkLeaves(lab.networks, lab.links, id);
    var made := DeleteNetwork(lab, id, shared).lab;
    assert forall n :: IsImplicit(made.networks, n) ==> IsImplicit(lab.networks, n);
  }
}
