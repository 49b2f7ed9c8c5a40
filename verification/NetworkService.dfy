/** The network service: create, delete and patch, over lab.json. */
module NetworkService {
  import opened Collections
  import opened Text
  import opened LabModel
  import opened NetworkSpec
  import opened LinkService

  /** `_network_name_in_use`. */
  method ScanName(networks: map<int, Network>, name: string, exclude: Option<int>) returns (used: bool)
    ensures used <==> NameInUse(networks, name, exclude)
  {
    var key := NameKey(name);
    if key == "" {
      return false;
    }
    var rest := networks.Keys;
    while rest != {}
      invariant rest <= networks.Keys
      invariant forall n :: n in networks && n !in rest ==> !Bears(networks, n, key, exclude)
      decreases |rest|
    {
      var n := Choose(rest);
      rest := rest - {n};
      if Bears(networks, n, key, exclude) {
        return true;
      }
    }
    assert forall n :: Bears(networks, n, key, exclude) ==> n in networks;
    return false;
  }

  method CreateNetwork(file: LabFile, name: string, kind: string, config: Config, provisioned: bool)
    returns (result: Option<int>, code: int)
    modifies file
    ensures var spec := NetworkSpec.CreateNetwork(old(file.Data()), name, kind, config, provisioned);
      && (result.Some? <==> spec.Done?)
      && (spec.Done? ==> result.value == spec.id && file.Data() == spec.lab)
      && (spec.Refused? ==> code == spec.code && file.Data() == old(file.Data()))
  {
    if config.cidrMalformed && KindOr(kind) != NAT_CLOUD {
      return None, 422;
    }
    if Strip(name) == "" {
      return None, 422;
    }
    var used := ScanName(file.networks, Strip(name), None);
    if used {
      return None, 409;
    }
    var refusal := ConfigRefusal(KindOr(kind), config);
    if refusal.Some? {
      return None, refusal.value;
    }
    var networks := file.networks;
    var id := ScanNextNetworkId(networks);
    file.networks := networks[id := Network(Strip(name), KindOr(kind), true, false)];
    if !provisioned && KindOr(kind) != BRIDGE_CLOUD {
      file.networks := networks;
      return None, 409;
    }
    return Some(id), 201;
  }

  method DeleteNetwork(file: LabFile, id: int, shared: bool) returns (deleted: bool, code: int)
    modifies file
    ensures var spec := NetworkSpec.DeleteNetwork(old(file.Data()), id, shared);
      && (deleted <==> spec.Done?)
      && file.Data() == (if spec.Done? then spec.lab else old(file.Data()))
      && (spec.Refused? ==> code == spec.code)
  {
    if id !in file.networks || file.networks[id].implicit {
      return false, 404;
    }
    if Refcount(file.links, id) > 0 || shared {
      return false, 409;
    }
    file.networks := Without(file.networks, id);
    return true, 200;
  }

  method PatchNetwork(file: LabFile, id: int, patch: Patch) returns (patched: bool, promoted: bool, code: int)
    modifies file
    ensures var spec := NetworkSpec.PatchNetwork(old(file.Data()), id, patch);
      && (patched <==> spec.Done?)
      && file.Data() == (if spec.Done? then spec.lab else old(file.Data()))
      && (spec.Done? ==> promoted == spec.promoted)
      && (spec.Refused? ==> code == spec.code)
  {
    promoted := false;
    if id !in file.networks {
      return false, false, 404;
    }
    var network := file.networks[id];
    match patch.name {
      case Keep =>
      case Null =>
        if !network.implicit {
          return false, false, 422;
        }
      case To(raw) =>
        var name := Strip(raw);
        if name != "" {
          var used := ScanName(file.networks, name, Some(id));
          if used {
            return false, false, 409;
          }
        }
        if name != "" && network.implicit {
          network := network.(name := name, implicit := false, visible := true);
          promoted := true;
        } else {
          network := network.(name := name);
        }
    }
    if FieldsRefused(network, patch) {
      return false, false, 422;
    }
    file.networks := file.networks[id := WithFields(network, patch)];
    return true, promoted, 200;
  }
}
