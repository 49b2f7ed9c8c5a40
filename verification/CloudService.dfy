/** The NAT-Cloud operations as they run: scans of all lab files, then one file
    written. */
module CloudService {
  import opened Collections
  import opened Text
  import opened Cidr
  import opened CloudModel
  import opened Ipam
  import opened CloudRuns
  import opened CloudInventory

  /** `owner_cidrs`. */
  method CollectOwnerCidrs(host: Host, rows: seq<(string, nat)>) returns (cidrs: seq<Cidr>)
    requires Lists(host, rows)
    ensures Elements(cidrs) == OwnerCidrs(host)
  {
    cidrs := [];
    for n := 0 to |rows|
      invariant forall c: Cidr :: c in cidrs <==> exists k :: 0 <= k < n && HoldsOwnerCidr(host, c, rows[k].0, rows[k].1)
    {
      var (p, i) := rows[n];
      assert (p, i) in rows;
      if At(host, p, i).shared == "" && At(host, p, i).cidr.Some? {
        cidrs := cidrs + [At(host, p, i).cidr.value];
      }
    }
    forall c: Cidr
      ensures c in cidrs <==> c in OwnerCidrs(host)
    {
      if c in OwnerCidrs(host) {
        var p: string, i: nat :| HoldsOwnerCidr(host, c, p, i);
        assert IsRow(host, p, i);
        var k :| 0 <= k < |rows| && rows[k] == (p, i);
        assert HoldsOwnerCidr(host, c, rows[k].0, rows[k].1);
      }
    }
  }

  /** `_existing_network_cidrs`. */
  method CollectLabCidrs(networks: map<nat, CloudNet>) returns (cidrs: seq<Cidr>)
    ensures Elements(cidrs) == LabCidrs(networks)
  {
    cidrs := [];
    var ids := networks.Keys;
    while ids != {}
      invariant ids <= networks.Keys
      invariant forall c: Cidr :: c in cidrs <==> exists i :: i in networks && i !in ids && networks[i].cidr == Some(c)
    {
      var id := Choose(ids);
      if networks[id].cidr.Some? {
        cidrs := cidrs + [networks[id].cidr.value];
      }
      ids := ids - {id};
    }
    assert forall c: Cidr :: c in LabCidrs(networks) <==> exists i :: i in networks && networks[i].cidr == Some(c);
  }

  /** `_normalize_nat_cloud_config`. */
  method NormalizeConfig(raw: RawConfig, used: seq<Cidr>, pool: Cidr) returns (r: Result<Config>)
    requires IsPool(pool, 24)
    ensures r == Normalize(raw, Elements(used), pool)
  {
    var c: Cidr;
    match raw.cidr {
      case Malformed =>
        return Error(422);
      case Given(given) =>
        c := given;
      case Absent =>
        var at := AllocateCidr(pool, 24, used);
        if at.None? {
          return Error(409);
        }
        assert Open(24, Elements(used), at.value);
        c := Subnet(at.value, 24);
    }
    if c.prefix > 24 {
      return Error(422);
    }
    var hit := AnyOverlap(c, used);
    if hit {
      return Error(409);
    }
    r := CheckAddresses(raw, c);
  }

  /** The k-th entry describes the owner at the k-th place. */
  ghost predicate Describes(host: Host, entries: seq<Entry>, from: seq<(string, nat)>) {
    && |from| == |entries|
    && (forall k :: 0 <= k < |from| ==>
          IsOwner(host, from[k].0, from[k].1) && entries[k] == EntryOf(host, from[k].0, from[k].1))
    && (forall k, m :: 0 <= k < m < |from| ==> from[k] != from[m])
  }

  /** The owners among the rows, in the form the marking loop reads. */
  method OwnerEntries(host: Host, rows: seq<(string, nat)>) returns (entries: seq<Entry>, ghost from: seq<(string, nat)>)
    requires Lists(host, rows) && LabsApart(host)
    ensures DistinctClouds(entries) && Describes(host, entries, from)
    ensures forall p: string, i: nat :: IsOwner(host, p, i) ==> (p, i) in from
  {
    entries, from := [], [];
    for n := 0 to |rows|
      invariant Describes(host, entries, from)
      invariant forall k :: 0 <= k < |from| ==> from[k] in rows[..n]
      invariant forall k :: 0 <= k < n && IsOwner(host, rows[k].0, rows[k].1) ==> rows[k] in from
    {
      var (p, i) := rows[n];
      assert (p, i) in rows;
      assert rows[..n + 1] == rows[..n] + [rows[n]];
      assert forall k :: 0 <= k < n ==> rows[k] != rows[n];
      if At(host, p, i).shared == "" {
        entries, from := entries + [EntryOf(host, p, i)], from + [(p, i)];
      }
    }
    forall k, m | 0 <= k < m < |entries|
      ensures entries[k].cloud != entries[m].cloud
    {
      if entries[k].cloud == entries[m].cloud {
        OwnerUnique(host, entries[k].cloud, from[k].0, from[k].1, from[m].0, from[m].1);
      }
    }
    forall p: string, i: nat | IsOwner(host, p, i)
      ensures (p, i) in from
    {
      assert IsRow(host, p, i);
    }
  }

  function EntryOf(host: Host, p: string, i: nat): Entry
    requires Exists(host, p, i)
  {
    Entry(CloudId(host[p].id, i),
          match At(host, p, i).cidr
          case Some(c) => Given(c)
          case None => Absent)
  }

  lemma {:induction false} CollidingIsMarked(host: Host, entries: seq<Entry>, from: seq<(string, nat)>, k: nat)
    requires DistinctClouds(entries) && Describes(host, entries, from) && k < |from|
    requires forall p: string, i: nat :: IsOwner(host, p, i) ==> (p, i) in from
    ensures Colliding(host, from[k].0, from[k].1) <==> entries[k].cloud in Marked(entries)
  {
    MarkedWhenDistinct(entries, k);
    var (p, i) := from[k];
    if Colliding(host, p, i) {
      var q: string, j: nat :| Clash(host, p, i, q, j);
      assert (q, j) in from;
      var m :| 0 <= m < |from| && from[m] == (q, j);
      assert Meet(entries[k], entries[m]);
    }
    if MeetsAnother(entries, k) {
      var m :| 0 <= m < |entries| && m != k && Meet(entries[k], entries[m]);
      assert from[k] != from[m];
      assert Clash(host, p, i, from[m].0, from[m].1);
    }
  }

  /** The part of `list_nat_clouds` that finds collisions: an owner's id is
      marked exactly when its network overlaps some other owner's. */
  method ListColliding(host: Host, rows: seq<(string, nat)>) returns (colliding: set<string>)
    requires Lists(host, rows) && LabsApart(host)
    ensures forall p: string, i: nat :: IsOwner(host, p, i) ==>
      (CloudId(host[p].id, i) in colliding <==> Colliding(host, p, i))
  {
    var entries, from := OwnerEntries(host, rows);
    colliding := MarkCollisions(entries);
    forall p: string, i: nat | IsOwner(host, p, i)
      ensures CloudId(host[p].id, i) in colliding <==> Colliding(host, p, i)
    {
      ghost var k :| 0 <= k < |from| && from[k] == (p, i);
      CollidingIsMarked(host, entries, from, k);
    }
  }

  /** The row is listed with this id and is not safe for reuse. */
  ghost predicate UnsafeRow(host: Host, cloud: string, p: string, i: nat) {
    RefersTo(host, cloud, p, i) || (Owns(host, cloud, p, i) && Colliding(host, p, i))
  }

  /** The check on `safe_for_reuse` over the listed clouds. */
  method AnyUnsafe(host: Host, rows: seq<(string, nat)>, cloud: string) returns (r: bool)
    requires Lists(host, rows) && LabsApart(host) && cloud != ""
    ensures r == Unsafe(host, cloud)
  {
    var colliding := ListColliding(host, rows);
    for n := 0 to |rows|
      invariant forall k :: 0 <= k < n ==> !UnsafeRow(host, cloud, rows[k].0, rows[k].1)
    {
      var (p, i) := rows[n];
      assert (p, i) in rows && IsRow(host, p, i);
      if At(host, p, i).shared == cloud
         || (At(host, p, i).shared == "" && CloudId(host[p].id, i) == cloud && cloud in colliding) {
        assert UnsafeRow(host, cloud, p, i);
        return true;
      }
      assert !UnsafeRow(host, cloud, p, i);
    }
    assert forall p: string, i: nat :: UnsafeRow(host, cloud, p, i) ==> IsRow(host, p, i) && (p, i) in rows;
    assert forall p: string, i: nat :: RefersTo(host, cloud, p, i) ==> UnsafeRow(host, cloud, p, i);
    assert forall p: string, i: nat :: Owns(host, cloud, p, i) && Colliding(host, p, i) ==> UnsafeRow(host, cloud, p, i);
    return false;
  }

  /** `find_nat_cloud_owner`: with distinct lab ids there is one at most. */
  method FindCloudOwner(host: Host, rows: seq<(string, nat)>, cloud: string) returns (r: Option<(string, nat)>)
    requires Lists(host, rows) && LabsApart(host)
    ensures r == FindOwner(host, cloud)
  {
    for n := 0 to |rows|
      invariant forall k :: 0 <= k < n ==> !Owns(host, cloud, rows[k].0, rows[k].1)
    {
      var (p, i) := rows[n];
      assert (p, i) in rows;
      if At(host, p, i).shared == "" && CloudId(host[p].id, i) == cloud {
        assert Owns(host, cloud, p, i);
        var (q, j) := FindOwner(host, cloud).value;
        OwnerUnique(host, cloud, p, i, q, j);
        return Some((p, i));
      }
    }
    assert forall p: string, i: nat :: Owns(host, cloud, p, i) ==> IsRow(host, p, i) && (p, i) in rows;
    return None;
  }

  /** `references_to_cloud` is not empty. */
  method AnyReference(host: Host, rows: seq<(string, nat)>, cloud: string) returns (r: bool)
    requires Lists(host, rows) && cloud != ""
    ensures r == Referenced(host, cloud)
  {
    for n := 0 to |rows|
      invariant forall k :: 0 <= k < n ==> !RefersTo(host, cloud, rows[k].0, rows[k].1)
    {
      var (p, i) := rows[n];
      assert (p, i) in rows;
      if At(host, p, i).shared == cloud {
        assert RefersTo(host, cloud, p, i);
        return true;
      }
    }
    assert forall p: string, i: nat :: RefersTo(host, cloud, p, i) ==> IsRow(host, p, i) && (p, i) in rows;
    return false;
  }

  /** `external_reference_summaries_for_scope` is not empty. */
  method AnyBlocker(host: Host, rows: seq<(string, nat)>, scope: string) returns (r: bool)
    requires Lists(host, rows)
    ensures r == exists p, i, q, j :: Blocks(host, scope, p, i, q, j)
  {
    var owned: set<string> := {};
    for n := 0 to |rows|
      invariant forall cloud :: cloud in owned <==>
        exists k :: 0 <= k < n && InScope(rows[k].0, scope) && Owns(host, cloud, rows[k].0, rows[k].1)
    {
      var (p, i) := rows[n];
      assert (p, i) in rows;
      if At(host, p, i).shared == "" && InScope(p, scope) {
        owned := owned + {CloudId(host[p].id, i)};
      }
    }
    for n := 0 to |rows|
      invariant forall k :: 0 <= k < n && IsReference(host, rows[k].0, rows[k].1) && !InScope(rows[k].0, scope) ==>
        At(host, rows[k].0, rows[k].1).shared !in owned
    {
      var (q, j) := rows[n];
      assert (q, j) in rows;
      if At(host, q, j).shared != "" && At(host, q, j).shared in owned && !InScope(q, scope) {
        ghost var k :| 0 <= k < |rows| && InScope(rows[k].0, scope)
          && Owns(host, At(host, q, j).shared, rows[k].0, rows[k].1);
        assert Blocks(host, scope, rows[k].0, rows[k].1, q, j);
        return true;
      }
    }
    assert forall p: string, i: nat :: IsOwner(host, p, i) || IsReference(host, p, i) ==> IsRow(host, p, i) && (p, i) in rows;
    forall p: string, i: nat | IsOwner(host, p, i) && InScope(p, scope)
      ensures CloudId(host[p].id, i) in owned
    {
      ghost var k :| 0 <= k < |rows| && rows[k] == (p, i);
      assert Owns(host, CloudId(host[p].id, i), rows[k].0, rows[k].1);
    }
    return false;
  }

  method NextNetworkId(networks: map<nat, CloudNet>) returns (id: nat)
    ensures id == NextId(networks)
  {
    var last: nat := 0;
    var ids := networks.Keys;
    while ids != {}
      invariant ids <= networks.Keys
      invariant last == 0 || last in networks
      invariant forall k :: k in networks && k !in ids ==> k <= last
    {
      var k := Choose(ids);
      if k > last {
        last := k;
      }
      ids := ids - {k};
    }
    id := last + 1;
  }

  /** All lab files of the host, with the settings' address pool. */
  class LabFiles {
    var labs: Host
    const pool: Cidr

    constructor (pool: Cidr)
      requires IsPool(pool, 24)
      ensures labs == map[] && this.pool == pool
    {
      labs := map[];
      this.pool := pool;
    }

    method SharedRecord(cloud: string) returns (r: Result<CloudNet>)
      requires LabsApart(labs) && cloud != ""
      ensures r == ReferenceRecord(labs, cloud)
    {
      var rows := CloudRefs(labs);
      var owner := FindCloudOwner(labs, rows, cloud);
      if owner.None? {
        return Error(404);
      }
      var unsafe := AnyUnsafe(labs, rows, cloud);
      if unsafe {
        return Error(409);
      }
      var n := At(labs, owner.value.0, owner.value.1);
      if n.cidr.None? {
        return Error(409);
      }
      return Ok(CloudNet(true, cloud, n.cidr, n.gateway, n.dhcpStart, n.dhcpEnd, [], FIRST_OFFSET));
    }

    method OwnRecord(path: string, request: Request) returns (r: Result<CloudNet>)
      requires IsPool(pool, 24) && path in labs
      ensures r == OwnerRecord(labs, pool, path, request)
    {
      var rows := CloudRefs(labs);
      var owners := CollectOwnerCidrs(labs, rows);
      var mine := CollectLabCidrs(labs[path].networks);
      assert Elements(mine + owners) == Elements(owners) + Elements(mine);
      var c := NormalizeConfig(request.raw, mine + owners, pool);
      if c.Error? {
        return Error(c.code);
      }
      return Ok(CloudNet(true, request.shared, Some(c.value.cidr), c.value.gateway, c.value.dhcpStart,
                         c.value.dhcpEnd, [], FIRST_OFFSET));
    }

    method CreateNetwork(path: string, request: Request) returns (r: Result<nat>)
      requires IsPool(pool, 24) && LabsApart(labs)
      modifies this
      ensures labs == Apply(pool, old(labs), Step.CreateNetwork(path, request))
      ensures match Create(old(labs), pool, path, request)
        case Ok(t) => r.Ok? && Exists(labs, path, r.value) && !Exists(old(labs), path, r.value)
        case Error(code) => r == Error(code)
    {
      if path !in labs {
        return Error(404);
      }
      var n: Result<CloudNet>;
      if !request.nat_cloud {
        n := PlainRecord(request);
      } else if Strip(request.shared) != "" {
        n := SharedRecord(Strip(request.shared));
      } else {
        n := OwnRecord(path, request);
      }
      if n.Error? {
        return Error(n.code);
      }
      var before := labs;
      var id := NextNetworkId(labs[path].networks);
      labs := Put(labs, path, id, n.value);
      if !request.provisions && !(request.nat_cloud && Strip(request.shared) != "") {
        labs := labs[path := labs[path].(networks := Without(labs[path].networks, id))];
        assert labs[path].networks == before[path].networks;
        assert labs == before;
        return Error(409);
      }
      return Ok(id);
    }

    method DeleteNetwork(path: string, id: nat, attached: bool) returns (r: Result<CloudNet>)
      requires IsPool(pool, 24)
      modifies this
      ensures labs == Apply(pool, old(labs), Step.DeleteNetwork(path, id, attached))
      ensures match Drop(old(labs), path, id, attached)
        case Ok(t) => r == Ok(At(old(labs), path, id))
        case Error(code) => r == Error(code)
    {
      if !Exists(labs, path, id) {
        return Error(404);
      }
      if attached {
        return Error(409);
      }
      var n := At(labs, path, id);
      if n.nat_cloud && n.shared == "" {
        CloudIdPlain(labs[path].id, id);
        var rows := CloudRefs(labs);
        var referenced := AnyReference(labs, rows, CloudId(labs[path].id, id));
        if referenced {
          return Error(409);
        }
      }
      labs := labs[path := labs[path].(networks := Without(labs[path].networks, id))];
      return Ok(n);
    }

    method DeleteLab(path: string) returns (r: Result<bool>)
      requires IsPool(pool, 24)
      modifies this
      ensures labs == Apply(pool, old(labs), Step.DeleteLab(path))
      ensures r.Ok? == DropLab(old(labs), path).Ok?
    {
      var rows := CloudRefs(labs);
      var blocked := AnyBlocker(labs, rows, path);
      if blocked {
        return Error(409);
      }
      r := Ok(path in labs);
      labs := Without(labs, path);
    }

    /** `_ipam_target`. */
    method IpamTarget(path: string, id: nat) returns (r: Result<(string, nat)>)
      requires LabsApart(labs)
      ensures r == Target(labs, path, id)
    {
      if !Exists(labs, path, id) {
        return Error(404);
      }
      var cloud := Strip(At(labs, path, id).shared);
      if cloud == "" {
        return Ok((path, id));
      }
      var rows := CloudRefs(labs);
      var owner := FindCloudOwner(labs, rows, cloud);
      if owner.None? {
        return Error(409);
      }
      return Ok(owner.value);
    }

    method AllocateIp(path: string, id: nat) returns (r: Result<nat>)
      requires IsPool(pool, 24) && LabsApart(labs)
      modifies this
      ensures labs == Apply(pool, old(labs), Allocate(path, id))
      ensures match Reserve(old(labs), path, id)
        case Ok(done) => r == Ok(done.0)
        case Error(code) => r == Error(code)
    {
      var target := IpamTarget(path, id);
      if target.Error? {
        return Error(target.code);
      }
      var (p, i) := target.value;
      var n := At(labs, p, i);
      if n.cidr.None? {
        return Error(422);
      }
      var ip := ChooseAddress(n);
      if ip.None? {
        return Error(409);
      }
      labs := Put(labs, p, i, Taken(n, ip.value));
      return Ok(ip.value);
    }

    method ReleaseIp(path: string, id: nat, ip: nat) returns (r: Result<bool>)
      requires IsPool(pool, 24) && LabsApart(labs)
      modifies this
      ensures labs == Apply(pool, old(labs), Release(path, id, ip))
      ensures match Target(old(labs), path, id)
        case Ok(target) => r == Ok(ip in At(old(labs), target.0, target.1).used)
        case Error(code) => r == Error(code)
    {
      var target := IpamTarget(path, id);
      if target.Error? {
        return Error(target.code);
      }
      var (p, i) := target.value;
      var n := At(labs, p, i);
      labs := Put(labs, p, i, GivenBack(n, ip));
      return Ok(ip in n.used);
    }
  }
}
