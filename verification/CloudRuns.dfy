/** Every sequence of the operations that make, remove and hand out from
    clouds, in all labs of the host. */
module CloudRuns {
  import opened Collections
  import opened Text
  import opened Cidr
  import opened CloudModel
  import opened Ipam

  /** What `create_network` is asked for.  `provisions` is whether the bridge and
      the NAT runtime come up; when they do not, the record is taken out again. */
  datatype Request = Request(nat_cloud: bool, shared: string, raw: RawConfig, provisions: bool)

  datatype Step =
    | CreateLab(path: string, lab: string)
    | CreateNetwork(path: string, request: Request)
    | DeleteNetwork(path: string, id: nat, attached: bool)
    | DeleteLab(path: string)
    | Allocate(path: string, id: nat)
    | Release(path: string, id: nat, ip: nat)

  // ---------------------------------------------------------------------
  // One step
  // ---------------------------------------------------------------------

  predicate InScope(path: string, scope: string) {
    path == scope || scope + "/" <= path
  }

  /** A lab file cannot lie below another one; ids are fresh UUIDs. */
  ghost predicate CanCreateLab(host: Host, path: string, id: string) {
    forall p :: p in host ==> !InScope(p, path) && !InScope(path, p) && host[p].id != id
  }

  ghost function NextId(networks: map<nat, CloudNet>): nat {
    NextKey(networks.Keys)
  }

  function Put(host: Host, path: string, id: nat, n: CloudNet): Host
    requires path in host
  {
    host[path := host[path].(networks := host[path].networks[id := n])]
  }

  /** The record of a network that is not a cloud. */
  function PlainRecord(request: Request): Result<CloudNet> {
    match request.raw.cidr
    case Malformed => Error(422)
    case Absent => Ok(CloudNet(false, request.shared, None, 0, 0, 0, [], FIRST_OFFSET))
    case Given(c) => Ok(CloudNet(false, request.shared, Some(c), 0, 0, 0, [], FIRST_OFFSET))
  }

  ghost function OwnerRecord(host: Host, pool: Cidr, path: string, request: Request): Result<CloudNet>
    requires IsPool(pool, 24) && path in host
  {
    var c := Normalize(request.raw, OwnerCidrs(host) + LabCidrs(host[path].networks), pool);
    if c.Error? then Error(c.code)
    else Ok(CloudNet(true, request.shared, Some(c.value.cidr), c.value.gateway, c.value.dhcpStart, c.value.dhcpEnd,
                     [], FIRST_OFFSET))
  }

  ghost function ReferenceRecord(host: Host, cloud: string): Result<CloudNet> {
    var owner := FindOwner(host, cloud);
    if owner.None? then Error(404)
    else if Unsafe(host, cloud) then Error(409)
    else
      var n := At(host, owner.value.0, owner.value.1);
      if n.cidr.None? then Error(409)
      else Ok(CloudNet(true, cloud, n.cidr, n.gateway, n.dhcpStart, n.dhcpEnd, [], FIRST_OFFSET))
  }

  /** The record `create_network` builds. */
  ghost function NewRecord(host: Host, pool: Cidr, path: string, request: Request): Result<CloudNet>
    requires IsPool(pool, 24) && path in host
  {
    if !request.nat_cloud then PlainRecord(request)
    else if Strip(request.shared) != "" then ReferenceRecord(host, Strip(request.shared))
    else OwnerRecord(host, pool, path, request)
  }

  /** A reference needs nothing on the host; everything else has to come up. */
  ghost predicate Comes(request: Request) {
    request.provisions || (request.nat_cloud && Strip(request.shared) != "")
  }

  ghost function Create(host: Host, pool: Cidr, path: string, request: Request): Result<Host>
    requires IsPool(pool, 24)
  {
    if path !in host then Error(404)
    else
      var n := NewRecord(host, pool, path, request);
      if n.Error? then Error(n.code)
      else if !Comes(request) then Error(409)
      else Ok(Put(host, path, NextId(host[path].networks), n.value))
  }

  /** `delete_network`: an owner stays while any row refers to it. */
  ghost function Drop(host: Host, path: string, id: nat, attached: bool): Result<Host> {
    if !Exists(host, path, id) then Error(404)
    else if attached then Error(409)
    else if IsOwner(host, path, id) && Referenced(host, CloudId(host[path].id, id)) then Error(409)
    else Ok(host[path := host[path].(networks := Without(host[path].networks, id))])
  }

  predicate Blocks(host: Host, scope: string, p: string, i: nat, q: string, j: nat) {
    && IsOwner(host, p, i) && InScope(p, scope)
    && RefersTo(host, CloudId(host[p].id, i), q, j) && !InScope(q, scope)
  }

  /** `delete_lab`: refused while a lab outside refers to one of its owners. */
  ghost function DropLab(host: Host, path: string): Result<Host> {
    if exists p, i, q, j :: Blocks(host, path, p, i, q, j) then Error(409)
    else Ok(Without(host, path))
  }

  /** `_ipam_target`. */
  ghost function Target(host: Host, path: string, id: nat): (r: Result<(string, nat)>)
    ensures r.Ok? ==> Exists(host, r.value.0, r.value.1)
  {
    if !Exists(host, path, id) then Error(404)
    else
      var cloud := Strip(At(host, path, id).shared);
      if cloud == "" then Ok((path, id))
      else
        var owner := FindOwner(host, cloud);
        if owner.None? then Error(409) else Ok(owner.value)
  }

  /** `_allocate_ip`: the address, and the host with it reserved. */
  ghost function Reserve(host: Host, path: string, id: nat): Result<(nat, Host)> {
    var target := Target(host, path, id);
    if target.Error? then Error(target.code)
    else
      var n := At(host, target.value.0, target.value.1);
      if n.cidr.None? then Error(422)
      else
        var ip := NextAddress(n);
        if ip.None? then Error(409)
        else Ok((ip.value, Put(host, target.value.0, target.value.1, Taken(n, ip.value))))
  }

  ghost function GiveBack(host: Host, path: string, id: nat, ip: nat): Result<Host> {
    var target := Target(host, path, id);
    if target.Error? then Error(target.code)
    else Ok(Put(host, target.value.0, target.value.1, GivenBack(At(host, target.value.0, target.value.1), ip)))
  }

  /** The host after a step; a refused one leaves it as it was. */
  ghost function Outcome(pool: Cidr, host: Host, step: Step): Result<Host>
    requires IsPool(pool, 24)
  {
    match step
    case CreateLab(path, lab) =>
      if CanCreateLab(host, path, lab) then Ok(host[path := CloudLab(lab, map[])]) else Error(409)
    case CreateNetwork(path, request) => Create(host, pool, path, request)
    case DeleteNetwork(path, id, attached) => Drop(host, path, id, attached)
    case DeleteLab(path) => DropLab(host, path)
    case Allocate(path, id) =>
      var r := Reserve(host, path, id);
      if r.Ok? then Ok(r.value.1) else Error(r.code)
    case Release(path, id, ip) => GiveBack(host, path, id, ip)
  }

  ghost function Apply(pool: Cidr, host: Host, step: Step): Host
    requires IsPool(pool, 24)
  {
    var r := Outcome(pool, host, step);
    if r.Ok? then r.value else host
  }

  ghost function Run(pool: Cidr, host: Host, steps: seq<Step>): Host
    requires IsPool(pool, 24)
    decreases |steps|
  {
    if |steps| == 0 then host else Run(pool, Apply(pool, host, steps[0]), steps[1..])
  }

  // ---------------------------------------------------------------------
  // The invariant
  // ---------------------------------------------------------------------

  ghost predicate LabsApart(host: Host) {
    forall p, q :: p in host && q in host && p != q ==> host[p].id != host[q].id && !InScope(p, q)
  }

  /** A record on its own: its free-list, and an owner's configuration. */
  ghost predicate RecordsOk(host: Host) {
    forall p, i :: Exists(host, p, i) ==>
      && UsedOk(At(host, p, i))
      && (IsOwner(host, p, i) ==> IsCloud(At(host, p, i)))
  }

  /** Every reference names an owner that is there. */
  ghost predicate Integrity(host: Host) {
    forall p, i :: IsReference(host, p, i) ==> HasOwner(host, At(host, p, i).shared)
  }

  ghost predicate OwnersDisjoint(host: Host) {
    forall p, i, q, j :: !Clash(host, p, i, q, j)
  }

  /** No cloud is referred to twice. */
  ghost predicate ReferredOnce(host: Host) {
    forall cloud, p, i, q, j :: RefersTo(host, cloud, p, i) && RefersTo(host, cloud, q, j) ==> (p, i) == (q, j)
  }

  predicate SameConfig(a: CloudNet, b: CloudNet) {
    a.cidr == b.cidr && a.gateway == b.gateway && a.dhcpStart == b.dhcpStart && a.dhcpEnd == b.dhcpEnd
  }

  /** A reference shows its owner's configuration. */
  ghost predicate ReferencesMatch(host: Host) {
    forall cloud, p, i, q, j :: RefersTo(host, cloud, p, i) && Owns(host, cloud, q, j) ==>
      SameConfig(At(host, p, i), At(host, q, j))
  }

  ghost predicate Inv(host: Host) {
    && LabsApart(host) && RecordsOk(host) && Integrity(host) && OwnersDisjoint(host)
    && ReferredOnce(host) && ReferencesMatch(host)
  }

  /** The request carries a shared cloud id of white space only. */
  predicate Blank(step: Step) {
    step.CreateNetwork? && step.request.nat_cloud && step.request.shared != "" && Strip(step.request.shared) == ""
  }

  // ---------------------------------------------------------------------
  // Helpers
  // ---------------------------------------------------------------------

  lemma {:induction false} StripKeeps(s: string)
    requires s != "" && !IsSpace(s[0]) && !IsSpace(s[|s| - 1])
    ensures Strip(s) == s
  {
  }

  lemma {:induction false} CloudIdPlain(lab: string, id: nat)
    ensures CloudId(lab, id) != "" && Strip(CloudId(lab, id)) == CloudId(lab, id)
  {
    var s, d := CloudId(lab, id), Decimal(id);
    assert s[0] == 'n' && s[|s| - 1] == d[|d| - 1];
    assert IsDigit(d[|d| - 1]);
    StripKeeps(s);
  }

  lemma {:induction false} OwnerUnique(host: Host, cloud: string, p: string, i: nat, q: string, j: nat)
    requires LabsApart(host) && Owns(host, cloud, p, i) && Owns(host, cloud, q, j)
    ensures p == q && i == j
  {
    CloudIdUnique(host[p].id, i, host[q].id, j);
  }

  /** Rows of the host with a new record: the new one and the old ones. */
  lemma {:induction false} PutRows(host: Host, path: string, id: nat, n: CloudNet)
    requires path in host
    ensures var t := Put(host, path, id, n);
      && Exists(t, path, id) && At(t, path, id) == n
      && (forall p: string, i: nat :: (p, i) != (path, id) ==> Exists(t, p, i) == Exists(host, p, i))
      && (forall p: string, i: nat :: (p, i) != (path, id) && Exists(host, p, i) ==> At(t, p, i) == At(host, p, i))
      && t.Keys == host.Keys && (forall p :: p in host ==> t[p].id == host[p].id)
  {
  }

  // ---------------------------------------------------------------------
  // Creating
  // ---------------------------------------------------------------------

  lemma {:induction false} FreeOfOwners(host: Host, c: Cidr, extra: set<Cidr>, p: string, i: nat)
    requires FreeOf(c, OwnerCidrs(host) + extra)
    requires IsOwner(host, p, i) && At(host, p, i).cidr.Some?
    ensures !Overlaps(c, At(host, p, i).cidr.value) && !Overlaps(At(host, p, i).cidr.value, c)
  {
    var d := At(host, p, i).cidr.value;
    assert HoldsOwnerCidr(host, d, p, i);
    assert d in OwnerCidrs(host) + extra;
    OverlapsSymmetric(c, d);
  }

  lemma {:induction false} NewOwnerDisjoint(host: Host, pool: Cidr, path: string, request: Request)
    requires IsPool(pool, 24) && path in host && OwnersDisjoint(host)
    requires request.nat_cloud && Strip(request.shared) == "" && OwnerRecord(host, pool, path, request).Ok?
    ensures var n := OwnerRecord(host, pool, path, request).value;
      IsCloud(n) && OwnersDisjoint(Put(host, path, NextId(host[path].networks), n))
  {
    var used := OwnerCidrs(host) + LabCidrs(host[path].networks);
    NormalizeIff(request.raw, used, pool);
    var n, id := OwnerRecord(host, pool, path, request).value, NextId(host[path].networks);
    var t := Put(host, path, id, n);
    PutRows(host, path, id, n);
    var c := n.cidr.value;
    assert FreeOf(c, used);
    forall p: string, i: nat, q: string, j: nat
      ensures !Clash(t, p, i, q, j)
    {
      assert !Clash(host, p, i, q, j);
      if Clash(t, p, i, q, j) {
        if (p, i) == (path, id) {
          FreeOfOwners(host, c, LabCidrs(host[path].networks), q, j);
        } else if (q, j) == (path, id) {
          FreeOfOwners(host, c, LabCidrs(host[path].networks), p, i);
        }
      }
    }
  }

  /** A row that is not an owner changes nothing about owners. */
  lemma {:induction false} OtherRowDisjoint(host: Host, path: string, id: nat, n: CloudNet)
    requires path in host && id !in host[path].networks && OwnersDisjoint(host)
    requires !n.nat_cloud || n.shared != ""
    ensures OwnersDisjoint(Put(host, path, id, n))
  {
    var t := Put(host, path, id, n);
    PutRows(host, path, id, n);
    forall p: string, i: nat, q: string, j: nat
      ensures !Clash(t, p, i, q, j)
    {
      assert !Clash(host, p, i, q, j);
    }
  }

  lemma {:induction false} OwnersStay(host: Host, path: string, id: nat, n: CloudNet, cloud: string)
    requires path in host && id !in host[path].networks && HasOwner(host, cloud)
    ensures HasOwner(Put(host, path, id, n), cloud)
  {
    PutRows(host, path, id, n);
    var p: string, i: nat :| Owns(host, cloud, p, i);
    assert Owns(Put(host, path, id, n), cloud, p, i);
  }

  /** A new reference shows its owner's configuration, and a new owner has no
      references yet. */
  lemma {:induction false} NewRecordMatches(host: Host, path: string, id: nat, n: CloudNet)
    requires LabsApart(host) && Integrity(host) && ReferencesMatch(host)
    requires path in host && id !in host[path].networks
    requires n.nat_cloud && n.shared != "" ==> forall q, j :: Owns(host, n.shared, q, j) ==> SameConfig(n, At(host, q, j))
    ensures ReferencesMatch(Put(host, path, id, n))
  {
    var t := Put(host, path, id, n);
    PutRows(host, path, id, n);
    forall cloud: string, p: string, i: nat, q: string, j: nat | RefersTo(t, cloud, p, i) && Owns(t, cloud, q, j)
      ensures SameConfig(At(t, p, i), At(t, q, j))
    {
      if (p, i) != (path, id) {
        assert RefersTo(host, cloud, p, i) && IsReference(host, p, i);
        var r: string, k: nat :| Owns(host, cloud, r, k);
        CloudIdUnique(host[r].id, k, t[q].id, j);
      } else {
        assert (q, j) != (path, id);
        assert Owns(host, cloud, q, j);
      }
    }
  }

  /** What a new record needs for references to stay sound. */
  lemma {:induction false} NewRecordKeeps(host: Host, path: string, id: nat, n: CloudNet)
    requires Inv(host) && path in host && id !in host[path].networks
    requires n.used == [] && (n.nat_cloud && n.shared == "" ==> IsCloud(n))
    requires n.nat_cloud && n.shared != "" ==> HasOwner(host, n.shared) && !Referenced(host, n.shared)
    requires n.nat_cloud && n.shared != "" ==> forall q, j :: Owns(host, n.shared, q, j) ==> SameConfig(n, At(host, q, j))
    ensures var t := Put(host, path, id, n);
      LabsApart(t) && RecordsOk(t) && Integrity(t) && ReferredOnce(t) && ReferencesMatch(t)
  {
    var t := Put(host, path, id, n);
    PutRows(host, path, id, n);
    NewRecordMatches(host, path, id, n);
    forall p: string, i: nat | IsReference(t, p, i)
      ensures HasOwner(t, At(t, p, i).shared)
    {
      assert (p, i) != (path, id) ==> IsReference(host, p, i);
      OwnersStay(host, path, id, n, At(t, p, i).shared);
    }
    forall cloud: string, p: string, i: nat, q: string, j: nat | RefersTo(t, cloud, p, i) && RefersTo(t, cloud, q, j)
      ensures (p, i) == (q, j)
    {
      assert (p, i) != (path, id) ==> RefersTo(host, cloud, p, i);
      assert (q, j) != (path, id) ==> RefersTo(host, cloud, q, j);
      assert RefersTo(host, cloud, p, i) ==> Referenced(host, cloud);
      assert RefersTo(host, cloud, q, j) ==> Referenced(host, cloud);
    }
  }

  /** The owner whose configuration is copied is the only one with the id. */
  lemma {:induction false} CopiesOwner(host: Host, cloud: string)
    requires LabsApart(host) && ReferenceRecord(host, cloud).Ok?
    ensures forall q, j :: Owns(host, cloud, q, j) ==> SameConfig(ReferenceRecord(host, cloud).value, At(host, q, j))
  {
    var (p, i) := FindOwner(host, cloud).value;
    forall q: string, j: nat | Owns(host, cloud, q, j)
      ensures SameConfig(ReferenceRecord(host, cloud).value, At(host, q, j))
    {
      OwnerUnique(host, cloud, p, i, q, j);
    }
  }

  lemma {:induction false} CreateKeepsInv(host: Host, pool: Cidr, path: string, request: Request)
    requires IsPool(pool, 24) && Inv(host) && !Blank(CreateNetwork(path, request))
    requires Create(host, pool, path, request).Ok?
    ensures Inv(Create(host, pool, path, request).value)
  {
    var n, id := NewRecord(host, pool, path, request).value, NextId(host[path].networks);
    if !request.nat_cloud || Strip(request.shared) != "" {
      OtherRowDisjoint(host, path, id, n);
    } else {
      NewOwnerDisjoint(host, pool, path, request);
    }
    if n.nat_cloud && n.shared != "" {
      CopiesOwner(host, n.shared);
    }
    NewRecordKeeps(host, path, id, n);
  }

  // ---------------------------------------------------------------------
  // Deleting
  // ---------------------------------------------------------------------

  /** `t` has some of the host's rows, unchanged, in labs with the same ids. */
  ghost predicate SomeRows(host: Host, t: Host) {
    forall p :: p in t ==> p in host && t[p].id == host[p].id && forall i :: i in t[p].networks ==>
      i in host[p].networks && t[p].networks[i] == host[p].networks[i]
  }

  /** Losing rows can only hurt the references to a lost owner. */
  lemma {:induction false} FewerRows(host: Host, t: Host)
    requires Inv(host) && SomeRows(host, t)
    requires forall cloud, p, i, q, j :: Owns(host, cloud, p, i) && RefersTo(t, cloud, q, j) ==> Exists(t, p, i)
    ensures Inv(t)
  {
    forall p: string, i: nat | IsReference(t, p, i)
      ensures HasOwner(t, At(t, p, i).shared)
    {
      var cloud := At(t, p, i).shared;
      assert IsReference(host, p, i);
      var q: string, j: nat :| Owns(host, cloud, q, j);
      assert RefersTo(t, cloud, p, i);
      assert Owns(t, cloud, q, j);
    }
    forall cloud: string, p: string, i: nat, q: string, j: nat | RefersTo(t, cloud, p, i) && Owns(t, cloud, q, j)
      ensures SameConfig(At(t, p, i), At(t, q, j))
    {
      assert RefersTo(host, cloud, p, i) && Owns(host, cloud, q, j);
    }
    forall p: string, i: nat | Exists(t, p, i)
      ensures UsedOk(At(t, p, i)) && (IsOwner(t, p, i) ==> IsCloud(At(t, p, i)))
    {
      assert Exists(host, p, i);
    }
    forall p: string, i: nat, q: string, j: nat
      ensures !Clash(t, p, i, q, j)
    {
      assert !Clash(host, p, i, q, j);
    }
    forall cloud: string, p: string, i: nat, q: string, j: nat | RefersTo(t, cloud, p, i) && RefersTo(t, cloud, q, j)
      ensures (p, i) == (q, j)
    {
      assert RefersTo(host, cloud, p, i) && RefersTo(host, cloud, q, j);
    }
  }

  lemma {:induction false} DropKeepsInv(host: Host, path: string, id: nat, attached: bool)
    requires Inv(host) && Drop(host, path, id, attached).Ok?
    ensures Inv(Drop(host, path, id, attached).value)
  {
    var t := Drop(host, path, id, attached).value;
    assert SomeRows(host, t);
    forall cloud: string, p: string, i: nat, q: string, j: nat | Owns(host, cloud, p, i) && RefersTo(t, cloud, q, j)
      ensures Exists(t, p, i)
    {
      assert RefersTo(host, cloud, q, j);
    }
    FewerRows(host, t);
  }

  lemma {:induction false} DropLabKeepsInv(host: Host, path: string)
    requires Inv(host) && DropLab(host, path).Ok?
    ensures Inv(DropLab(host, path).value)
  {
    var t := DropLab(host, path).value;
    assert SomeRows(host, t);
    forall cloud: string, p: string, i: nat, q: string, j: nat | Owns(host, cloud, p, i) && RefersTo(t, cloud, q, j)
      ensures Exists(t, p, i)
    {
      assert RefersTo(host, cloud, q, j);
      assert !Blocks(host, path, p, i, q, j);
    }
    FewerRows(host, t);
  }

  // ---------------------------------------------------------------------
  // Addresses
  // ---------------------------------------------------------------------

  /** The same labs and rows, but for free-lists. */
  ghost predicate OtherLists(host: Host, t: Host) {
    && t.Keys == host.Keys && (forall p :: p in host ==> t[p].id == host[p].id)
    && forall p: string, i: nat :: Exists(t, p, i) == Exists(host, p, i)
         && (Exists(host, p, i) ==> At(t, p, i) == At(host, p, i).(used := At(t, p, i).used))
  }

  lemma {:induction false} SameRoles(host: Host, t: Host, cloud: string, p: string, i: nat)
    requires OtherLists(host, t)
    ensures RefersTo(t, cloud, p, i) == RefersTo(host, cloud, p, i) && Owns(t, cloud, p, i) == Owns(host, cloud, p, i)
    ensures IsReference(t, p, i) == IsReference(host, p, i) && IsOwner(t, p, i) == IsOwner(host, p, i)
    ensures Exists(host, p, i) ==> At(t, p, i).shared == At(host, p, i).shared && SameConfig(At(t, p, i), At(host, p, i))
  {
    assert Exists(t, p, i) == Exists(host, p, i);
  }

  /** To references a record with another free-list is the same record. */
  lemma {:induction false} OtherListsReferences(host: Host, t: Host)
    requires Inv(host) && OtherLists(host, t)
    ensures Integrity(t) && ReferredOnce(t) && ReferencesMatch(t)
  {
    forall cloud: string, p: string, i: nat
      ensures RefersTo(t, cloud, p, i) == RefersTo(host, cloud, p, i) && Owns(t, cloud, p, i) == Owns(host, cloud, p, i)
      ensures IsReference(t, p, i) == IsReference(host, p, i)
      ensures Exists(host, p, i) ==> At(t, p, i).shared == At(host, p, i).shared && SameConfig(At(t, p, i), At(host, p, i))
    {
      SameRoles(host, t, cloud, p, i);
    }
    forall p: string, i: nat | IsReference(t, p, i)
      ensures HasOwner(t, At(t, p, i).shared)
    {
      var cloud := At(host, p, i).shared;
      assert IsReference(host, p, i);
      var q: string, j: nat :| Owns(host, cloud, q, j);
      assert Owns(t, cloud, q, j);
    }
  }

  lemma {:induction false} NewFreeList(host: Host, path: string, id: nat, n: CloudNet)
    requires Inv(host) && Exists(host, path, id)
    requires UsedOk(n) && n == At(host, path, id).(used := n.used)
    ensures Inv(Put(host, path, id, n))
  {
    var t := Put(host, path, id, n);
    PutRows(host, path, id, n);
    assert OtherLists(host, t);
    OtherListsReferences(host, t);
    forall p: string, i: nat, q: string, j: nat
      ensures !Clash(t, p, i, q, j)
    {
      assert !Clash(host, p, i, q, j);
    }
  }

  lemma {:induction false} ReserveKeepsInv(host: Host, path: string, id: nat)
    requires Inv(host) && Reserve(host, path, id).Ok?
    ensures Inv(Reserve(host, path, id).value.1)
  {
    var (p, i) := Target(host, path, id).value;
    var n := At(host, p, i);
    AllocateOne(n);
    NewFreeList(host, p, i, Taken(n, NextAddress(n).value));
  }

  lemma {:induction false} GiveBackKeepsInv(host: Host, path: string, id: nat, ip: nat)
    requires Inv(host) && GiveBack(host, path, id, ip).Ok?
    ensures Inv(GiveBack(host, path, id, ip).value)
  {
    var (p, i) := Target(host, path, id).value;
    var n := At(host, p, i);
    ReleaseOne(n, ip);
    NewFreeList(host, p, i, GivenBack(n, ip));
  }

  // ---------------------------------------------------------------------
  // Runs
  // ---------------------------------------------------------------------

  lemma {:induction false} StepKeepsInv(pool: Cidr, host: Host, step: Step)
    requires IsPool(pool, 24) && Inv(host) && !Blank(step)
    ensures Inv(Apply(pool, host, step))
  {
    if Outcome(pool, host, step).Ok? {
      match step
      case CreateLab(path, lab) => assert SomeRows(Apply(pool, host, step), host); MoreLabs(host, path, lab);
      case CreateNetwork(path, request) => CreateKeepsInv(host, pool, path, request);
      case DeleteNetwork(path, id, attached) => DropKeepsInv(host, path, id, attached);
      case DeleteLab(path) => DropLabKeepsInv(host, path);
      case Allocate(path, id) => ReserveKeepsInv(host, path, id);
      case Release(path, id, ip) => GiveBackKeepsInv(host, path, id, ip);
    }
  }

  lemma {:induction false} MoreLabs(host: Host, path: string, lab: string)
    requires Inv(host) && CanCreateLab(host, path, lab)
    ensures Inv(host[path := CloudLab(lab, map[])])
  {
    var t := host[path := CloudLab(lab, map[])];
    assert InScope(path, path);
    assert forall p: string, i: nat :: Exists(t, p, i) == Exists(host, p, i) && (Exists(t, p, i) ==> t[p] == host[p]);
    forall p: string, i: nat | IsReference(t, p, i)
      ensures HasOwner(t, At(t, p, i).shared)
    {
      assert IsReference(host, p, i);
      var q: string, j: nat :| Owns(host, At(t, p, i).shared, q, j);
      assert Owns(t, At(t, p, i).shared, q, j);
    }
    forall p: string, i: nat, q: string, j: nat
      ensures !Clash(t, p, i, q, j)
    {
      assert !Clash(host, p, i, q, j);
    }
    forall cloud: string, p: string, i: nat, q: string, j: nat | RefersTo(t, cloud, p, i) && Owns(t, cloud, q, j)
      ensures SameConfig(At(t, p, i), At(t, q, j))
    {
      assert RefersTo(host, cloud, p, i) && Owns(host, cloud, q, j);
    }
    forall cloud: string, p: string, i: nat, q: string, j: nat | RefersTo(t, cloud, p, i) && RefersTo(t, cloud, q, j)
      ensures (p, i) == (q, j)
    {
      assert RefersTo(host, cloud, p, i) && RefersTo(host, cloud, q, j);
    }
  }

  /** A step keeps the clouds of the host in order exactly when it does not store
      a blank shared cloud id: such a record is listed as a reference to a cloud
      that cannot exist. */
  lemma {:induction false} StepKeepsInvIff(pool: Cidr, host: Host, step: Step)
    requires IsPool(pool, 24) && Inv(host)
    ensures Inv(Apply(pool, host, step)) <==> !(Blank(step) && Outcome(pool, host, step).Ok?)
  {
    if !Blank(step) {
      StepKeepsInv(pool, host, step);
    } else if Outcome(pool, host, step).Ok? {
      var t, id := Apply(pool, host, step), NextId(host[step.path].networks);
      var cloud := step.request.shared;
      assert IsReference(t, step.path, id) && At(t, step.path, id).shared == cloud;
      if HasOwner(t, cloud) {
        var q: string, j: nat :| Owns(t, cloud, q, j);
        CloudIdPlain(t[q].id, j);
      }
    }
  }

  lemma {:induction false} RunKeepsInv(pool: Cidr, host: Host, steps: seq<Step>)
    requires IsPool(pool, 24) && Inv(host)
    requires forall k :: 0 <= k < |steps| ==> !Blank(steps[k])
    ensures Inv(Run(pool, host, steps))
    decreases |steps|
  {
    if |steps| > 0 {
      StepKeepsInv(pool, host, steps[0]);
      RunKeepsInv(pool, Apply(pool, host, steps[0]), steps[1..]);
    }
  }

  /** Integrity, disjoint subnets and sound free-lists after any run from an
      empty host. */
  lemma {:induction false} ReachableInv(pool: Cidr, steps: seq<Step>)
    requires IsPool(pool, 24)
    requires forall k :: 0 <= k < |steps| ==> !Blank(steps[k])
    ensures Inv(Run(pool, map[], steps))
  {
    RunKeepsInv(pool, map[], steps);
  }

  /** The owners that are listed stay disjoint whatever is asked for. */
  lemma {:induction false} DisjointStep(pool: Cidr, host: Host, step: Step)
    requires IsPool(pool, 24) && OwnersDisjoint(host)
    ensures OwnersDisjoint(Apply(pool, host, step))
  {
    var t := Apply(pool, host, step);
    if step.CreateNetwork? && Outcome(pool, host, step).Ok? {
      var request := step.request;
      if request.nat_cloud && Strip(request.shared) == "" {
        NewOwnerDisjoint(host, pool, step.path, request);
      } else {
        OtherRowDisjoint(host, step.path, NextId(host[step.path].networks), NewRecord(host, pool, step.path, request).value);
      }
    } else if Outcome(pool, host, step).Ok? {
      NoNewRows(pool, host, step);
      forall p: string, i: nat, q: string, j: nat
        ensures !Clash(t, p, i, q, j)
      {
        assert !Clash(host, p, i, q, j);
      }
    }
  }

  /** Only create_network makes records; nothing else changes more than a
      free-list. */
  lemma {:induction false} NoNewRows(pool: Cidr, host: Host, step: Step)
    requires IsPool(pool, 24) && !step.CreateNetwork? && Outcome(pool, host, step).Ok?
    ensures var t := Outcome(pool, host, step).value;
      forall p: string, i: nat :: Exists(t, p, i) ==>
        Exists(host, p, i) && At(t, p, i) == At(host, p, i).(used := At(t, p, i).used)
  {
    var t := Outcome(pool, host, step).value;
    match step
    case CreateLab(path, lab) =>
      assert InScope(path, path);
      assert t == host[path := CloudLab(lab, map[])];
    case DeleteNetwork(path, id, _) =>
      assert t == host[path := host[path].(networks := Without(host[path].networks, id))];
    case DeleteLab(path) => assert t == Without(host, path);
    case Allocate(path, id) =>
      var (p, i) := Target(host, path, id).value;
      PutRows(host, p, i, Taken(At(host, p, i), Reserve(host, path, id).value.0));
    case Release(path, id, ip) =>
      var (p, i) := Target(host, path, id).value;
      PutRows(host, p, i, GivenBack(At(host, p, i), ip));
  }

  lemma {:induction false} DisjointRun(pool: Cidr, host: Host, steps: seq<Step>)
    requires IsPool(pool, 24) && OwnersDisjoint(host)
    ensures OwnersDisjoint(Run(pool, host, steps))
    decreases |steps|
  {
    if |steps| > 0 {
      DisjointStep(pool, host, steps[0]);
      DisjointRun(pool, Apply(pool, host, steps[0]), steps[1..]);
    }
  }

  // ---------------------------------------------------------------------
  // What follows
  // ---------------------------------------------------------------------

  /** A cloud can be shared exactly while nobody shares it: the row of the first
      reference carries the same id and is never safe for reuse. */
  lemma {:induction false} ReferenceAcceptedIff(pool: Cidr, host: Host, path: string, request: Request)
    requires IsPool(pool, 24) && Inv(host) && path in host
    requires request.nat_cloud && Strip(request.shared) != ""
    ensures var cloud := Strip(request.shared);
      Create(host, pool, path, request).Ok? <==> HasOwner(host, cloud) && !Referenced(host, cloud)
  {
    var cloud := Strip(request.shared);
    var owner := FindOwner(host, cloud);
    if owner.Some? {
      var (p, i) := owner.value;
      assert IsOwner(host, p, i) && At(host, p, i).cidr.Some?;
      forall q: string, j: nat
        ensures !Colliding(host, q, j)
      {
        assert forall r: string, k: nat :: !Clash(host, q, j, r, k);
      }
      assert Owns(host, cloud, p, i);
    }
  }

  /** Owner and reference lead to one free-list, so an address taken through
      either is taken from the owner. */
  lemma {:induction false} OneFreeList(host: Host, p: string, i: nat, q: string, j: nat)
    requires Inv(host) && IsOwner(host, p, i) && RefersTo(host, CloudId(host[p].id, i), q, j)
    ensures Target(host, p, i) == Target(host, q, j) == Ok((p, i))
  {
    var cloud := CloudId(host[p].id, i);
    CloudIdPlain(host[p].id, i);
    assert Owns(host, cloud, p, i);
    var (r, k) := FindOwner(host, cloud).value;
    OwnerUnique(host, cloud, p, i, r, k);
  }

  /** No address is reserved in two clouds of the host. */
  lemma {:induction false} AddressesApart(host: Host, p: string, i: nat, q: string, j: nat, x: nat)
    requires Inv(host) && IsOwner(host, p, i) && IsOwner(host, q, j)
    requires x in At(host, p, i).used && x in At(host, q, j).used
    ensures (p, i) == (q, j)
  {
    var a, b := At(host, p, i), At(host, q, j);
    assert UsedOk(a) && UsedOk(b);
    WindowInside(a, x);
    WindowInside(b, x);
    assert Shared(a.cidr.value, b.cidr.value, x);
    OverlapsIff(a.cidr.value, b.cidr.value);
    assert !Clash(host, p, i, q, j);
  }

  /** An allocation in any reachable state returns an address nobody has: not
      reserved before, in no other cloud, and off the gateway default, the DHCP
      range and the network's own addresses. */
  lemma {:induction false} AllocationIsFresh(host: Host, path: string, id: nat, p: string, i: nat)
    requires Inv(host) && Target(host, path, id) == Ok((p, i)) && IsOwner(host, p, i)
    ensures var n, r := At(host, p, i), Reserve(host, path, id);
      && (r.Error? <==> forall x: nat :: InWindow(n, x) ==> x in n.used)
      && (r.Ok? ==>
            && (forall q, j :: IsOwner(host, q, j) ==> r.value.0 !in At(host, q, j).used)
            && n.cidr.value.addr + 1 < r.value.0 < n.dhcpStart && r.value.0 < Broadcast(n.cidr.value)
            && (forall x: nat :: InWindow(n, x) && x < r.value.0 ==> x in n.used))
  {
    var n := At(host, p, i);
    AllocateOne(n);
    CloudWindow(n);
    if Reserve(host, path, id).Ok? {
      var t := Reserve(host, path, id).value.1;
      var ip := Reserve(host, path, id).value.0;
      ReserveKeepsInv(host, path, id);
      PutRows(host, p, i, Taken(n, ip));
      forall q: string, j: nat | IsOwner(host, q, j)
        ensures ip !in At(host, q, j).used
      {
        if ip in At(host, q, j).used {
          assert ip in At(t, p, i).used;
          AddressesApart(t, p, i, q, j, ip);
        }
      }
    }
  }

  /** The row keeps being there through the run. */
  ghost predicate Survives(pool: Cidr, host: Host, steps: seq<Step>, p: string, i: nat)
    requires IsPool(pool, 24)
    decreases |steps|
  {
    Exists(host, p, i) && (|steps| > 0 ==> Survives(pool, Apply(pool, host, steps[0]), steps[1..], p, i))
  }

  /** A step changes nothing but the free-list of a row that is there before and
      after it. */
  lemma {:induction false} RowStays(pool: Cidr, host: Host, step: Step, p: string, i: nat)
    requires IsPool(pool, 24) && Exists(host, p, i) && Exists(Apply(pool, host, step), p, i)
    ensures var t := Apply(pool, host, step); At(t, p, i) == At(host, p, i).(used := At(t, p, i).used)
  {
    if Outcome(pool, host, step).Ok? {
      if step.CreateNetwork? {
        var id := NextId(host[step.path].networks);
        PutRows(host, step.path, id, NewRecord(host, pool, step.path, step.request).value);
      } else {
        NoNewRows(pool, host, step);
      }
    }
  }

  /** So its configuration stays as it was made. */
  lemma {:induction false} ConfigurationStays(pool: Cidr, host: Host, steps: seq<Step>, p: string, i: nat)
    requires IsPool(pool, 24) && Survives(pool, host, steps, p, i)
    ensures var t := Run(pool, host, steps);
      Exists(t, p, i) && At(t, p, i) == At(host, p, i).(used := At(t, p, i).used)
    decreases |steps|
  {
    if |steps| > 0 {
      RowStays(pool, host, steps[0], p, i);
      ConfigurationStays(pool, Apply(pool, host, steps[0]), steps[1..], p, i);
    }
  }

  /** The record of a new cloud: its addresses as they are given, the defaults of
      the code where they are not, and nothing reserved. */
  lemma {:induction false} NewOwnerIs(pool: Cidr, host: Host, path: string, request: Request)
    requires IsPool(pool, 24) && request.nat_cloud && Strip(request.shared) == ""
    requires Create(host, pool, path, request).Ok?
    ensures var t, id := Create(host, pool, path, request).value, NextId(host[path].networks);
      && id >= 1 && !Exists(host, path, id) && Exists(t, path, id)
      && var n := At(t, path, id);
      && n.nat_cloud && n.shared == request.shared && n.used == [] && n.firstOffset == 2 && n.cidr.Some?
      && n.gateway == (if request.raw.gateway.Given? then request.raw.gateway.value else n.cidr.value.addr + 1)
      && n.dhcpStart == (if request.raw.dhcpStart.Given? then request.raw.dhcpStart.value else n.cidr.value.addr + 100)
      && n.dhcpEnd == (if request.raw.dhcpEnd.Given? then request.raw.dhcpEnd.value else Broadcast(n.cidr.value) - 1)
  {
    Defaults(request.raw, OwnerCidrs(host) + LabCidrs(host[path].networks), pool);
  }

  /** A cloud that is made without a gateway never hands its gateway out, however
      long it is there and through whichever row the address is asked for. */
  lemma {:induction false} DefaultGatewayIsSafe(pool: Cidr, host: Host, path: string, request: Request, steps: seq<Step>,
                                                q: string, j: nat)
    requires IsPool(pool, 24) && Inv(host) && request.nat_cloud && request.shared == "" && !request.raw.gateway.Given?
    requires Create(host, pool, path, request).Ok?
    requires forall k :: 0 <= k < |steps| ==> !Blank(steps[k])
    requires Survives(pool, Create(host, pool, path, request).value, steps, path, NextId(host[path].networks))
    ensures var t, id := Run(pool, Create(host, pool, path, request).value, steps), NextId(host[path].networks);
      && Exists(t, path, id) && At(t, path, id).cidr.Some?
      && At(t, path, id).gateway == At(t, path, id).cidr.value.addr + 1
      && At(t, path, id).gateway !in At(t, path, id).used
      && (Reserve(t, q, j).Ok? && Target(t, q, j) == Ok((path, id)) ==> Reserve(t, q, j).value.0 != At(t, path, id).gateway)
  {
    var made, id := Create(host, pool, path, request).value, NextId(host[path].networks);
    NewOwnerIs(pool, host, path, request);
    StepKeepsInv(pool, host, CreateNetwork(path, request));
    RunKeepsInv(pool, made, steps);
    ConfigurationStays(pool, made, steps, path, id);
    var t := Run(pool, made, steps);
    assert IsOwner(t, path, id);
    CloudWindow(At(t, path, id));
    if Reserve(t, q, j).Ok? && Target(t, q, j) == Ok((path, id)) {
      AllocationIsFresh(t, q, j, path, id);
    }
  }

  /** The two hosts have the same labs, and the same rows but for one. */
  ghost predicate SameBut(host: Host, t: Host, p: string, i: nat) {
    && t.Keys == host.Keys && (forall q :: q in host ==> t[q].id == host[q].id)
    && forall q: string, j: nat :: (q, j) != (p, i) ==>
         Exists(t, q, j) == Exists(host, q, j) && (Exists(host, q, j) ==> At(t, q, j) == At(host, q, j))
  }

  /** A network is deleted exactly when it is there, on no link, and no cloud that is
      referred to; that row goes and no other. */
  lemma {:induction false} DroppedIs(host: Host, path: string, id: nat, attached: bool)
    ensures var r := Drop(host, path, id, attached);
      && (!Exists(host, path, id) <==> r == Error(404))
      && (r.Ok? <==> (Exists(host, path, id) && !attached
                      && !(IsOwner(host, path, id) && Referenced(host, CloudId(host[path].id, id)))))
      && (r.Ok? ==> !Exists(r.value, path, id) && SameBut(host, r.value, path, id))
      && (r.Error? ==> r.code == 404 || r.code == 409)
  {
  }

  /** Lab `q` refers to a cloud of lab `path`. */
  predicate Borrows(host: Host, path: string, i: nat, q: string, j: nat) {
    q != path && IsOwner(host, path, i) && RefersTo(host, CloudId(host[path].id, i), q, j)
  }

  /** A lab is deleted exactly when no other borrows a cloud of it; that lab goes and
      no other. */
  lemma {:induction false} LabDroppedIs(host: Host, path: string)
    requires LabsApart(host) && path in host
    ensures var r := DropLab(host, path);
      && (r.Error? <==> exists i: nat, q: string, j: nat :: Borrows(host, path, i, q, j))
      && (r.Ok? ==> r.value.Keys == host.Keys - {path} && forall q :: q in r.value ==> r.value[q] == host[q])
      && (r.Error? ==> r.code == 409)
  {
    assert InScope(path, path);
    forall p: string, i: nat, q: string, j: nat
      ensures Blocks(host, path, p, i, q, j) <==> p == path && Borrows(host, path, i, q, j)
    {
      assert InScope(p, path) && p in host ==> p == path;
      assert InScope(q, path) && q in host ==> q == path;
    }
    if exists i: nat, q: string, j: nat :: Borrows(host, path, i, q, j) {
      var i: nat, q: string, j: nat :| Borrows(host, path, i, q, j);
      assert Blocks(host, path, path, i, q, j);
    }
    if DropLab(host, path).Error? {
      var p: string, i: nat, q: string, j: nat :| Blocks(host, path, p, i, q, j);
      assert Borrows(host, path, i, q, j);
    }
  }

  /** An allocation reserves the address it returns in the record the row leads to; a
      release takes it out; neither touches another row. */
  lemma {:induction false} AddressStepIs(host: Host, path: string, id: nat, ip: nat, p: string, i: nat)
    requires RecordsOk(host) && Target(host, path, id) == Ok((p, i))
    ensures var r := Reserve(host, path, id);
      r.Ok? ==>
        && Exists(r.value.1, p, i) && SameBut(host, r.value.1, p, i)
        && At(r.value.1, p, i) == At(host, p, i).(used := At(r.value.1, p, i).used)
        && r.value.0 !in At(host, p, i).used
        && forall x :: x in At(r.value.1, p, i).used <==> x in At(host, p, i).used || x == r.value.0
    ensures var r := GiveBack(host, path, id, ip);
      && r.Ok? && Exists(r.value, p, i) && SameBut(host, r.value, p, i)
      && At(r.value, p, i) == At(host, p, i).(used := At(r.value, p, i).used)
      && forall x :: x in At(r.value, p, i).used <==> x in At(host, p, i).used && x != ip
  {
    var n := At(host, p, i);
    if n.cidr.Some? {
      AllocateOne(n);
      if NextAddress(n).Some? {
        PutRows(host, p, i, Taken(n, NextAddress(n).value));
      }
    }
    ReleaseOne(n, ip);
    PutRows(host, p, i, GivenBack(n, ip));
  }

  /** Where a row leads: to itself, unless it names a cloud; then to its owner, if
      there is one. */
  lemma {:induction false} TargetIs(host: Host, path: string, id: nat)
    requires LabsApart(host)
    ensures var r := Target(host, path, id);
      && (r == Error(404) <==> !Exists(host, path, id))
      && (Exists(host, path, id) ==>
            var cloud := Strip(At(host, path, id).shared);
            && (cloud == "" ==> r == Ok((path, id)))
            && (cloud != "" ==> (r == Error(409) <==> !HasOwner(host, cloud))
                                && forall p: string, i: nat :: Owns(host, cloud, p, i) ==> r == Ok((p, i))))
  {
    if Exists(host, path, id) && Strip(At(host, path, id).shared) != "" {
      var cloud := Strip(At(host, path, id).shared);
      forall p: string, i: nat | Owns(host, cloud, p, i)
        ensures Target(host, path, id) == Ok((p, i))
      {
        assert HasOwner(host, cloud);
        var (q, j) := FindOwner(host, cloud).value;
        OwnerUnique(host, cloud, p, i, q, j);
      }
    }
  }

  /** What creating leaves: one more row, under an id nothing has; a reference shows
      its owner's configuration, and a network that is no cloud what it was given.  A
      lab starts empty. */
  lemma {:induction false} CreatedIs(host: Host, pool: Cidr, path: string, request: Request)
    requires IsPool(pool, 24) && LabsApart(host) && Create(host, pool, path, request).Ok?
    ensures path in host
    ensures var t, id := Create(host, pool, path, request).value, NextId(host[path].networks);
      && !Exists(host, path, id) && Exists(t, path, id) && SameBut(host, t, path, id)
      && var n := At(t, path, id);
      && n.nat_cloud == request.nat_cloud && n.used == [] && n.firstOffset == 2
      && (!request.nat_cloud ==>
            n.shared == request.shared && request.raw.cidr == (if n.cidr.Some? then Given(n.cidr.value) else Absent))
      && (request.nat_cloud && Strip(request.shared) != "" ==>
            n.shared == Strip(request.shared) && exists p, i :: Owns(host, n.shared, p, i) && SameConfig(n, At(host, p, i)))
      && (request.provisions || (request.nat_cloud && Strip(request.shared) != ""))
  {
    var id := NextId(host[path].networks);
    var n := NewRecord(host, pool, path, request).value;
    PutRows(host, path, id, n);
    if request.nat_cloud && Strip(request.shared) != "" {
      CopiesOwner(host, n.shared);
      var (p, i) := FindOwner(host, n.shared).value;
      assert Owns(host, n.shared, p, i) && SameConfig(n, At(host, p, i));
    }
  }

  /** What one request does to the host: a lab comes, empty, where none is; a network
      or a lab goes exactly when nothing keeps it; a record comes, or an address is
      taken or given back, exactly when the request is served; and nothing else
      changes. */
  lemma {:induction false} StepDoes(pool: Cidr, host: Host, step: Step)
    requires IsPool(pool, 24) && LabsApart(host) && RecordsOk(host)
    ensures var t := Apply(pool, host, step);
      match step
      case CreateLab(path, lab) =>
        if CanCreateLab(host, path, lab) then path !in host && t == host[path := CloudLab(lab, map[])] else t == host
      case CreateNetwork(path, request) =>
        if Create(host, pool, path, request).Ok? then
          path in host && !Exists(host, path, NextId(host[path].networks)) && Exists(t, path, NextId(host[path].networks))
          && SameBut(host, t, path, NextId(host[path].networks))
        else t == host
      case DeleteNetwork(path, id, attached) =>
        if Drop(host, path, id, attached).Ok? then !Exists(t, path, id) && SameBut(host, t, path, id) else t == host
      case DeleteLab(path) =>
        if path in host && DropLab(host, path).Ok? then t.Keys == host.Keys - {path} && forall q :: q in t ==> t[q] == host[q]
        else t == host
      case Allocate(path, id) =>
        var r := Reserve(host, path, id);
        if r.Ok? then
          var (p, i) := Target(host, path, id).value;
          Exists(t, p, i) && SameBut(host, t, p, i) && r.value.0 in At(t, p, i).used && r.value.0 !in At(host, p, i).used
        else t == host
      case Release(path, id, ip) =>
        if Target(host, path, id).Ok? then
          var (p, i) := Target(host, path, id).value;
          Exists(t, p, i) && SameBut(host, t, p, i) && ip !in At(t, p, i).used
        else t == host
  {
    match step
    case CreateLab(path, lab) => assert InScope(path, path);
    case CreateNetwork(path, request) =>
      if Create(host, pool, path, request).Ok? {
        CreatedIs(host, pool, path, request);
      }
    case DeleteNetwork(path, id, attached) => DroppedIs(host, path, id, attached);
    case DeleteLab(path) => assert path !in host ==> Without(host, path) == host;
    case Allocate(path, id) =>
      if Reserve(host, path, id).Ok? {
        var (p, i) := Target(host, path, id).value;
        AddressStepIs(host, path, id, 0, p, i);
      }
    case Release(path, id, ip) =>
      if Target(host, path, id).Ok? {
        var (p, i) := Target(host, path, id).value;
        AddressStepIs(host, path, id, ip, p, i);
      }
  }

  /** The subnet of a record stored with a blank id is given out again. */
  lemma {:induction false} BlankIsReissued(pool: Cidr, host: Host, p: string, q: string)
    requires IsPool(pool, 24) && p in host && q in host && p != q
    requires forall path :: path in host ==> host[path].networks == map[]
    ensures var defaults := RawConfig(Absent, Absent, Absent, Absent);
      var a := Apply(pool, host, CreateNetwork(p, Request(true, " ", defaults, true)));
      var b := Apply(pool, a, CreateNetwork(q, Request(true, "", defaults, true)));
      && Exists(b, p, 1) && Exists(b, q, 1) && At(b, p, 1).cidr.Some?
      && At(b, p, 1).cidr == At(b, q, 1).cidr
  {
    var defaults := RawConfig(Absent, Absent, Absent, Absent);
    var a := Apply(pool, host, CreateNetwork(p, Request(true, " ", defaults, true)));
    assert Strip(" ") == "";
    FirstOwner(pool, host, p, Request(true, " ", defaults, true));
    assert a[q] == host[q] && !IsOwner(a, p, 1);
    assert forall path: string, i: nat :: Exists(a, path, i) ==> path == p && i == 1;
    FirstOwner(pool, a, q, Request(true, "", defaults, true));
  }

  /** The first listed cloud gets the first block of the pool. */
  lemma {:induction false} FirstOwner(pool: Cidr, host: Host, path: string, request: Request)
    requires IsPool(pool, 24) && path in host && host[path].networks == map[]
    requires forall p, i :: !IsOwner(host, p, i)
    requires request.nat_cloud && Strip(request.shared) == "" && request.provisions
    requires request.raw == RawConfig(Absent, Absent, Absent, Absent)
    ensures var t := Apply(pool, host, CreateNetwork(path, request));
      && Exists(t, path, 1) && t == Put(host, path, 1, At(t, path, 1))
      && At(t, path, 1).shared == request.shared && At(t, path, 1).cidr.Some?
      && At(t, path, 1).cidr.value == Subnet(pool.addr, 24)
  {
    FirstBlock(pool, 24);
    var none: set<Cidr> := {};
    assert OwnerCidrs(host) + LabCidrs(host[path].networks) == none by {
      assert forall c: Cidr, p: string, i: nat :: !HoldsOwnerCidr(host, c, p, i);
    }
    assert Open(24, none, pool.addr);
    var c: Cidr := Subnet(pool.addr, 24);
    AddressesChecked(request.raw, c);
    assert Normalize(request.raw, none, pool).Ok? && Normalize(request.raw, none, pool).value.cidr == c;
    assert host[path].networks.Keys == {};
    assert NextId(host[path].networks) == 1;
    var n := OwnerRecord(host, pool, path, request).value;
    assert Apply(pool, host, CreateNetwork(path, request)) == Put(host, path, 1, n);
  }
}
