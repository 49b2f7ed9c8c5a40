/** The networks of all labs on one host as the NAT-Cloud code sees them: who
    owns a cloud, who refers to it, and how networks come and go. */
module CloudModel {
  import opened Collections
  import opened Text
  import opened Cidr

  /** A network record.  `shared` is the stored `config.shared_cloud_id`, empty
      when there is none; `used` and `firstOffset` are in `runtime`. */
  datatype CloudNet = CloudNet(nat_cloud: bool, shared: string, cidr: Option<Cidr>, gateway: nat,
                               dhcpStart: nat, dhcpEnd: nat, used: seq<nat>, firstOffset: int)

  datatype CloudLab = CloudLab(id: string, networks: map<nat, CloudNet>)

  /** Every lab file, by its path. */
  type Host = map<string, CloudLab>

  datatype Result<+T> = Ok(value: T) | Error(code: nat)

  function CloudId(lab: string, id: nat): string {
    "nat-cloud:" + lab + [':'] + Decimal(id)
  }

  /** An id names one lab and one network. */
  lemma {:induction false} CloudIdUnique(a: string, i: nat, b: string, j: nat)
    requires CloudId(a, i) == CloudId(b, j)
    ensures a == b && i == j
  {
    var p, q := "nat-cloud:" + a, "nat-cloud:" + b;
    StopThenNumber(p, q, ':', i, j);
    assert a == p[10..] && b == q[10..];
  }

  // ---------------------------------------------------------------------
  // The inventory
  // ---------------------------------------------------------------------

  predicate Exists(host: Host, path: string, id: nat) {
    path in host && id in host[path].networks
  }

  function At(host: Host, path: string, id: nat): CloudNet
    requires Exists(host, path, id)
  {
    host[path].networks[id]
  }

  /** The row is listed as the owner of a cloud. */
  predicate IsOwner(host: Host, path: string, id: nat) {
    Exists(host, path, id) && At(host, path, id).nat_cloud && At(host, path, id).shared == ""
  }

  /** The row is listed as a reference to a cloud. */
  predicate IsReference(host: Host, path: string, id: nat) {
    Exists(host, path, id) && At(host, path, id).nat_cloud && At(host, path, id).shared != ""
  }

  predicate Owns(host: Host, cloud: string, path: string, id: nat) {
    IsOwner(host, path, id) && CloudId(host[path].id, id) == cloud
  }

  predicate RefersTo(host: Host, cloud: string, path: string, id: nat) {
    IsReference(host, path, id) && At(host, path, id).shared == cloud
  }

  ghost predicate HasOwner(host: Host, cloud: string) {
    exists path, id :: Owns(host, cloud, path, id)
  }

  ghost predicate Referenced(host: Host, cloud: string) {
    exists path, id :: RefersTo(host, cloud, path, id)
  }

  /** `find_nat_cloud_owner`. */
  ghost function FindOwner(host: Host, cloud: string): (r: Option<(string, nat)>)
    ensures r.Some? ==> Owns(host, cloud, r.value.0, r.value.1)
    ensures r.None? ==> !HasOwner(host, cloud)
  {
    if HasOwner(host, cloud) then
      var path: string, id: nat :| Owns(host, cloud, path, id);
      Some((path, id))
    else None
  }

  predicate Clash(host: Host, p: string, i: nat, q: string, j: nat) {
    && IsOwner(host, p, i) && IsOwner(host, q, j) && (p, i) != (q, j)
    && At(host, p, i).cidr.Some? && At(host, q, j).cidr.Some?
    && Overlaps(At(host, p, i).cidr.value, At(host, q, j).cidr.value)
  }

  /** The owner's network overlaps that of some other owner. */
  ghost predicate Colliding(host: Host, p: string, i: nat) {
    exists q, j :: Clash(host, p, i, q, j)
  }

  /** Some listed row with this cloud id is not safe for reuse: a reference never
      is, an owner is unless it collides. */
  ghost predicate Unsafe(host: Host, cloud: string) {
    Referenced(host, cloud) || exists p, i :: Owns(host, cloud, p, i) && Colliding(host, p, i)
  }

  predicate HoldsOwnerCidr(host: Host, c: Cidr, path: string, id: nat) {
    IsOwner(host, path, id) && At(host, path, id).cidr == Some(c)
  }

  /** `owner_cidrs`. */
  ghost function OwnerCidrs(host: Host): (used: set<Cidr>)
    ensures forall c :: c in used <==> exists path, id :: HoldsOwnerCidr(host, c, path, id)
  {
    var used := set path, id | path in host && id in host[path].networks
                  && IsOwner(host, path, id) && At(host, path, id).cidr.Some? :: At(host, path, id).cidr.value;
    assert forall c: Cidr, path: string, id: nat ::
      HoldsOwnerCidr(host, c, path, id) ==> At(host, path, id).cidr.value == c && c in used;
    assert forall c: Cidr :: c in used ==> exists path: string, id: nat :: HoldsOwnerCidr(host, c, path, id) by {
      forall c: Cidr | c in used
        ensures exists path: string, id: nat :: HoldsOwnerCidr(host, c, path, id)
      {
        var path: string, id: nat :| path in host && id in host[path].networks
          && IsOwner(host, path, id) && At(host, path, id).cidr.Some? && At(host, path, id).cidr.value == c;
        assert HoldsOwnerCidr(host, c, path, id);
      }
    }
    used
  }

  /** `_existing_network_cidrs`. */
  ghost function LabCidrs(networks: map<nat, CloudNet>): set<Cidr> {
    set id | id in networks && networks[id].cidr.Some? :: networks[id].cidr.value
  }

  // ---------------------------------------------------------------------
  // Configuration
  // ---------------------------------------------------------------------

  /** A value the caller may leave out. */
  datatype Field<T> = Absent | Malformed | Given(value: T)

  datatype RawConfig = RawConfig(cidr: Field<Cidr>, gateway: Field<nat>, dhcpStart: Field<nat>, dhcpEnd: Field<nat>)

  datatype Config = Config(cidr: Cidr, gateway: nat, dhcpStart: nat, dhcpEnd: nat)

  const STATIC_LAST: nat := 99
  const DHCP_FIRST: nat := 100
  const FIRST_OFFSET: int := 2

  /** The subnet a new cloud gets. */
  ghost function ChooseCidr(raw: RawConfig, used: set<Cidr>, pool: Cidr): Result<Cidr>
    requires IsPool(pool, 24)
  {
    match raw.cidr
    case Malformed => Error(422)
    case Given(c) => Ok(c)
    case Absent =>
      var at := LowestFree(pool, 24, used);
      if at.None? then Error(409) else Ok(Subnet(at.value, 24))
  }

  function Or(f: Field<nat>, default: nat): nat {
    if f.Given? then f.value else default
  }

  /** The configuration with every default filled in. */
  function Filled(raw: RawConfig, c: Cidr): Config
    requires c.prefix <= 24
  {
    SmallNetworks(c.prefix);
    Config(c, Or(raw.gateway, c.addr + 1), Or(raw.dhcpStart, c.addr + DHCP_FIRST), Or(raw.dhcpEnd, Broadcast(c) - 1))
  }

  /** The checks on the addresses inside the subnet, in the order of the code. */
  function CheckAddresses(raw: RawConfig, c: Cidr): Result<Config>
    requires c.prefix <= 24
  {
    var Config(_, gateway, start, end) := Filled(raw, c);
    if raw.gateway.Malformed? then Error(422)
    else if !Contains(c, gateway) then Error(422)
    else if gateway == c.addr || gateway == Broadcast(c) then Error(422)
    else if raw.dhcpStart.Malformed? || raw.dhcpEnd.Malformed? then Error(422)
    else if !Contains(c, start) || !Contains(c, end) then Error(422)
    else if start > end then Error(422)
    else if start <= c.addr + STATIC_LAST then Error(422)
    else Ok(Filled(raw, c))
  }

  /** `_normalize_nat_cloud_config`. */
  ghost function Normalize(raw: RawConfig, used: set<Cidr>, pool: Cidr): Result<Config>
    requires IsPool(pool, 24)
  {
    var c := ChooseCidr(raw, used, pool);
    if c.Error? then Error(c.code)
    else if c.value.prefix > 24 then Error(422)
    else if !FreeOf(c.value, used) then Error(409)
    else CheckAddresses(raw, c.value)
  }

  /** What the rest of the code may rely on in a cloud's configuration. */
  predicate Accepted(c: Config) {
    && c.cidr.prefix <= 24
    && c.cidr.addr < c.gateway < Broadcast(c.cidr)
    && c.cidr.addr + STATIC_LAST < c.dhcpStart <= c.dhcpEnd <= Broadcast(c.cidr)
  }

  lemma {:induction false} SmallNetworks(prefix: nat)
    requires prefix <= 24
    ensures Pow2(32 - prefix) >= 256
  {
    FourBits(0);
    FourBits(4);
    LargerPower(8, 32 - prefix);
  }

  lemma {:induction false} LargerPower(j: nat, k: nat)
    requires j <= k
    ensures Pow2(j) <= Pow2(k)
  {
    if j < k {
      LargerPower(j, k - 1);
    }
  }

  predicate WellFormed(raw: RawConfig) {
    !raw.gateway.Malformed? && !raw.dhcpStart.Malformed? && !raw.dhcpEnd.Malformed?
  }

  predicate AllDefaults(raw: RawConfig) {
    raw.gateway.Absent? && raw.dhcpStart.Absent? && raw.dhcpEnd.Absent?
  }

  /** A free /24 network of the pool. */
  ghost predicate IsFree(used: set<Cidr>, pool: Cidr, c: Cidr) {
    c.prefix == 24 && Contains(pool, c.addr) && FreeOf(c, used)
  }

  /** The subnet a request is for: a free one that it gives, or the lowest free one
      of the pool. */
  ghost predicate IsFor(raw: RawConfig, used: set<Cidr>, pool: Cidr, c: Cidr) {
    match raw.cidr
    case Given(given) => c == given && c.prefix <= 24 && FreeOf(c, used)
    case Absent => IsFree(used, pool, c) && forall d: Cidr :: IsFree(used, pool, d) ==> c.addr <= d.addr
    case Malformed => false
  }

  /** The addresses of the request, defaults filled in, can be read and lie where
      they must in the subnet. */
  predicate Fits(raw: RawConfig, c: Cidr)
    requires c.prefix <= 24
  {
    WellFormed(raw) && Accepted(Filled(raw, c))
  }

  /** A request is granted exactly when there is a subnet it is for and its
      addresses fit that subnet; without addresses of its own they always fit. */
  lemma {:induction false} NormalizeIff(raw: RawConfig, used: set<Cidr>, pool: Cidr)
    requires IsPool(pool, 24)
    ensures var r := Normalize(raw, used, pool);
      && (r.Ok? ==> IsFor(raw, used, pool, r.value.cidr) && Accepted(r.value) && r.value == Filled(raw, r.value.cidr))
      && (r.Ok? <==> exists c: Cidr :: IsFor(raw, used, pool, c) && Fits(raw, c))
      && (AllDefaults(raw) ==> (r.Ok? <==> exists c: Cidr :: IsFor(raw, used, pool, c)))
  {
    LowestFreeIsLeast(pool, 24, used);
    forall c: Cidr
      ensures IsFree(used, pool, c) <==> c == Subnet(c.addr, 24) && Open(24, used, c.addr) && Contains(pool, c.addr)
    {
    }
    forall c: Cidr | IsFor(raw, used, pool, c)
      ensures ChooseCidr(raw, used, pool) == Ok(c)
    {
      assert raw.cidr.Absent? ==> LowestFree(pool, 24, used).Some? && c.addr == LowestFree(pool, 24, used).value;
    }
    var chosen := ChooseCidr(raw, used, pool);
    if chosen.Ok? && chosen.value.prefix <= 24 {
      AddressesChecked(raw, chosen.value);
    }
  }

  lemma {:induction false} AddressesChecked(raw: RawConfig, c: Cidr)
    requires c.prefix <= 24
    ensures var r := CheckAddresses(raw, c);
      && (r.Ok? ==> r.value == Filled(raw, c))
      && (r.Ok? <==> WellFormed(raw) && Accepted(Filled(raw, c)))
      && (AllDefaults(raw) ==> r.Ok?)
  {
    SmallNetworks(c.prefix);
    ContainsIsRange(c, Filled(raw, c).gateway);
    ContainsIsRange(c, Filled(raw, c).dhcpStart);
    ContainsIsRange(c, Filled(raw, c).dhcpEnd);
  }

  /** A value that is given is stored as it is.  Left out, the gateway is the first
      address of the subnet, and the DHCP range runs from the hundredth address to
      the last one before the broadcast address. */
  lemma {:induction false} Defaults(raw: RawConfig, used: set<Cidr>, pool: Cidr)
    requires IsPool(pool, 24) && Normalize(raw, used, pool).Ok?
    ensures var r := Normalize(raw, used, pool).value;
      && (raw.cidr.Given? ==> r.cidr == raw.cidr.value)
      && (raw.gateway == (if raw.gateway.Given? then Given(r.gateway) else Absent))
      && (raw.dhcpStart == (if raw.dhcpStart.Given? then Given(r.dhcpStart) else Absent))
      && (raw.dhcpEnd == (if raw.dhcpEnd.Given? then Given(r.dhcpEnd) else Absent))
      && (raw.gateway.Absent? ==> r.gateway == r.cidr.addr + 1)
      && (raw.dhcpStart.Absent? ==> r.dhcpStart == r.cidr.addr + 100)
      && (raw.dhcpEnd.Absent? ==> r.dhcpEnd == r.cidr.addr + Pow2(32 - r.cidr.prefix) - 2)
  {
    SmallNetworks(Normalize(raw, used, pool).value.cidr.prefix);
  }
}
