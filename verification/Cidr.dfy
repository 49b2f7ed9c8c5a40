/** IPv4 networks in CIDR notation (RFC 4632, section 3.1) as the services use
    them, and the search for a free /24.  Parsing their text is not part of
    this model. */
module Cidr {
  import opened Collections

  function Pow2(k: nat): (p: nat)
    ensures p >= 1
  {
    if k == 0 then 1 else 2 * Pow2(k - 1)
  }

  /** `x` under a netmask that clears the last `k` bits. */
  function Masked(x: nat, k: nat): nat {
    if k == 0 then x else 2 * Masked(x / 2, k - 1)
  }

  const ADDRESSES: nat := 0x1_0000_0000

  /** A network address and a prefix length. */
  datatype Subnet = Subnet(addr: nat, prefix: nat)

  /** `strict=True`: an address of 32 bits with no host bits set. */
  predicate Valid(n: Subnet) {
    n.prefix <= 32 && n.addr < ADDRESSES && Masked(n.addr, 32 - n.prefix) == n.addr
  }

  function Broadcast(n: Subnet): nat
    requires Valid(n)
  {
    n.addr + Pow2(32 - n.prefix) - 1
  }

  /** `addr in net`: the address under the netmask is the network address. */
  predicate Contains(n: Subnet, x: nat)
    requires Valid(n)
  {
    Masked(x, 32 - n.prefix) == n.addr
  }

  /** `net.overlaps(other)`: one of the four corner addresses lies in the other
      network. */
  predicate Overlaps(a: Subnet, b: Subnet)
    requires Valid(a) && Valid(b)
  {
    Contains(b, a.addr) || Contains(b, Broadcast(a)) || Contains(a, b.addr) || Contains(a, Broadcast(b))
  }

  // ---------------------------------------------------------------------
  // What masking and overlapping mean
  // ---------------------------------------------------------------------

  lemma {:induction false} MaskedBelow(x: nat, k: nat)
    ensures Masked(x, k) <= x < Masked(x, k) + Pow2(k)
  {
    if k > 0 {
      MaskedBelow(x / 2, k - 1);
    }
  }

  lemma {:induction false} MaskedOnBlock(a: nat, x: nat, k: nat)
    requires Masked(a, k) == a && a <= x < a + Pow2(k)
    ensures Masked(x, k) == a
  {
    if k > 0 {
      MaskedOnBlock(a / 2, x / 2, k - 1);
    }
  }

  /** A longer mask is a finer one. */
  lemma {:induction false} MaskedTwice(x: nat, j: nat, k: nat)
    requires j <= k
    ensures Masked(Masked(x, j), k) == Masked(x, k)
  {
    if j > 0 {
      MaskedTwice(x / 2, j - 1, k - 1);
    }
  }

  lemma {:induction false} MaskedFiner(x: nat, j: nat, k: nat)
    requires j <= k && Masked(x, k) == x
    ensures Masked(x, j) == x
  {
    if j > 0 {
      MaskedFiner(x / 2, j - 1, k - 1);
    }
  }

  lemma {:induction false} BlockFits(a: nat, k: nat, n: nat)
    requires k <= n && Masked(a, k) == a && a < Pow2(n)
    ensures a + Pow2(k) <= Pow2(n)
  {
    if k > 0 {
      BlockFits(a / 2, k - 1, n - 1);
    }
  }

  lemma {:induction false} FourBits(k: nat)
    ensures Pow2(k + 4) == 16 * Pow2(k)
  {
    assert Pow2(k + 4) == 2 * Pow2(k + 3);
    assert Pow2(k + 3) == 2 * Pow2(k + 2);
    assert Pow2(k + 2) == 2 * Pow2(k + 1);
  }

  lemma {:induction false} AllBits()
    ensures Pow2(32) == ADDRESSES
  {
    FourBits(0);
    FourBits(4);
    FourBits(8);
    FourBits(12);
    FourBits(16);
    FourBits(20);
    FourBits(24);
    FourBits(28);
  }

  lemma {:induction false} FitsAddresses(a: nat, k: nat)
    requires k <= 32 && Masked(a, k) == a && a < ADDRESSES
    ensures a + Pow2(k) <= ADDRESSES
  {
    AllBits();
    BlockFits(a, k, 32);
  }

  /** A network is one run of addresses. */
  lemma {:induction false} ContainsIsRange(n: Subnet, x: nat)
    requires Valid(n)
    ensures Contains(n, x) <==> n.addr <= x <= Broadcast(n)
    ensures Broadcast(n) < ADDRESSES
  {
    MaskedBelow(x, 32 - n.prefix);
    if n.addr <= x <= Broadcast(n) {
      MaskedOnBlock(n.addr, x, 32 - n.prefix);
    }
    FitsAddresses(n.addr, 32 - n.prefix);
  }

  /** Both networks have the address. */
  predicate Shared(a: Subnet, b: Subnet, x: nat)
    requires Valid(a) && Valid(b)
  {
    Contains(a, x) && Contains(b, x)
  }

  lemma {:induction false} Corners(a: Subnet, b: Subnet)
    requires Valid(a) && Valid(b)
    ensures Contains(a, a.addr) && Contains(a, Broadcast(a))
    ensures Contains(b, a.addr) <==> b.addr <= a.addr <= Broadcast(b)
    ensures Contains(b, Broadcast(a)) <==> b.addr <= Broadcast(a) <= Broadcast(b)
  {
    ContainsIsRange(a, a.addr);
    ContainsIsRange(a, Broadcast(a));
    ContainsIsRange(b, a.addr);
    ContainsIsRange(b, Broadcast(a));
  }

  /** The four corner tests find a common address exactly when there is one. */
  lemma {:induction false} OverlapsIff(a: Subnet, b: Subnet)
    requires Valid(a) && Valid(b)
    ensures Overlaps(a, b) <==> exists x: nat :: Shared(a, b, x)
  {
    Corners(a, b);
    Corners(b, a);
    assert Shared(a, b, a.addr) <==> Contains(b, a.addr);
    assert Shared(a, b, Broadcast(a)) <==> Contains(b, Broadcast(a));
    assert Shared(a, b, b.addr) <==> Contains(a, b.addr);
    assert Shared(a, b, Broadcast(b)) <==> Contains(a, Broadcast(b));
    if x: nat :| Shared(a, b, x) {
      ContainsIsRange(a, x);
      ContainsIsRange(b, x);
    }
  }

  lemma {:induction false} OverlapsSymmetric(a: Subnet, b: Subnet)
    requires Valid(a) && Valid(b)
    ensures Overlaps(a, b) == Overlaps(b, a)
  {
  }

  /** Networks never overlap in part: the one with the longer prefix lies inside
      the other. */
  lemma {:induction false} OverlapsNested(a: Subnet, b: Subnet, x: nat)
    requires Valid(a) && Valid(b) && a.prefix <= b.prefix
    requires Overlaps(a, b) && Contains(b, x)
    ensures Contains(a, x)
  {
    OverlapsIff(a, b);
    var y: nat :| Shared(a, b, y);
    MaskedTwice(x, 32 - b.prefix, 32 - a.prefix);
    MaskedTwice(y, 32 - b.prefix, 32 - a.prefix);
  }

  // ---------------------------------------------------------------------
  // The pool
  // ---------------------------------------------------------------------

  type Cidr = n: Subnet | Valid(n) witness Subnet(0, 32)

  /** The network has no overlap with any of those in use. */
  ghost predicate FreeOf(c: Cidr, used: set<Cidr>) {
    forall u :: u in used ==> !Overlaps(c, u)
  }

  /** A network that can be cut into networks of prefix length `q`. */
  predicate IsPool(pool: Subnet, q: nat) {
    Valid(pool) && pool.prefix <= q <= 32
  }

  lemma {:induction false} AlignedNext(a: nat, k: nat)
    requires Masked(a, k) == a
    ensures Masked(a + Pow2(k), k) == a + Pow2(k)
  {
    if k > 0 {
      AlignedNext(a / 2, k - 1);
    }
  }

  lemma {:induction false} AlignedGap(a: nat, b: nat, k: nat)
    requires Masked(a, k) == a && Masked(b, k) == b && a < b
    ensures a + Pow2(k) <= b
  {
    if k > 0 {
      AlignedGap(a / 2, b / 2, k - 1);
    }
  }

  /** After a block that is not the last one of the pool comes another. */
  lemma {:induction false} NextBlock(pool: Subnet, q: nat, at: nat)
    requires IsPool(pool, q) && Valid(Subnet(at, q)) && at <= Broadcast(pool)
    ensures at + Pow2(32 - q) <= Broadcast(pool) ==> Valid(Subnet(at + Pow2(32 - q), q))
  {
    ContainsIsRange(pool, at);
    AlignedNext(at, 32 - q);
  }

  lemma {:induction false} BlocksApart(q: nat, at: nat, c: nat)
    requires Valid(Subnet(at, q)) && Valid(Subnet(c, q)) && at < c
    ensures at + Pow2(32 - q) <= c
  {
    AlignedGap(at, c, 32 - q);
  }

  lemma {:induction false} FirstBlock(pool: Subnet, q: nat)
    requires IsPool(pool, q)
    ensures Valid(Subnet(pool.addr, q))
  {
    MaskedFiner(pool.addr, 32 - q, 32 - pool.prefix);
  }

  /** The block at an address is a network without overlap with those in use. */
  ghost predicate Open(q: nat, used: set<Cidr>, at: nat)
  {
    Valid(Subnet(at, q)) && FreeOf(Subnet(at, q), used)
  }

  /** The first free block from an address on, not beyond `end`. */
  ghost function FirstFree(q: nat, used: set<Cidr>, at: nat, end: nat): (r: Option<nat>)
    requires q <= 32
    ensures r.Some? ==> Open(q, used, r.value) && at <= r.value <= end
    decreases end + 1 - at
  {
    if at > end then None
    else if Open(q, used, at) then Some(at)
    else FirstFree(q, used, at + Pow2(32 - q), end)
  }

  lemma {:induction false} FirstFreeBounds(pool: Subnet, q: nat, used: set<Cidr>, at: nat, c: nat)
    requires IsPool(pool, q) && Valid(Subnet(at, q))
    requires Open(q, used, c) && at <= c <= Broadcast(pool)
    ensures var r := FirstFree(q, used, at, Broadcast(pool)); r.Some? && r.value <= c
    decreases c - at
  {
    if !Open(q, used, at) {
      NextBlock(pool, q, at);
      BlocksApart(q, at, c);
      FirstFreeBounds(pool, q, used, at + Pow2(32 - q), c);
    }
  }

  /** What the search chooses for prefix length `q`. */
  ghost function LowestFree(pool: Subnet, q: nat, used: set<Cidr>): (r: Option<nat>)
    requires IsPool(pool, q)
    ensures r.Some? ==> Open(q, used, r.value)
  {
    FirstFree(q, used, pool.addr, Broadcast(pool))
  }

  /** The choice is a network of the pool that overlaps nothing in use; none of
      those lies below it, and the search fails only when there is none. */
  lemma {:induction false} LowestFreeIsLeast(pool: Subnet, q: nat, used: set<Cidr>)
    requires IsPool(pool, q)
    ensures var r := LowestFree(pool, q, used);
      && (r.Some? ==> Open(q, used, r.value) && Contains(pool, r.value))
      && forall c :: Open(q, used, c) && Contains(pool, c) ==> r.Some? && r.value <= c
  {
    FirstBlock(pool, q);
    if LowestFree(pool, q, used).Some? {
      ContainsIsRange(pool, LowestFree(pool, q, used).value);
    }
    forall c: nat | Open(q, used, c) && Contains(pool, c)
      ensures LowestFree(pool, q, used).Some? && LowestFree(pool, q, used).value <= c
    {
      ContainsIsRange(pool, c);
      FirstFreeBounds(pool, q, used, pool.addr, c);
    }
  }

  ghost function Elements(s: seq<Cidr>): set<Cidr> {
    set x | x in s
  }

  method AnyOverlap(c: Cidr, used: seq<Cidr>) returns (hit: bool)
    ensures hit == !FreeOf(c, Elements(used))
  {
    for i := 0 to |used|
      invariant forall j :: 0 <= j < i ==> !Overlaps(c, used[j])
    {
      if Overlaps(c, used[i]) {
        assert used[i] in Elements(used);
        return true;
      }
    }
    return false;
  }

  lemma {:induction false} FirstFreeStep(pool: Subnet, q: nat, used: set<Cidr>, at: nat)
    requires IsPool(pool, q) && at <= Broadcast(pool) && Valid(Subnet(at, q))
    ensures var next := at + Pow2(32 - q);
      if FreeOf(Subnet(at, q), used) then FirstFree(q, used, at, Broadcast(pool)) == Some(at)
      else FirstFree(q, used, at, Broadcast(pool)) == FirstFree(q, used, next, Broadcast(pool))
           && (next <= Broadcast(pool) ==> Valid(Subnet(next, q)))
  {
    NextBlock(pool, q, at);
    assert Open(q, used, at) == FreeOf(Subnet(at, q), used);
  }

  /** `_allocate_nat_cloud_cidr`, which calls it with `q` = 24. */
  method AllocateCidr(pool: Subnet, q: nat, used: seq<Cidr>) returns (r: Option<nat>)
    requires IsPool(pool, q)
    ensures r == LowestFree(pool, q, Elements(used))
  {
    FirstBlock(pool, q);
    var at, end, step := pool.addr, Broadcast(pool), Pow2(32 - q);
    while at <= end
      invariant at <= end ==> Valid(Subnet(at, q))
      invariant LowestFree(pool, q, Elements(used)) == FirstFree(q, Elements(used), at, end)
      decreases if at <= end then end + 1 - at else 0
    {
      FirstFreeStep(pool, q, Elements(used), at);
      var hit := AnyOverlap(Subnet(at, q), used);
      if !hit {
        return Some(at);
      }
      at := at + step;
    }
    return None;
  }
}
