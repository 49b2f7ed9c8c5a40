/** The free-list of addresses of one network record. */
module Ipam {
  import opened Collections
  import opened Cidr
  import opened CloudModel

  // ---------------------------------------------------------------------
  // Lists kept sorted
  // ---------------------------------------------------------------------

  predicate Increasing(s: seq<nat>) {
    forall i, j :: 0 <= i < j < |s| ==> s[i] < s[j]
  }

  predicate Sorted(s: seq<nat>) {
    forall i, j :: 0 <= i < j < |s| ==> s[i] <= s[j]
  }

  /** Add to a sorted list; `twice` says whether an equal entry stays. */
  function Insert(s: seq<nat>, x: nat, twice: bool): (r: seq<nat>) {
    if s == [] || x < s[0] then [x] + s
    else if x == s[0] then (if twice then [x] + s else s)
    else [s[0]] + Insert(s[1..], x, twice)
  }

  /** `sorted(entries)`, of the list itself or of the set of its entries. */
  function SortedBy(s: seq<nat>, twice: bool): seq<nat> {
    if s == [] then [] else Insert(SortedBy(s[1..], twice), s[0], twice)
  }

  lemma {:induction false} InsertHolds(s: seq<nat>, x: nat, twice: bool)
    ensures forall y :: y in Insert(s, x, twice) <==> y in s || y == x
  {
    if s != [] {
      assert s == [s[0]] + s[1..];
      InsertHolds(s[1..], x, twice);
    }
  }

  lemma {:induction false} IncreasingCons(x: nat, s: seq<nat>)
    requires Increasing(s) && forall y :: y in s ==> x < y
    ensures Increasing([x] + s)
  {
    var t := [x] + s;
    forall i, j | 0 <= i < j < |t|
      ensures t[i] < t[j]
    {
      assert t[j] == s[j - 1] && s[j - 1] in s;
    }
  }

  lemma {:induction false} IncreasingTail(s: seq<nat>)
    requires Increasing(s) && s != []
    ensures Increasing(s[1..]) && forall y :: y in s[1..] ==> s[0] < y
  {
  }

  lemma {:induction false} InsertIncreasing(s: seq<nat>, x: nat)
    requires Increasing(s)
    ensures Increasing(Insert(s, x, false))
  {
    if s != [] {
      IncreasingTail(s);
      if x < s[0] {
        assert forall y :: y in s ==> y == s[0] || y in s[1..] by {
          assert s == [s[0]] + s[1..];
        }
        IncreasingCons(x, s);
      } else if x > s[0] {
        InsertIncreasing(s[1..], x);
        InsertHolds(s[1..], x, false);
        IncreasingCons(s[0], Insert(s[1..], x, false));
      }
    }
  }

  lemma {:induction false} SetSorted(s: seq<nat>)
    ensures Increasing(SortedBy(s, false))
    ensures forall y :: y in SortedBy(s, false) <==> y in s
  {
    if s != [] {
      SetSorted(s[1..]);
      InsertHolds(SortedBy(s[1..], false), s[0], false);
      InsertIncreasing(SortedBy(s[1..], false), s[0]);
      assert s == [s[0]] + s[1..];
    }
  }

  /** An increasing list is not changed by sorting. */
  lemma {:induction false} SortStays(s: seq<nat>, twice: bool)
    requires Increasing(s)
    ensures SortedBy(s, twice) == s
  {
    if s != [] {
      SortStays(s[1..], twice);
    }
  }

  lemma {:induction false} IncreasingUnique(s: seq<nat>, t: seq<nat>)
    requires Increasing(s) && Increasing(t)
    requires forall y :: y in s <==> y in t
    ensures s == t
    decreases |s|
  {
    assert t != [] ==> t[0] in t;
    if s != [] {
      assert s[0] in t && t[0] in s;
      assert s[0] == t[0];
      forall y: nat
        ensures y in s[1..] <==> y in t[1..]
      {
        assert y in s[1..] <==> y in s && y != s[0] by {
          assert s == [s[0]] + s[1..];
        }
        assert y in t[1..] <==> y in t && y != t[0] by {
          assert t == [t[0]] + t[1..];
        }
      }
      IncreasingUnique(s[1..], t[1..]);
      assert s == [s[0]] + s[1..] && t == [t[0]] + t[1..];
    }
  }

  // ---------------------------------------------------------------------
  // Reserving
  // ---------------------------------------------------------------------

  /** Entries that lie in the network. */
  function Inside(used: seq<nat>, c: Cidr): (r: seq<nat>)
    ensures forall y :: y in r <==> y in used && Contains(c, y)
  {
    if used == [] then []
    else
      assert used == [used[0]] + used[1..];
      (if Contains(c, used[0]) then [used[0]] else []) + Inside(used[1..], c)
  }

  /** First address that may be handed out: `first_offset`, where 0 means the
      default and less than 1 means 1. */
  function WindowStart(n: CloudNet): nat
    requires n.cidr.Some?
  {
    var offset := if n.firstOffset == 0 then FIRST_OFFSET else n.firstOffset;
    n.cidr.value.addr + (if offset < 1 then 1 else offset)
  }

  /** Last one: before the broadcast address, and within the static range of a
      cloud. */
  function WindowEnd(n: CloudNet): int
    requires n.cidr.Some?
  {
    var last := Broadcast(n.cidr.value) - 1;
    var reserved := n.cidr.value.addr + STATIC_LAST;
    if n.nat_cloud && reserved < last then reserved else last
  }

  function LeastFree(used: seq<nat>, at: nat, end: int): (r: Option<nat>)
    ensures r.Some? ==> at <= r.value <= end && r.value !in used && forall x :: at <= x < r.value ==> x in used
    ensures r.None? ==> forall x :: at <= x <= end ==> x in used
    decreases end + 1 - at
  {
    if at > end then None
    else if at !in used then Some(at)
    else LeastFree(used, at + 1, end)
  }

  /** The address `_allocate_ip` takes from the record. */
  function NextAddress(n: CloudNet): Option<nat>
    requires n.cidr.Some?
  {
    LeastFree(Inside(n.used, n.cidr.value), WindowStart(n), WindowEnd(n))
  }

  /** The list after an address is taken: the set of the entries, sorted. */
  function Taken(n: CloudNet, ip: nat): CloudNet
    requires n.cidr.Some?
  {
    n.(used := SortedBy(Inside(n.used, n.cidr.value) + [ip], false))

  }

  function RemoveFirst(s: seq<nat>, x: nat): seq<nat> {
    if s == [] then []
    else if s[0] == x then s[1..]
    else [s[0]] + RemoveFirst(s[1..], x)
  }

  /** The record after `_release_ip_from_owner`. */
  function GivenBack(n: CloudNet, ip: nat): CloudNet {
    if ip in n.used then n.(used := SortedBy(RemoveFirst(n.used, ip), true)) else n
  }

  // ---------------------------------------------------------------------
  // What one record keeps
  // ---------------------------------------------------------------------

  predicate InWindow(n: CloudNet, x: nat)
    requires n.cidr.Some?
  {
    WindowStart(n) <= x <= WindowEnd(n)
  }

  /** The reserved addresses are increasing, so distinct, and could all have been
      handed out. */
  predicate UsedOk(n: CloudNet) {
    n.used != [] ==>
      n.cidr.Some? && Increasing(n.used) && forall x :: x in n.used ==> InWindow(n, x)
  }

  lemma {:induction false} WindowInside(n: CloudNet, x: nat)
    requires n.cidr.Some? && InWindow(n, x)
    ensures Contains(n.cidr.value, x) && n.cidr.value.addr < x < Broadcast(n.cidr.value)
  {
    ContainsIsRange(n.cidr.value, x);
  }

  /** Reserving takes the least address of the window that is not reserved, fails
      exactly when none is, and adds that address and nothing else. */
  lemma {:induction false} AllocateOne(n: CloudNet)
    requires n.cidr.Some? && UsedOk(n)
    ensures var r := NextAddress(n);
      && (r.None? <==> forall x: nat :: InWindow(n, x) ==> x in n.used)
      && (r.Some? ==>
            && InWindow(n, r.value) && r.value !in n.used
            && (forall x: nat :: InWindow(n, x) && x < r.value ==> x in n.used)
            && UsedOk(Taken(n, r.value))
            && (forall y :: y in Taken(n, r.value).used <==> y in n.used || y == r.value))
  {
    var c := n.cidr.value;
    forall x: nat | InWindow(n, x)
      ensures Contains(c, x)
    {
      WindowInside(n, x);
    }
    assert forall y :: y in n.used ==> Contains(c, y);
    var r := NextAddress(n);
    if r.Some? {
      SetSorted(Inside(n.used, c) + [r.value]);
    }
  }

  lemma {:induction false} RemovedOne(s: seq<nat>, x: nat)
    requires Increasing(s)
    ensures Increasing(RemoveFirst(s, x))
    ensures forall y :: y in RemoveFirst(s, x) <==> y in s && y != x
  {
    if s != [] {
      assert s == [s[0]] + s[1..];
      IncreasingTail(s);
      if s[0] != x {
        RemovedOne(s[1..], x);
        IncreasingCons(s[0], RemoveFirst(s[1..], x));
      }
    }
  }

  /** Releasing removes that address and nothing else. */
  lemma {:induction false} ReleaseOne(n: CloudNet, ip: nat)
    requires UsedOk(n)
    ensures UsedOk(GivenBack(n, ip))
    ensures forall y :: y in GivenBack(n, ip).used <==> y in n.used && y != ip
  {
    if ip in n.used {
      RemovedOne(n.used, ip);
      SortStays(RemoveFirst(n.used, ip), true);
    }
  }

  /** Releasing what was just reserved restores the record. */
  lemma {:induction false} AllocateThenRelease(n: CloudNet)
    requires n.cidr.Some? && UsedOk(n) && NextAddress(n).Some?
    ensures GivenBack(Taken(n, NextAddress(n).value), NextAddress(n).value) == n
  {
    var ip := NextAddress(n).value;
    AllocateOne(n);
    ReleaseOne(Taken(n, ip), ip);
    IncreasingUnique(GivenBack(Taken(n, ip), ip).used, n.used);
  }

  // ---------------------------------------------------------------------
  // Clouds with an accepted configuration
  // ---------------------------------------------------------------------

  /** The record of a cloud owner, as create_network writes it. */
  predicate IsCloud(n: CloudNet) {
    n.nat_cloud && n.cidr.Some? && n.firstOffset == FIRST_OFFSET
    && Accepted(Config(n.cidr.value, n.gateway, n.dhcpStart, n.dhcpEnd))
  }

  /** A cloud never hands out its network or broadcast address, its .1, or an
      address of its DHCP range; it has 98 addresses to give. */
  lemma {:induction false} CloudWindow(n: CloudNet)
    requires IsCloud(n)
    ensures WindowStart(n) == n.cidr.value.addr + 2 && WindowEnd(n) == n.cidr.value.addr + 99
    ensures forall x: nat :: InWindow(n, x) ==>
      && n.cidr.value.addr + 1 < x < n.dhcpStart && x < Broadcast(n.cidr.value)
  {
    SmallNetworks(n.cidr.value.prefix);
  }

  /** The gateway's own address is handed out, at some time, exactly when it was
      configured inside the static range. */
  lemma {:induction false} GatewayIff(n: CloudNet)
    requires IsCloud(n)
    ensures (exists used :: UsedOk(n.(used := used)) && NextAddress(n.(used := used)) == Some(n.gateway))
        <==> 2 <= n.gateway - n.cidr.value.addr <= 99
  {
    CloudWindow(n);
    if InWindow(n, n.gateway) {
      ReachedAfter(n, n.gateway);
    }
    forall used | UsedOk(n.(used := used)) && NextAddress(n.(used := used)) == Some(n.gateway)
      ensures InWindow(n, n.gateway)
    {
      AllocateOne(n.(used := used));
    }
  }

  /** Once everything below it is reserved, an address of the window is next. */
  lemma {:induction false} ReachedAfter(n: CloudNet, g: nat)
    requires n.cidr.Some? && InWindow(n, g)
    ensures exists used :: UsedOk(n.(used := used)) && NextAddress(n.(used := used)) == Some(g)
  {
    var start := WindowStart(n);
    var used := seq(g - start, i requires 0 <= i < g - start => start + i);
    assert forall j :: 0 <= j < |used| ==> used[j] == start + j;
    forall x: nat | start <= x < g
      ensures x in used
    {
      assert used[x - start] == x;
    }
    var m := n.(used := used);
    assert WindowStart(m) == start && WindowEnd(m) == WindowEnd(n);
    assert UsedOk(m);
    AllocateOne(m);
    assert InWindow(m, g) && g !in m.used;
    var r := NextAddress(m);
    assert r.Some?;
    assert NextAddress(n.(used := used)) == Some(g);
  }

  // ---------------------------------------------------------------------
  // The search as the service runs it
  // ---------------------------------------------------------------------

  /** The entries that count, as a set. */
  method Reserved(used: seq<nat>, c: Cidr) returns (taken: set<nat>)
    ensures forall x :: x in taken <==> x in Inside(used, c)
  {
    taken := {};
    for i := 0 to |used|
      invariant forall x :: x in taken <==> x in used[..i] && Contains(c, x)
    {
      assert used[..i + 1] == used[..i] + [used[i]];
      if Contains(c, used[i]) {
        taken := taken + {used[i]};
      }
    }
    assert used[..|used|] == used;
  }

  method ScanFree(used: seq<nat>, taken: set<nat>, start: nat, end: int) returns (r: Option<nat>)
    requires forall x :: x in taken <==> x in used
    ensures r == LeastFree(used, start, end)
  {
    var at: nat := start;
    while at <= end
      invariant LeastFree(used, start, end) == LeastFree(used, at, end)
      decreases if at <= end then end + 1 - at else 0
    {
      if at !in taken {
        return Some(at);
      }
      at := at + 1;
    }
    return None;
  }

  method ChooseAddress(n: CloudNet) returns (r: Option<nat>)
    requires n.cidr.Some?
    ensures r == NextAddress(n)
  {
    var taken := Reserved(n.used, n.cidr.value);
    r := ScanFree(Inside(n.used, n.cidr.value), taken, WindowStart(n), WindowEnd(n));
  }
}
