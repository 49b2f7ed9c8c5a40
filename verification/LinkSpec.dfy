/** What creating and deleting a link does to lab.json, as functions of the file. */
module LinkSpec {
  import opened Collections
  import opened Text
  import opened LabModel

  // ---------------------------------------------------------------------
  // Fresh ids
  // ---------------------------------------------------------------------

  const LINK_PREFIX := "lnk_"

  predicate HasPrefix(s: string, prefix: string) {
    |prefix| <= |s| && s[..|prefix|] == prefix
  }

  /** The number in `lnk_<digits>`, 0 for an id of any other shape. */
  function SuffixOf(id: string): nat {
    if HasPrefix(id, LINK_PREFIX) && AllDigits(id[|LINK_PREFIX|..])
    then Value(id[|LINK_PREFIX|..]) else 0
  }

  function MaxSuffix(links: seq<Link>): (m: nat)
    ensures forall i :: 0 <= i < |links| ==> SuffixOf(links[i].id) <= m
  {
    if |links| == 0 then 0
    else
      var m := MaxSuffix(links[..|links| - 1]);
      var n := SuffixOf(links[|links| - 1].id);
      assert forall i :: 0 <= i < |links| - 1 ==> links[..|links| - 1][i] == links[i];
      if m < n then n else m
  }

  function NextLinkId(links: seq<Link>): string {
    LINK_PREFIX + Padded(MaxSuffix(links) + 1, 3)
  }

  /** The printed id reads back as the number it was made from. */
  lemma {:induction false} SuffixOfPrinted(n: nat)
    ensures SuffixOf(LINK_PREFIX + Padded(n, 3)) == n
  {
    var id := LINK_PREFIX + Padded(n, 3);
    assert id[..|LINK_PREFIX|] == LINK_PREFIX;
    assert id[|LINK_PREFIX|..] == Padded(n, 3);
    ValueOfPadded(n, 3);
  }

  /** The next id is new, whatever ids the file holds. */
  lemma {:induction false} NextLinkIdIsFresh(links: seq<Link>)
    ensures forall i :: 0 <= i < |links| ==> links[i].id != NextLinkId(links)
  {
    SuffixOfPrinted(MaxSuffix(links) + 1);
  }

  ghost function NextNetworkId(networks: map<int, Network>): int {
    NextKey(networks.Keys)
  }

  // ---------------------------------------------------------------------
  // Conflicts
  // ---------------------------------------------------------------------

  /** The tuple order of `_endpoint_key`: every network before every node. */
  predicate KeyLess(a: Endpoint, b: Endpoint) {
    match (a, b)
    case (Net(m), Net(n)) => m < n
    case (Net(_), Node(_, _)) => true
    case (Node(_, _), Net(_)) => false
    case (Node(m, i), Node(n, j)) => m < n || (m == n && i < j)
  }

  /** `_link_pair_key`: the smaller key first. */
  function PairKey(a: Endpoint, b: Endpoint): (Endpoint, Endpoint) {
    if KeyLess(b, a) then (b, a) else (a, b)
  }

  /** Two requests have one pair key exactly when they name the same two ends. */
  lemma {:induction false} PairKeyIgnoresOrder(a: Endpoint, b: Endpoint, c: Endpoint, d: Endpoint)
    ensures PairKey(a, b) == PairKey(c, d) <==> (a == c && b == d) || (a == d && b == c)
  {
    assert !KeyLess(a, b) && !KeyLess(b, a) ==> a == b;
  }

  datatype Conflict =
    | NoConflict
    | Duplicate(existing: Link)
    | AlreadyAttached(existing: Link, node: int, iface: int)

  predicate Rewires(e: Endpoint, a: Endpoint, b: Endpoint) {
    e.Node? && (e == a || e == b)
  }

  /** What one existing link says against a request for `a`-`b`. */
  function ConflictWith(link: Link, a: Endpoint, b: Endpoint): Conflict {
    if PairKey(link.src, link.dst) == PairKey(a, b) then Duplicate(link)
    else if Rewires(link.src, a, b) then AlreadyAttached(link, link.src.node, link.src.iface)
    else if Rewires(link.dst, a, b) then AlreadyAttached(link, link.dst.node, link.dst.iface)
    else NoConflict
  }

  function FirstConflict(links: seq<Link>, a: Endpoint, b: Endpoint): Conflict {
    if |links| == 0 then NoConflict
    else
      var c := ConflictWith(links[0], a, b);
      if c.NoConflict? then FirstConflict(links[1..], a, b) else c
  }

  /** A request passes exactly when neither of its interfaces is wired by any
      link and no link already joins its two ends. */
  lemma {:induction false} NoConflictMeans(links: seq<Link>, a: Endpoint, b: Endpoint)
    ensures FirstConflict(links, a, b).NoConflict? <==>
      && (a.Node? ==> Count(links, a) == 0)
      && (b.Node? ==> Count(links, b) == 0)
      && forall i :: 0 <= i < |links| ==> PairKey(links[i].src, links[i].dst) != PairKey(a, b)
  {
    if |links| > 0 {
      NoConflictMeans(links[1..], a, b);
      assert links == [links[0]] + links[1..];
      CountConcat([links[0]], links[1..], a);
      CountConcat([links[0]], links[1..], b);
      CountOne(links[0], a);
      CountOne(links[0], b);
      PairKeyIgnoresOrder(links[0].src, links[0].dst, a, b);
      assert forall i :: 1 <= i < |links| ==> links[i] == links[1..][i - 1];
    }
  }

  // ---------------------------------------------------------------------
  // Create
  // ---------------------------------------------------------------------

  const IMPLICIT_NETWORK := Network("", "linux_bridge", false, true)

  datatype CreateResult =
    | Created(lab: Lab, link: Link, network: int)
    | Rejected(conflict: Conflict)
    | NoSuchNetwork(id: int)

  function BridgeLabel(id: int): string {
    "bridge-" + (if id < 0 then "-" + Decimal(-id) else Decimal(id))
  }

  function Promoted(network: Network, id: int): Network {
    network.(implicit := false, visible := true,
             name := if network.name == "" then BridgeLabel(id) else network.name)
  }

  /** The network a request with a network end is checked against: the first. */
  function TargetNetwork(a: Endpoint, b: Endpoint): int
    requires a.Net? || b.Net?
  {
    if a.Net? then a.id else b.id
  }

  /** Two half-links over a new hidden bridge. */
  ghost function JoinNodes(lab: Lab, a: Endpoint, b: Endpoint, style: string): CreateResult {
    var id := NextNetworkId(lab.networks);
    var first := Link(NextLinkId(lab.links), a, Net(id), style);
    var links := lab.links + [first];
    var second := Link(NextLinkId(links), b, Net(id), style);
    Created(Lab(lab.networks[id := IMPLICIT_NETWORK], links + [second]), first, id)
  }

  /** One link onto a network, which stops being implicit at its third end. */
  function JoinNetwork(lab: Lab, a: Endpoint, b: Endpoint, style: string): CreateResult
    requires a.Net? || b.Net?
  {
    var id := TargetNetwork(a, b);
    if id !in lab.networks then NoSuchNetwork(id)
    else
      var link := Link(NextLinkId(lab.links), a, b, style);
      var links := lab.links + [link];
      var networks :=
        if lab.networks[id].implicit && Refcount(links, id) == 3
        then lab.networks[id := Promoted(lab.networks[id], id)] else lab.networks;
      Created(Lab(networks, links), link, id)
  }

  ghost function Create(lab: Lab, a: Endpoint, b: Endpoint, style: string): CreateResult {
    var conflict := FirstConflict(lab.links, a, b);
    if !conflict.NoConflict? then Rejected(conflict)
    else if a.Node? && b.Node? then JoinNodes(lab, a, b, style)
    else JoinNetwork(lab, a, b, style)
  }

  /** The links that are made stand at the end, carry the style asked for, and join
      what was asked for: each interface to a network that is new, or the two ends
      as they are, one of them the network that is answered. */
  lemma {:induction false} CreatedLinks(lab: Lab, a: Endpoint, b: Endpoint, style: string)
    requires Create(lab, a, b, style).Created?
    ensures var made := Create(lab, a, b, style);
      |lab.links| < |made.lab.links|
      && var added := made.lab.links[|lab.links|..];
      && made.lab.links == lab.links + added && made.link == added[0]
      && (forall i :: 0 <= i < |added| ==> added[i].style == style)
      && (a.Node? && b.Node? ==>
            && |added| == 2 && added[0].src == a && added[1].src == b
            && added[0].dst == Net(made.network) && added[1].dst == Net(made.network)
            && made.network !in lab.networks)
      && (a.Net? || b.Net? ==>
            && |added| == 1 && added[0].src == a && added[0].dst == b
            && Net(made.network) == (if a.Net? then a else b) && made.network in lab.networks)
  {
  }

  /** The requests the state machine is made for: two different interfaces, an
      interface and a network, or two networks of which the second, which the
      service does not look at, is on file and ordinary. */
  predicate Admissible(lab: Lab, a: Endpoint, b: Endpoint) {
    && (a.Node? && b.Node? ==> a != b)
    && (a.Net? && b.Net? ==> b.id in lab.networks && !lab.networks[b.id].implicit)
  }

  /** Appending fresh links leaves ids distinct. */
  lemma {:induction false} FreshKeepsDistinct(links: seq<Link>, link: Link)
    requires DistinctIds(links)
    requires link.id == NextLinkId(links)
    ensures DistinctIds(links + [link])
  {
    NextLinkIdIsFresh(links);
  }

  /** How two half-links over a new network change every count. */
  lemma {:induction false} JoinNodesCounts(lab: Lab, a: Endpoint, b: Endpoint, style: string, e: Endpoint)
    requires a.Node? && b.Node?
    ensures var made := JoinNodes(lab, a, b, style);
      Count(made.lab.links, e) == Count(lab.links, e)
        + (if e == a then 1 else 0) + (if e == b then 1 else 0) + (if e == Net(made.network) then 2 else 0)
  {
    var made := JoinNodes(lab, a, b, style);
    var one := lab.links + [made.link];
    var second := made.lab.links[|one|];
    CountAppend(lab.links, made.link, e);
    CountAppend(one, second, e);
  }

  lemma {:induction false} JoinNodesNoDangling(lab: Lab, a: Endpoint, b: Endpoint, style: string)
    requires NoDangling(lab) && a.Node? && b.Node?
    ensures NoDangling(JoinNodes(lab, a, b, style).lab)
  {
    var made := JoinNodes(lab, a, b, style);
    forall i | 0 <= i < |made.lab.links|
      ensures EndExists(made.lab.networks, made.lab.links[i].src)
      ensures EndExists(made.lab.networks, made.lab.links[i].dst)
    {
      if i < |lab.links| {
        assert made.lab.links[i] == lab.links[i];
        assert EndExists(lab.networks, lab.links[i].src) && EndExists(lab.networks, lab.links[i].dst);
      }
    }
  }

  lemma {:induction false} JoinNodesStructure(lab: Lab, a: Endpoint, b: Endpoint, style: string)
    requires DistinctIds(lab.links) && NoDangling(lab) && BridgesJoinOrdinary(lab)
    requires a.Node? && b.Node?
    ensures var made := JoinNodes(lab, a, b, style).lab;
      DistinctIds(made.links) && NoDangling(made) && BridgesJoinOrdinary(made)
  {
    var made := JoinNodes(lab, a, b, style);
    var one := lab.links + [made.link];
    FreshKeepsDistinct(lab.links, made.link);
    FreshKeepsDistinct(one, made.lab.links[|one|]);
    JoinNodesNoDangling(lab, a, b, style);
    forall i | 0 <= i < |made.lab.links|
      ensures BridgesExplicit(made.lab.networks, made.lab.links[i])
    {
      if i < |lab.links| {
        assert made.lab.links[i] == lab.links[i];
        assert BridgesExplicit(lab.networks, lab.links[i]);
        assert EndExists(lab.networks, lab.links[i].src) && EndExists(lab.networks, lab.links[i].dst);
      }
    }
  }

  lemma {:induction false} JoinNodesKeepsInv(lab: Lab, a: Endpoint, b: Endpoint, style: string)
    requires Inv(lab)
    requires a.Node? && b.Node? && a != b
    requires FirstConflict(lab.links, a, b).NoConflict?
    ensures Inv(JoinNodes(lab, a, b, style).lab)
  {
    var made := JoinNodes(lab, a, b, style);
    JoinNodesStructure(lab, a, b, style);
    NoConflictMeans(lab.links, a, b);
    forall node: int, iface: int
      ensures Count(made.lab.links, Node(node, iface)) <= 1
    {
      JoinNodesCounts(lab, a, b, style, Node(node, iface));
    }
    FreshIdUnused(lab);
    forall id | IsImplicit(made.lab.networks, id)
      ensures Count(made.lab.links, Net(id)) == 2
    {
      JoinNodesCounts(lab, a, b, style, Net(id));
      assert id != made.network ==> IsImplicit(lab.networks, id);
    }
  }

  /** No link of a file without dangling ends names the next network id. */
  lemma {:induction false} FreshIdUnused(lab: Lab)
    requires NoDangling(lab)
    ensures Count(lab.links, Net(NextNetworkId(lab.networks))) == 0
    ensures Refcount(lab.links, NextNetworkId(lab.networks)) == 0
  {
    var id := NextNetworkId(lab.networks);
    RefcountIsCount(lab.links, id);
    CountZero(lab.links, Net(id));
    forall i | 0 <= i < |lab.links|
      ensures !Touches(lab.links[i], Net(id))
    {
      assert EndExists(lab.networks, lab.links[i].src) && EndExists(lab.networks, lab.links[i].dst);
    }
  }

  lemma {:induction false} JoinNetworkPairs(lab: Lab, a: Endpoint, b: Endpoint, style: string, id: int)
    requires Inv(lab)
    requires a.Net? || b.Net?
    requires Admissible(lab, a, b)
    requires JoinNetwork(lab, a, b, style).Created?
    requires IsImplicit(JoinNetwork(lab, a, b, style).lab.networks, id)
    ensures Count(JoinNetwork(lab, a, b, style).lab.links, Net(id)) == 2
  {
    var made := JoinNetwork(lab, a, b, style);
    RefcountIsCount(made.lab.links, made.network);
    CountAppend(lab.links, made.link, Net(id));
    CountAppend(lab.links, made.link, Net(made.network));
  }

  lemma {:induction false} JoinNetworkKeepsInv(lab: Lab, a: Endpoint, b: Endpoint, style: string)
    requires Inv(lab)
    requires a.Net? || b.Net?
    requires Admissible(lab, a, b)
    requires FirstConflict(lab.links, a, b).NoConflict?
    requires JoinNetwork(lab, a, b, style).Created?
    ensures Inv(JoinNetwork(lab, a, b, style).lab)
  {
    var made := JoinNetwork(lab, a, b, style);
    NoConflictMeans(lab.links, a, b);
    FreshKeepsDistinct(lab.links, made.link);
    assert ImplicitPaired(made.lab) by {
      forall id | IsImplicit(made.lab.networks, id)
        ensures Count(made.lab.links, Net(id)) == 2
      {
        JoinNetworkPairs(lab, a, b, style, id);
      }
    }
    forall node, iface
      ensures Count(made.lab.links, Node(node, iface)) <= 1
    {
      CountAppend(lab.links, made.link, Node(node, iface));
    }
  }

  /** In a sound file an implicit network is promoted by the first link made onto
      it: it becomes visible and has a name.  Every other record stays. */
  lemma {:induction false} FirstExtraLinkPromotes(lab: Lab, a: Endpoint, b: Endpoint, style: string)
    requires Inv(lab) && a.Node? != b.Node?
    requires JoinNetwork(lab, a, b, style).Created?
    ensures var made := JoinNetwork(lab, a, b, style);
      var before, after := lab.networks[made.network], made.lab.networks[made.network];
      && !after.implicit && after.kind == before.kind
      && (before.implicit ==> after.visible && after.name != "" && (before.name != "" ==> after.name == before.name))
      && (!before.implicit ==> after == before)
      && Without(made.lab.networks, made.network) == Without(lab.networks, made.network)
  {
    var made := JoinNetwork(lab, a, b, style);
    RefcountIsCount(made.lab.links, made.network);
    CountAppend(lab.links, made.link, Net(made.network));
    assert IsImplicit(lab.networks, made.network) ==> Count(lab.links, Net(made.network)) == 2;
  }

  lemma {:induction false} InadmissibleBreaksInv(lab: Lab, a: Endpoint, b: Endpoint, style: string)
    requires Inv(lab)
    requires !Admissible(lab, a, b)
    requires Create(lab, a, b, style).Created?
    ensures !Inv(Create(lab, a, b, style).lab)
  {
    var made := Create(lab, a, b, style);
    var links := made.lab.links;
    if a.Node? {
      var one := lab.links + [made.link];
      CountAppend(lab.links, made.link, a);
      CountAppend(one, links[|one|], a);
      assert Count(links, Node(a.node, a.iface)) >= 2;
    } else {
      CountAppend(lab.links, made.link, b);
      RefcountIsCount(links, made.network);
      if b.id !in lab.networks {
        assert !EndExists(made.lab.networks, links[|lab.links|].dst);
      }
    }
  }

  /** A link that is made keeps the invariant exactly when the request was one
      of those the state machine is made for. */
  lemma {:induction false} CreateKeepsInvIff(lab: Lab, a: Endpoint, b: Endpoint, style: string)
    requires Inv(lab)
    requires Create(lab, a, b, style).Created?
    ensures Inv(Create(lab, a, b, style).lab) <==> Admissible(lab, a, b)
  {
    if !Admissible(lab, a, b) {
      InadmissibleBreaksInv(lab, a, b, style);
    } else if a.Node? && b.Node? {
      JoinNodesKeepsInv(lab, a, b, style);
    } else {
      JoinNetworkKeepsInv(lab, a, b, style);
    }
  }

  // ---------------------------------------------------------------------
  // Delete
  // ---------------------------------------------------------------------

  /** Position of the first link with this id, or the length of the list. */
  function FirstWithId(links: seq<Link>, id: string): (i: nat)
    ensures i <= |links|
    ensures forall k :: 0 <= k < i ==> links[k].id != id
    ensures i < |links| ==> links[i].id == id
  {
    if |links| == 0 || links[0].id == id then 0
    else
      assert forall k :: 1 <= k < |links| ==> links[k] == links[1..][k - 1];
      1 + FirstWithId(links[1..], id)
  }

  /** Position of the first link on this network, or the length of the list. */
  function FirstOn(links: seq<Link>, id: int): (i: nat)
    ensures i <= |links|
    ensures forall k :: 0 <= k < i ==> !Touches(links[k], Net(id))
    ensures i < |links| ==> Touches(links[i], Net(id))
  {
    if |links| == 0 || Touches(links[0], Net(id)) then 0
    else
      assert forall k :: 1 <= k < |links| ==> links[k] == links[1..][k - 1];
      1 + FirstOn(links[1..], id)
  }

  /** The networks a link names, in the order from, to. */
  function NetworksOf(link: Link): seq<int> {
    (if link.src.Net? then [link.src.id] else []) + (if link.dst.Net? then [link.dst.id] else [])
  }

  lemma {:induction false} NetworksOfLink(link: Link, n: int)
    ensures n in NetworksOf(link) <==> Touches(link, Net(n))
  {
    if link.src == Net(n) {
      assert NetworksOf(link)[0] == n;
    } else if link.dst == Net(n) {
      assert NetworksOf(link)[|NetworksOf(link)| - 1] == n;
    }
  }

  /** Drop the surviving half of an implicit bridge left with one end. */
  function DropOrphan(networks: map<int, Network>, links: seq<Link>, id: int): seq<Link> {
    if IsImplicit(networks, id) && Refcount(links, id) == 1 && FirstOn(links, id) < |links|
    then RemoveAt(links, FirstOn(links, id)) else links
  }

  function DropOrphans(networks: map<int, Network>, links: seq<Link>, ids: seq<int>): seq<Link> {
    if |ids| == 0 then links
    else DropOrphans(networks, DropOrphan(networks, links, ids[0]), ids[1..])
  }

  function Collect(networks: map<int, Network>, links: seq<Link>, id: int): map<int, Network> {
    if IsImplicit(networks, id) && Refcount(links, id) == 0 then Without(networks, id) else networks
  }

  /** Remove the implicit networks among `ids` that no link names any more. */
  function CollectAll(networks: map<int, Network>, links: seq<Link>, ids: seq<int>): map<int, Network> {
    if |ids| == 0 then networks
    else CollectAll(Collect(networks, links, ids[0]), links, ids[1..])
  }

  function Delete(lab: Lab, id: string): Lab {
    var at := FirstWithId(lab.links, id);
    if at == |lab.links| then lab
    else
      var ids := NetworksOf(lab.links[at]);
      var links := DropOrphans(lab.networks, RemoveAt(lab.links, at), ids);
      Lab(CollectAll(lab.networks, links, ids), links)
  }

  /** The structural half of the invariant survives any removal. */
  lemma {:induction false} RemovalKeeps(networks: map<int, Network>, links: seq<Link>, at: nat)
    requires at < |links|
    requires DistinctIds(links)
    requires NoDangling(Lab(networks, links))
    requires OneLinkPerInterface(links)
    requires BridgesJoinOrdinary(Lab(networks, links))
    ensures DistinctIds(RemoveAt(links, at))
    ensures NoDangling(Lab(networks, RemoveAt(links, at)))
    ensures OneLinkPerInterface(RemoveAt(links, at))
    ensures BridgesJoinOrdinary(Lab(networks, RemoveAt(links, at)))
  {
    forall node: int, iface: int
      ensures Count(RemoveAt(links, at), Node(node, iface)) <= 1
    {
      CountRemove(links, at, Node(node, iface));
    }
  }

  /** A network no link names can leave the file. */
  lemma {:induction false} UnusedNetworkLeaves(networks: map<int, Network>, links: seq<Link>, n: int)
    requires NoDangling(Lab(networks, links))
    requires BridgesJoinOrdinary(Lab(networks, links))
    requires Count(links, Net(n)) == 0
    ensures NoDangling(Lab(Without(networks, n), links))
    ensures BridgesJoinOrdinary(Lab(Without(networks, n), links))
  {
    CountZero(links, Net(n));
    forall i | 0 <= i < |links|
      ensures EndExists(Without(networks, n), links[i].src)
      ensures EndExists(Without(networks, n), links[i].dst)
      ensures BridgesExplicit(Without(networks, n), links[i])
    {
      assert !Touches(links[i], Net(n));
      assert EndExists(networks, links[i].src) && EndExists(networks, links[i].dst);
      assert BridgesExplicit(networks, links[i]);
    }
  }

  /** Nothing cascades from ordinary networks. */
  lemma {:induction false} OrdinaryStay(networks: map<int, Network>, links: seq<Link>, ids: seq<int>)
    requires forall k :: 0 <= k < |ids| ==> !IsImplicit(networks, ids[k])
    ensures DropOrphans(networks, links, ids) == links
    ensures CollectAll(networks, links, ids) == networks
  {
    if |ids| > 0 {
      assert forall k :: 0 <= k < |ids| - 1 ==> ids[1..][k] == ids[k + 1];
      OrdinaryStay(networks, links, ids[1..]);
    }
  }

  /** A link on ordinary networks goes alone. */
  lemma {:induction false} DeleteOrdinary(lab: Lab, id: string)
    requires Inv(lab)
    requires FirstWithId(lab.links, id) < |lab.links|
    requires var ids := NetworksOf(lab.links[FirstWithId(lab.links, id)]);
      forall k :: 0 <= k < |ids| ==> !IsImplicit(lab.networks, ids[k])
    ensures Delete(lab, id) == Lab(lab.networks, RemoveAt(lab.links, FirstWithId(lab.links, id)))
    ensures Inv(Delete(lab, id))
  {
    var at := FirstWithId(lab.links, id);
    var link := lab.links[at];
    var links := RemoveAt(lab.links, at);
    var ids := NetworksOf(link);
    OrdinaryStay(lab.networks, links, ids);
    RemovalKeeps(lab.networks, lab.links, at);
    forall n | IsImplicit(lab.networks, n)
      ensures Count(links, Net(n)) == 2
    {
      CountRemove(lab.links, at, Net(n));
      NetworksOfLink(link, n);
    }
  }

  /** A half-link of an implicit bridge leaves exactly one end behind, the
      sibling; without it none is left. */
  lemma {:induction false} HalfLeavesSibling(lab: Lab, at: nat, n: int)
    requires Inv(lab)
    requires at < |lab.links|
    requires IsImplicit(lab.networks, n) && Touches(lab.links[at], Net(n))
    ensures var rest := RemoveAt(lab.links, at);
      && Refcount(rest, n) == 1
      && FirstOn(rest, n) < |rest|
      && Refcount(RemoveAt(rest, FirstOn(rest, n)), n) == 0
      && Count(RemoveAt(rest, FirstOn(rest, n)), Net(n)) == 0
  {
    var rest := RemoveAt(lab.links, at);
    assert Count(rest, Net(n)) == 1 by {
      CountRemove(lab.links, at, Net(n));
      assert BridgesExplicit(lab.networks, lab.links[at]);
      assert Ends(lab.links[at], Net(n)) == 1;
    }
    RefcountIsCount(rest, n);
    OneLeft(rest, n);
  }

  lemma {:induction false} OneLeft(links: seq<Link>, n: int)
    requires Count(links, Net(n)) == 1 && n != 0
    ensures FirstOn(links, n) < |links|
    ensures var rest := RemoveAt(links, FirstOn(links, n)); Refcount(rest, n) == 0 && Count(rest, Net(n)) == 0
  {
    CountZero(links, Net(n));
    var other := FirstOn(links, n);
    CountRemove(links, other, Net(n));
    RefcountIsCount(RemoveAt(links, other), n);
  }

  /** Removing two links neither of which sits on an implicit network other
      than `n`, and `n` itself once nothing names it, keeps the invariant. */
  lemma {:induction false} PairRemovalKeepsInv(lab: Lab, at: nat, n: int)
    requires Inv(lab)
    requires at < |lab.links|
    requires IsImplicit(lab.networks, n) && Touches(lab.links[at], Net(n))
    ensures var rest := RemoveAt(lab.links, at);
      && FirstOn(rest, n) < |rest|
      && Inv(Lab(Without(lab.networks, n), RemoveAt(rest, FirstOn(rest, n))))
  {
    HalfLeavesSibling(lab, at, n);
    var rest := RemoveAt(lab.links, at);
    var other := FirstOn(rest, n);
    var links := RemoveAt(rest, other);
    RemovalKeeps(lab.networks, lab.links, at);
    RemovalKeeps(lab.networks, rest, other);
    UnusedNetworkLeaves(lab.networks, links, n);
    forall m | IsImplicit(Without(lab.networks, n), m)
      ensures Count(links, Net(m)) == 2
    {
      assert IsImplicit(lab.networks, m);
      assert !Touches(lab.links[at], Net(m)) && !Touches(rest[other], Net(m)) by {
        assert BridgesExplicit(lab.networks, lab.links[at]);
        assert BridgesExplicit(lab.networks, rest[other]);
      }
      CountRemove(lab.links, at, Net(m));
      CountRemove(rest, other, Net(m));
    }
  }

  /** The half-link deleted takes its sibling and the bridge with it. */
  lemma {:induction false} DeleteHalf(lab: Lab, id: string, n: int)
    requires Inv(lab)
    requires FirstWithId(lab.links, id) < |lab.links|
    requires NetworksOf(lab.links[FirstWithId(lab.links, id)]) == [n]
    requires IsImplicit(lab.networks, n)
    ensures var rest := RemoveAt(lab.links, FirstWithId(lab.links, id));
      && FirstOn(rest, n) < |rest|
      && Delete(lab, id) == Lab(Without(lab.networks, n), RemoveAt(rest, FirstOn(rest, n)))
  {
    var at := FirstWithId(lab.links, id);
    NetworksOfLink(lab.links[at], n);
    HalfLeavesSibling(lab, at, n);
    var rest := RemoveAt(lab.links, at);
    var links := RemoveAt(rest, FirstOn(rest, n));
    assert DropOrphans(lab.networks, rest, [n]) == DropOrphans(lab.networks, links, [n][1..]) == links;
    assert CollectAll(lab.networks, links, [n]) ==
      CollectAll(Without(lab.networks, n), links, [n][1..]) == Without(lab.networks, n);
  }

  /** Deleting any link keeps the invariant. */
  lemma {:induction false} DeleteKeepsInv(lab: Lab, id: string)
    requires Inv(lab)
    ensures Inv(Delete(lab, id))
  {
    var at := FirstWithId(lab.links, id);
    if at < |lab.links| {
      var ids := NetworksOf(lab.links[at]);
      if k :| 0 <= k < |ids| && IsImplicit(lab.networks, ids[k]) {
        assert ids == [ids[k]];
        NetworksOfLink(lab.links[at], ids[k]);
        DeleteHalf(lab, id, ids[k]);
        PairRemovalKeepsInv(lab, at, ids[k]);
      } else {
        DeleteOrdinary(lab, id);
      }
    }
  }

  /** The deleted link takes this one with it: they are the halves of one implicit
      bridge. */
  predicate GoesWith(lab: Lab, at: nat, link: Link)
    requires at < |lab.links|
  {
    exists n <- NetworksOf(lab.links[at]) :: IsImplicit(lab.networks, n) && Touches(link, Net(n))
  }

  lemma {:induction false} RemovedFrom(links: seq<Link>, at: nat, link: Link)
    requires at < |links| && DistinctIds(links)
    ensures link in RemoveAt(links, at) <==> link in links && link.id != links[at].id
  {
    var rest := RemoveAt(links, at);
    if link in links && link.id != links[at].id {
      var k :| 0 <= k < |links| && links[k] == link;
      assert rest[if k < at then k else k - 1] == link;
    }
  }

  /** Deleting a link takes exactly that link and the other half of its implicit
      bridge out of the file, and that bridge. */
  lemma {:induction false} DeleteIs(lab: Lab, id: string)
    requires Inv(lab) && FirstWithId(lab.links, id) < |lab.links|
    ensures var at := FirstWithId(lab.links, id);
      && (forall l :: l in Delete(lab, id).links <==> l in lab.links && l.id != id && !GoesWith(lab, at, l))
      && (forall n :: n in Delete(lab, id).networks <==>
            n in lab.networks && !(IsImplicit(lab.networks, n) && Touches(lab.links[at], Net(n))))
      && (forall n :: n in Delete(lab, id).networks ==> Delete(lab, id).networks[n] == lab.networks[n])
  {
    var at := FirstWithId(lab.links, id);
    var ids := NetworksOf(lab.links[at]);
    forall n: int
      ensures n in ids <==> Touches(lab.links[at], Net(n))
    {
      NetworksOfLink(lab.links[at], n);
    }
    forall l
      ensures l in RemoveAt(lab.links, at) <==> l in lab.links && l.id != id
    {
      RemovedFrom(lab.links, at, l);
    }
    if k :| 0 <= k < |ids| && IsImplicit(lab.networks, ids[k]) {
      PairGoes(lab, id, at, ids[k]);
    } else {
      DeleteOrdinary(lab, id);
    }
  }

  lemma {:induction false} PairGoes(lab: Lab, id: string, at: nat, n: int)
    requires Inv(lab) && at == FirstWithId(lab.links, id) < |lab.links|
    requires IsImplicit(lab.networks, n) && Touches(lab.links[at], Net(n))
    ensures NetworksOf(lab.links[at]) == [n]
    ensures Delete(lab, id).networks == Without(lab.networks, n)
    ensures forall l :: l in Delete(lab, id).links <==> l in lab.links && l.id != id && !Touches(l, Net(n))
  {
    assert BridgesExplicit(lab.networks, lab.links[at]);
    DeleteHalf(lab, id, n);
    HalfLeavesSibling(lab, at, n);
    var rest := RemoveAt(lab.links, at);
    var other := FirstOn(rest, n);
    RemovalKeeps(lab.networks, lab.links, at);
    CountZero(RemoveAt(rest, other), Net(n));
    forall l
      ensures l in Delete(lab, id).links <==> l in lab.links && l.id != id && !Touches(l, Net(n))
    {
      RemovedFrom(lab.links, at, l);
      RemovedFrom(rest, other, l);
      if l in rest && l.id == rest[other].id {
        assert l == rest[other];
      }
    }
  }

  // ---------------------------------------------------------------------
  // Create and delete undo each other
  // ---------------------------------------------------------------------

  /** The returned half sits just before its sibling at the end of the list. */
  lemma {:induction false} ReturnedHalf(lab: Lab, a: Endpoint, b: Endpoint, style: string)
    requires a.Node? && b.Node?
    ensures var made := JoinNodes(lab, a, b, style);
      var links := made.lab.links;
      && |links| == |lab.links| + 2
      && FirstWithId(links, made.link.id) == |lab.links|
      && links[|lab.links|] == made.link
      && RemoveAt(links, |lab.links|) == lab.links + [links[|lab.links| + 1]]
      && NetworksOf(made.link) == [made.network]
      && links[|lab.links| + 1].dst == Net(made.network)
      && links[|lab.links| + 1].src == b
  {
    var made := JoinNodes(lab, a, b, style);
    var links := made.lab.links;
    NextLinkIdIsFresh(lab.links);
    assert links[|lab.links|] == made.link;
    assert forall i :: 0 <= i < |lab.links| ==> links[i] == lab.links[i];
  }

  /** What deleting a link on the single network `n` comes to. */
  lemma {:induction false} DeleteOnOne(lab: Lab, id: string, at: nat, n: int)
    requires FirstWithId(lab.links, id) == at < |lab.links|
    requires NetworksOf(lab.links[at]) == [n]
    ensures var rest := RemoveAt(lab.links, at);
      var kept := DropOrphan(lab.networks, rest, n);
      Delete(lab, id) == Lab(Collect(lab.networks, kept, n), kept)
  {
    var rest := RemoveAt(lab.links, at);
    var kept := DropOrphan(lab.networks, rest, n);
    assert DropOrphans(lab.networks, rest, [n]) == DropOrphans(lab.networks, kept, [n][1..]);
    assert CollectAll(lab.networks, kept, [n]) == CollectAll(Collect(lab.networks, kept, n), kept, [n][1..]);
  }

  /** Without the returned half, its sibling is an orphan exactly when no other
      link names the bridge. */
  lemma {:induction false} SiblingDropped(networks: map<int, Network>, links: seq<Link>, half: Link, n: int)
    requires half.src.Node? && half.dst == Net(n) && n != 0 && IsImplicit(networks, n)
    ensures var rest := links + [half];
      DropOrphan(networks, rest, n) == if Refcount(links, n) == 0 then links else rest
  {
    var rest := links + [half];
    RestCount(links, half, n);
    if Refcount(links, n) == 0 {
      assert forall i :: 0 <= i < |links| ==> rest[i] == links[i];
      assert rest[|links|] == half;
      assert FirstOn(rest, n) == |links|;
      assert RemoveAt(rest, |links|) == links;
    }
  }

  lemma {:induction false} DeleteFirstOfPair(all: Lab, id: string, base: Lab, half: Link, n: int)
    requires FirstWithId(all.links, id) == |base.links| < |all.links|
    requires RemoveAt(all.links, |base.links|) == base.links + [half]
    requires NetworksOf(all.links[|base.links|]) == [n]
    requires half.src.Node? && half.dst == Net(n) && n != 0
    requires IsImplicit(all.networks, n) && Without(all.networks, n) == base.networks
    ensures Delete(all, id) ==
      if Refcount(base.links, n) == 0 then base else Lab(all.networks, base.links + [half])
  {
    DeleteOnOne(all, id, |base.links|, n);
    SiblingDropped(all.networks, base.links, half, n);
    RestCount(base.links, half, n);
  }

  lemma {:induction false} JoinThenDelete(lab: Lab, a: Endpoint, b: Endpoint, style: string)
    requires a.Node? && b.Node?
    ensures var made := JoinNodes(lab, a, b, style);
      Delete(made.lab, made.link.id) ==
        if Refcount(lab.links, made.network) == 0 then lab
        else Lab(made.lab.networks, lab.links + [made.lab.links[|lab.links| + 1]])
  {
    var made := JoinNodes(lab, a, b, style);
    ReturnedHalf(lab, a, b, style);
    assert Without(made.lab.networks, made.network) == lab.networks;
    DeleteFirstOfPair(made.lab, made.link.id, lab, made.lab.links[|lab.links| + 1], made.network);
  }

  /** Deleting the returned half of a fresh node-to-node link gives back the
      file as it was, exactly when no stale link already names the new id. */
  lemma {:induction false} CreateThenDelete(lab: Lab, a: Endpoint, b: Endpoint, style: string)
    requires a.Node? && b.Node?
    requires FirstConflict(lab.links, a, b).NoConflict?
    ensures var made := Create(lab, a, b, style);
      Delete(made.lab, made.link.id) == lab <==> Refcount(lab.links, made.network) == 0
  {
    JoinThenDelete(lab, a, b, style);
    var made := JoinNodes(lab, a, b, style);
    assert Create(lab, a, b, style) == made;
    assert |lab.links + [made.lab.links[|lab.links| + 1]]| == |lab.links| + 1;
  }

  lemma {:induction false} RestCount(links: seq<Link>, half: Link, n: int)
    requires half.src.Node? && half.dst == Net(n) && n != 0
    ensures Refcount(links + [half], n) == Refcount(links, n) + 1
    ensures Refcount(links, n) == 0 ==> forall i :: 0 <= i < |links| ==> !Touches(links[i], Net(n))
  {
    CountAppend(links, half, Net(n));
    RefcountIsCount(links + [half], n);
    RefcountIsCount(links, n);
    CountZero(links, Net(n));
  }
}
