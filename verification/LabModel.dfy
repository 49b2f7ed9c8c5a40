/** The part of lab.json that links and networks live in, and the counting
    lemmas every topology proof rests on. */
module LabModel {

  /** One end of a link: a node's interface, or a network. */
  datatype Endpoint = Node(node: int, iface: int) | Net(id: int)

  datatype Link = Link(id: string, src: Endpoint, dst: Endpoint, style: string)

  datatype Network = Network(name: string, kind: string, visible: bool, implicit: bool)

  /** Networks are keyed by their id; links keep their order in the file. */
  datatype Lab = Lab(networks: map<int, Network>, links: seq<Link>)

  const EMPTY_LAB := Lab(map[], [])

  // ---------------------------------------------------------------------
  // Counting link ends
  // ---------------------------------------------------------------------

  /** How many of the link's two ends are `e`. */
  function Ends(link: Link, e: Endpoint): (n: nat) {
    (if link.src == e then 1 else 0) + (if link.dst == e then 1 else 0)
  }

  /** How many link ends in the whole list are `e`. */
  function Count(links: seq<Link>, e: Endpoint): (n: nat) {
    if |links| == 0 then 0
    else Count(links[..|links| - 1], e) + Ends(links[|links| - 1], e)
  }

  /** The value `int(ep.get("network_id", 0) or 0)`: a node end reads as 0. */
  function NetworkIdOf(e: Endpoint): int {
    match e
    case Net(n) => n
    case Node(_, _) => 0
  }

  /** `_refcount`, comparing the read value of every end with the id. */
  function Refcount(links: seq<Link>, id: int): (n: nat) {
    if |links| == 0 then 0
    else
      var last := links[|links| - 1];
      Refcount(links[..|links| - 1], id)
      + (if NetworkIdOf(last.src) == id then 1 else 0)
      + (if NetworkIdOf(last.dst) == id then 1 else 0)
  }

  /** For a real id the service's count is the number of ends on that network. */
  lemma {:induction false} RefcountIsCount(links: seq<Link>, id: int)
    requires id != 0
    ensures Refcount(links, id) == Count(links, Net(id))
  {
    if |links| > 0 {
      RefcountIsCount(links[..|links| - 1], id);
    }
  }

  lemma {:induction false} CountConcat(a: seq<Link>, b: seq<Link>, e: Endpoint)
    ensures Count(a + b, e) == Count(a, e) + Count(b, e)
  {
    if |b| == 0 {
      assert a + b == a;
    } else {
      var s := a + b;
      assert s[..|s| - 1] == a + b[..|b| - 1];
      CountConcat(a, b[..|b| - 1], e);
    }
  }

  lemma {:induction false} CountOne(link: Link, e: Endpoint)
    ensures Count([link], e) == Ends(link, e)
  {
    assert [link][..0] == [];
  }

  lemma {:induction false} CountAppend(links: seq<Link>, link: Link, e: Endpoint)
    ensures Count(links + [link], e) == Count(links, e) + Ends(link, e)
  {
    CountConcat(links, [link], e);
    CountOne(link, e);
  }

  /** `list.pop(i)`. */
  function RemoveAt(links: seq<Link>, i: nat): (r: seq<Link>)
    requires i < |links|
    ensures |r| == |links| - 1
    ensures forall k :: 0 <= k < i ==> r[k] == links[k]
    ensures forall k :: i <= k < |r| ==> r[k] == links[k + 1]
  {
    links[..i] + links[i + 1..]
  }

  lemma {:induction false} CountRemove(links: seq<Link>, i: nat, e: Endpoint)
    requires i < |links|
    ensures Count(RemoveAt(links, i), e) == Count(links, e) - Ends(links[i], e)
  {
    assert links == links[..i] + ([links[i]] + links[i + 1..]);
    CountConcat(links[..i], [links[i]] + links[i + 1..], e);
    CountConcat([links[i]], links[i + 1..], e);
    CountOne(links[i], e);
    CountConcat(links[..i], links[i + 1..], e);
  }

  predicate Touches(link: Link, e: Endpoint) {
    link.src == e || link.dst == e
  }

  lemma {:induction false} CountZero(links: seq<Link>, e: Endpoint)
    ensures Count(links, e) == 0 <==> forall i :: 0 <= i < |links| ==> !Touches(links[i], e)
  {
    if |links| > 0 {
      CountZero(links[..|links| - 1], e);
      assert forall i :: 0 <= i < |links| - 1 ==> links[..|links| - 1][i] == links[i];
    }
  }

  // ---------------------------------------------------------------------
  // The invariant
  // ---------------------------------------------------------------------

  ghost predicate DistinctIds(links: seq<Link>) {
    forall i, j :: 0 <= i < j < |links| ==> links[i].id != links[j].id
  }

  predicate EndExists(networks: map<int, Network>, e: Endpoint) {
    e.Net? ==> e.id in networks
  }

  /** Every network a link names is on file. */
  ghost predicate NoDangling(lab: Lab) {
    forall i :: 0 <= i < |lab.links| ==>
      EndExists(lab.networks, lab.links[i].src) && EndExists(lab.networks, lab.links[i].dst)
  }

  /** A node interface is wired by at most one link end. */
  ghost predicate OneLinkPerInterface(links: seq<Link>) {
    forall node, iface :: Count(links, Node(node, iface)) <= 1
  }

  predicate IsImplicit(networks: map<int, Network>, id: int) {
    id in networks && networks[id].implicit
  }

  ghost predicate ImplicitPaired(lab: Lab) {
    forall id :: IsImplicit(lab.networks, id) ==> Count(lab.links, Net(id)) == 2
  }

  /** Both ends of a network-to-network link are ordinary networks. */
  predicate BridgesExplicit(networks: map<int, Network>, link: Link) {
    link.src.Net? && link.dst.Net? ==>
      !IsImplicit(networks, link.src.id) && !IsImplicit(networks, link.dst.id)
  }

  ghost predicate BridgesJoinOrdinary(lab: Lab) {
    forall i :: 0 <= i < |lab.links| ==> BridgesExplicit(lab.networks, lab.links[i])
  }

  ghost predicate PositiveIds(networks: map<int, Network>) {
    forall id :: id in networks ==> id >= 1
  }

  /** What every run of the link and network services keeps. */
  ghost predicate Inv(lab: Lab) {
    && PositiveIds(lab.networks)
    && DistinctIds(lab.links)
    && NoDangling(lab)
    && OneLinkPerInterface(lab.links)
    && ImplicitPaired(lab)
    && BridgesJoinOrdinary(lab)
  }
}
