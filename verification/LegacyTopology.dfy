/** The lab file on disk and the older view of it that reading adds: a topology
    list, the network of each interface, and the number of ends on each network. */
module LegacyTopology {
  import opened Collections
  import opened Text
  import opened LabModel
  import opened LinkSpec

  /** A link with the fields the view shows. */
  datatype StoredLink = StoredLink(link: Link, caption: string, color: string, width: string)

  datatype Iface = Iface(name: string, networkId: Option<int>)

  datatype NodeRec = NodeRec(id: int, name: string, interfaces: seq<Iface>)

  datatype NetRec = NetRec(id: int, name: string, count: Option<int>)

  /** Where an entry of the older topology leads: an interface, or "network".  Only
      an entry that a client wrote may have an id of its own. */
  datatype FarIface = Number(index: int) | NetworkWord

  datatype Entry = Entry(id: string, source: string, sourceIface: int, destination: string,
                         destinationIface: FarIface, networkId: int, caption: string, color: string, width: string)

  /** The dictionary in memory.  Keys a file may lack are optional. */
  datatype Data = Data(schema: Option<int>, schemaVersion: Option<int>, viewport: Option<string>,
                       defaults: Option<string>, nodes: seq<NodeRec>, networks: seq<NetRec>,
                       links: Option<seq<StoredLink>>, topology: Option<seq<Entry>>)

  datatype ReadResult = Read(data: Data) | LegacySchema

  const SCHEMA_VERSION: int := 2
  const VIEWPORT := "{x: 0, y: 0, zoom: 1.0}"
  const DEFAULTS := "{link_style: orthogonal}"

  // ---------------------------------------------------------------------
  // Links to topology entries
  // ---------------------------------------------------------------------

  /** `str(n)`. */
  function IntText(n: int): string {
    if n >= 0 then Decimal(n) else "-" + Decimal(-n)
  }

  function OrOne(width: string): string {
    if width == "" then "1" else width
  }

  function NodeEntry(l: StoredLink): Entry
    requires l.link.src.Node? && l.link.dst.Node?
  {
    Entry("", "node" + IntText(l.link.src.node), l.link.src.iface, "node" + IntText(l.link.dst.node),
          Number(l.link.dst.iface), 0, l.caption, l.color, OrOne(l.width))
  }

  function NetEntry(l: StoredLink, near: Endpoint, id: int): Entry
    requires near.Node?
  {
    Entry("", "node" + IntText(near.node), near.iface, "network" + IntText(id), NetworkWord, id,
          l.caption, l.color, OrOne(l.width))
  }

  /** The entry for a link; none for a link between two networks. */
  function EntryFor(l: StoredLink): Option<Entry> {
    match (l.link.src, l.link.dst)
    case (Node(_, _), Node(_, _)) => Some(NodeEntry(l))
    case (Node(_, _), Net(id)) => Some(NetEntry(l, l.link.src, id))
    case (Net(id), Node(_, _)) => Some(NetEntry(l, l.link.dst, id))
    case (Net(_), Net(_)) => None
  }

  function Appended<T>(s: seq<T>, x: Option<T>): seq<T> {
    if x.Some? then s + [x.value] else s
  }

  /** `_derive_legacy_topology`. */
  function Topology(links: seq<StoredLink>): seq<Entry> {
    if links == [] then []
    else Appended(Topology(links[..|links| - 1]), EntryFor(links[|links| - 1]))
  }

  // ---------------------------------------------------------------------
  // Topology entries to links
  // ---------------------------------------------------------------------

  /** The number behind "node". */
  function NodeIdIn(s: string): Option<int> {
    if "node" <= s && AllDigits(s[4..]) then Some(Value(s[4..])) else None
  }

  function Index(far: FarIface): int {
    if far.Number? then far.index else 0
  }

  /** The id an entry gives, or one numbered after its place. */
  function IdFor(index: nat, e: Entry): string {
    if e.id != "" then e.id else LINK_PREFIX + Padded(index + 1, 3)
  }

  function Joined(index: nat, e: Entry, src: Endpoint, dst: Endpoint): StoredLink {
    StoredLink(Link(IdFor(index, e), src, dst, ""), e.caption, e.color, OrOne(e.width))
  }

  /** What one entry at a place of the list becomes. */
  function LinkFor(index: nat, e: Entry): Option<StoredLink> {
    var source, destination := NodeIdIn(e.source), NodeIdIn(e.destination);
    if source.Some? && destination.Some? && e.networkId == 0 then
      Some(Joined(index, e, Node(source.value, e.sourceIface), Node(destination.value, Index(e.destinationIface))))
    else if source.Some? && e.networkId != 0 then
      Some(Joined(index, e, Node(source.value, e.sourceIface), Net(e.networkId)))
    else if destination.Some? && e.networkId != 0 then
      Some(Joined(index, e, Node(destination.value, Index(e.destinationIface)), Net(e.networkId)))
    else None
  }

  /** `_legacy_topology_to_links`. */
  function ToLinks(topology: seq<Entry>): seq<StoredLink> {
    if topology == [] then []
    else
      var n := |topology| - 1;
      Appended(ToLinks(topology[..n]), LinkFor(n, topology[n]))
  }

  // ---------------------------------------------------------------------
  // There and back
  // ---------------------------------------------------------------------

  /** What the two forms have in common: the two ends in no order, and the look. */
  datatype View = View(ends: multiset<Endpoint>, caption: string, color: string, width: string)

  function ViewOf(l: StoredLink): View {
    View(multiset{l.link.src, l.link.dst}, l.caption, l.color, OrOne(l.width))
  }

  function Views(links: seq<StoredLink>): (r: seq<View>)
    ensures |r| == |links|
  {
    if links == [] then [] else Views(links[..|links| - 1]) + [ViewOf(links[|links| - 1])]
  }

  predicate Numbered(e: Endpoint) {
    e.Node? && e.node >= 0
  }

  predicate RealNet(e: Endpoint) {
    e.Net? && e.id != 0
  }

  /** Node to node, or node to a network with an id other than 0. */
  predicate Convertible(l: StoredLink) {
    var src, dst := l.link.src, l.link.dst;
    (Numbered(src) && (Numbered(dst) || RealNet(dst))) || (RealNet(src) && Numbered(dst))
  }

  function Kept(links: seq<StoredLink>): seq<StoredLink> {
    if links == [] then []
    else
      var last := links[|links| - 1];
      Appended(Kept(links[..|links| - 1]), if Convertible(last) then Some(last) else None)
  }

  lemma {:induction false} NodeIdReads(n: int)
    ensures NodeIdIn("node" + IntText(n)) == (if n >= 0 then Some(n) else None)
  {
    var s := "node" + IntText(n);
    assert s[4..] == IntText(n);
    if n >= 0 {
      ValueOfDecimal(n);
    } else {
      assert !IsDigit(s[4..][0]);
    }
  }

  lemma {:induction false} NetworkIsNoNode(id: int)
    ensures NodeIdIn("network" + IntText(id)).None?
  {
    var s := "network" + IntText(id);
    assert s[1] == 'e';
  }

  lemma {:induction false} NodesThere(l: StoredLink, index: nat)
    requires l.link.src.Node? && l.link.dst.Node?
    ensures LinkFor(index, NodeEntry(l)) ==
      (if Convertible(l) then Some(Joined(index, NodeEntry(l), l.link.src, l.link.dst)) else None)
  {
    NodeIdReads(l.link.src.node);
    NodeIdReads(l.link.dst.node);
  }

  lemma {:induction false} NetworkThere(l: StoredLink, near: Endpoint, id: int, index: nat)
    requires near.Node?
    ensures LinkFor(index, NetEntry(l, near, id)) ==
      (if near.node >= 0 && id != 0 then Some(Joined(index, NetEntry(l, near, id), near, Net(id))) else None)
  {
    NodeIdReads(near.node);
    NetworkIsNoNode(id);
  }

  /** One link through the view and back, at any place of the list. */
  lemma {:induction false} EntryAndBack(l: StoredLink, index: nat)
    requires EntryFor(l).Some?
    ensures var back := LinkFor(index, EntryFor(l).value);
      && (back.Some? <==> Convertible(l))
      && (back.Some? ==> ViewOf(back.value) == ViewOf(l))
  {
    match (l.link.src, l.link.dst)
    case (Node(_, _), Node(_, _)) => NodesThere(l, index);
    case (Node(_, _), Net(id)) => NetworkThere(l, l.link.src, id, index);
    case (Net(id), Node(_, _)) => NetworkThere(l, l.link.dst, id, index);
  }

  lemma {:induction false} ViewsAppended(links: seq<StoredLink>, x: StoredLink)
    ensures Views(links + [x]) == Views(links) + [ViewOf(x)]
  {
    var s := links + [x];
    assert s[..|s| - 1] == links;
  }

  lemma {:induction false} ToLinksAppended(topology: seq<Entry>, e: Entry)
    ensures ToLinks(topology + [e]) == Appended(ToLinks(topology), LinkFor(|topology|, e))
  {
    var s := topology + [e];
    assert s[..|s| - 1] == topology;
  }

  /** Going to the older form and back keeps, in order, the two ends and the look
      of every convertible link, and loses every other. */
  lemma {:induction false} ThereAndBack(links: seq<StoredLink>)
    ensures Views(ToLinks(Topology(links))) == Views(Kept(links))
  {
    if links != [] {
      var before, last := links[..|links| - 1], links[|links| - 1];
      ThereAndBack(before);
      var e := EntryFor(last);
      if e.Some? {
        var index := |Topology(before)|;
        EntryAndBack(last, index);
        ToLinksAppended(Topology(before), e.value);
        var back := LinkFor(index, e.value);
        if back.Some? {
          ViewsAppended(ToLinks(Topology(before)), back.value);
          ViewsAppended(Kept(before), last);
        }
      }
    }
  }

  ghost predicate AllConvertible(links: seq<StoredLink>) {
    forall i :: 0 <= i < |links| ==> Convertible(links[i])
  }

  lemma {:induction false} KeptAll(links: seq<StoredLink>)
    ensures |Kept(links)| <= |links|
    ensures |Kept(links)| == |links| ==> Kept(links) == links
    ensures |Kept(links)| == |links| <==> AllConvertible(links)
  {
    if links != [] {
      var n := |links| - 1;
      var before, last := links[..n], links[n];
      KeptAll(before);
      assert links == before + [last];
      assert AllConvertible(links) <==> AllConvertible(before) && Convertible(last);
    }
  }

  /** Nothing is lost exactly when every link is convertible. */
  lemma {:induction false} LosslessIff(links: seq<StoredLink>)
    ensures Views(ToLinks(Topology(links))) == Views(links) <==> AllConvertible(links)
  {
    ThereAndBack(links);
    KeptAll(links);
  }

  /** Whatever the topology, the links made from it are convertible: once in the
      newer form, going to the older one and back loses nothing. */
  lemma {:induction false} MadeConvertible(topology: seq<Entry>)
    ensures AllConvertible(ToLinks(topology))
    ensures Views(ToLinks(Topology(ToLinks(topology)))) == Views(ToLinks(topology))
  {
    AllMadeConvertible(topology);
    LosslessIff(ToLinks(topology));
  }

  lemma {:induction false} AllMadeConvertible(topology: seq<Entry>)
    ensures AllConvertible(ToLinks(topology))
  {
    if topology != [] {
      var n := |topology| - 1;
      AllMadeConvertible(topology[..n]);
      OneConvertible(n, topology[n]);
    }
  }

  lemma {:induction false} OneConvertible(k: nat, e: Entry)
    ensures LinkFor(k, e).Some? ==> Convertible(LinkFor(k, e).value)
  {
  }

  /** The places of the entries that become links. */
  function Places(topology: seq<Entry>): seq<nat> {
    if topology == [] then []
    else
      var n := |topology| - 1;
      Appended(Places(topology[..n]), if LinkFor(n, topology[n]).Some? then Some(n) else None)
  }

  lemma {:induction false} MadeAt(topology: seq<Entry>, i: nat)
    requires i < |ToLinks(topology)|
    ensures |Places(topology)| == |ToLinks(topology)| && Places(topology)[i] < |topology|
    ensures LinkFor(Places(topology)[i], topology[Places(topology)[i]]) == Some(ToLinks(topology)[i])
  {
    SameLength(topology);
    var n := |topology| - 1;
    SameLength(topology[..n]);
    if i < |ToLinks(topology[..n])| {
      MadeAt(topology[..n], i);
    }
  }

  lemma {:induction false} SameLength(topology: seq<Entry>)
    ensures |Places(topology)| == |ToLinks(topology)|
    ensures forall i :: 0 <= i < |Places(topology)| ==> Places(topology)[i] < |topology|
  {
    if topology != [] {
      SameLength(topology[..|topology| - 1]);
    }
  }

  lemma {:induction false} PlacesRise(topology: seq<Entry>, i: nat, j: nat)
    requires i < j < |Places(topology)|
    ensures Places(topology)[i] < Places(topology)[j]
  {
    var n := |topology| - 1;
    SameLength(topology[..n]);
    if j < |Places(topology[..n])| {
      PlacesRise(topology[..n], i, j);
    }
  }

  lemma {:induction false} EachPlaced(topology: seq<Entry>, k: nat)
    requires k < |topology| && LinkFor(k, topology[k]).Some?
    ensures k in Places(topology)
  {
    var n := |topology| - 1;
    if k < n {
      assert topology[..n][k] == topology[k];
      EachPlaced(topology[..n], k);
    }
  }

  /** Every entry that becomes a link becomes one, in the order of the entries. */
  lemma {:induction false} MadeFrom(topology: seq<Entry>)
    ensures var places, made := Places(topology), ToLinks(topology);
      && |places| == |made|
      && (forall i :: 0 <= i < |made| ==>
            places[i] < |topology| && LinkFor(places[i], topology[places[i]]) == Some(made[i]))
      && (forall i, j :: 0 <= i < j < |made| ==> places[i] < places[j])
      && (forall k :: 0 <= k < |topology| && LinkFor(k, topology[k]).Some? ==> k in places)
  {
    var places, made := Places(topology), ToLinks(topology);
    SameLength(topology);
    forall i | 0 <= i < |made|
      ensures LinkFor(places[i], topology[places[i]]) == Some(made[i])
    {
      MadeAt(topology, i);
    }
    forall i, j | 0 <= i < j < |made|
      ensures places[i] < places[j]
    {
      PlacesRise(topology, i, j);
    }
    forall k | 0 <= k < |topology| && LinkFor(k, topology[k]).Some?
      ensures k in places
    {
      EachPlaced(topology, k);
    }
  }

  /** The text is "node" and the digits of the number. */
  ghost predicate NamesNode(text: string, node: nat) {
    exists digits: string :: text == "node" + digits && AllDigits(digits) && Value(digits) == node
  }

  lemma {:induction false} NodeIdIs(text: string, node: nat)
    ensures NodeIdIn(text) == Some(node) <==> NamesNode(text, node)
  {
    if NodeIdIn(text) == Some(node) {
      assert text == "node" + text[4..];
    }
    if digits: string :| text == "node" + digits && AllDigits(digits) && Value(digits) == node {
      assert text[4..] == digits;
    }
  }

  /** The link of an entry runs from the first node it names, with that side's
      interface, to its network, or to the other node when it names no network; an
      entry that names no node, or one node and no network, has none.  The link has
      the id the entry gives, or else one numbered after the entry's place, no style
      of its own, and the entry's look. */
  lemma {:induction false} LinkOfEntry(k: nat, e: Entry, source: Option<int>, destination: Option<int>)
    requires source == NodeIdIn(e.source) && destination == NodeIdIn(e.destination)
    ensures var made := LinkFor(k, e);
      var far := if e.destinationIface.Number? then e.destinationIface.index else 0;
      && (made.Some? <==> if e.networkId == 0 then source.Some? && destination.Some? else source.Some? || destination.Some?)
      && (made.Some? ==>
            var l := made.value;
            && l.link.src == (if source.Some? then Node(source.value, e.sourceIface) else Node(destination.value, far))
            && l.link.dst == (if e.networkId != 0 then Net(e.networkId) else Node(destination.value, far))
            && (e.id != "" ==> l.link.id == e.id) && (e.id == "" ==> l.link.id == LINK_PREFIX + Padded(k + 1, 3))
            && l.link.style == "" && l.caption == e.caption && l.color == e.color
            && l.width == (if e.width == "" then "1" else e.width))
  {
  }

  /** The entry of a link has no id of its own, names its two ends, a node first, and
      carries its look; a link between two networks has none. */
  lemma {:induction false} EntryOfLink(l: StoredLink)
    ensures var e := EntryFor(l);
      && (e.None? <==> l.link.src.Net? && l.link.dst.Net?)
      && (e.Some? ==>
            var near, far := if l.link.src.Node? then l.link.src else l.link.dst, if l.link.src.Node? then l.link.dst else l.link.src;
            && e.value.id == "" && e.value.caption == l.caption && e.value.color == l.color
            && e.value.width == (if l.width == "" then "1" else l.width)
            && e.value.source == "node" + IntText(near.node) && e.value.sourceIface == near.iface
            && (far.Node? ==> e.value.destination == "node" + IntText(far.node)
                              && e.value.destinationIface == Number(far.iface) && e.value.networkId == 0)
            && (far.Net? ==> e.value.destination == "network" + IntText(far.id)
                             && e.value.destinationIface == NetworkWord && e.value.networkId == far.id))
  {
  }

  /** A printed number reads back, after its sign. */
  lemma {:induction false} IntTextReads(n: int)
    ensures var s := IntText(n);
      if n >= 0 then AllDigits(s) && Value(s) == n else s[0] == '-' && AllDigits(s[1..]) && Value(s[1..]) == -n
  {
    ValueOfDecimal(if n >= 0 then n else -n);
    assert n < 0 ==> IntText(n)[1..] == Decimal(-n);
  }

  /** Two entries claim one id: both give it, or one gives the id the other's place
      has. */
  predicate ClaimOneId(topology: seq<Entry>, i: nat, j: nat)
    requires i < |topology| && j < |topology|
  {
    var a, b := topology[i].id, topology[j].id;
    || (a != "" && a == b)
    || (a == "" && b == LINK_PREFIX + Padded(i + 1, 3))
    || (b == "" && a == LINK_PREFIX + Padded(j + 1, 3))
  }

  lemma {:induction false} SameIdIff(topology: seq<Entry>, i: nat, j: nat)
    requires i < j < |topology|
    ensures IdFor(i, topology[i]) == IdFor(j, topology[j]) <==> ClaimOneId(topology, i, j)
  {
    SuffixOfPrinted(i + 1);
    SuffixOfPrinted(j + 1);
  }

  /** The entry becomes a link. */
  predicate Becomes(topology: seq<Entry>, k: nat) {
    k < |topology| && LinkFor(k, topology[k]).Some?
  }

  lemma {:induction false} IdOfMade(topology: seq<Entry>, k: nat)
    requires Becomes(topology, k)
    ensures LinkFor(k, topology[k]).value.link.id == IdFor(k, topology[k])
  {
  }

  /** Some two entries that become links claim one id. */
  ghost predicate IdsClash(topology: seq<Entry>) {
    exists i, j :: 0 <= i < j < |topology| && Becomes(topology, i) && Becomes(topology, j) && ClaimOneId(topology, i, j)
  }

  lemma {:induction false} MadeClash(topology: seq<Entry>, i: nat, j: nat)
    requires i < j < |ToLinks(topology)|
    ensures |Places(topology)| == |ToLinks(topology)|
    ensures var p, q := Places(topology)[i], Places(topology)[j];
      && p < q && Becomes(topology, p) && Becomes(topology, q)
      && (ToLinks(topology)[i].link.id == ToLinks(topology)[j].link.id <==> ClaimOneId(topology, p, q))
  {
    MadeFrom(topology);
    var p, q := Places(topology)[i], Places(topology)[j];
    IdOfMade(topology, p);
    IdOfMade(topology, q);
    SameIdIff(topology, p, q);
  }

  lemma {:induction false} ClashMade(topology: seq<Entry>, p: nat, q: nat)
    requires p < q && Becomes(topology, p) && Becomes(topology, q) && ClaimOneId(topology, p, q)
    ensures !DistinctIds(Links(ToLinks(topology)))
  {
    MadeFrom(topology);
    var places, made := Places(topology), ToLinks(topology);
    var i :| 0 <= i < |places| && places[i] == p;
    var j :| 0 <= j < |places| && places[j] == q;
    assert i < j by {
      assert i != j;
    }
    MadeClash(topology, i, j);
    assert Links(made)[i].id == Links(made)[j].id;
  }

  /** The links made from a topology have distinct ids exactly when no two of its
      entries claim one. */
  lemma {:induction false} MadeDistinctIff(topology: seq<Entry>)
    ensures DistinctIds(Links(ToLinks(topology))) <==> !IdsClash(topology)
  {
    if IdsClash(topology) {
      var p, q :| 0 <= p < q < |topology| && Becomes(topology, p) && Becomes(topology, q) && ClaimOneId(topology, p, q);
      ClashMade(topology, p, q);
    } else {
      var made := ToLinks(topology);
      forall i, j | 0 <= i < j < |made|
        ensures Links(made)[i].id != Links(made)[j].id
      {
        MadeClash(topology, i, j);
      }
    }
  }

  /** So they always have when no entry gives an id. */
  lemma {:induction false} MadeDistinct(topology: seq<Entry>)
    requires forall i :: 0 <= i < |topology| ==> topology[i].id == ""
    ensures DistinctIds(Links(ToLinks(topology)))
  {
    MadeDistinctIff(topology);
  }

  /** A client that gives an entry the id that the place of another has gets two
      links with one id. */
  lemma {:induction false} GivenIdClashes(e: Entry)
    requires LinkFor(0, e).Some?
    ensures !DistinctIds(Links(ToLinks([e.(id := "lnk_002"), e.(id := "")])))
  {
    var topology := [e.(id := "lnk_002"), e.(id := "")];
    assert Padded(2, 3) == "002" by {
      assert Decimal(2) == "2" && Zeros(1) + Zeros(1) == Zeros(2);
    }
    assert Becomes(topology, 0) && Becomes(topology, 1) && ClaimOneId(topology, 0, 1);
    ClashMade(topology, 0, 1);
  }

  // ---------------------------------------------------------------------
  // Network of an interface, ends on a network
  // ---------------------------------------------------------------------

  function Links(links: seq<StoredLink>): (r: seq<Link>)
    ensures |r| == |links| && forall i :: 0 <= i < |links| ==> r[i] == links[i].link
  {
    if links == [] then [] else Links(links[..|links| - 1]) + [links[|links| - 1].link]
  }

  /** The network a link puts its node ends on; 0 for none. */
  function NetworkOf(l: Link): int {
    if l.dst.Net? then l.dst.id else if l.src.Net? then l.src.id else 0
  }

  /** `network_id` of an interface after all links are applied: the last link that
      has a network decides. */
  function InterfaceNetwork(links: seq<StoredLink>, e: Endpoint): int {
    if links == [] then 0
    else
      var last := links[|links| - 1].link;
      if Touches(last, e) && NetworkOf(last) != 0 then NetworkOf(last)
      else InterfaceNetwork(links[..|links| - 1], e)
  }

  predicate Joins(l: Link, e: Endpoint, id: int) {
    (l.src == e && l.dst == Net(id)) || (l.src == Net(id) && l.dst == e)
  }

  ghost predicate JoinedTo(links: seq<StoredLink>, e: Endpoint, id: int) {
    exists i :: 0 <= i < |links| && Joins(links[i].link, e, id)
  }

  lemma {:induction false} JoinedSplit(links: seq<StoredLink>, e: Endpoint, id: int)
    requires links != []
    ensures var n := |links| - 1;
      JoinedTo(links, e, id) <==> JoinedTo(links[..n], e, id) || Joins(links[n].link, e, id)
  {
    var n := |links| - 1;
    assert forall i :: 0 <= i < n ==> links[..n][i] == links[i];
  }

  /** When an interface has one link at most, the derived id names exactly the
      network that link joins it to. */
  lemma {:induction false} InterfaceNetworkIff(links: seq<StoredLink>, e: Endpoint, id: int)
    requires e.Node? && id != 0 && Count(Links(links), e) <= 1
    ensures InterfaceNetwork(links, e) == id <==> JoinedTo(links, e, id)
  {
    if links != [] {
      var n := |links| - 1;
      var before, last := links[..n], links[n].link;
      assert Links(links) == Links(before) + [last];
      CountAppend(Links(before), last, e);
      JoinedSplit(links, e, id);
      if Touches(last, e) {
        CountZero(Links(before), e);
        assert forall i :: 0 <= i < n ==> before[i].link == Links(before)[i];
        NothingWired(before, e);
        assert !JoinedTo(before, e, id);
      } else {
        InterfaceNetworkIff(before, e, id);
      }
    }
  }

  lemma {:induction false} NothingWired(links: seq<StoredLink>, e: Endpoint)
    requires forall i :: 0 <= i < |links| ==> !Touches(links[i].link, e)
    ensures InterfaceNetwork(links, e) == 0
  {
    if links != [] {
      NothingWired(links[..|links| - 1], e);
    }
  }

  function Ifaces(links: seq<StoredLink>, node: NodeRec): (r: seq<Iface>)
    ensures |r| == |node.interfaces|
    ensures forall i :: 0 <= i < |r| ==>
      r[i] == Iface(node.interfaces[i].name, Some(InterfaceNetwork(links, Node(node.id, i))))
  {
    seq(|node.interfaces|, i requires 0 <= i < |node.interfaces| =>
      Iface(node.interfaces[i].name, Some(InterfaceNetwork(links, Node(node.id, i)))))
  }

  /** The count reading stores with a network: nothing is counted under id 0. */
  function DerivedCount(links: seq<StoredLink>, id: int): nat {
    if id == 0 then 0 else Count(Links(links), Net(id))
  }

  /** The stored count is the service's own count for every id but 0, which only
      the service counts node ends under. */
  lemma {:induction false} DerivedCountIff(links: seq<StoredLink>, id: int)
    ensures DerivedCount(links, id) == Refcount(Links(links), id) <==>
      id != 0 || forall i :: 0 <= i < |links| ==> RealNet(links[i].link.src) && RealNet(links[i].link.dst)
  {
    if id != 0 {
      RefcountIsCount(Links(links), id);
    } else {
      RefcountOfZero(Links(links));
      assert forall i :: 0 <= i < |links| ==> Links(links)[i] == links[i].link;
    }
  }

  /** How many entries of a topology put a node on the network. */
  function EntriesOn(topology: seq<Entry>, id: int): (n: nat) {
    if topology == [] then 0
    else
      var last := topology[|topology| - 1];
      EntriesOn(topology[..|topology| - 1], id)
      + (if last.networkId == id && (NodeIdIn(last.source).Some? || NodeIdIn(last.destination).Some?) then 1 else 0)
  }

  /** Each entry that names a network and a node becomes exactly one end on that
      network, also when it names two nodes, and nothing else becomes one. */
  lemma {:induction false} EndsFromEntries(topology: seq<Entry>, id: int)
    requires id != 0
    ensures Count(Links(ToLinks(topology)), Net(id)) == EntriesOn(topology, id)
  {
    if topology != [] {
      var n := |topology| - 1;
      var before, made := ToLinks(topology[..n]), LinkFor(n, topology[n]);
      EndsFromEntries(topology[..n], id);
      if made.Some? {
        assert (before + [made.value])[..|before|] == before;
        assert Links(before + [made.value]) == Links(before) + [made.value.link];
        CountAppend(Links(before), made.value.link, Net(id));
      }
    }
  }

  lemma {:induction false} RefcountOfZero(links: seq<Link>)
    ensures Refcount(links, 0) == 0 <==> forall i :: 0 <= i < |links| ==> RealNet(links[i].src) && RealNet(links[i].dst)
  {
    if links != [] {
      var n := |links| - 1;
      RefcountOfZero(links[..n]);
      assert forall i :: 0 <= i < n ==> links[..n][i] == links[i];
    }
  }

  // ---------------------------------------------------------------------
  // Reading and writing
  // ---------------------------------------------------------------------

  function StripIfaces(s: seq<Iface>): (r: seq<Iface>)
    ensures |r| == |s| && forall i :: 0 <= i < |s| ==> r[i] == s[i].(networkId := None)
  {
    seq(|s|, i requires 0 <= i < |s| => s[i].(networkId := None))
  }

  function StripNodes(s: seq<NodeRec>): (r: seq<NodeRec>)
    ensures |r| == |s| && forall i :: 0 <= i < |s| ==> r[i] == s[i].(interfaces := StripIfaces(s[i].interfaces))
  {
    seq(|s|, i requires 0 <= i < |s| => s[i].(interfaces := StripIfaces(s[i].interfaces)))
  }

  function StripNetworks(s: seq<NetRec>): (r: seq<NetRec>)
    ensures |r| == |s| && forall i :: 0 <= i < |s| ==> r[i] == s[i].(count := None)
  {
    seq(|s|, i requires 0 <= i < |s| => s[i].(count := None))
  }

  function NumberNodes(links: seq<StoredLink>, s: seq<NodeRec>): (r: seq<NodeRec>)
    ensures |r| == |s| && forall i :: 0 <= i < |s| ==> r[i] == s[i].(interfaces := Ifaces(links, s[i]))
  {
    seq(|s|, i requires 0 <= i < |s| => s[i].(interfaces := Ifaces(links, s[i])))
  }

  function CountNetworks(links: seq<StoredLink>, s: seq<NetRec>): (r: seq<NetRec>)
    ensures |r| == |s| && forall i :: 0 <= i < |s| ==> r[i] == s[i].(count := Some(DerivedCount(links, s[i].id)))
  {
    seq(|s|, i requires 0 <= i < |s| => s[i].(count := Some(DerivedCount(links, s[i].id))))
  }

  function Or<T>(x: Option<T>, default: T): Option<T> {
    if x.Some? then x else Some(default)
  }

  function LinksOf(d: Data): seq<StoredLink> {
    if d.links.Some? then d.links.value else []
  }

  /** `read_lab_json_static`. */
  function ReadFile(f: Data): ReadResult {
    if f.schema != Some(SCHEMA_VERSION) then LegacySchema
    else
      var links := LinksOf(f);
      Read(f.(topology := Some(Topology(links)), nodes := NumberNodes(links, f.nodes),
              networks := CountNetworks(links, f.networks)))
  }

  /** `write_lab_json_static`: what ends up in the file.  Links are made from the
      topology only when there is one and there are no links. */
  function WriteFile(d: Data): Data {
    var links := if d.topology.Some? && LinksOf(d) == [] then Some(ToLinks(d.topology.value)) else d.links;
    Data(Or(d.schema, SCHEMA_VERSION), Some(SCHEMA_VERSION), Or(d.viewport, VIEWPORT), Or(d.defaults, DEFAULTS),
         StripNodes(d.nodes), StripNetworks(d.networks), Or(links, []), None)
  }

  /** What reading adds to a file of the current schema, and nothing else: the entries
      of its links; with every interface, when one link at most names it, the network
      that link joins it to, or 0; with every network but 0, how many link ends are
      on it. */
  lemma {:induction false} ReadShows(f: Data, d: Data, i: nat, k: nat, id: int)
    requires ReadFile(f) == Read(d)
    ensures f.schema == Some(2)
    ensures d == f.(topology := Some(Topology(LinksOf(f))), nodes := d.nodes, networks := d.networks)
    ensures StripNodes(d.nodes) == StripNodes(f.nodes) && StripNetworks(d.networks) == StripNetworks(f.networks)
    ensures i < |f.nodes| && k < |f.nodes[i].interfaces| && id != 0 && Count(Links(LinksOf(f)), Node(f.nodes[i].id, k)) <= 1 ==>
      |d.nodes| == |f.nodes| && |d.nodes[i].interfaces| == |f.nodes[i].interfaces|
      && (d.nodes[i].interfaces[k].networkId == Some(id) <==> JoinedTo(LinksOf(f), Node(f.nodes[i].id, k), id))
      && d.nodes[i].interfaces[k].networkId.Some?
    ensures i < |f.networks| ==>
      |d.networks| == |f.networks|
      && d.networks[i].count == Some(if f.networks[i].id == 0 then 0 else Count(Links(LinksOf(f)), Net(f.networks[i].id)))
  {
    ReadKeeps(f, d);
    if i < |f.nodes| && k < |f.nodes[i].interfaces| && id != 0 && Count(Links(LinksOf(f)), Node(f.nodes[i].id, k)) <= 1 {
      InterfaceNetworkIff(LinksOf(f), Node(f.nodes[i].id, k), id);
    }
  }

  lemma {:induction false} ReadKeeps(f: Data, d: Data)
    requires ReadFile(f) == Read(d)
    ensures StripNodes(d.nodes) == StripNodes(f.nodes) && StripNetworks(d.networks) == StripNetworks(f.networks)
  {
    forall i | 0 <= i < |f.nodes|
      ensures StripIfaces(d.nodes[i].interfaces) == StripIfaces(f.nodes[i].interfaces)
    {
      assert forall k :: 0 <= k < |f.nodes[i].interfaces| ==> d.nodes[i].interfaces[k].name == f.nodes[i].interfaces[k].name;
    }
    assert StripNodes(d.nodes) == StripNodes(f.nodes);
    assert StripNetworks(d.networks) == StripNetworks(f.networks);
  }

  /** What the writer puts where a key is missing, and that it keeps what is there. */
  lemma {:induction false} WrittenKeys(d: Data)
    ensures var f := WriteFile(d);
      && f.schema == Some(if d.schema.Some? then d.schema.value else 2) && f.schemaVersion == Some(2)
      && f.viewport == Some(if d.viewport.Some? then d.viewport.value else "{x: 0, y: 0, zoom: 1.0}")
      && f.defaults == Some(if d.defaults.Some? then d.defaults.value else "{link_style: orthogonal}")
      && StripNodes(d.nodes) == f.nodes && StripNetworks(d.networks) == f.networks && f.topology.None?
      && (d.links.Some? && d.links.value != [] ==> f.links == d.links)
  {
  }

  /** A file as it should be on disk: every key of its own is there and none of
      the added fields is. */
  ghost predicate Stored(f: Data) {
    && f.schema.Some? && f.schemaVersion == Some(SCHEMA_VERSION) && f.viewport.Some? && f.defaults.Some?
    && f.links.Some? && f.topology.None?
    && (forall i, k :: 0 <= i < |f.nodes| && 0 <= k < |f.nodes[i].interfaces| ==>
          f.nodes[i].interfaces[k].networkId.None?)
    && (forall i :: 0 <= i < |f.networks| ==> f.networks[i].count.None?)
  }

  /** The writer makes exactly the files that are as they should be, and leaves
      such a file as it is. */
  lemma {:induction false} WriterMakesIff(f: Data)
    ensures (exists d :: WriteFile(d) == f) <==> Stored(f)
    ensures Stored(f) ==> WriteFile(f) == f
  {
    if Stored(f) {
      forall i | 0 <= i < |f.nodes|
        ensures StripNodes(f.nodes)[i] == f.nodes[i]
      {
        assert StripIfaces(f.nodes[i].interfaces) == f.nodes[i].interfaces;
      }
      assert StripNodes(f.nodes) == f.nodes;
      assert StripNetworks(f.networks) == f.networks;
      assert WriteFile(f) == f;
    }
  }

  /** The links of a written file have distinct ids exactly when they had them before
      or, made from the topology, no two of its entries claim one. */
  lemma {:induction false} WrittenDistinctIff(d: Data)
    ensures DistinctIds(Links(LinksOf(WriteFile(d)))) <==>
      if d.topology.Some? && LinksOf(d) == [] then !IdsClash(d.topology.value) else DistinctIds(Links(LinksOf(d)))
  {
    if d.topology.Some? {
      MadeDistinctIff(d.topology.value);
    }
  }

  /** Every file the writer makes reads back, if its schema is current, to data
      that writes the same file again. */
  lemma {:induction false} WriteReadWrite(d: Data)
    ensures ReadFile(WriteFile(d)).LegacySchema? <==> d.schema.Some? && d.schema.value != SCHEMA_VERSION
    ensures var back := ReadFile(WriteFile(d));
      back.Read? ==> WriteFile(back.data) == WriteFile(d)
  {
    var f := WriteFile(d);
    if ReadFile(f).Read? {
      var back := ReadFile(f).data;
      var links := LinksOf(f);
      assert links == [] ==> ToLinks(Topology(links)) == [];
      forall i | 0 <= i < |f.nodes|
        ensures StripIfaces(back.nodes[i].interfaces) == f.nodes[i].interfaces
      {
        assert f.nodes[i].interfaces == StripIfaces(d.nodes[i].interfaces);
        assert forall k :: 0 <= k < |f.nodes[i].interfaces| ==>
          back.nodes[i].interfaces[k].name == f.nodes[i].interfaces[k].name;
      }
      assert StripNodes(back.nodes) == f.nodes;
      assert StripNetworks(back.networks) == f.networks;
    }
  }

  /** Whatever a caller does to the added fields of data it has read, as long as
      links remain: written back, the file is what it was. */
  lemma {:induction false} AddedFieldsStay(f: Data, d: Data, topology: Option<seq<Entry>>, nodes: seq<NodeRec>,
                                           networks: seq<NetRec>)
    requires Stored(f) && ReadFile(f) == Read(d) && LinksOf(f) != []
    requires StripNodes(nodes) == StripNodes(d.nodes) && StripNetworks(networks) == StripNetworks(d.networks)
    ensures WriteFile(d.(topology := topology, nodes := nodes, networks := networks)) == f
  {
    WriterMakesIff(f);
    WriteReadWrite(f);
  }

  /** A caller that empties the links of data it has read must drop the topology
      first, as the services do: if it leaves it in, every convertible link is
      written back. */
  lemma {:induction false} EmptyingLinks(f: Data, d: Data)
    requires ReadFile(f) == Read(d)
    ensures WriteFile(d.(links := Some([]), topology := None)).links == Some([])
    ensures var kept := WriteFile(d.(links := Some([])));
      kept.links.Some? && Views(kept.links.value) == Views(Kept(LinksOf(f)))
  {
    ThereAndBack(LinksOf(f));
  }

  // ---------------------------------------------------------------------
  // The loops
  // ---------------------------------------------------------------------

  method DeriveTopology(links: seq<StoredLink>) returns (topology: seq<Entry>)
    ensures topology == Topology(links)
  {
    topology := [];
    for n := 0 to |links|
      invariant topology == Topology(links[..n])
    {
      assert links[..n + 1][..n] == links[..n];
      var e := EntryFor(links[n]);
      if e.None? {
        continue;
      }
      topology := topology + [e.value];
    }
    assert links[..|links|] == links;
  }

  method TopologyToLinks(topology: seq<Entry>) returns (links: seq<StoredLink>)
    ensures links == ToLinks(topology)
  {
    links := [];
    for n := 0 to |topology|
      invariant links == ToLinks(topology[..n])
    {
      assert topology[..n + 1][..n] == topology[..n];
      var l := LinkFor(n, topology[n]);
      if l.Some? {
        links := links + [l.value];
      }
    }
    assert topology[..|topology|] == topology;
  }

  /** One more end on a network; id 0 is not counted. */
  function Bumped(counts: map<int, nat>, e: Endpoint): map<int, nat> {
    if !RealNet(e) then counts
    else counts[e.id := (if e.id in counts then counts[e.id] else 0) + 1]
  }

  function CountIn(counts: map<int, nat>, id: int): nat {
    if id in counts then counts[id] else 0
  }

  lemma {:induction false} OneMoreLink(links: seq<StoredLink>, n: nat, id: int)
    requires n < |links|
    ensures DerivedCount(links[..n + 1], id) ==
      DerivedCount(links[..n], id) + (if id == 0 then 0 else Ends(links[n].link, Net(id)))
  {
    assert links[..n + 1][..n] == links[..n];
    assert Links(links[..n + 1]) == Links(links[..n]) + [links[n].link];
    CountAppend(Links(links[..n]), links[n].link, Net(id));
  }

  /** The number of ends on each network, by id. */
  method CountEnds(links: seq<StoredLink>) returns (counts: map<int, nat>)
    ensures forall id :: CountIn(counts, id) == DerivedCount(links, id)
  {
    counts := map[];
    for n := 0 to |links|
      invariant forall id :: CountIn(counts, id) == DerivedCount(links[..n], id)
    {
      ghost var before := counts;
      counts := Bumped(Bumped(counts, links[n].link.src), links[n].link.dst);
      forall id
        ensures CountIn(counts, id) == DerivedCount(links[..n + 1], id)
      {
        assert CountIn(before, id) == DerivedCount(links[..n], id);
        OneMoreLink(links, n, id);
      }
    }
    assert links[..|links|] == links;
  }

  /** `_derive_network_counts`. */
  method DeriveCounts(links: seq<StoredLink>, networks: seq<NetRec>) returns (r: seq<NetRec>)
    ensures r == CountNetworks(links, networks)
  {
    var counts := CountEnds(links);
    r := networks;
    for i := 0 to |networks|
      invariant |r| == |networks|
      invariant forall k :: i <= k < |r| ==> r[k] == networks[k]
      invariant forall k :: 0 <= k < i ==> r[k] == networks[k].(count := Some(DerivedCount(links, networks[k].id)))
    {
      assert CountIn(counts, networks[i].id) == DerivedCount(links, networks[i].id);
      r := r[i := networks[i].(count := Some(CountIn(counts, networks[i].id)))];
    }
  }

  /** Set the network of one interface, if the node has it. */
  function Wired(node: NodeRec, e: Endpoint, id: int): NodeRec {
    if e.Node? && e.node == node.id && 0 <= e.iface < |node.interfaces|
    then node.(interfaces := node.interfaces[e.iface := node.interfaces[e.iface].(networkId := Some(id))])
    else node
  }

  /** `_derive_legacy_interface_network_ids`, for one node. */
  method DeriveInterfaces(links: seq<StoredLink>, node: NodeRec) returns (r: NodeRec)
    ensures r == node.(interfaces := Ifaces(links, node))
  {
    r := node;
    for i := 0 to |node.interfaces|
      invariant r.id == node.id && r.name == node.name && |r.interfaces| == |node.interfaces|
      invariant forall k :: i <= k < |r.interfaces| ==> r.interfaces[k] == node.interfaces[k]
      invariant forall k :: 0 <= k < i ==> r.interfaces[k] == Iface(node.interfaces[k].name, Some(0))
    {
      r := r.(interfaces := r.interfaces[i := r.interfaces[i].(networkId := Some(0))]);
    }
    assert r.interfaces == Ifaces([], node);
    for n := 0 to |links|
      invariant r == node.(interfaces := Ifaces(links[..n], node))
    {
      assert links[..n + 1][..n] == links[..n];
      var l := links[n].link;
      var id := NetworkOf(l);
      if id != 0 {
        r := Wired(r, l.src, id);
        r := Wired(r, l.dst, id);
      }
      assert r.interfaces == Ifaces(links[..n + 1], node);
    }
    assert links[..|links|] == links;
  }
}
