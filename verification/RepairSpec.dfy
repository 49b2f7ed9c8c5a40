/** The repair of lab.json: drop interfaces wired twice, then implicit bridges
    that do not have two ends, until nothing changes. */
module RepairSpec {
  import opened Collections
  import opened Text
  import opened LabModel
  import opened LinkSpec

  // ---------------------------------------------------------------------
  // Filtering
  // ---------------------------------------------------------------------

  function Keep(links: seq<Link>, p: Link -> bool): (r: seq<Link>)
    ensures forall i :: 0 <= i < |r| ==> p(r[i])
  {
    if |links| == 0 then []
    else
      var last := links[|links| - 1];
      Keep(links[..|links| - 1], p) + (if p(last) then [last] else [])
  }

  lemma {:induction false} KeepCount(links: seq<Link>, p: Link -> bool, e: Endpoint)
    ensures Count(Keep(links, p), e) <= Count(links, e)
    ensures (forall i :: 0 <= i < |links| && Touches(links[i], e) ==> p(links[i])) ==>
      Count(Keep(links, p), e) == Count(links, e)
  {
    if |links| > 0 {
      var front, last := links[..|links| - 1], links[|links| - 1];
      KeepCount(front, p, e);
      assert forall i :: 0 <= i < |front| ==> front[i] == links[i];
      if p(last) {
        CountAppend(Keep(front, p), last, e);
      } else {
        assert Keep(front, p) + [] == Keep(front, p);
      }
    }
  }

  /** What is kept and what is dropped make up the whole. */
  lemma {:induction false} KeepSplits(links: seq<Link>, p: Link -> bool, q: Link -> bool)
    requires forall l :: q(l) == !p(l)
    ensures multiset(Keep(links, p)) + multiset(Keep(links, q)) == multiset(links)
  {
    if |links| > 0 {
      KeepSplits(links[..|links| - 1], p, q);
      assert links == links[..|links| - 1] + [links[|links| - 1]];
    }
  }

  lemma {:induction false} KeepAll(links: seq<Link>, p: Link -> bool)
    requires forall i :: 0 <= i < |links| ==> p(links[i])
    ensures Keep(links, p) == links
  {
    if |links| > 0 {
      KeepAll(links[..|links| - 1], p);
      assert links == links[..|links| - 1] + [links[|links| - 1]];
    }
  }

  lemma {:induction false} KeepTwice(links: seq<Link>, p: Link -> bool, q: Link -> bool, r: Link -> bool)
    requires forall l :: r(l) == (p(l) && q(l))
    ensures Keep(Keep(links, p), q) == Keep(links, r)
  {
    if |links| > 0 {
      var front, last := links[..|links| - 1], links[|links| - 1];
      KeepTwice(front, p, q, r);
      if p(last) {
        var kept := Keep(front, p);
        assert (kept + [last])[..|kept|] == kept;
      } else {
        assert Keep(front, p) + [] == Keep(front, p);
      }
    }
  }

  // ---------------------------------------------------------------------
  // Pass 1: interfaces wired twice
  // ---------------------------------------------------------------------

  const UNNUMBERED := 1000000000

  /** The number `lnk_<digits>` sorts by; any other id sorts late. */
  function SortNumber(id: string): nat {
    if HasPrefix(id, LINK_PREFIX) && AllDigits(id[|LINK_PREFIX|..])
    then Value(id[|LINK_PREFIX|..]) else UNNUMBERED
  }

  /** Strings in their usual order. */
  predicate TextLess(a: string, b: string) {
    |b| > 0 && (|a| == 0 || a[0] < b[0] || (a[0] == b[0] && TextLess(a[1..], b[1..])))
  }

  lemma {:induction false} TextLessTotal(a: string, b: string)
    ensures TextLess(a, b) || TextLess(b, a) || a == b
  {
    if |a| > 0 && |b| > 0 && a[0] == b[0] {
      TextLessTotal(a[1..], b[1..]);
      assert a == [a[0]] + a[1..] && b == [b[0]] + b[1..];
    }
  }

  lemma {:induction false} TextLessTransitive(a: string, b: string, c: string)
    requires TextLess(a, b) && TextLess(b, c)
    ensures TextLess(a, c)
  {
    if |a| > 0 && a[0] == b[0] && b[0] == c[0] {
      TextLessTransitive(a[1..], b[1..], c[1..]);
    }
  }

  /** The order of `_link_id_sort_key`. */
  predicate Older(a: Link, b: Link) {
    || SortNumber(a.id) < SortNumber(b.id)
    || (SortNumber(a.id) == SortNumber(b.id) && TextLess(a.id, b.id))
  }

  lemma {:induction false} OlderTransitive(a: Link, b: Link, c: Link)
    requires !Older(b, a) && !Older(c, b)
    ensures !Older(c, a)
  {
    if SortNumber(a.id) == SortNumber(b.id) == SortNumber(c.id) {
      TextLessTotal(a.id, b.id);
      TextLessTotal(b.id, c.id);
      TextLessTotal(a.id, c.id);
      if TextLess(a.id, b.id) && TextLess(b.id, c.id) {
        TextLessTransitive(a.id, b.id, c.id);
      }
      if TextLess(c.id, a.id) && TextLess(a.id, b.id) {
        TextLessTransitive(c.id, a.id, b.id);
      }
    }
  }

  function Repeat(link: Link, n: nat): seq<Link> {
    if n == 0 then [] else [link] + Repeat(link, n - 1)
  }

  /** `by_iface[e]`: the links that use an interface, once for every end. */
  function Group(links: seq<Link>, e: Endpoint): (g: seq<Link>)
    ensures |g| == Count(links, e)
  {
    if |links| == 0 then []
    else
      var last := links[|links| - 1];
      assert Repeat(last, 1) == [last] + Repeat(last, 0);
      assert Repeat(last, 2) == [last] + Repeat(last, 1);
      Group(links[..|links| - 1], e) + Repeat(last, Ends(last, e))
  }

  /** Position of the first newest link of a group. */
  function Newest(group: seq<Link>): (m: nat)
    requires |group| > 0
    ensures m < |group|
  {
    if |group| == 1 then 0
    else
      var m := Newest(group[..|group| - 1]);
      if Older(group[m], group[|group| - 1]) then |group| - 1 else m
  }

  lemma {:induction false} NewestIsNewest(group: seq<Link>)
    requires |group| > 0
    ensures forall i :: 0 <= i < |group| ==> !Older(group[Newest(group)], group[i])
  {
    if |group| == 1 {
      OlderIrreflexive(group[0]);
    } else {
      var front, last := group[..|group| - 1], group[|group| - 1];
      NewestIsNewest(front);
      var m := Newest(front);
      OlderIrreflexive(last);
      if Older(front[m], last) {
        OlderAsymmetric(front[m], last);
        forall i | 0 <= i < |front|
          ensures !Older(last, group[i])
        {
          assert !Older(front[m], front[i]);
          OlderTransitive(front[i], front[m], last);
        }
      }
    }
  }

  lemma {:induction false} TextLessIrreflexive(a: string)
    ensures !TextLess(a, a)
  {
    if |a| > 0 {
      TextLessIrreflexive(a[1..]);
    }
  }

  lemma {:induction false} OlderIrreflexive(a: Link)
    ensures !Older(a, a)
  {
    TextLessIrreflexive(a.id);
  }

  lemma {:induction false} OlderAsymmetric(a: Link, b: Link)
    requires Older(a, b)
    ensures !Older(b, a)
  {
    if TextLess(a.id, b.id) && TextLess(b.id, a.id) {
      TextLessTransitive(a.id, b.id, a.id);
      TextLessIrreflexive(a.id);
    }
  }

  /** The id is carried by a link of the group other than the one kept. */
  ghost predicate StaleIn(links: seq<Link>, e: Endpoint, id: string) {
    var group := Group(links, e);
    e.Node? && |group| > 1 && exists i :: 0 <= i < |group| && i != Newest(group) && group[i].id == id
  }

  ghost predicate Dropped(links: seq<Link>, id: string) {
    exists e :: StaleIn(links, e, id)
  }

  ghost function Fresh(links: seq<Link>): Link -> bool {
    (l: Link) => !Dropped(links, l.id)
  }

  ghost function Stale(links: seq<Link>): Link -> bool {
    (l: Link) => Dropped(links, l.id)
  }

  /** The links pass 1 keeps. */
  ghost function Deduplicated(links: seq<Link>): seq<Link> {
    Keep(links, Fresh(links))
  }

  /** Filtering the list filters each of its groups. */
  lemma {:induction false} GroupOfKept(links: seq<Link>, p: Link -> bool, e: Endpoint)
    ensures Group(Keep(links, p), e) == Keep(Group(links, e), p)
  {
    if |links| > 0 {
      var front, last := links[..|links| - 1], links[|links| - 1];
      GroupOfKept(front, p, e);
      KeepConcat(Group(front, e), Repeat(last, Ends(last, e)), p);
      KeepRepeat(last, Ends(last, e), p);
      if p(last) {
        assert (Keep(front, p) + [last])[..|Keep(front, p)|] == Keep(front, p);
      } else {
        assert Keep(front, p) + [] == Keep(front, p);
      }
    }
  }

  lemma {:induction false} KeepConcat(a: seq<Link>, b: seq<Link>, p: Link -> bool)
    ensures Keep(a + b, p) == Keep(a, p) + Keep(b, p)
  {
    if |b| == 0 {
      assert a + b == a;
    } else {
      assert (a + b)[..|a + b| - 1] == a + b[..|b| - 1];
      KeepConcat(a, b[..|b| - 1], p);
    }
  }

  lemma {:induction false} RepeatEach(link: Link, n: nat)
    ensures |Repeat(link, n)| == n && forall i :: 0 <= i < n ==> Repeat(link, n)[i] == link
  {
    if n > 0 {
      RepeatEach(link, n - 1);
    }
  }

  lemma {:induction false} KeepNone(links: seq<Link>, p: Link -> bool)
    requires forall i :: 0 <= i < |links| ==> !p(links[i])
    ensures Keep(links, p) == []
  {
    if |links| > 0 {
      KeepNone(links[..|links| - 1], p);
    }
  }

  lemma {:induction false} KeepRepeat(link: Link, n: nat, p: Link -> bool)
    ensures Keep(Repeat(link, n), p) == if p(link) then Repeat(link, n) else []
  {
    RepeatEach(link, n);
    if p(link) {
      KeepAll(Repeat(link, n), p);
    } else {
      KeepNone(Repeat(link, n), p);
    }
  }

  /** A list of which only position `m` may be kept keeps at most one. */
  lemma {:induction false} KeepAtMostOne(group: seq<Link>, p: Link -> bool, m: nat)
    requires forall i :: 0 <= i < |group| && i != m ==> !p(group[i])
    ensures |Keep(group, p)| <= 1
    ensures |Keep(group, p)| == 1 ==> m < |group| && Keep(group, p)[0] == group[m]
    ensures m >= |group| ==> Keep(group, p) == []
  {
    if |group| > 0 {
      KeepAtMostOne(group[..|group| - 1], p, m);
    }
  }

  /** Pass 1 leaves every interface with at most one link end, and the one it
      leaves is on a newest link of those that used the interface. */
  lemma {:induction false} DeduplicatedOnePerInterface(links: seq<Link>, e: Endpoint)
    requires e.Node?
    ensures Count(Deduplicated(links), e) <= 1
    ensures Count(Deduplicated(links), e) == 1 ==>
      var kept := Group(Deduplicated(links), e)[0];
      forall i :: 0 <= i < |Group(links, e)| ==> !Older(kept, Group(links, e)[i])
  {
    var p := Fresh(links);
    var group := Group(links, e);
    GroupOfKept(links, p, e);
    if |group| > 0 {
      NewestIsNewest(group);
      forall i | 0 <= i < |group| && i != Newest(group)
        ensures !p(group[i])
      {
        assert StaleIn(links, e, group[i].id);
      }
      KeepAtMostOne(group, p, Newest(group));
    }
  }

  /** A file without doubly wired interfaces passes through unchanged. */
  lemma {:induction false} DeduplicatedIdentity(links: seq<Link>)
    requires OneLinkPerInterface(links)
    ensures Deduplicated(links) == links
  {
    forall id: string
      ensures !Dropped(links, id)
    {
      forall e: Endpoint
        ensures !StaleIn(links, e, id)
      {
        if e.Node? {
          assert Count(links, Node(e.node, e.iface)) <= 1;
        }
      }
    }
    KeepAll(links, Fresh(links));
  }

  // ---------------------------------------------------------------------
  // Pass 2: implicit bridges without two ends
  // ---------------------------------------------------------------------

  datatype Work = Work(links: seq<Link>, networks: map<int, Network>,
                       removedLinks: seq<Link>, removedNetworks: seq<Network>)

  predicate Orphan(w: Work, id: int) {
    IsImplicit(w.networks, id) && Refcount(w.links, id) != 2
  }

  function On(id: int): Link -> bool {
    (l: Link) => Touches(l, Net(id))
  }

  function Off(id: int): Link -> bool {
    (l: Link) => !Touches(l, Net(id))
  }

  function Sweep(w: Work, id: int): Work {
    if Orphan(w, id) then
      Work(Keep(w.links, Off(id)), Without(w.networks, id),
           w.removedLinks + Keep(w.links, On(id)),
           w.removedNetworks + [w.networks[id]])
    else w
  }

  /** One pass over the networks in the order of the file. */
  function SweepAll(w: Work, order: seq<int>): Work {
    if |order| == 0 then w
    else Sweep(SweepAll(w, order[..|order| - 1]), order[|order| - 1])
  }

  lemma {:induction false} SweepAllShrinks(w: Work, order: seq<int>)
    ensures SweepAll(w, order).networks.Keys <= w.networks.Keys
    ensures SweepAll(w, order).networks.Keys == w.networks.Keys ==> SweepAll(w, order) == w
  {
    if |order| > 0 {
      SweepAllShrinks(w, order[..|order| - 1]);
    }
  }

  lemma {:induction false} FewerKeys(a: map<int, Network>, b: map<int, Network>)
    requires a.Keys < b.Keys
    ensures |a| < |b|
  {
    var extra := Pick(b.Keys - a.Keys);
    assert a.Keys <= b.Keys - {extra};
    SubsetSize(a.Keys, b.Keys - {extra});
  }

  /** Passes until one changes nothing. */
  function Settle(w: Work, order: seq<int>): Work
    decreases |w.networks|
  {
    var next := SweepAll(w, order);
    if next.networks.Keys == w.networks.Keys then next
    else
      SweepAllShrinks(w, order);
      FewerKeys(next.networks, w.networks);
      Settle(next, order)
  }

  predicate Covers(order: seq<int>, networks: map<int, Network>) {
    forall id :: id in networks ==> id in order
  }

  ghost predicate NoOrphans(w: Work) {
    forall id :: !Orphan(w, id)
  }

  /** A pass that changes nothing found no orphan among the networks it visited. */
  lemma {:induction false} QuietPass(w: Work, order: seq<int>)
    requires SweepAll(w, order).networks.Keys == w.networks.Keys
    ensures forall k :: 0 <= k < |order| ==> !Orphan(w, order[k])
  {
    if |order| > 0 {
      var front := order[..|order| - 1];
      SweepAllShrinks(w, front);
      SweepAllShrinks(w, order);
      QuietPass(w, front);
      assert forall k :: 0 <= k < |front| ==> order[k] == front[k];
    }
  }

  /** When the loop stops every implicit network has exactly two ends. */
  lemma {:induction false} SettleLeavesNoOrphans(w: Work, order: seq<int>)
    requires Covers(order, w.networks)
    ensures NoOrphans(Settle(w, order))
    decreases |w.networks|
  {
    var next := SweepAll(w, order);
    SweepAllShrinks(w, order);
    if next.networks.Keys == w.networks.Keys {
      QuietPass(w, order);
      forall id: int
        ensures !Orphan(next, id)
      {
        if id in w.networks {
          var k :| 0 <= k < |order| && order[k] == id;
        }
      }
    } else {
      FewerKeys(next.networks, w.networks);
      SettleLeavesNoOrphans(next, order);
    }
  }

  /** Links kept and links removed, together, never change. */
  ghost function AllLinks(w: Work): multiset<Link> {
    multiset(w.links) + multiset(w.removedLinks)
  }

  lemma {:induction false} SweepConserves(w: Work, id: int)
    ensures AllLinks(Sweep(w, id)) == AllLinks(w)
    ensures forall e :: Count(Sweep(w, id).links, e) <= Count(w.links, e)
    ensures |Sweep(w, id).networks| + |Sweep(w, id).removedNetworks| == |w.networks| + |w.removedNetworks|
  {
    if Orphan(w, id) {
      KeepSplits(w.links, Off(id), On(id));
      forall e: Endpoint
        ensures Count(Keep(w.links, Off(id)), e) <= Count(w.links, e)
      {
        KeepCount(w.links, Off(id), e);
      }
      WithoutSize(w.networks, id);
    }
  }

  lemma {:induction false} WithoutSize(m: map<int, Network>, id: int)
    requires id in m
    ensures |Without(m, id)| == |m| - 1
  {
    assert Without(m, id).Keys == m.Keys - {id};
  }

  lemma {:induction false} SweepAllConserves(w: Work, order: seq<int>)
    ensures AllLinks(SweepAll(w, order)) == AllLinks(w)
    ensures forall e :: Count(SweepAll(w, order).links, e) <= Count(w.links, e)
    ensures |SweepAll(w, order).networks| + |SweepAll(w, order).removedNetworks|
         == |w.networks| + |w.removedNetworks|
  {
    if |order| > 0 {
      SweepAllConserves(w, order[..|order| - 1]);
      SweepConserves(SweepAll(w, order[..|order| - 1]), order[|order| - 1]);
    }
  }

  lemma {:induction false} SettleConserves(w: Work, order: seq<int>)
    ensures AllLinks(Settle(w, order)) == AllLinks(w)
    ensures forall e :: Count(Settle(w, order).links, e) <= Count(w.links, e)
    ensures |Settle(w, order).networks| + |Settle(w, order).removedNetworks|
         == |w.networks| + |w.removedNetworks|
    decreases |w.networks|
  {
    var next := SweepAll(w, order);
    SweepAllConserves(w, order);
    if next.networks.Keys != w.networks.Keys {
      SweepAllShrinks(w, order);
      FewerKeys(next.networks, w.networks);
      SettleConserves(next, order);
    }
  }

  /** The loop does nothing to a file without orphans. */
  lemma {:induction false} SweepAllIdle(w: Work, order: seq<int>)
    requires NoOrphans(w)
    ensures SweepAll(w, order) == w
  {
    if |order| > 0 {
      SweepAllIdle(w, order[..|order| - 1]);
    }
  }

  // ---------------------------------------------------------------------
  // The whole repair
  // ---------------------------------------------------------------------

  ghost function Start(lab: Lab): Work {
    Work(Deduplicated(lab.links), lab.networks, Keep(lab.links, Stale(lab.links)), [])
  }

  ghost function Repair(lab: Lab, order: seq<int>): Work {
    Settle(Start(lab), order)
  }

  ghost predicate Sound(lab: Lab) {
    && OneLinkPerInterface(lab.links)
    && forall id :: IsImplicit(lab.networks, id) ==> Refcount(lab.links, id) == 2
  }

  lemma {:induction false} StartConserves(lab: Lab)
    ensures AllLinks(Start(lab)) == multiset(lab.links)
    ensures OneLinkPerInterface(Start(lab).links)
  {
    KeepSplits(lab.links, Fresh(lab.links), Stale(lab.links));
    forall node: int, iface: int
      ensures Count(Deduplicated(lab.links), Node(node, iface)) <= 1
    {
      DeduplicatedOnePerInterface(lab.links, Node(node, iface));
    }
  }

  lemma {:induction false} NoOrphansMeans(w: Work)
    requires NoOrphans(w)
    ensures forall id :: IsImplicit(w.networks, id) ==> Refcount(w.links, id) == 2
  {
    forall id | IsImplicit(w.networks, id)
      ensures Refcount(w.links, id) == 2
    {
      assert !Orphan(w, id);
    }
  }

  /** Whatever the file: afterwards no interface is wired twice and every
      implicit network has two ends, and nothing was lost on the way. */
  lemma {:induction false} RepairIsSound(lab: Lab, order: seq<int>)
    requires Covers(order, lab.networks)
    ensures var w := Repair(lab, order);
      && Sound(Lab(w.networks, w.links))
      && multiset(w.links) + multiset(w.removedLinks) == multiset(lab.links)
      && |w.networks| + |w.removedNetworks| == |lab.networks|
  {
    var w := Start(lab);
    StartConserves(lab);
    SettleLeavesNoOrphans(w, order);
    SettleConserves(w, order);
    NoOrphansMeans(Repair(lab, order));
    forall node: int, iface: int
      ensures Count(Repair(lab, order).links, Node(node, iface)) <= 1
    {
      assert Count(w.links, Node(node, iface)) <= 1;
    }
  }

  /** A sound file is left alone, to the last record. */
  lemma {:induction false} RepairIdentity(lab: Lab, order: seq<int>)
    requires Sound(lab)
    ensures Repair(lab, order) == Work(lab.links, lab.networks, [], [])
  {
    DeduplicatedIdentity(lab.links);
    var w := Start(lab);
    KeepSplits(lab.links, Fresh(lab.links), Stale(lab.links));

    assert |multiset(w.removedLinks)| == 0;
    SweepAllIdle(w, order);
  }

  /** Repairing twice is repairing once. */
  lemma {:induction false} RepairIdempotent(lab: Lab, order: seq<int>, again: seq<int>)
    requires Covers(order, lab.networks)
    ensures var once := Repair(lab, order);
      Repair(Lab(once.networks, once.links), again) == Work(once.links, once.networks, [], [])
  {
    RepairIsSound(lab, order);
    var once := Repair(lab, order);
    RepairIdentity(Lab(once.networks, once.links), again);
  }

  /** Every state the services can reach is left alone. */
  lemma {:induction false} RepairKeepsReachable(lab: Lab, order: seq<int>)
    requires Inv(lab)
    ensures Repair(lab, order) == Work(lab.links, lab.networks, [], [])
  {
    forall id | IsImplicit(lab.networks, id)
      ensures Refcount(lab.links, id) == 2
    {
      RefcountIsCount(lab.links, id);
    }
    RepairIdentity(lab, order);
  }

  // ---------------------------------------------------------------------
  // The loop as a removal of networks
  // ---------------------------------------------------------------------

  predicate OnAny(link: Link, ids: set<int>) {
    (link.src.Net? && link.src.id in ids) || (link.dst.Net? && link.dst.id in ids)
  }

  function OffAll(ids: set<int>): Link -> bool {
    (l: Link) => !OnAny(l, ids)
  }

  ghost function OrphansOf(w: Work): set<int> {
    set id | id in w.networks && Orphan(w, id)
  }

  /** `w` is `start` with the networks `gone` and the links on them removed. */
  ghost predicate Minus(w: Work, start: Work, gone: set<int>) {
    && w.links == Keep(start.links, OffAll(gone))
    && w.networks == start.networks - gone
    && forall id :: id in gone ==> IsImplicit(start.networks, id)
  }

  lemma {:induction false} MinusNothing(start: Work)
    ensures Minus(start, start, {})
  {
    KeepAll(start.links, OffAll({}));
  }

  /** Taking networks out never adds ends to another, and takes none from one
      that shares no link with them. */
  lemma {:induction false} CountFalls(w: Work, start: Work, gone: set<int>, id: int)
    requires Minus(w, start, gone) && id != 0
    ensures Refcount(w.links, id) <= Refcount(start.links, id)
    ensures (forall i :: 0 <= i < |start.links| && Touches(start.links[i], Net(id)) ==> !OnAny(start.links[i], gone)) ==>
      Refcount(w.links, id) == Refcount(start.links, id)
  {
    KeepCount(start.links, OffAll(gone), Net(id));
    RefcountIsCount(start.links, id);
    RefcountIsCount(w.links, id);
  }

  /** Removing more leaves no more ends. */
  lemma {:induction false} MoreGone(w: Work, more: Work, start: Work, gone: set<int>, all: set<int>)
    requires Minus(w, start, gone) && Minus(more, start, all) && gone <= all
    ensures Minus(more, w, all - gone)
  {
    KeepTwice(start.links, OffAll(gone), OffAll(all - gone), OffAll(all));
    assert more.networks == w.networks - (all - gone);
  }

  lemma {:induction false} SweepMinus(w: Work, start: Work, gone: set<int>, id: int)
    requires Minus(w, start, gone) && Orphan(w, id)
    ensures id !in gone && Minus(Sweep(w, id), start, gone + {id})
  {
    KeepTwice(start.links, OffAll(gone), Off(id), OffAll(gone + {id}));
    assert start.networks - (gone + {id}) == Without(start.networks - gone, id);
  }

  /** As long as the orphans met are among `bound`, so is everything removed. */
  ghost predicate Bounded(start: Work, bound: set<int>) {
    forall w, gone, id :: Minus(w, start, gone) && gone <= bound && Orphan(w, id) ==> id in bound
  }

  lemma {:induction false} SweepAllMinus(w: Work, start: Work, gone: set<int>, bound: set<int>, order: seq<int>)
      returns (all: set<int>)
    requires Minus(w, start, gone) && gone <= bound && Bounded(start, bound)
    ensures gone <= all <= bound && Minus(SweepAll(w, order), start, all)
  {
    all := gone;
    if |order| > 0 {
      all := SweepAllMinus(w, start, gone, bound, order[..|order| - 1]);
      var next, id := SweepAll(w, order[..|order| - 1]), order[|order| - 1];
      if Orphan(next, id) {
        SweepMinus(next, start, all, id);
        all := all + {id};
      }
    }
  }

  lemma {:induction false} SettleMinus(w: Work, start: Work, gone: set<int>, bound: set<int>, order: seq<int>)
      returns (all: set<int>)
    requires Minus(w, start, gone) && gone <= bound && Bounded(start, bound)
    ensures gone <= all <= bound && Minus(Settle(w, order), start, all)
    decreases |w.networks|
  {
    all := SweepAllMinus(w, start, gone, bound, order);
    var next := SweepAll(w, order);
    if next.networks.Keys != w.networks.Keys {
      SweepAllShrinks(w, order);
      FewerKeys(next.networks, w.networks);
      all := SettleMinus(next, start, all, bound, order);
    }
  }

  /** Whatever the order, the loop takes some implicit networks out, with the
      links on them, and does nothing else. */
  lemma {:induction false} SettleRemoves(start: Work, order: seq<int>) returns (all: set<int>)
    ensures Minus(Settle(start, order), start, all)
  {
    MinusNothing(start);
    var bound := start.networks.Keys;
    all := SettleMinus(start, start, {}, bound, order);
  }

  // ---------------------------------------------------------------------
  // The invariant again
  // ---------------------------------------------------------------------

  /** A filter keeps links of the list, in order. */
  lemma {:induction false} KeepFrom(links: seq<Link>, p: Link -> bool, i: nat) returns (k: nat)
    requires i < |Keep(links, p)|
    ensures k < |links| && Keep(links, p)[i] == links[k]
  {
    var n := |links| - 1;
    if i < |Keep(links[..n], p)| {
      k := KeepFrom(links[..n], p, i);
    } else {
      k := n;
    }
  }

  lemma {:induction false} KeepDistinct(links: seq<Link>, p: Link -> bool)
    requires DistinctIds(links)
    ensures DistinctIds(Keep(links, p))
  {
    if links != [] {
      var n := |links| - 1;
      var kept := Keep(links[..n], p);
      KeepDistinct(links[..n], p);
      forall i | 0 <= i < |kept|
        ensures kept[i].id != links[n].id
      {
        var k := KeepFrom(links[..n], p, i);
      }
    }
  }

  /** The clauses of the invariant that do not count ends. */
  ghost predicate Framed(lab: Lab) {
    PositiveIds(lab.networks) && DistinctIds(lab.links) && NoDangling(lab) && BridgesJoinOrdinary(lab)
  }

  lemma {:induction false} FramedKept(lab: Lab, p: Link -> bool)
    requires Framed(lab)
    ensures Framed(Lab(lab.networks, Keep(lab.links, p)))
  {
    var kept := Keep(lab.links, p);
    KeepDistinct(lab.links, p);
    forall i | 0 <= i < |kept|
      ensures EndExists(lab.networks, kept[i].src) && EndExists(lab.networks, kept[i].dst)
      ensures BridgesExplicit(lab.networks, kept[i])
    {
      var k := KeepFrom(lab.links, p, i);
      assert EndExists(lab.networks, lab.links[k].src) && BridgesExplicit(lab.networks, lab.links[k]);
    }
  }

  /** Networks may leave together with the links on them. */
  lemma {:induction false} FramedMinus(w: Work, start: Work, gone: set<int>)
    requires Framed(Lab(start.networks, start.links)) && Minus(w, start, gone)
    ensures Framed(Lab(w.networks, w.links))
  {
    FramedKept(Lab(start.networks, start.links), OffAll(gone));
    forall i | 0 <= i < |w.links|
      ensures EndExists(w.networks, w.links[i].src) && EndExists(w.networks, w.links[i].dst)
      ensures BridgesExplicit(w.networks, w.links[i])
    {
      assert !OnAny(w.links[i], gone);
      assert EndExists(start.networks, w.links[i].src) && EndExists(start.networks, w.links[i].dst);
      assert BridgesExplicit(start.networks, w.links[i]);
    }
  }

  /** Repair re-establishes the whole invariant from a file that meets the clauses
      of it that do not count ends. */
  lemma {:induction false} RepairRestoresInv(lab: Lab, order: seq<int>)
    requires Covers(order, lab.networks) && Framed(lab)
    ensures var w := Repair(lab, order); Inv(Lab(w.networks, w.links))
  {
    var start, w := Start(lab), Repair(lab, order);
    FramedKept(lab, Fresh(lab.links));
    var gone := SettleRemoves(start, order);
    FramedMinus(w, start, gone);
    RepairIsSound(lab, order);
    forall id | IsImplicit(w.networks, id)
      ensures Count(w.links, Net(id)) == 2
    {
      RefcountIsCount(w.links, id);
    }
  }

  /** Whatever links are taken from a file that meets the invariant, as deleting a
      node does, repair then gives one that meets it. */
  lemma {:induction false} DropThenRepair(lab: Lab, p: Link -> bool, order: seq<int>)
    requires Inv(lab) && Covers(order, lab.networks)
    ensures var w := Repair(Lab(lab.networks, Keep(lab.links, p)), order); Inv(Lab(w.networks, w.links))
  {
    FramedKept(lab, p);
    RepairRestoresInv(Lab(lab.networks, Keep(lab.links, p)), order);
  }

  // ---------------------------------------------------------------------
  // Whether the order matters
  // ---------------------------------------------------------------------

  ghost predicate Differ(start: Work, a: seq<int>, b: seq<int>) {
    && Covers(a, start.networks) && Covers(b, start.networks)
    && Settle(start, a).networks.Keys != Settle(start, b).networks.Keys
  }

  /** Two orders of the same networks leave different files. */
  ghost predicate DependsOnOrder(start: Work) {
    exists a, b :: Differ(start, a, b)
  }

  /** An order in which an orphan of the start is still there at the end. */
  ghost predicate Spares(start: Work, order: seq<int>, id: int) {
    Covers(order, start.networks) && id in OrphansOf(start) && id in Settle(start, order).networks
  }

  lemma {:induction false} SweepAllSplit(w: Work, a: seq<int>, b: seq<int>)
    ensures SweepAll(w, a + b) == SweepAll(SweepAll(w, a), b)
    decreases |b|
  {
    if b == [] {
      assert a + b == a;
    } else {
      assert (a + b)[..|a + b| - 1] == a + b[..|b| - 1];
      SweepAllSplit(w, a, b[..|b| - 1]);
    }
  }

  lemma {:induction false} SettleShrinks(w: Work, order: seq<int>)
    ensures Settle(w, order).networks.Keys <= SweepAll(w, order).networks.Keys <= w.networks.Keys
    decreases |w.networks|
  {
    var next := SweepAll(w, order);
    SweepAllShrinks(w, order);
    if next.networks.Keys != w.networks.Keys {
      FewerKeys(next.networks, w.networks);
      SettleShrinks(next, order);
    }
  }

  /** An orphan visited first is removed. */
  lemma {:induction false} FirstGoes(start: Work, id: int, order: seq<int>)
    requires id in OrphansOf(start)
    ensures id !in Settle(start, [id] + order).networks
  {
    SweepAllSplit(start, [id], order);
    assert [id][..0] == [];
    assert SweepAll(start, [id]) == Sweep(SweepAll(start, []), id);
    SweepAllShrinks(Sweep(start, id), order);
    SettleShrinks(start, [id] + order);
  }

  /** When an order has removed every orphan of the start, no other order can
      remove more than it did. */
  lemma {:induction false} BoundedByFinal(start: Work, order: seq<int>, all: set<int>)
    requires Covers(order, start.networks) && 0 !in start.networks
    requires Minus(Settle(start, order), start, all) && OrphansOf(start) <= all
    ensures Bounded(start, all)
  {
    var done := Settle(start, order);
    SettleLeavesNoOrphans(start, order);
    forall w, gone, id | Minus(w, start, gone) && gone <= all && Orphan(w, id)
      ensures id in all
    {
      if id !in all {
        assert id !in OrphansOf(start) && id in start.networks;
        CountFalls(w, start, gone, id);
        MoreGone(w, done, start, gone, all);
        CountFalls(done, w, all - gone, id);
        assert Orphan(done, id);
      }
    }
  }

  lemma {:induction false} SameRemoved(start: Work, a: seq<int>, b: seq<int>)
    requires Covers(a, start.networks) && Covers(b, start.networks) && 0 !in start.networks
    requires forall order, id :: !Spares(start, order, id)
    ensures Settle(start, b).networks.Keys >= Settle(start, a).networks.Keys
  {
    var all := SettleRemoves(start, a);
    forall id | id in OrphansOf(start)
      ensures id in all
    {
      assert !Spares(start, a, id);
    }
    BoundedByFinal(start, a, all);
    MinusNothing(start);
    var other := SettleMinus(start, start, {}, all, b);
  }

  /** The result depends on the order of the networks exactly when some order
      spares an orphan of the start: a network that had too many ends and is left
      with two. */
  lemma {:induction false} DependsIffSpares(start: Work)
    requires 0 !in start.networks
    ensures DependsOnOrder(start) <==> exists order, id :: Spares(start, order, id)
  {
    if order, id :| Spares(start, order, id) {
      FirstGoes(start, id, order);
      assert Covers([id] + order, start.networks) by {
        assert forall n :: n in order ==> n in [id] + order;
      }
      assert Differ(start, order, [id] + order);
    } else if DependsOnOrder(start) {
      var a, b :| Differ(start, a, b);
      SameRemoved(start, a, b);
      SameRemoved(start, b, a);
      assert false;
    }
  }

  // ---------------------------------------------------------------------
  // Exact conditions
  // ---------------------------------------------------------------------

  predicate Surplus(w: Work, id: int) {
    IsImplicit(w.networks, id) && Refcount(w.links, id) > 2
  }

  predicate Deficient(w: Work, id: int) {
    IsImplicit(w.networks, id) && Refcount(w.links, id) < 2
  }

  /** The link joins two different networks. */
  predicate Joins(link: Link, a: int, b: int) {
    a != b && ((link.src == Net(a) && link.dst == Net(b)) || (link.src == Net(b) && link.dst == Net(a)))
  }

  /** No network with too many ends is joined to another implicit one. */
  ghost predicate Calm(w: Work) {
    forall i, a, b :: 0 <= i < |w.links| && Joins(w.links[i], a, b) && Surplus(w, a) ==> !IsImplicit(w.networks, b)
  }

  /** In a calm file a network with too many ends keeps them until it goes. */
  lemma {:induction false} SurplusStays(w: Work, start: Work, gone: set<int>, id: int)
    requires Calm(start) && Minus(w, start, gone) && Surplus(start, id) && id !in gone && id != 0
    ensures Refcount(w.links, id) == Refcount(start.links, id)
  {
    forall i | 0 <= i < |start.links| && Touches(start.links[i], Net(id))
      ensures !OnAny(start.links[i], gone)
    {
      var l := start.links[i];
      if OnAny(l, gone) {
        var other := if l.src.Net? && l.src.id in gone then l.src.id else l.dst.id;
        assert Joins(l, id, other);
      }
    }
    CountFalls(w, start, gone, id);
  }

  /** In a calm file no order spares an orphan. */
  lemma {:induction false} CalmSparesNone(start: Work, order: seq<int>, all: set<int>)
    requires Covers(order, start.networks) && 0 !in start.networks && Calm(start)
    requires Minus(Settle(start, order), start, all)
    ensures OrphansOf(start) <= all
  {
    var done := Settle(start, order);
    SettleLeavesNoOrphans(start, order);
    forall id | id in OrphansOf(start)
      ensures id in all
    {
      assert !Orphan(done, id);
      if id !in all {
        CountFalls(done, start, all, id);
        if Surplus(start, id) {
          SurplusStays(done, start, all, id);
        }
      }
    }
  }

  /** No orphan is joined to an implicit network that has its two ends. */
  ghost predicate NoCascade(start: Work) {
    forall i, a, b :: 0 <= i < |start.links| && Joins(start.links[i], a, b) && Orphan(start, a) ==>
      !IsImplicit(start.networks, b) || Orphan(start, b)
  }

  lemma {:induction false} BoundedByOrphans(start: Work)
    requires 0 !in start.networks && NoCascade(start)
    ensures Bounded(start, OrphansOf(start))
  {
    var bound := OrphansOf(start);
    forall w, gone, id | Minus(w, start, gone) && gone <= bound && Orphan(w, id)
      ensures id in bound
    {
      if id !in bound {
        forall i | 0 <= i < |start.links| && Touches(start.links[i], Net(id))
          ensures !OnAny(start.links[i], gone)
        {
          var l := start.links[i];
          if OnAny(l, gone) {
            var other := if l.src.Net? && l.src.id in gone then l.src.id else l.dst.id;
            assert Joins(l, other, id);
          }
        }
        CountFalls(w, start, gone, id);
      }
    }
  }

  /** A filter that drops a link of an endpoint drops an end. */
  lemma {:induction false} KeepDrops(links: seq<Link>, p: Link -> bool, e: Endpoint, i: nat)
    requires i < |links| && Touches(links[i], e) && !p(links[i])
    ensures Count(Keep(links, p), e) < Count(links, e)
  {
    var n := |links| - 1;
    var front, last := links[..n], links[n];
    if i < n {
      KeepDrops(front, p, e, i);
    } else {
      KeepCount(front, p, e);
    }
    KeepLast(links, p, e);
  }

  /** The last link counts if it is kept. */
  lemma {:induction false} KeepLast(links: seq<Link>, p: Link -> bool, e: Endpoint)
    requires links != []
    ensures var n := |links| - 1;
      Count(Keep(links, p), e) == Count(Keep(links[..n], p), e) + (if p(links[n]) then Ends(links[n], e) else 0)
  {
    var n := |links| - 1;
    var kept := Keep(links[..n], p);
    CountAppend(kept, links[n], e);
    assert kept + [] == kept;
  }

  /** When no network with too many ends is joined to another implicit one, the
      loop is one filter by the counts it starts from, whatever the order,
      exactly when no orphan is joined to an implicit network with two ends. */
  lemma {:induction false} SettleIsOneFilterIff(start: Work, order: seq<int>)
    requires Covers(order, start.networks) && 0 !in start.networks && Calm(start)
    ensures Minus(Settle(start, order), start, OrphansOf(start)) <==> NoCascade(start)
  {
    var done := Settle(start, order);
    if NoCascade(start) {
      BoundedByOrphans(start);
      MinusNothing(start);
      var all := SettleMinus(start, start, {}, OrphansOf(start), order);
      CalmSparesNone(start, order, all);
      assert all == OrphansOf(start);
    } else if Minus(done, start, OrphansOf(start)) {
      SettleLeavesNoOrphans(start, order);
      var i, a, b :| 0 <= i < |start.links| && Joins(start.links[i], a, b) && Orphan(start, a)
        && IsImplicit(start.networks, b) && !Orphan(start, b);
      KeepDrops(start.links, OffAll(OrphansOf(start)), Net(b), i);
      RefcountIsCount(start.links, b);
      RefcountIsCount(done.links, b);
      assert Orphan(done, b);
    }
  }

  /** No link joins two different implicit networks. */
  ghost predicate NoBridgePair(start: Work) {
    forall i, a, b :: 0 <= i < |start.links| && Joins(start.links[i], a, b) ==>
      !(IsImplicit(start.networks, a) && IsImplicit(start.networks, b))
  }

  /** In particular when no link joins two implicit networks. */
  lemma {:induction false} SettleIsOneFilter(start: Work, order: seq<int>)
    requires Covers(order, start.networks) && 0 !in start.networks && NoBridgePair(start)
    ensures Minus(Settle(start, order), start, OrphansOf(start))
  {
    SettleIsOneFilterIff(start, order);
  }

  // ---------------------------------------------------------------------
  // Networks with too few ends first
  // ---------------------------------------------------------------------

  ghost function DeficientOf(w: Work): set<int> {
    set id | id in w.networks && Deficient(w, id)
  }

  lemma {:induction false} SweepSmaller(w: Work, id: int)
    requires Orphan(w, id)
    ensures |Sweep(w, id).networks| < |w.networks|
  {
    FewerKeys(Sweep(w, id).networks, w.networks);
  }

  /** Take out networks with fewer than two ends until none is left, one after
      the other; the order of those taken out. */
  ghost function ThinOrder(w: Work): seq<int>
    decreases |w.networks|
  {
    if DeficientOf(w) == {} then []
    else
      var id := Pick(DeficientOf(w));
      SweepSmaller(w, id);
      [id] + ThinOrder(Sweep(w, id))
  }

  /** What is left then. */
  ghost function Thinned(w: Work): Work {
    SweepAll(w, ThinOrder(w))
  }

  lemma {:induction false} ThinnedHasNoDeficient(w: Work)
    ensures DeficientOf(Thinned(w)) == {}
    decreases |w.networks|
  {
    if DeficientOf(w) != {} {
      var id := Pick(DeficientOf(w));
      SweepSmaller(w, id);
      ThinnedHasNoDeficient(Sweep(w, id));
      ThinStep(w, id);
    }
  }

  lemma {:induction false} ThinStep(w: Work, id: int)
    requires DeficientOf(w) != {} && id == Pick(DeficientOf(w))
    ensures Thinned(w) == Thinned(Sweep(w, id))
  {
    SweepSmaller(w, id);
    SweepAllSplit(w, [id], ThinOrder(Sweep(w, id)));
    assert [id][..0] == [];
    assert SweepAll(w, [id]) == Sweep(SweepAll(w, []), id);
  }

  /** Every order removes what thinning removes: too few ends never become
      enough. */
  lemma {:induction false} ThinnedGoes(w: Work, start: Work, gone: set<int>, done: Work, all: set<int>) returns (thin: set<int>)
    requires Minus(w, start, gone) && Minus(done, start, all) && gone <= all && NoOrphans(done) && 0 !in start.networks
    ensures Minus(Thinned(w), start, thin) && thin <= all
    decreases |w.networks|
  {
    thin := gone;
    if DeficientOf(w) != {} {
      var id := Pick(DeficientOf(w));
      if id !in all {
        MoreGone(w, done, start, gone, all);
        CountFalls(done, w, all - gone, id);
        assert Orphan(done, id);
      }
      SweepMinus(w, start, gone, id);
      SweepSmaller(w, id);
      thin := ThinnedGoes(Sweep(w, id), start, gone + {id}, done, all);
      ThinStep(w, id);
    }
  }

  /** An orphan of the start that has two ends once the networks with too few are
      out. */
  predicate Rescued(start: Work, thin: Work, id: int) {
    Orphan(start, id) && IsImplicit(thin.networks, id) && Refcount(thin.links, id) == 2
  }

  /** From a calm file without deficient networks only those with too many ends
      are removed. */
  lemma {:induction false} CalmThinCascades(thin: Work)
    requires DeficientOf(thin) == {} && Calm(thin)
    ensures NoCascade(thin)
  {
    forall i, a, b | 0 <= i < |thin.links| && Joins(thin.links[i], a, b) && Orphan(thin, a)
      ensures !IsImplicit(thin.networks, b)
    {
      assert Surplus(thin, a) by {
        assert a !in DeficientOf(thin);
      }
    }
  }

  lemma {:induction false} RescuedIsSpared(start: Work, order: seq<int>, id: int)
    requires Covers(order, start.networks) && 0 !in start.networks
    requires Calm(Thinned(start)) && Rescued(start, Thinned(start), id)
    ensures Spares(start, ThinOrder(start) + order, id)
  {
    var thin, full := Thinned(start), ThinOrder(start) + order;
    ThinnedHasNoDeficient(start);
    CalmThinCascades(thin);
    SweepAllShrinks(start, ThinOrder(start));
    BoundedByOrphans(thin);
    MinusNothing(thin);
    SweepAllSplit(start, ThinOrder(start), order);
    var all := SweepAllMinus(thin, thin, {}, OrphansOf(thin), order);
    var next := SweepAll(start, full);
    assert next == SweepAll(thin, order);
    all := SettleMinus(next, thin, all, OrphansOf(thin), full);
    SettleAfterPass(start, full);
    assert Covers(full, start.networks) by {
      assert forall n :: n in order ==> n in full;
    }
  }

  /** Starting from the result of the first pass is starting from the file. */
  lemma {:induction false} SettleAfterPass(w: Work, order: seq<int>)
    ensures Settle(w, order) == Settle(SweepAll(w, order), order)
  {
    SweepAllShrinks(w, order);
  }

  /** Some order of a set. */
  ghost function Listing(ids: set<int>): (order: seq<int>)
    ensures forall id :: id in order <==> id in ids
  {
    if ids == {} then []
    else
      var id := Pick(ids);
      assert ids == {id} + (ids - {id});
      [id] + Listing(ids - {id})
  }

  /** If, once the networks with too few ends are out, none with too many is
      joined to another implicit one, then the result depends on the order exactly
      when one that had too many ends now has two. */
  lemma {:induction false} DependsIffRescued(start: Work)
    requires 0 !in start.networks && Calm(Thinned(start))
    ensures DependsOnOrder(start) <==> exists id :: Rescued(start, Thinned(start), id)
  {
    DependsIffSpares(start);
    if id :| Rescued(start, Thinned(start), id) {
      RescuedIsSpared(start, Listing(start.networks.Keys), id);
    } else if exists o, id :: Spares(start, o, id) {
      var o, id :| Spares(start, o, id);
      SparedIsRescued(start, o, id);
      assert false;
    }
  }

  lemma {:induction false} SparedIsRescued(start: Work, order: seq<int>, id: int)
    requires 0 !in start.networks && Calm(Thinned(start)) && Spares(start, order, id)
    ensures Rescued(start, Thinned(start), id)
  {
    var done, thin := Settle(start, order), Thinned(start);
    SettleLeavesNoOrphans(start, order);
    var all := SettleRemoves(start, order);
    MinusNothing(start);
    var out := ThinnedGoes(start, start, {}, done, all);
    ThinnedHasNoDeficient(start);
    assert id !in DeficientOf(thin);
    if Surplus(thin, id) {
      MoreGone(thin, done, start, out, all);
      SurplusStays(done, thin, all - out, id);
      assert Orphan(done, id);
    }
  }

  // A file whose repair depends on the order of its networks.
  const BETWEEN := Link("lnk_001", Net(1), Net(2), "")
  const HALF_A := Link("lnk_002", Node(1, 0), Net(2), "")
  const HALF_B := Link("lnk_003", Node(2, 0), Net(2), "")
  const PAIRED := Work([BETWEEN, HALF_A, HALF_B], map[1 := IMPLICIT_NETWORK, 2 := IMPLICIT_NETWORK], [], [])

  lemma {:induction false} ThreeLinks(a: Link, b: Link, c: Link, p: Link -> bool, id: int)
    ensures Keep([a, b, c], p) ==
      (if p(a) then [a] else []) + (if p(b) then [b] else []) + (if p(c) then [c] else [])
    ensures id != 0 ==>
      Refcount([a, b, c], id) == Ends(a, Net(id)) + Ends(b, Net(id)) + Ends(c, Net(id))
    ensures id != 0 ==> Refcount([b, c], id) == Ends(b, Net(id)) + Ends(c, Net(id))
  {
    KeepConcat([a, b], [c], p);
    KeepConcat([a], [b], p);
    KeepOne(a, p);
    KeepOne(b, p);
    KeepOne(c, p);
    assert [a, b] == [a] + [b] && [a, b, c] == [a, b] + [c] && [b, c] == [b] + [c];
    if id != 0 {
      RefcountIsCount([a, b, c], id);
      RefcountIsCount([b, c], id);
      CountOne(a, Net(id));
      CountOne(b, Net(id));
      CountAppend([a], b, Net(id));
      CountAppend([a, b], c, Net(id));
      CountAppend([b], c, Net(id));
    }
  }

  lemma {:induction false} KeepOne(link: Link, p: Link -> bool)
    ensures Keep([link], p) == if p(link) then [link] else []
  {
    assert [link][..0] == [];
  }

  lemma {:induction false} PassOfTwo(w: Work, x: int, y: int)
    ensures SweepAll(w, [x, y]) == Sweep(Sweep(w, x), y)
  {
    assert [x, y][..1] == [x] && [x][..0] == [];
    assert SweepAll(w, [x]) == Sweep(SweepAll(w, []), x);
  }

  lemma {:induction false} SettleOfTwo(w: Work, x: int, y: int, end: Work)
    requires Sweep(Sweep(w, x), y) == end
    requires NoOrphans(end)
    ensures Settle(w, [x, y]) == end
  {
    PassOfTwo(w, x, y);
    PassOfTwo(end, x, y);
  }

  /** With a link between two implicit networks the loop is no longer one
      filter: visiting them in either order gives different files. */
  lemma {:induction false} OrderMatters()
    ensures Settle(PAIRED, [1, 2]).networks.Keys == {2}
    ensures Settle(PAIRED, [2, 1]).networks.Keys == {}
  {
    VisitOneFirst();
    VisitTwoFirst();
  }

  lemma {:induction false} VisitOneFirst()
    ensures Settle(PAIRED, [1, 2]).networks.Keys == {2}
  {
    ThreeLinks(BETWEEN, HALF_A, HALF_B, Off(1), 1);
    var one := Sweep(PAIRED, 1);
    assert one.links == [HALF_A, HALF_B] && one.networks.Keys == {2};
    ThreeLinks(BETWEEN, HALF_A, HALF_B, Off(1), 2);
    assert NoOrphans(one);
    SettleOfTwo(PAIRED, 1, 2, one);
  }

  lemma {:induction false} VisitTwoFirst()
    ensures Settle(PAIRED, [2, 1]).networks.Keys == {}
  {
    ThreeLinks(BETWEEN, HALF_A, HALF_B, Off(2), 2);
    var two := Sweep(PAIRED, 2);
    assert two.links == [] && two.networks.Keys == {1};
    var none := Sweep(two, 1);
    assert none.networks.Keys == {};
    SettleOfTwo(PAIRED, 2, 1, none);
  }
}
