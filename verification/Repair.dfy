/** The repair script's pass over a lab file. */
module Repair {
  import opened Collections
  import opened LabModel
  import opened LinkService
  import opened RepairSpec

  function GroupOf(byIface: map<Endpoint, seq<Link>>, e: Endpoint): seq<Link> {
    if e in byIface then byIface[e] else []
  }

  /** `setdefault(key, []).append(link)` for a node end. */
  function Filed(byIface: map<Endpoint, seq<Link>>, e: Endpoint, link: Link): (r: map<Endpoint, seq<Link>>)
    ensures forall x :: GroupOf(r, x) == GroupOf(byIface, x) + (if x == e && e.Node? then [link] else [])
    ensures forall x :: x in r <==> x in byIface || (x == e && e.Node?)
  {
    if e.Node? then byIface[e := GroupOf(byIface, e) + [link]]
    else
      assert forall s: seq<Link> :: s + [] == s;
      byIface
  }

  lemma {:induction false} GroupGrows(links: seq<Link>, i: nat, e: Endpoint)
    requires i < |links|
    ensures Group(links[..i + 1], e) == Group(links[..i], e)
      + (if links[i].src == e then [links[i]] else []) + (if links[i].dst == e then [links[i]] else [])
  {
    assert links[..i + 1][..i] == links[..i];
    assert Repeat(links[i], 1) == [links[i]] + Repeat(links[i], 0) == [links[i]];
    assert Repeat(links[i], 2) == [links[i]] + Repeat(links[i], 1);
  }

  method GroupByInterface(links: seq<Link>) returns (byIface: map<Endpoint, seq<Link>>)
    ensures forall e :: e in byIface ==> e.Node? && byIface[e] == Group(links, e)
    ensures forall e: Endpoint :: e.Node? && e !in byIface ==> Group(links, e) == []
  {
    byIface := map[];
    for i := 0 to |links|
      invariant forall e :: e in byIface ==> e.Node?
      invariant forall e: Endpoint :: e.Node? ==> GroupOf(byIface, e) == Group(links[..i], e)
    {
      ghost var before := byIface;
      byIface := Filed(Filed(byIface, links[i].src, links[i]), links[i].dst, links[i]);
      forall e: Endpoint | e.Node?
        ensures GroupOf(byIface, e) == Group(links[..i + 1], e)
      {
        GroupGrows(links, i, e);
        assert GroupOf(before, e) == Group(links[..i], e);
      }
    }
    assert links[..|links|] == links;
    forall e: Endpoint | e.Node?
      ensures GroupOf(byIface, e) == Group(links, e)
    {
    }
  }

  /** Position of the link a group keeps. */
  method FindNewest(group: seq<Link>) returns (m: nat)
    requires |group| > 0
    ensures m == Newest(group)
  {
    m := 0;
    assert group[..1] == [group[0]];
    for i := 1 to |group|
      invariant m == Newest(group[..i])
    {
      assert group[..i + 1][..i] == group[..i];
      if Older(group[m], group[i]) {
        m := i;
      }
    }
    assert group[..|group|] == group;
  }

  /** The ids of a group's other links. */
  method StaleIds(group: seq<Link>) returns (ids: set<string>)
    requires |group| > 1
    ensures forall id :: id in ids <==> exists i :: 0 <= i < |group| && i != Newest(group) && group[i].id == id
  {
    var m := FindNewest(group);
    ids := {};
    for i := 0 to |group|
      invariant forall id :: id in ids <==> exists k :: 0 <= k < i && k != m && group[k].id == id
    {
      if i != m {
        ids := ids + {group[i].id};
      }
    }
  }

  method DuplicateIds(links: seq<Link>) returns (drop: set<string>)
    ensures forall id :: id in drop <==> Dropped(links, id)
  {
    var byIface := GroupByInterface(links);
    drop := {};
    var rest := byIface.Keys;
    while rest != {}
      invariant rest <= byIface.Keys
      invariant forall id :: id in drop ==> Dropped(links, id)
      invariant forall e, id :: e in byIface && e !in rest && StaleIn(links, e, id) ==> id in drop
      decreases |rest|
    {
      var e := Choose(rest);
      rest := rest - {e};
      if |byIface[e]| > 1 {
        var ids := StaleIds(byIface[e]);
        assert forall id :: id in ids <==> StaleIn(links, e, id);
        drop := drop + ids;
      }
    }
    assert forall e, id :: StaleIn(links, e, id) ==> e in byIface;
  }

  /** Split a list by whether a link is to go. */
  method Partition(links: seq<Link>, drop: set<string>) returns (kept: seq<Link>, gone: seq<Link>)
    requires forall id :: id in drop <==> Dropped(links, id)
    ensures kept == Keep(links, Fresh(links)) && gone == Keep(links, RepairSpec.Stale(links))
  {
    kept, gone := [], [];
    for i := 0 to |links|
      invariant kept == Keep(links[..i], Fresh(links)) && gone == Keep(links[..i], RepairSpec.Stale(links))
    {
      assert links[..i + 1][..i] == links[..i];
      if links[i].id in drop {
        gone := gone + [links[i]];
      } else {
        kept := kept + [links[i]];
      }
    }
    assert links[..|links|] == links;
  }

  /** Split a list by whether a link sits on a network. */
  method TakeOff(links: seq<Link>, id: int) returns (kept: seq<Link>, gone: seq<Link>)
    ensures kept == Keep(links, Off(id)) && gone == Keep(links, On(id))
  {
    kept, gone := [], [];
    for i := 0 to |links|
      invariant kept == Keep(links[..i], Off(id)) && gone == Keep(links[..i], On(id))
    {
      assert links[..i + 1][..i] == links[..i];
      if Touches(links[i], Net(id)) {
        gone := gone + [links[i]];
      } else {
        kept := kept + [links[i]];
      }
    }
    assert links[..|links|] == links;
  }

  /** One pass over the networks; `order` is their order in the file. */
  method OnePass(w: Work, order: seq<int>) returns (next: Work, changed: bool)
    ensures next == SweepAll(w, order)
    ensures changed <==> next.networks.Keys != w.networks.Keys
  {
    next, changed := w, false;
    for i := 0 to |order|
      invariant next == SweepAll(w, order[..i])
      invariant next.networks.Keys <= w.networks.Keys
      invariant changed <==> next.networks.Keys != w.networks.Keys
    {
      assert order[..i + 1][..i] == order[..i];
      var id := order[i];
      if IsImplicit(next.networks, id) && Refcount(next.links, id) != 2 {
        var kept, gone := TakeOff(next.links, id);
        next := Work(kept, Without(next.networks, id), next.removedLinks + gone,
                     next.removedNetworks + [next.networks[id]]);
        changed := true;
      }
    }
    assert order[..|order|] == order;
  }

  /** Repair a file in place and report what was taken out. */
  method RepairFile(file: LabFile, order: seq<int>)
    returns (removedLinks: seq<Link>, removedNetworks: seq<Network>)
    requires Covers(order, file.networks)
    modifies file
    ensures Work(file.links, file.networks, removedLinks, removedNetworks) == RepairSpec.Repair(old(file.Data()), order)
    ensures Sound(file.Data())
    ensures multiset(file.links) + multiset(removedLinks) == multiset(old(file.links))
    ensures Sound(old(file.Data())) ==> file.Data() == old(file.Data()) && removedLinks == [] && removedNetworks == []
  {
    ghost var lab := file.Data();
    var drop := DuplicateIds(file.links);
    var kept, gone := Partition(file.links, drop);
    var w := Work(kept, file.networks, gone, []);
    assert w == Start(lab);
    var changed := true;
    while changed
      invariant changed ==> Settle(w, order) == RepairSpec.Repair(lab, order)
      invariant !changed ==> w == RepairSpec.Repair(lab, order)
      decreases |w.networks|, changed
    {
      var next, moved := OnePass(w, order);
      SweepAllShrinks(w, order);
      if moved {
        FewerKeys(next.networks, w.networks);
      }
      w, changed := next, moved;
    }
    file.links, file.networks := w.links, w.networks;
    RepairIsSound(lab, order);
    if Sound(lab) {
      RepairIdentity(lab, order);
    }
    return w.removedLinks, w.removedNetworks;
  }
}
