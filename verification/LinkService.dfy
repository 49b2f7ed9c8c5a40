/** The link service itself: scans over lab.json, the attach pass against the
    host, and the two calls that change both. */
module LinkService {
  import opened Collections
  import opened Text
  import opened LabModel
  import opened LinkSpec
  import opened RuntimeMutex
  import opened HostSpec
  import opened IdempotencyCache

  /** lab.json: what a call reads under the lab lock and writes back. */
  class LabFile {
    var networks: map<int, Network>
    var links: seq<Link>

    constructor ()
      ensures Data() == EMPTY_LAB
    {
      networks, links := map[], [];
    }

    ghost function Data(): Lab
      reads this
    {
      Lab(networks, links)
    }
  }

  /** The host's bridges and the runtime records' attachments. */
  class HostNet {
    var bridges: set<string>
    var attached: map<Port, int>

    ghost function State(): Host
      reads this
    {
      Host(bridges, attached)
    }
  }

  // ---------------------------------------------------------------------
  // Scans
  // ---------------------------------------------------------------------

  method ScanNextLinkId(links: seq<Link>) returns (id: string)
    ensures id == NextLinkId(links)
  {
    var most := 0;
    for i := 0 to |links|
      invariant most == MaxSuffix(links[..i])
    {
      assert links[..i + 1][..i] == links[..i];
      var n := SuffixOf(links[i].id);
      if most < n {
        most := n;
      }
    }
    assert links[..|links|] == links;
    id := LINK_PREFIX + Padded(most + 1, 3);
  }

  method ScanNextNetworkId(networks: map<int, Network>) returns (id: int)
    ensures id == NextNetworkId(networks)
  {
    var most := 0;
    var rest := networks.Keys;
    while rest != {}
      invariant rest <= networks.Keys
      invariant most >= 0 && (most == 0 || most in networks)
      invariant forall k :: k in networks && k !in rest ==> k <= most
      decreases |rest|
    {
      var k := Choose(rest);
      rest := rest - {k};
      if most < k {
        most := k;
      }
    }
    id := most + 1;
  }

  method FindConflict(links: seq<Link>, a: Endpoint, b: Endpoint) returns (c: Conflict)
    ensures c == FirstConflict(links, a, b)
  {
    c := NoConflict;
    var i := 0;
    while i < |links| && c.NoConflict?
      invariant 0 <= i <= |links|
      invariant c.NoConflict? ==> FirstConflict(links, a, b) == FirstConflict(links[i..], a, b)
      invariant !c.NoConflict? ==> FirstConflict(links, a, b) == c
    {
      assert links[i..][1..] == links[i + 1..];
      c := ConflictWith(links[i], a, b);
      i := i + 1;
    }
  }

  method FindLink(links: seq<Link>, id: string) returns (at: nat)
    ensures at == FirstWithId(links, id)
  {
    at := 0;
    while at < |links| && links[at].id != id
      invariant 0 <= at <= |links|
      invariant forall k :: 0 <= k < at ==> links[k].id != id
    {
      at := at + 1;
    }
  }

  method FindOn(links: seq<Link>, network: int) returns (at: nat)
    ensures at == FirstOn(links, network)
  {
    at := 0;
    while at < |links| && !Touches(links[at], Net(network))
      invariant 0 <= at <= |links|
      invariant forall k :: 0 <= k < at ==> !Touches(links[k], Net(network))
    {
      at := at + 1;
    }
  }

  method LinkReferencesEndpoint(links: seq<Link>, port: Port, network: int) returns (found: bool)
    ensures found <==> Wired(links, port, network)
  {
    for i := 0 to |links|
      invariant forall k :: 0 <= k < i ==> !Wires(links[k], port, network)
    {
      if Wires(links[i], port, network) {
        return true;
      }
    }
    return false;
  }

  // ---------------------------------------------------------------------
  // The attach pass
  // ---------------------------------------------------------------------

  /** Detach stale attachments of the targets. */
  method HealTargets(host: HostNet, links: seq<Link>, plan: Plan, answers: Answers)
    modifies host
    ensures host.State() == HealFrom(old(host.State()), links, plan, answers, 0)
  {
    var i := 0;
    while i < |plan.targets|
      invariant 0 <= i <= |plan.targets|
      invariant HealFrom(host.State(), links, plan, answers, i)
             == HealFrom(old(host.State()), links, plan, answers, 0)
    {
      var port := plan.targets[i];
      if port in host.attached && host.attached[port] != plan.network {
        var declared := LinkReferencesEndpoint(links, port, host.attached[port]);
        if !declared && answers.heals(port) {
          host.attached := Without(host.attached, port);
        }
      }
      i := i + 1;
    }
  }

  /** Take back the first `done` attachments and the bridge this call added. */
  method SweepFailedPass(host: HostNet, plan: Plan, done: nat, added: bool)
    requires done <= |plan.targets|
    modifies host
    ensures host.State() == RollBack(old(host.State()), plan, done, added)
  {
    var i := 0;
    while i < done
      invariant 0 <= i <= done
      invariant host.bridges == old(host.bridges)
      invariant host.attached == Unplug(old(host.attached), plan.targets, i)
    {
      assert plan.targets[..i + 1] == plan.targets[..i] + [plan.targets[i]];
      host.attached := Without(host.attached, plan.targets[i]);
      i := i + 1;
    }
    if added {
      host.bridges := host.bridges - {plan.bridge};
    }
  }

  /** Attach every target; on a handled error undo what was done. */
  method HotAttach(host: HostNet, links: seq<Link>, plan: Plan, answers: Answers) returns (fault: Fault)
    modifies host
    ensures var pass := AttachPass(old(host.State()), links, plan, answers);
      && host.State() == pass.host
      && (fault.Fine? <==> pass.Attached?)
      && (pass.Failed? ==> fault == pass.fault)
  {
    if |plan.targets| == 0 {
      return Fine;
    }
    var added := plan.bridge !in host.bridges;
    if added {
      if plan.hostOwned {
        return Caught;
      }
      if !answers.bridgeAdd.Fine? {
        return answers.bridgeAdd;
      }
      host.bridges := host.bridges + {plan.bridge};
    }
    HealTargets(host, links, plan, answers);
    ghost var healed := host.State();
    var done := 0;
    fault := Fine;
    while done < |plan.targets| && fault.Fine?
      invariant 0 <= done <= |plan.targets|
      invariant fault.Fine? ==> AttachFrom(host.State(), plan, answers, done) == AttachFrom(healed, plan, answers, 0)
      invariant !fault.Fine? ==> (host.State(), fault, done) == AttachFrom(healed, plan, answers, 0)
      decreases |plan.targets| - done, fault.Fine?
    {
      var port := plan.targets[done];
      fault := answers.attach(done);
      if fault.Fine? {
        if port in host.attached {
          fault := if host.attached[port] == plan.network then Fine else Caught;
        } else if plan.bridge !in host.bridges {
          fault := Caught;
        } else {
          host.attached := host.attached[port := plan.network];
        }
      }
      if fault.Fine? {
        done := done + 1;
      }
    }
    if fault.Caught? {
      SweepFailedPass(host, plan, done, added);
    }
  }

  // ---------------------------------------------------------------------
  // The service
  // ---------------------------------------------------------------------

  /** What a caller is told about a create. */
  datatype Reply = Replayed(link: Link) | Contended | Answer(outcome: Outcome)

  /** The link that a create made, if it was carried out to the end. */
  function Made(reply: Reply): Option<Link> {
    if reply.Answer? && reply.outcome.Done? then Some(reply.outcome.link) else None
  }

  class LinkService {
    var cache: Cache<Link>

    constructor ()
      ensures cache == Cache([], map[])
    {
      cache := Cache([], map[]);
    }

    method CacheGet(lab: string, key: string) returns (found: Option<Link>)
      modifies this
      ensures key == "" ==> found == None && cache == old(cache)
      ensures key != "" ==> cache == Apply(old(cache), Get(CacheKey(lab, key)))
      ensures found == if key != "" && CacheKey(lab, key) in old(cache.values)
                       then Some(old(cache.values)[CacheKey(lab, key)]) else None
    {
      found := None;
      if key != "" && CacheKey(lab, key) in cache.values {
        cache := Cache(Refresh(cache.order, CacheKey(lab, key)), cache.values);
        found := Some(cache.values[CacheKey(lab, key)]);
      }
    }

    method CacheSet(lab: string, key: string, link: Link)
      modifies this
      ensures cache == if key == "" then old(cache) else Apply(old(cache), Set(CacheKey(lab, key), link))
    {
      if key != "" {
        var k := CacheKey(lab, key);
        cache := Cache(Refresh(cache.order, k), cache.values[k := link]);
        ghost var stored := cache;
        while |cache.order| > CACHE_MAX
          invariant Trim(cache) == Trim(stored)
          decreases |cache.order|
        {
          cache := Cache(cache.order[1..], Without(cache.values, cache.order[0]));
        }
      }
    }

    /** The mutation under the lab lock, the attach pass, and the write-back of
        the snapshot when the pass fails. */
    method CreateLinkLocked(file: LabFile, host: HostNet, a: Endpoint, b: Endpoint, style: string,
                            running: set<Port>, naming: Naming, answers: Answers)
      returns (outcome: Outcome)
      modifies file, host
      ensures (file.Data(), host.State(), outcome) ==
        CreateOnHost(old(file.Data()), old(host.State()), a, b, style, running, naming, answers)
    {
      ghost var lab := file.Data();
      var conflict := FindConflict(file.links, a, b);
      if !conflict.NoConflict? {
        return Refused(Rejected(conflict));
      }
      var networks, links := file.networks, file.links;
      var first: Link;
      var network: int;
      if a.Node? && b.Node? {
        network := ScanNextNetworkId(networks);
        file.networks := networks[network := IMPLICIT_NETWORK];
        var id := ScanNextLinkId(file.links);
        first := Link(id, a, Net(network), style);
        file.links := file.links + [first];
        id := ScanNextLinkId(file.links);
        file.links := file.links + [Link(id, b, Net(network), style)];
      } else {
        network := if a.Net? then a.id else b.id;
        if network !in networks {
          return Refused(NoSuchNetwork(network));
        }
        var id := ScanNextLinkId(file.links);
        first := Link(id, a, b, style);
        file.links := file.links + [first];
        if networks[network].implicit && Refcount(file.links, network) == 3 {
          file.networks := networks[network := Promoted(networks[network], network)];
        }
      }
      assert Create(lab, a, b, style) == Created(file.Data(), first, network);
      var plan := PlanFor(network, a, b, running, naming);
      var fault := HotAttach(host, file.links, plan, answers);
      if !fault.Fine? {
        file.networks, file.links := networks, links;
        return HostFailed(fault);
      }
      return Done(first);
    }

    /** Take the locks of both ends in order, run the mutation, and give every
        lock taken back on each way out. */
    method CreateUnderLocks(file: LabFile, host: HostNet, locks: RuntimeMutexRegistry, keys: seq<MutexKey>,
                            a: Endpoint, b: Endpoint, style: string,
                            running: set<Port>, naming: Naming, answers: Answers)
      returns (outcome: Option<Outcome>)
      modifies file, host, locks
      ensures locks.Held() == old(locks.Held())
      ensures outcome.None? <==> !CanTakeAll(old(locks.Held()), keys)
      ensures outcome.None? ==> file.Data() == old(file.Data()) && host.State() == old(host.State())
      ensures outcome.Some? ==> ((file.Data(), host.State(), outcome.value) ==
        CreateOnHost(old(file.Data()), old(host.State()), a, b, style, running, naming, answers))
    {
      var granted := locks.AcquireAll(keys);
      if !granted {
        return None;
      }
      var done := CreateLinkLocked(file, host, a, b, style, running, naming, answers);
      assert keys[..|keys|] == keys;
      locks.ReleaseFirst(keys, |keys|);
      return Some(done);
    }

    /** Cached answer, else contention, else the outcome of the mutation. */
    method CreateLink(file: LabFile, host: HostNet, locks: RuntimeMutexRegistry, lab: string,
                      a: Endpoint, b: Endpoint, style: string, key: string,
                      running: set<Port>, naming: Naming, answers: Answers)
      returns (reply: Reply)
      modifies this, file, host, locks
      ensures locks.Held() == old(locks.Held())
      ensures reply.Replayed? <==> Replays(old(cache), Call(CacheKey(lab, key), Made(reply)))
      ensures reply.Replayed? ==> reply.link == old(cache.values)[CacheKey(lab, key)]
      ensures cache == AfterCall(old(cache), Call(CacheKey(lab, key), Made(reply)))
      ensures reply.Contended? <==> !reply.Replayed? && !CanTakeAll(old(locks.Held()), NodeKeys(lab, a, b))
      ensures !reply.Answer? ==> file.Data() == old(file.Data()) && host.State() == old(host.State())
      ensures reply.Answer? ==> ((file.Data(), host.State(), reply.outcome) ==
        CreateOnHost(old(file.Data()), old(host.State()), a, b, style, running, naming, answers))
    {
      var cached := CacheGet(lab, key);
      if cached.Some? {
        return Replayed(cached.value);
      }
      var outcome := CreateUnderLocks(file, host, locks, NodeKeys(lab, a, b), a, b, style, running, naming, answers);
      if outcome.None? {
        return Contended;
      }
      if outcome.value.Done? {
        CacheSet(lab, key, outcome.value.link);
      }
      return Answer(outcome.value);
    }

    /** Remove a link under the lab lock: the surviving half of an implicit
        bridge goes with it, and so does a bridge nothing names any more. */
    method DeleteLinkLocked(file: LabFile, id: string) returns (found: bool)
      modifies file
      ensures found <==> FirstWithId(old(file.links), id) < |old(file.links)|
      ensures file.Data() == Delete(old(file.Data()), id)
    {
      var at := FindLink(file.links, id);
      if at == |file.links| {
        return false;
      }
      var ids := NetworksOf(file.links[at]);
      file.links := RemoveAt(file.links, at);
      ghost var rest := file.links;
      var i := 0;
      while i < |ids|
        invariant 0 <= i <= |ids|
        invariant file.networks == old(file.networks)
        invariant DropOrphans(file.networks, file.links, ids[i..]) == DropOrphans(file.networks, rest, ids)
      {
        assert ids[i..][1..] == ids[i + 1..];
        if IsImplicit(file.networks, ids[i]) && Refcount(file.links, ids[i]) == 1 {
          var orphan := FindOn(file.links, ids[i]);
          if orphan < |file.links| {
            file.links := RemoveAt(file.links, orphan);
          }
        }
        i := i + 1;
      }
      i := 0;
      while i < |ids|
        invariant 0 <= i <= |ids|
        invariant file.links == DropOrphans(old(file.networks), rest, ids)
        invariant CollectAll(file.networks, file.links, ids[i..]) == CollectAll(old(file.networks), file.links, ids)
      {
        assert ids[i..][1..] == ids[i + 1..];
        if IsImplicit(file.networks, ids[i]) && Refcount(file.links, ids[i]) == 0 {
          file.networks := Without(file.networks, ids[i]);
        }
        i := i + 1;
      }
      return true;
    }
  }
}
