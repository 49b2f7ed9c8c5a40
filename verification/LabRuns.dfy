/** Whole runs of the link and network services over one lab. */
module LabRuns {
  import opened Collections
  import opened LabModel
  import opened LinkSpec
  import opened NetworkSpec
  import RuntimeMutex
  import HostSpec

  /** A request.  `hostOk` says whether the host side of it succeeds; when it
      does not, the file is put back as it was. */
  datatype Op =
    | AddLink(a: Endpoint, b: Endpoint, style: string, hostOk: bool)
    | DropLink(id: string, hostOk: bool)
    | AddNetwork(name: string, kind: string, config: Config, hostOk: bool)
    | DropNetwork(number: int, shared: bool)
    | EditNetwork(number: int, patch: Patch)

  /** `create_link` on an idle registry: the locks first, then the file. */
  ghost function RequestLink(lab: Lab, a: Endpoint, b: Endpoint, style: string): Option<CreateResult> {
    if RuntimeMutex.CanTakeAll({}, RuntimeMutex.NodeKeys("", a, b))
    then Some(Create(lab, a, b, style)) else None
  }

  function FileAfter(lab: Lab, result: NetworkResult): Lab {
    if result.Done? then result.lab else lab
  }

  ghost function Apply(lab: Lab, op: Op): Lab {
    match op
    case AddLink(a, b, style, hostOk) =>
      var result := RequestLink(lab, a, b, style);
      if result.Some? && result.value.Created? && hostOk then result.value.lab else lab
    case DropLink(id, hostOk) => if hostOk then Delete(lab, id) else lab
    case AddNetwork(name, kind, config, hostOk) => FileAfter(lab, CreateNetwork(lab, name, kind, config, hostOk))
    case DropNetwork(number, shared) => FileAfter(lab, DeleteNetwork(lab, number, shared))
    case EditNetwork(number, patch) => FileAfter(lab, PatchNetwork(lab, number, patch))
  }

  ghost function Run(lab: Lab, ops: seq<Op>): Lab
    decreases |ops|
  {
    if |ops| == 0 then lab else Run(Apply(lab, ops[0]), ops[1..])
  }

  /** A link request does to the file what the service does to it on any host; one
      between an interface and itself never gets its locks. */
  lemma {:induction false} LinkRequestIs(lab: Lab, host: HostSpec.Host, a: Endpoint, b: Endpoint, style: string,
                                         running: set<HostSpec.Port>, naming: HostSpec.Naming, answers: HostSpec.Answers)
    ensures var (file, _, outcome) := HostSpec.CreateOnHost(lab, host, a, b, style, running, naming, answers);
      Apply(lab, AddLink(a, b, style, outcome.Done?)) == if a.Node? && a == b then lab else file
  {
    RuntimeMutex.IdleRequestContendsIff("", a, b);
  }

  /** A request that the host does not carry out changes nothing, whatever it is;
      one that changes something did what it was for. */
  lemma {:induction false} StepDoes(lab: Lab, op: Op)
    requires Inv(lab)
    ensures (op.AddLink? || op.DropLink?) && !op.hostOk ==> Apply(lab, op) == lab
    ensures op.AddLink? && Apply(lab, op) != lab ==>
      exists i :: 0 <= i < |Apply(lab, op).links| && Apply(lab, op).links[i].src == op.a && Apply(lab, op).links[i].style == op.style
    ensures op.DropLink? && op.hostOk ==>
      && (forall i :: 0 <= i < |Apply(lab, op).links| ==> Apply(lab, op).links[i].id != op.id)
      && (FirstWithId(lab.links, op.id) < |lab.links| <==> Apply(lab, op) != lab)
    ensures op.AddNetwork? ==>
      (CreateNetwork(lab, op.name, op.kind, op.config, op.hostOk).Done? <==> Apply(lab, op).networks.Keys != lab.networks.Keys)
    ensures op.DropNetwork? ==>
      (DeleteNetwork(lab, op.number, op.shared).Done? <==> op.number in lab.networks && op.number !in Apply(lab, op).networks)
    ensures op.EditNetwork? ==>
      var r := PatchNetwork(lab, op.number, op.patch); Apply(lab, op) == if r.Done? then r.lab else lab
  {
    match op
    case AddLink(a, b, style, _) =>
      if Apply(lab, op) != lab {
        CreatedLinks(lab, a, b, style);
        var links := Apply(lab, op).links;
        assert links[|lab.links|] == links[|lab.links|..][0];
      }
    case DropLink(id, hostOk) =>
      if hostOk && FirstWithId(lab.links, id) < |lab.links| {
        DeleteIs(lab, id);
        assert lab.links[FirstWithId(lab.links, id)] !in Apply(lab, op).links;
      }
    case AddNetwork(name, kind, config, hostOk) =>
      if CreateNetwork(lab, name, kind, config, hostOk).Done? {
        NewNetworkIs(lab, name, kind, config, hostOk);
      }
    case DropNetwork(number, shared) =>
    case EditNetwork(number, patch) =>
  }

  /** The one request the service lets through without looking at its second
      network; every other kind of request satisfies this at once. */
  predicate Served(lab: Lab, op: Op) {
    op.AddLink? && op.a.Net? && op.b.Net? ==>
      op.b.id in lab.networks && !lab.networks[op.b.id].implicit
  }

  ghost predicate AllServed(lab: Lab, ops: seq<Op>)
    decreases |ops|
  {
    |ops| == 0 || (Served(lab, ops[0]) && AllServed(Apply(lab, ops[0]), ops[1..]))
  }

  lemma {:induction false} StepKeepsInv(lab: Lab, op: Op)
    requires Inv(lab) && Served(lab, op)
    ensures Inv(Apply(lab, op))
  {
    match op
    case AddLink(a, b, style, hostOk) =>
      RuntimeMutex.IdleRequestContendsIff("", a, b);
      var result := RequestLink(lab, a, b, style);
      if result.Some? && result.value.Created? {
        CreateKeepsInvIff(lab, a, b, style);
      }
    case DropLink(id, _) => DeleteKeepsInv(lab, id);
    case AddNetwork(name, kind, config, hostOk) =>
      if CreateNetwork(lab, name, kind, config, hostOk).Done? {
        CreateNetworkKeepsInv(lab, name, kind, config, hostOk);
      }
    case DropNetwork(number, shared) =>
      if DeleteNetwork(lab, number, shared).Done? {
        DeleteNetworkKeepsInv(lab, number, shared);
      }
    case EditNetwork(number, patch) =>
      if PatchNetwork(lab, number, patch).Done? {
        PatchNetworkKeepsInv(lab, number, patch);
      }
  }

  /** Exactly the served requests keep the invariant: a request the service
      should not have let through breaks it as soon as it is carried out. */
  lemma {:induction false} StepKeepsInvIff(lab: Lab, op: Op)
    requires Inv(lab)
    ensures Inv(Apply(lab, op)) <==> Served(lab, op) || Apply(lab, op) == lab
  {
    if Served(lab, op) {
      StepKeepsInv(lab, op);
    } else if Apply(lab, op) != lab {
      CreateKeepsInvIff(lab, op.a, op.b, op.style);
    }
  }

  /** The invariant holds in every state a run of served requests reaches. */
  lemma {:induction false} RunKeepsInv(lab: Lab, ops: seq<Op>)
    requires Inv(lab) && AllServed(lab, ops)
    ensures Inv(Run(lab, ops))
    decreases |ops|
  {
    if |ops| > 0 {
      StepKeepsInv(lab, ops[0]);
      RunKeepsInv(Apply(lab, ops[0]), ops[1..]);
    }
  }

  lemma {:induction false} EmptyLabInv()
    ensures Inv(EMPTY_LAB)
  {
  }

  /** No request joins two networks. */
  predicate NoNetworkPair(op: Op) {
    op.AddLink? ==> op.a.Node? || op.b.Node?
  }

  lemma {:induction false} NoNetworkPairIsServed(lab: Lab, ops: seq<Op>)
    requires forall i :: 0 <= i < |ops| ==> NoNetworkPair(ops[i])
    ensures AllServed(lab, ops)
    decreases |ops|
  {
    if |ops| > 0 {
      assert NoNetworkPair(ops[0]);
      assert forall i :: 0 <= i < |ops| - 1 ==> ops[1..][i] == ops[i + 1];
      NoNetworkPairIsServed(Apply(lab, ops[0]), ops[1..]);
    }
  }

  /** From the empty lab, whatever the requests, as long as none joins two
      networks: implicit bridges have two ends, every network named is on file,
      no interface is wired twice, and link ids are distinct. */
  lemma {:induction false} ReachableInv(ops: seq<Op>)
    requires forall i :: 0 <= i < |ops| ==> NoNetworkPair(ops[i])
    ensures var lab := Run(EMPTY_LAB, ops);
      && (forall n :: IsImplicit(lab.networks, n) ==> Refcount(lab.links, n) == 2)
      && NoDangling(lab)
      && (forall node, iface :: Count(lab.links, Node(node, iface)) <= 1)
      && DistinctIds(lab.links)
      && Inv(lab)
  {
    NoNetworkPairIsServed(EMPTY_LAB, ops);
    EmptyLabInv();
    RunKeepsInv(EMPTY_LAB, ops);
    var lab := Run(EMPTY_LAB, ops);
    forall n | IsImplicit(lab.networks, n)
      ensures Refcount(lab.links, n) == 2
    {
      RefcountIsCount(lab.links, n);
    }
  }

  // ---------------------------------------------------------------------
  // Compensation
  // ---------------------------------------------------------------------

  /** A node-to-node request as the paired-template loop issues it. */
  datatype Wire = Wire(a: Endpoint, b: Endpoint)

  predicate Free(lab: Lab, wire: Wire) {
    && wire.a.Node? && wire.b.Node? && wire.a != wire.b
    && FirstConflict(lab.links, wire.a, wire.b).NoConflict?
  }

  /** Every request of the list is granted when its turn comes. */
  ghost predicate AllGranted(lab: Lab, wires: seq<Wire>)
    decreases |wires|
  {
    |wires| == 0 ||
    (Free(lab, wires[0]) && AllGranted(JoinNodes(lab, wires[0].a, wires[0].b, "").lab, wires[1..]))
  }

  /** The file after all requests, and the ids the service returned. */
  ghost function CreateAll(lab: Lab, wires: seq<Wire>): (Lab, seq<string>)
    requires AllGranted(lab, wires)
    decreases |wires|
  {
    if |wires| == 0 then (lab, [])
    else
      var made := JoinNodes(lab, wires[0].a, wires[0].b, "");
      var (last, ids) := CreateAll(made.lab, wires[1..]);
      (last, [made.link.id] + ids)
  }

  /** Delete the returned ids, last first. */
  function DeleteReversed(lab: Lab, ids: seq<string>): Lab
    decreases |ids|
  {
    if |ids| == 0 then lab
    else DeleteReversed(Delete(lab, ids[|ids| - 1]), ids[..|ids| - 1])
  }

  /** Undoing the later requests first and the first one at the end. */
  lemma {:induction false} DeleteReversedFirstLast(lab: Lab, id: string, ids: seq<string>)
    ensures DeleteReversed(lab, [id] + ids) == Delete(DeleteReversed(lab, ids), id)
    decreases |ids|
  {
    var all := [id] + ids;
    if |ids| == 0 {
      assert all == [id] && [id][..0] == [];
      assert DeleteReversed(lab, [id]) == DeleteReversed(Delete(lab, id), [id][..0]);
    } else {
      assert all[..|all| - 1] == [id] + ids[..|ids| - 1];
      DeleteReversedFirstLast(Delete(lab, ids[|ids| - 1]), id, ids[..|ids| - 1]);
    }
  }

  /** Creating any list of node-to-node links and deleting only the returned
      halves in reverse gives back links, in order, and networks exactly. */
  lemma {:induction false} CompensationRestores(lab: Lab, wires: seq<Wire>)
    requires NoDangling(lab)
    requires AllGranted(lab, wires)
    ensures var (last, ids) := CreateAll(lab, wires); DeleteReversed(last, ids) == lab
    decreases |wires|
  {
    if |wires| > 0 {
      var made := JoinNodes(lab, wires[0].a, wires[0].b, "");
      JoinNodesNoDangling(lab, wires[0].a, wires[0].b, "");
      CompensationRestores(made.lab, wires[1..]);
      var (last, ids) := CreateAll(made.lab, wires[1..]);
      DeleteReversedFirstLast(last, made.link.id, ids);
      FreshIdUnused(lab);
      CreateThenDelete(lab, wires[0].a, wires[0].b, "");
    }
  }

  lemma {:induction false} RunJoined(lab: Lab, a: seq<Op>, b: seq<Op>)
    ensures Run(lab, a + b) == Run(Run(lab, a), b)
    decreases |a|
  {
    if a == [] {
      assert a + b == b;
    } else {
      assert (a + b)[1..] == a[1..] + b;
      RunJoined(Apply(lab, a[0]), a[1..], b);
    }
  }

  /** The requests of the paired-template loop. */
  function Requests(wires: seq<Wire>): seq<Op> {
    if wires == [] then [] else [AddLink(wires[0].a, wires[0].b, "", true)] + Requests(wires[1..])
  }

  /** The compensating requests: the returned ids, last first. */
  function Undo(ids: seq<string>): seq<Op> {
    if ids == [] then [] else [DropLink(ids[|ids| - 1], true)] + Undo(ids[..|ids| - 1])
  }

  lemma {:induction false} CreateAllRuns(lab: Lab, wires: seq<Wire>)
    requires AllGranted(lab, wires)
    ensures var (last, ids) := CreateAll(lab, wires);
      && last == Run(lab, Requests(wires)) && |ids| == |wires| && |last.links| == |lab.links| + 2 * |wires|
    decreases |wires|
  {
    if |wires| > 0 {
      var a, b := wires[0].a, wires[0].b;
      var made := JoinNodes(lab, a, b, "");
      RuntimeMutex.IdleRequestContendsIff("", a, b);
      assert Requests(wires)[1..] == Requests(wires[1..]);
      assert Apply(lab, Requests(wires)[0]) == made.lab;
      CreateAllRuns(made.lab, wires[1..]);
    }
  }

  lemma {:induction false} DeleteReversedRuns(lab: Lab, ids: seq<string>)
    ensures DeleteReversed(lab, ids) == Run(lab, Undo(ids))
    decreases |ids|
  {
    if |ids| > 0 {
      assert Undo(ids)[1..] == Undo(ids[..|ids| - 1]);
      DeleteReversedRuns(Delete(lab, ids[|ids| - 1]), ids[..|ids| - 1]);
    }
  }

  /** As a run of the service: each request of the loop makes its two halves, and the
      run of all of them followed by the compensation leads back to the file it
      started from. */
  lemma {:induction false} CompensatedRun(lab: Lab, wires: seq<Wire>)
    requires NoDangling(lab) && AllGranted(lab, wires)
    ensures |Run(lab, Requests(wires)).links| == |lab.links| + 2 * |wires|
    ensures Run(lab, Requests(wires) + Undo(CreateAll(lab, wires).1)) == lab
  {
    var (last, ids) := CreateAll(lab, wires);
    CreateAllRuns(lab, wires);
    RunJoined(lab, Requests(wires), Undo(ids));
    DeleteReversedRuns(last, ids);
    CompensationRestores(lab, wires);
  }
}
