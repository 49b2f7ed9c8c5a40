/** The host side of creating a link: bridges, runtime attachments, and what is
    left of them when an attach fails half-way. */
module HostSpec {
  import opened Collections
  import opened LabModel
  import opened LinkSpec

  datatype Port = Port(node: int, iface: int)

  /** The host bridges that exist and, for every running interface that is
      plugged in, the network it is plugged into. */
  datatype Host = Host(bridges: set<string>, attached: map<Port, int>)

  /** How one host operation ends.  `Caught` is a runtime or helper error, which
      the attach pass rolls back; `Uncaught` is any other exception, such as the
      contention error of the per-node lock, which only the outer handler sees. */
  datatype Fault = Fine | Caught | Uncaught

  /** What the host will answer: to the bridge helper, to the detach of a stale
      attachment, and to the attach of each target in turn. */
  datatype Answers = Answers(bridgeAdd: Fault, heals: Port -> bool, attach: nat -> Fault)

  /** The one network a call wires, its bridge, and the running interfaces. */
  datatype Plan = Plan(network: int, bridge: string, hostOwned: bool, targets: seq<Port>)

  datatype Pass = Attached(host: Host) | Failed(host: Host, fault: Fault)

  predicate IsEnd(e: Endpoint, port: Port) {
    e == Node(port.node, port.iface)
  }

  /** `_link_references_endpoint` for one link. */
  predicate Wires(link: Link, port: Port, network: int) {
    || (IsEnd(link.src, port) && link.dst == Net(network))
    || (IsEnd(link.dst, port) && link.src == Net(network))
  }

  ghost predicate Wired(links: seq<Link>, port: Port, network: int) {
    exists i :: 0 <= i < |links| && Wires(links[i], port, network)
  }

  /** Every attachment of the host is declared by a link of the file. */
  ghost predicate Agrees(host: Host, links: seq<Link>) {
    forall port :: port in host.attached ==> Wired(links, port, host.attached[port])
  }

  /** The bridge stage: bridges owned by the host are never added. */
  function Provision(host: Host, plan: Plan, answers: Answers): (Host, Fault) {
    if plan.bridge in host.bridges then (host, Fine)
    else if plan.hostOwned then (host, Caught)
    else if !answers.bridgeAdd.Fine? then (host, answers.bridgeAdd)
    else (host.(bridges := host.bridges + {plan.bridge}), Fine)
  }

  /** Drop a stale attachment of a target that no link declares. */
  ghost function Heal(host: Host, links: seq<Link>, plan: Plan, port: Port, answers: Answers): Host {
    if port in host.attached && host.attached[port] != plan.network
       && !Wired(links, port, host.attached[port]) && answers.heals(port)
    then host.(attached := Without(host.attached, port)) else host
  }

  ghost function HealFrom(host: Host, links: seq<Link>, plan: Plan, answers: Answers, i: nat): Host
    requires i <= |plan.targets|
    decreases |plan.targets| - i
  {
    if i == |plan.targets| then host
    else HealFrom(Heal(host, links, plan, plan.targets[i], answers), links, plan, answers, i + 1)
  }

  /** The outcome of attaching target `i`: re-attaching to the same network is a
      no-op, an interface plugged in elsewhere or a missing bridge is an error. */
  function AttachOne(host: Host, plan: Plan, answers: Answers, i: nat): (Host, Fault)
    requires i < |plan.targets|
  {
    var port := plan.targets[i];
    if !answers.attach(i).Fine? then (host, answers.attach(i))
    else if port in host.attached then
      (host, if host.attached[port] == plan.network then Fine else Caught)
    else if plan.bridge !in host.bridges then (host, Caught)
    else (host.(attached := host.attached[port := plan.network]), Fine)
  }

  /** Attach from target `i` on; the number says how many were attached. */
  function AttachFrom(host: Host, plan: Plan, answers: Answers, i: nat): (r: (Host, Fault, nat))
    requires i <= |plan.targets|
    ensures i <= r.2 <= |plan.targets|
    decreases |plan.targets| - i
  {
    if i == |plan.targets| then (host, Fine, i)
    else
      var (next, fault) := AttachOne(host, plan, answers, i);
      if fault.Fine? then AttachFrom(next, plan, answers, i + 1) else (host, fault, i)
  }

  /** Unplug the first `n` targets. */
  function Unplug(attached: map<Port, int>, targets: seq<Port>, n: nat): (r: map<Port, int>)
    requires n <= |targets|
    ensures forall p :: p in r <==> p in attached && p !in targets[..n]
    ensures forall p :: p in r ==> r[p] == attached[p]
  {
    attached - set p | p in targets[..n]
  }

  /** The rollback of a failed pass: interfaces first, then an added bridge. */
  function RollBack(host: Host, plan: Plan, done: nat, added: bool): Host
    requires done <= |plan.targets|
  {
    Host(if added then host.bridges - {plan.bridge} else host.bridges,
         Unplug(host.attached, plan.targets, done))
  }

  /** The whole attach pass over the file that already holds the new link. */
  ghost function AttachPass(host: Host, links: seq<Link>, plan: Plan, answers: Answers): Pass {
    if |plan.targets| == 0 then Attached(host)
    else
      var (ready, fault) := Provision(host, plan, answers);
      if !fault.Fine? then Failed(ready, fault)
      else
        var healed := HealFrom(ready, links, plan, answers, 0);
        var (end, error, done) := AttachFrom(healed, plan, answers, 0);
        if error.Fine? then Attached(end)
        else if error.Caught? then
          Failed(RollBack(end, plan, done, plan.bridge !in host.bridges), error)
        else Failed(end, error)
  }

  // ---------------------------------------------------------------------
  // The whole call
  // ---------------------------------------------------------------------

  function PortOf(e: Endpoint): Port
    requires e.Node?
  {
    Port(e.node, e.iface)
  }

  function RunningPort(e: Endpoint, running: set<Port>): seq<Port> {
    if e.Node? && PortOf(e) in running then [PortOf(e)] else []
  }

  /** The interfaces of a request whose nodes run, in the order of its links. */
  function Targets(a: Endpoint, b: Endpoint, running: set<Port>): seq<Port> {
    if a.Node? || b.Node? then RunningPort(a, running) + RunningPort(b, running) else []
  }

  /** The naming of bridges and the networks whose bridge the host owns. */
  datatype Naming = Naming(bridge: int -> string, hostOwned: set<int>)

  function PlanFor(network: int, a: Endpoint, b: Endpoint, running: set<Port>, naming: Naming): Plan {
    Plan(network, naming.bridge(network), network in naming.hostOwned, Targets(a, b, running))
  }

  datatype Outcome =
    | Done(link: Link)
    | Refused(reason: CreateResult)
    | HostFailed(fault: Fault)

  /** File and host after `create_link`, locks already granted. */
  ghost function CreateOnHost(lab: Lab, host: Host, a: Endpoint, b: Endpoint, style: string,
                              running: set<Port>, naming: Naming, answers: Answers)
    : (Lab, Host, Outcome)
  {
    var made := Create(lab, a, b, style);
    if !made.Created? then (lab, host, Refused(made))
    else
      var plan := PlanFor(made.network, a, b, running, naming);
      match AttachPass(host, made.lab.links, plan, answers)
      case Attached(after) => (made.lab, after, Done(made.link))
      case Failed(after, fault) => (lab, after, HostFailed(fault))
  }

  // ---------------------------------------------------------------------
  // What is left after a failure
  // ---------------------------------------------------------------------

  predicate DistinctTargets(plan: Plan) {
    forall i, j :: 0 <= i < j < |plan.targets| ==> plan.targets[i] != plan.targets[j]
  }

  /** The interface is plugged into another network than the plan's. */
  predicate Elsewhere(host: Host, plan: Plan, p: Port) {
    p in host.attached && host.attached[p] != plan.network
  }

  /** The interface is already plugged into the plan's network. */
  predicate Onto(host: Host, plan: Plan, p: Port) {
    p in host.attached && host.attached[p] == plan.network
  }

  /** A stale attachment goes: it is to another network, no link of the file says
      so, and the host detaches it. */
  ghost predicate Healed(host: Host, links: seq<Link>, plan: Plan, answers: Answers, p: Port) {
    Elsewhere(host, plan, p) && !Wired(links, p, host.attached[p]) && answers.heals(p)
  }

  /** Healing takes exactly the stale attachments of targets and changes nothing
      else. */
  lemma {:induction false} HealedIff(host: Host, links: seq<Link>, plan: Plan, answers: Answers, i: nat)
    requires i <= |plan.targets|
    ensures var after := HealFrom(host, links, plan, answers, i);
      && after.bridges == host.bridges
      && (forall p :: p in after.attached <==>
            p in host.attached && !(p in plan.targets[i..] && Healed(host, links, plan, answers, p)))
      && (forall p :: p in after.attached ==> after.attached[p] == host.attached[p])
    decreases |plan.targets| - i
  {
    if i < |plan.targets| {
      HealedIff(Heal(host, links, plan, plan.targets[i], answers), links, plan, answers, i + 1);
      assert plan.targets[i..] == [plan.targets[i]] + plan.targets[i + 1..];
    }
  }

  /** The attach loop only ever adds the targets it got through. */
  lemma {:induction false} AttachFromAdds(host: Host, plan: Plan, answers: Answers, i: nat)
    requires i <= |plan.targets|
    ensures var (end, _, done) := AttachFrom(host, plan, answers, i);
      && end.bridges == host.bridges
      && (forall p :: p in end.attached <==> p in host.attached || p in plan.targets[i..done])
      && (forall p :: p in host.attached ==> p in end.attached && end.attached[p] == host.attached[p])
      && (forall p :: p in plan.targets[i..done] ==> p in end.attached && end.attached[p] == plan.network)
    decreases |plan.targets| - i
  {
    if i < |plan.targets| {
      var (next, fault) := AttachOne(host, plan, answers, i);
      if fault.Fine? {
        AttachFromAdds(next, plan, answers, i + 1);
        var (_, _, done) := AttachFrom(next, plan, answers, i + 1);
        assert plan.targets[i..done] == [plan.targets[i]] + plan.targets[i + 1..done];
      } else {
        assert plan.targets[i..i] == [];
      }
    }
  }

  /** The bridge is missing and cannot be had: it is the host's own, or the
      helper does not add it. */
  predicate NoBridge(host: Host, plan: Plan, answers: Answers) {
    plan.bridge !in host.bridges && (plan.hostOwned || !answers.bridgeAdd.Fine?)
  }

  /** What becomes of target `i`: what the host answers, unless the interface is
      plugged in elsewhere and stays so. */
  ghost function Verdict(host: Host, links: seq<Link>, plan: Plan, answers: Answers, i: nat): Fault
    requires i < |plan.targets|
  {
    var p := plan.targets[i];
    if !answers.attach(i).Fine? then answers.attach(i)
    else if Elsewhere(host, plan, p) && !Healed(host, links, plan, answers, p) then Caught
    else Fine
  }

  /** The first target, from the i-th on, that is not attached. */
  ghost function FirstRefusal(host: Host, links: seq<Link>, plan: Plan, answers: Answers, i: nat): (k: nat)
    requires i <= |plan.targets|
    ensures i <= k <= |plan.targets|
    ensures forall j :: i <= j < k ==> Verdict(host, links, plan, answers, j).Fine?
    ensures k < |plan.targets| ==> !Verdict(host, links, plan, answers, k).Fine?
    decreases |plan.targets| - i
  {
    if i == |plan.targets| || !Verdict(host, links, plan, answers, i).Fine? then i
    else FirstRefusal(host, links, plan, answers, i + 1)
  }

  /** The bridge cannot be had or some target is refused. */
  ghost predicate Fails(host: Host, links: seq<Link>, plan: Plan, answers: Answers) {
    |plan.targets| > 0
    && (NoBridge(host, plan, answers)
        || exists i :: 0 <= i < |plan.targets| && !Verdict(host, links, plan, answers, i).Fine?)
  }

  /** The failing pass leaves no trace: the bridge cannot be had; or no stale
      attachment was taken and the first refusal is an error the pass handles, with
      no target before it plugged in already, or is any other error, with the
      bridge there and every target before it plugged in already. */
  ghost predicate LeavesNoTrace(host: Host, links: seq<Link>, plan: Plan, answers: Answers) {
    || NoBridge(host, plan, answers)
    || (&& (forall i :: 0 <= i < |plan.targets| ==> !Healed(host, links, plan, answers, plan.targets[i]))
        && var k := FirstRefusal(host, links, plan, answers, 0);
           if k < |plan.targets| && Verdict(host, links, plan, answers, k).Uncaught? then
             plan.bridge in host.bridges && forall i :: 0 <= i < k ==> Onto(host, plan, plan.targets[i])
           else
             forall i :: 0 <= i < k ==> !Onto(host, plan, plan.targets[i]))
  }

  /** Once healed, with a bridge, the loop stops at the first refusal. */
  lemma {:induction false} AttachStops(host: Host, links: seq<Link>, plan: Plan, answers: Answers, now: Host, i: nat)
    requires i <= |plan.targets| && DistinctTargets(plan) && plan.bridge in now.bridges
    requires forall k :: i <= k < |plan.targets| ==>
      var p := plan.targets[k];
      && (p in now.attached <==> p in host.attached && !Healed(host, links, plan, answers, p))
      && (p in now.attached ==> now.attached[p] == host.attached[p])
    ensures var (_, fault, done) := AttachFrom(now, plan, answers, i);
      && done == FirstRefusal(host, links, plan, answers, i)
      && fault == (if done < |plan.targets| then Verdict(host, links, plan, answers, done) else Fine)
    decreases |plan.targets| - i
  {
    if i < |plan.targets| && Verdict(host, links, plan, answers, i).Fine? {
      var (next, _) := AttachOne(now, plan, answers, i);
      AttachStops(host, links, plan, answers, next, i + 1);
    }
  }

  /** What the whole pass comes to. */
  lemma {:induction false} PassResult(host: Host, links: seq<Link>, plan: Plan, answers: Answers)
    requires DistinctTargets(plan) && |plan.targets| > 0 && !NoBridge(host, plan, answers)
    ensures var k := FirstRefusal(host, links, plan, answers, 0);
      var ready := host.(bridges := host.bridges + {plan.bridge});
      var healed := HealFrom(ready, links, plan, answers, 0);
      var (end, error, done) := AttachFrom(healed, plan, answers, 0);
      && Provision(host, plan, answers) == (ready, Fine)
      && done == k && error == (if k < |plan.targets| then Verdict(host, links, plan, answers, k) else Fine)
      && end.bridges == host.bridges + {plan.bridge}
      && (forall p :: p in end.attached <==>
            (p in plan.targets[..k] || (p in host.attached && !(p in plan.targets && Healed(host, links, plan, answers, p)))))
      && (forall p :: p in end.attached ==>
            end.attached[p] == if p in plan.targets[..k] then plan.network else host.attached[p])
  {
    var ready := host.(bridges := host.bridges + {plan.bridge});
    var healed := HealFrom(ready, links, plan, answers, 0);
    assert plan.bridge in host.bridges ==> ready == host;
    HealedIff(ready, links, plan, answers, 0);
    assert plan.targets[0..] == plan.targets;
    assert forall p :: Healed(ready, links, plan, answers, p) == Healed(host, links, plan, answers, p);
    AttachStops(host, links, plan, answers, healed, 0);
    AttachFromAdds(healed, plan, answers, 0);
    var k := FirstRefusal(host, links, plan, answers, 0);
    assert plan.targets[0..k] == plan.targets[..k];
  }

  /** From any state of the host: when the pass fails, and when failing leaves the
      host as it was. */
  lemma {:induction false} FailedPassRestoresIff(host: Host, links: seq<Link>, plan: Plan, answers: Answers)
    requires DistinctTargets(plan)
    ensures var pass := AttachPass(host, links, plan, answers);
      && (pass.Failed? <==> Fails(host, links, plan, answers))
      && (pass.Failed? ==> (pass.host == host <==> LeavesNoTrace(host, links, plan, answers)))
  {
    if |plan.targets| > 0 && !NoBridge(host, plan, answers) {
      PassResult(host, links, plan, answers);
      var k := FirstRefusal(host, links, plan, answers, 0);
      if k < |plan.targets| {
        if Verdict(host, links, plan, answers, k).Caught? {
          CaughtTrace(host, links, plan, answers, k);
        } else {
          UncaughtTrace(host, links, plan, answers, k);
        }
      }
    }
  }

  /** What a pass that stops at target `k` with an error it handles leaves. */
  lemma {:induction false} CaughtTrace(host: Host, links: seq<Link>, plan: Plan, answers: Answers, k: nat)
    requires DistinctTargets(plan) && !NoBridge(host, plan, answers)
    requires k == FirstRefusal(host, links, plan, answers, 0) < |plan.targets|
    requires Verdict(host, links, plan, answers, k).Caught?
    ensures var pass := AttachPass(host, links, plan, answers);
      pass.Failed? && (pass.host == host <==> LeavesNoTrace(host, links, plan, answers))
  {
    PassResult(host, links, plan, answers);
    var after := AttachPass(host, links, plan, answers).host;
    var done := plan.targets[..k];
    assert after.bridges == host.bridges;
    assert forall p :: p in after.attached <==>
      p in host.attached && p !in done && !(p in plan.targets && Healed(host, links, plan, answers, p));
    assert forall p :: p in after.attached ==> after.attached[p] == host.attached[p];
    forall i | 0 <= i < k
      ensures plan.targets[i] in done
      ensures plan.targets[i] in host.attached <==>
        Onto(host, plan, plan.targets[i]) || Healed(host, links, plan, answers, plan.targets[i])
    {
      assert done[i] == plan.targets[i];
      assert Verdict(host, links, plan, answers, i).Fine?;
    }
    if LeavesNoTrace(host, links, plan, answers) {
      assert after.attached == host.attached;
    }
  }

  /** And with any other error. */
  lemma {:induction false} UncaughtTrace(host: Host, links: seq<Link>, plan: Plan, answers: Answers, k: nat)
    requires DistinctTargets(plan) && !NoBridge(host, plan, answers)
    requires k == FirstRefusal(host, links, plan, answers, 0) < |plan.targets|
    requires Verdict(host, links, plan, answers, k).Uncaught?
    ensures var pass := AttachPass(host, links, plan, answers);
      pass.Failed? && (pass.host == host <==> LeavesNoTrace(host, links, plan, answers))
  {
    PassResult(host, links, plan, answers);
    var after := AttachPass(host, links, plan, answers).host;
    var done := plan.targets[..k];
    assert forall i :: 0 <= i < k ==> done[i] == plan.targets[i] && plan.targets[i] in done;
    if LeavesNoTrace(host, links, plan, answers) {
      assert after.attached == host.attached;
    } else if plan.bridge in host.bridges && after.attached == host.attached {
      forall i | 0 <= i < |plan.targets|
        ensures !Healed(host, links, plan, answers, plan.targets[i])
        ensures i < k ==> Onto(host, plan, plan.targets[i])
      {
      }
    }
  }

  /** Before a create that passes its duplicate checks no link wires a target. */
  lemma {:induction false} TargetsUnwired(lab: Lab, a: Endpoint, b: Endpoint, running: set<Port>, p: Port, n: int)
    requires FirstConflict(lab.links, a, b).NoConflict?
    requires p in Targets(a, b, running)
    ensures !Wired(lab.links, p, n)
  {
    NoConflictMeans(lab.links, a, b);
    CountZero(lab.links, Node(p.node, p.iface));
    assert forall k :: 0 <= k < |lab.links| ==> !Touches(lab.links[k], Node(p.node, p.iface));
  }

  /** A pass that succeeds plugs every target into the network, wherever it was
      plugged in, over a bridge that is there, and nothing else. */
  lemma {:induction false} PassPlugs(host: Host, links: seq<Link>, plan: Plan, answers: Answers)
    requires DistinctTargets(plan)
    requires AttachPass(host, links, plan, answers).Attached?
    ensures var after := AttachPass(host, links, plan, answers).host;
      && after.bridges == host.bridges + (if |plan.targets| > 0 then {plan.bridge} else {})
      && (forall p :: p in after.attached <==> p in host.attached || p in plan.targets)
      && (forall p :: p in after.attached ==>
            after.attached[p] == if p in plan.targets then plan.network else host.attached[p])
  {
    if |plan.targets| > 0 {
      assert !NoBridge(host, plan, answers);
      PassResult(host, links, plan, answers);
      assert plan.targets[..|plan.targets|] == plan.targets;
    }
  }

  /** The new links declare every interface the request names, on the new link's
      network and no other. */
  lemma {:induction false} NewLinksWire(lab: Lab, a: Endpoint, b: Endpoint, style: string, p: Port, running: set<Port>, n: int)
    requires Create(lab, a, b, style).Created?
    requires p in Targets(a, b, running)
    ensures var made := Create(lab, a, b, style); Wired(made.lab.links, p, n) <==> n == made.network
  {
    var made := Create(lab, a, b, style);
    var added := made.lab.links[|lab.links|..];
    CreatedLinks(lab, a, b, style);
    TargetsUnwired(lab, a, b, running, p, n);
    WiredSplit(lab.links, added, p, n);
    AddedWire(added, a, b, made.network, p, n);
  }

  lemma {:induction false} WiredSplit(links: seq<Link>, more: seq<Link>, p: Port, n: int)
    ensures Wired(links + more, p, n) <==> Wired(links, p, n) || Wired(more, p, n)
  {
    var all := links + more;
    if i :| 0 <= i < |links| && Wires(links[i], p, n) {
      assert all[i] == links[i];
    } else if i :| 0 <= i < |more| && Wires(more[i], p, n) {
      assert all[|links| + i] == more[i];
    }
  }

  lemma {:induction false} AddedWire(added: seq<Link>, a: Endpoint, b: Endpoint, network: int, p: Port, n: int)
    requires a.Node? && b.Node? ==> |added| == 2 && added[0].src == a && added[1].src == b
    requires a.Node? && b.Node? ==> added[0].dst == Net(network) && added[1].dst == Net(network)
    requires a.Net? || b.Net? ==> |added| == 1 && added[0].src == a && added[0].dst == b
    requires a.Net? || b.Net? ==> Net(network) == if a.Net? then a else b
    requires IsEnd(a, p) || IsEnd(b, p)
    ensures Wired(added, p, n) <==> n == network
  {
    assert Wires(added[0], p, network) || (|added| == 2 && Wires(added[1], p, network));
  }

  /** Target `i` can be had: the host attaches it, and detaches it first if it is
      plugged in elsewhere. */
  predicate CanHave(host: Host, plan: Plan, answers: Answers, i: nat)
    requires i < |plan.targets|
  {
    answers.attach(i).Fine? && (Elsewhere(host, plan, plan.targets[i]) ==> answers.heals(plan.targets[i]))
  }

  /** No interface of the plan runs, or there is a bridge and all can be had. */
  ghost predicate CanPlug(host: Host, plan: Plan, answers: Answers) {
    |plan.targets| == 0
    || (!NoBridge(host, plan, answers) && forall i :: 0 <= i < |plan.targets| ==> CanHave(host, plan, answers, i))
  }

  /** `after` has the targets plugged into the network over a bridge that is there,
      and is otherwise the same host. */
  ghost predicate Plugged(host: Host, after: Host, plan: Plan) {
    && after.bridges == host.bridges + (if |plan.targets| > 0 then {plan.bridge} else {})
    && (forall p :: p in after.attached <==> p in host.attached || p in plan.targets)
    && (forall p :: p in after.attached ==>
          after.attached[p] == if p in plan.targets then plan.network else host.attached[p])
  }

  /** Before the new link is on file no link declares a target; after, only the new
      one does.  So every target that is plugged in elsewhere is stale. */
  lemma {:induction false} VerdictOfCreate(lab: Lab, host: Host, a: Endpoint, b: Endpoint, style: string,
                                           running: set<Port>, plan: Plan, answers: Answers, i: nat)
    requires Create(lab, a, b, style).Created?
    requires plan.network == Create(lab, a, b, style).network && plan.targets == Targets(a, b, running)
    requires i < |plan.targets|
    ensures CanHave(host, plan, answers, i) <==> Verdict(host, Create(lab, a, b, style).lab.links, plan, answers, i).Fine?
  {
    var p := plan.targets[i];
    if Elsewhere(host, plan, p) {
      NewLinksWire(lab, a, b, style, p, running, host.attached[p]);
    }
  }

  /** Whatever the host is plugged into: a `create_link` that gets past the checks
      on the file succeeds exactly when its running interfaces can be plugged in,
      and then changes no other attachment.  Otherwise the file is put back, and
      the host exactly when the failing pass leaves no trace. */
  lemma {:induction false} CreateIff(lab: Lab, host: Host, a: Endpoint, b: Endpoint, style: string,
                                     running: set<Port>, naming: Naming, answers: Answers)
    requires !(a.Node? && a == b)
    ensures var (file, after, outcome) := CreateOnHost(lab, host, a, b, style, running, naming, answers);
      var made := Create(lab, a, b, style);
      if !made.Created? then outcome == Refused(made) && file == lab && after == host
      else
        var plan := PlanFor(made.network, a, b, running, naming);
        if CanPlug(host, plan, answers) then
          outcome == Done(made.link) && file == made.lab && Plugged(host, after, plan)
        else
          outcome.HostFailed? && file == lab
          && (after == host <==> LeavesNoTrace(host, made.lab.links, plan, answers))
  {
    var made := Create(lab, a, b, style);
    if made.Created? {
      var plan := PlanFor(made.network, a, b, running, naming);
      FailedPassRestoresIff(host, made.lab.links, plan, answers);
      forall i | 0 <= i < |plan.targets|
        ensures CanHave(host, plan, answers, i) <==> Verdict(host, made.lab.links, plan, answers, i).Fine?
      {
        VerdictOfCreate(lab, host, a, b, style, running, plan, answers, i);
      }
      assert CanPlug(host, plan, answers) <==> !Fails(host, made.lab.links, plan, answers);
      if CanPlug(host, plan, answers) {
        PassPlugs(host, made.lab.links, plan, answers);
      }
    }
  }

  /** Where host and file agree, no interface that a create wires is plugged in. */
  lemma {:induction false} AgreementUnplugs(lab: Lab, host: Host, a: Endpoint, b: Endpoint, running: set<Port>, p: Port)
    requires Agrees(host, lab.links)
    requires FirstConflict(lab.links, a, b).NoConflict?
    requires p in Targets(a, b, running)
    ensures p !in host.attached
  {
    if p in host.attached {
      TargetsUnwired(lab, a, b, running, p, host.attached[p]);
    }
  }

  /** The host refuses the bridge or some target. */
  ghost predicate Refuses(host: Host, plan: Plan, answers: Answers) {
    |plan.targets| > 0
    && (NoBridge(host, plan, answers) || exists i :: 0 <= i < |plan.targets| && !answers.attach(i).Fine?)
  }

  /** The bridge cannot be had, the first target refused meets an error the pass
      handles, or the very first target meets another with the bridge there. */
  ghost predicate RefusesCleanly(host: Host, plan: Plan, answers: Answers) {
    || NoBridge(host, plan, answers)
    || (exists i :: 0 <= i < |plan.targets| && answers.attach(i).Caught?
          && forall j :: 0 <= j < i ==> answers.attach(j).Fine?)
    || (answers.attach(0).Uncaught? && plan.bridge in host.bridges)
  }

  lemma {:induction false} FreeTargets(host: Host, links: seq<Link>, plan: Plan, answers: Answers)
    requires forall i :: 0 <= i < |plan.targets| ==> plan.targets[i] !in host.attached
    ensures Fails(host, links, plan, answers) <==> Refuses(host, plan, answers)
    ensures Fails(host, links, plan, answers) ==>
      (LeavesNoTrace(host, links, plan, answers) <==> RefusesCleanly(host, plan, answers))
  {
    assert forall i :: 0 <= i < |plan.targets| ==> Verdict(host, links, plan, answers, i) == answers.attach(i);
    var k := FirstRefusal(host, links, plan, answers, 0);
    if Fails(host, links, plan, answers) && !NoBridge(host, plan, answers) {
      assert k < |plan.targets|;
      assert answers.attach(k).Caught? ==> RefusesCleanly(host, plan, answers);
      assert forall i :: 0 <= i < k ==> answers.attach(i).Fine?;
    }
  }

  /** Where host and file agree, a `create_link` fails exactly when the host refuses
      the bridge or a target; the host is then left alone exactly when it refuses
      cleanly. */
  lemma {:induction false} FailedCreateRestoresIff(lab: Lab, host: Host, a: Endpoint, b: Endpoint, style: string,
                                running: set<Port>, naming: Naming, answers: Answers)
    requires Agrees(host, lab.links)
    requires !(a.Node? && a == b)
    ensures var (file, after, outcome) := CreateOnHost(lab, host, a, b, style, running, naming, answers);
      var made := Create(lab, a, b, style);
      if !made.Created? then outcome == Refused(made) && file == lab && after == host
      else
        var plan := PlanFor(made.network, a, b, running, naming);
        && (outcome.HostFailed? <==> Refuses(host, plan, answers))
        && (outcome.HostFailed? ==> file == lab && (after == host <==> RefusesCleanly(host, plan, answers)))
  {
    var made := Create(lab, a, b, style);
    if made.Created? {
      var plan := PlanFor(made.network, a, b, running, naming);
      forall i | 0 <= i < |plan.targets|
        ensures plan.targets[i] !in host.attached
      {
        AgreementUnplugs(lab, host, a, b, running, plan.targets[i]);
      }
      FreeTargets(host, made.lab.links, plan, answers);
      FailedPassRestoresIff(host, made.lab.links, plan, answers);
    }
  }

  /** The host attaches one interface and then contends on a node's lock. */
  function SecondContends(i: nat): Fault {
    if i == 1 then Uncaught else Fine
  }

  /** Whenever two running interfaces are joined and the second attach meets an
      error the pass does not handle, the first interface and the bridge are left
      behind with no link that declares them. */
  lemma {:induction false} ContentionLeavesTrace(lab: Lab, host: Host, a: Endpoint, b: Endpoint, style: string,
                                                 running: set<Port>, naming: Naming)
    requires Agrees(host, lab.links) && NoDangling(lab)
    requires a.Node? && b.Node? && a != b && PortOf(a) in running && PortOf(b) in running
    requires FirstConflict(lab.links, a, b).NoConflict?
    requires NextNetworkId(lab.networks) !in naming.hostOwned
    ensures var answers := Answers(Fine, _ => false, SecondContends);
      var (file, after, outcome) := CreateOnHost(lab, host, a, b, style, running, naming, answers);
      && outcome == HostFailed(Uncaught) && file == lab
      && after.attached == host.attached[PortOf(a) := NextNetworkId(lab.networks)]
      && naming.bridge(NextNetworkId(lab.networks)) in after.bridges
      && !Agrees(after, file.links)
  {
    var answers := Answers(Fine, _ => false, SecondContends);
    var made := Create(lab, a, b, style);
    var plan := PlanFor(made.network, a, b, running, naming);
    assert plan.targets == [PortOf(a), PortOf(b)];
    AgreementUnplugs(lab, host, a, b, running, PortOf(a));
    AgreementUnplugs(lab, host, a, b, running, PortOf(b));
    SecondStops(host, made.lab.links, plan, answers);
    NotDeclared(lab, PortOf(a));
    var after := CreateOnHost(lab, host, a, b, style, running, naming, answers).1;
    assert after.attached[PortOf(a)] == made.network;
  }

  /** A pass over two free interfaces that stops unhandled at the second. */
  lemma {:induction false} SecondStops(host: Host, links: seq<Link>, plan: Plan, answers: Answers)
    requires |plan.targets| == 2 && plan.targets[0] != plan.targets[1]
    requires plan.targets[0] !in host.attached && plan.targets[1] !in host.attached
    requires !plan.hostOwned && answers.bridgeAdd.Fine?
    requires answers.attach(0).Fine? && answers.attach(1).Uncaught?
    ensures AttachPass(host, links, plan, answers) ==
      Failed(Host(host.bridges + {plan.bridge}, host.attached[plan.targets[0] := plan.network]), Uncaught)
  {
    PassResult(host, links, plan, answers);
    assert FirstRefusal(host, links, plan, answers, 0) == 1;
    assert plan.targets[..1] == [plan.targets[0]];
    var after := AttachPass(host, links, plan, answers).host;
    assert after.attached == host.attached[plan.targets[0] := plan.network];
  }

  /** No link of a file without dangling ends is on the next network. */
  lemma {:induction false} NotDeclared(lab: Lab, port: Port)
    requires NoDangling(lab)
    ensures !Wired(lab.links, port, NextNetworkId(lab.networks))
  {
    FreshIdUnused(lab);
    CountZero(lab.links, Net(NextNetworkId(lab.networks)));
  }

  lemma {:induction false} StillWired(lab: Lab, a: Endpoint, b: Endpoint, style: string, p: Port, n: int)
    requires Create(lab, a, b, style).Created? && Wired(lab.links, p, n)
    ensures Wired(Create(lab, a, b, style).lab.links, p, n)
  {
    CreatedLinks(lab, a, b, style);
    WiredSplit(lab.links, Create(lab, a, b, style).lab.links[|lab.links|..], p, n);
  }

  /** After a link is made host and file agree exactly when every attachment of
      another interface is declared: always when they agreed before. */
  lemma {:induction false} SuccessfulCreateAgrees(lab: Lab, host: Host, a: Endpoint, b: Endpoint, style: string,
                               running: set<Port>, naming: Naming, answers: Answers)
    requires !(a.Node? && a == b)
    requires CreateOnHost(lab, host, a, b, style, running, naming, answers).2.Done?
    ensures var (file, after, _) := CreateOnHost(lab, host, a, b, style, running, naming, answers);
      && (Agrees(after, file.links) <==>
            forall p :: p in host.attached && p !in Targets(a, b, running) ==> Wired(file.links, p, host.attached[p]))
      && (Agrees(host, lab.links) ==> Agrees(after, file.links))
  {
    CreateIff(lab, host, a, b, style, running, naming, answers);
    var made := Create(lab, a, b, style);
    var after := CreateOnHost(lab, host, a, b, style, running, naming, answers).1;
    var targets := PlanFor(made.network, a, b, running, naming).targets;
    assert targets == Targets(a, b, running);
    forall p | p in targets
      ensures Wired(made.lab.links, p, made.network)
    {
      NewLinksWire(lab, a, b, style, p, running, made.network);
    }
    forall p | p in host.attached && Wired(lab.links, p, host.attached[p])
      ensures Wired(made.lab.links, p, host.attached[p])
    {
      StillWired(lab, a, b, style, p, host.attached[p]);
    }
    assert forall p :: p in after.attached <==> p in host.attached || p in targets;
  }
}
