/** Callers deleting links concurrently, with links being made and addresses
    being handed out in between.  One step is one lock operation or one
    read or write of lab.json under its lock. */
module DeleteRace {
  import opened Collections

  /** A link as a caller reads it: which incarnation it is, the interface whose
      lock guards it, and the address it records. */
  datatype Rec = Rec(serial: nat, key: int, ip: Option<int>)

  /** How far a `delete_link` call is. */
  datatype Phase =
    | Waiting
    | Holding
    | Probed(rec: Rec)
    | Detached(rec: Rec)
    | Freed(rec: Rec)
    | Announcing

  /** `key` is the lock the first, unlocked look at the link told it to take. */
  datatype Caller = Caller(target: int, key: int, phase: Phase)

  /** `pairs` joins the two halves of each implicit bridge; `live` has the
      interfaces whose node has a runtime record with a detach to run; `born` is
      the interface of each incarnation, in the order they were made.  `holder`
      is the incarnation an address was last handed to; `stolen` is set when a
      delete frees an address that is another's. */
  datatype State = State(links: map<int, Rec>, pairs: map<int, int>, used: set<int>, holder: map<int, nat>,
                         live: set<int>, owner: map<int, nat>, callers: map<nat, Caller>, born: seq<int>,
                         removals: seq<nat>, stolen: bool)

  const START := State(map[], map[], {}, map[], {}, map[], map[], [], [], false)

  datatype Step =
    | Create(key: int, other: Option<int>)  // a link on a network, or both halves over a new bridge
    | Promote(id: int)                      // a third end makes the bridge an ordinary network
    | Power(key: int, on: bool)             // the interface's node gains or loses its runtime record
    | Assign(id: int, ip: int)              // an address is reserved for a link and recorded in it
    | Probe(who: nat, target: int)          // first look, no lock
    | Take(who: nat)
    | GiveUp(who: nat)
    | Reprobe(who: nat)                     // second look, lock held
    | Detach(who: nat)
    | Fail(who: nat)                        // the detach or the release raises
    | Free(who: nat)                        // release the recorded address
    | Remove(who: nat)                      // take the link out of lab.json, and its other half
    | LateFail(who: nat)                    // anything raises between the release and the write
    | Finish(who: nat)                      // events sent, locks given back

  /** What may happen.  `parallel`: the bodies of several calls interleave step by
      step, as on several threads; without it they run on one event loop, whose
      calls are not suspended between the second look and the write.  `reuse`: a
      new link takes the id a delete is aimed at.  `lateFailure`: a call fails
      after it released the address. */
  datatype Policy = Policy(parallel: bool, reuse: bool, lateFailure: bool)

  ghost function NextId(links: map<int, Rec>): int {
    NextKey(links.Keys)
  }

  predicate Aimed(s: State, who: nat, id: int) {
    who in s.callers && s.callers[who].target == id
  }

  predicate Wired(s: State, id: int, key: int) {
    id in s.links && s.links[id].key == key
  }

  /** No link is on the interface and nobody holds its lock. */
  ghost predicate Idle(s: State, key: int) {
    key !in s.owner && forall id :: !Wired(s, id, key)
  }

  predicate HasRec(c: Caller) {
    c.phase.Probed? || c.phase.Detached? || c.phase.Freed?
  }

  /** A caller between its second look and the end of its write. */
  predicate MidBody(s: State, who: nat) {
    who in s.callers && HasRec(s.callers[who])
  }

  predicate Unfreed(c: Caller) {
    c.phase.Probed? || c.phase.Detached?
  }

  predicate Critical(c: Caller) {
    !c.phase.Waiting?
  }

  /** The caller a step belongs to. */
  function Actor(step: Step): Option<nat> {
    match step
    case Create(_, _) => None
    case Promote(_) => None
    case Power(_, _) => None
    case Assign(_, _) => None
    case Probe(who, _) => Some(who)
    case Take(who) => Some(who)
    case GiveUp(who) => Some(who)
    case Reprobe(who) => Some(who)
    case Detach(who) => Some(who)
    case Fail(who) => Some(who)
    case Free(who) => Some(who)
    case Remove(who) => Some(who)
    case LateFail(who) => Some(who)
    case Finish(who) => Some(who)
  }

  /** The detach asserts that somebody holds the lock of the interface it works
      on; an interface without a runtime record has no detach to run. */
  predicate DetachRuns(s: State, rec: Rec) {
    rec.key in s.live ==> rec.key in s.owner
  }

  ghost predicate Possible(s: State, step: Step) {
    match step
    case Create(key, other) => Idle(s, key) && (other.Some? ==> other.value != key && Idle(s, other.value))
    case Promote(id) => id in s.pairs
    case Power(_, _) => true
    case Assign(id, ip) =>
      id in s.links && s.links[id].ip.None? && s.links[id].key !in s.owner && ip !in s.used
    case Probe(who, target) => who !in s.callers && target in s.links
    case Take(who) => who in s.callers && s.callers[who].phase.Waiting? && s.callers[who].key !in s.owner
    case GiveUp(who) => who in s.callers && s.callers[who].phase.Waiting?
    case Reprobe(who) => who in s.callers && s.callers[who].phase.Holding?
    case Detach(who) =>
      who in s.callers && s.callers[who].phase.Probed? && DetachRuns(s, s.callers[who].phase.rec)
    case Fail(who) => who in s.callers && Unfreed(s.callers[who])
    case Free(who) => who in s.callers && s.callers[who].phase.Detached?
    case Remove(who) => who in s.callers && s.callers[who].phase.Freed?
    case LateFail(who) => who in s.callers && s.callers[who].phase.Freed?
    case Finish(who) => who in s.callers && s.callers[who].phase.Announcing?
  }

  /** On one event loop nobody else moves while a caller is in its body, though
      nodes start and stop on their own. */
  ghost predicate Scheduled(s: State, step: Step) {
    step.Power? || forall who: nat :: MidBody(s, who) ==> Actor(step) == Some(who)
  }

  /** The ids a create hands out are not aimed at by a delete in progress. */
  ghost predicate FreshIds(s: State) {
    forall who :: !Aimed(s, who, NextId(s.links)) && !Aimed(s, who, NextId(s.links) + 1)
  }

  ghost predicate Allowed(p: Policy, s: State, step: Step) {
    && (p.parallel || Scheduled(s, step))
    && (step.Create? ==> p.reuse || FreshIds(s))
    && (step.LateFail? ==> p.lateFailure)
  }

  /** The call returns or raises: its lock is given back. */
  function Ended(s: State, who: nat): State
    requires who in s.callers
  {
    s.(owner := Without(s.owner, s.callers[who].key), callers := Without(s.callers, who))
  }

  function At(s: State, who: nat, phase: Phase): State
    requires who in s.callers
  {
    s.(callers := s.callers[who := s.callers[who].(phase := phase)])
  }

  /** The address is another link's: in use, and last handed to a different one. */
  predicate Foreign(s: State, rec: Rec) {
    rec.ip.Some? && rec.ip.value in s.used
    && rec.ip.value in s.holder && s.holder[rec.ip.value] != rec.serial
  }

  /** What releasing the recorded address does. */
  function Released(s: State, rec: Rec): State {
    s.(used := if rec.ip.Some? then s.used - {rec.ip.value} else s.used, stolen := s.stolen || Foreign(s, rec))
  }

  /** The bridge of a link, if it has one, is no longer one of two halves. */
  function Unpaired(s: State, id: int): State {
    if id in s.pairs then s.(pairs := Without(Without(s.pairs, s.pairs[id]), id)) else s
  }

  /** One link off the file. */
  function Dropped(s: State, id: int): State
    requires id in s.links
  {
    s.(links := Without(s.links, id), removals := s.removals + [s.links[id].serial])
  }

  /** Remove a link, and the other half of its bridge, whose lock nobody takes. */
  function Removed(s: State, id: int): State
    requires id in s.links
  {
    var t := Dropped(Unpaired(s, id), id);
    if id in s.pairs && s.pairs[id] in t.links then Dropped(t, s.pairs[id]) else t
  }

  /** One link more on the file. */
  function Added(s: State, id: int, key: int): State {
    s.(links := s.links[id := Rec(|s.born|, key, None)], born := s.born + [key])
  }

  /** A new link, or the two halves of one. */
  function Made(s: State, id: int, key: int, other: Option<int>): State {
    var t := Added(s, id, key);
    if other.None? then t
    else
      Joined(Added(t, id + 1, other.value), id, id + 1)
  }

  /** The two links are halves of one bridge. */
  function Joined(s: State, a: int, b: int): State {
    s.(pairs := s.pairs[a := b][b := a])
  }

  ghost function Perform(s: State, step: Step): State
    requires Possible(s, step)
  {
    match step
    case Create(key, other) => Made(s, NextId(s.links), key, other)
    case Promote(id) => Unpaired(s, id)
    case Power(key, on) => s.(live := if on then s.live + {key} else s.live - {key})
    case Assign(id, ip) =>
      s.(links := s.links[id := s.links[id].(ip := Some(ip))], used := s.used + {ip},
         holder := s.holder[ip := s.links[id].serial])
    case Probe(who, target) =>
      s.(callers := s.callers[who := Caller(target, s.links[target].key, Waiting)])
    case Take(who) => At(s, who, Holding).(owner := s.owner[s.callers[who].key := who])
    case GiveUp(who) => s.(callers := Without(s.callers, who))
    case Reprobe(who) =>
      var id := s.callers[who].target;
      if id in s.links then At(s, who, Probed(s.links[id])) else Ended(s, who)
    case Detach(who) => At(s, who, Detached(s.callers[who].phase.rec))
    case Fail(who) => Ended(s, who)
    case Free(who) =>
      var rec := s.callers[who].phase.rec;
      At(Released(s, rec), who, Freed(rec))
    case Remove(who) =>
      var id := s.callers[who].target;
      if id in s.links then At(Removed(s, id), who, Announcing) else Ended(s, who)
    case LateFail(who) => Ended(s, who)
    case Finish(who) => Ended(s, who)
  }

  ghost function Apply(p: Policy, s: State, step: Step): State {
    if Possible(s, step) && Allowed(p, s, step) then Perform(s, step) else s
  }

  ghost function Run(p: Policy, s: State, steps: seq<Step>): State
    decreases |steps|
  {
    if |steps| == 0 then s else Run(p, Apply(p, s, steps[0]), steps[1..])
  }

  // ---------------------------------------------------------------------
  // What every run keeps
  // ---------------------------------------------------------------------

  /** The halves of a bridge point at each other and are on file. */
  ghost predicate PairsOk(s: State) {
    forall id :: id in s.pairs ==>
      && id in s.links && s.pairs[id] in s.links && s.pairs[id] != id
      && s.pairs[id] in s.pairs && s.pairs[s.pairs[id]] == id
  }

  ghost predicate SerialsOk(s: State) {
    && (forall id :: id in s.links ==> s.links[id].serial < |s.born| && s.born[s.links[id].serial] == s.links[id].key)
    && (forall a, b :: a in s.links && b in s.links && a != b ==> s.links[a].serial != s.links[b].serial)
    && (forall i :: 0 <= i < |s.removals| ==> s.removals[i] < |s.born|)
    && (forall i, id :: 0 <= i < |s.removals| && id in s.links ==> s.removals[i] != s.links[id].serial)
    && (forall i, j :: 0 <= i < j < |s.removals| ==> s.removals[i] != s.removals[j])
  }

  lemma {:induction false} SerialsSame(s: State, t: State)
    requires SerialsOk(s) && t.removals == s.removals && t.born == s.born && t.links.Keys == s.links.Keys
    requires forall id :: id in s.links ==> t.links[id].serial == s.links[id].serial && t.links[id].key == s.links[id].key
    ensures SerialsOk(t)
  {
  }

  lemma {:induction false} SerialsAdded(s: State, id: int, key: int)
    requires SerialsOk(s) && id !in s.links
    ensures SerialsOk(Added(s, id, key))
  {
    var t := Added(s, id, key);
    assert forall n :: 0 <= n < |s.born| ==> t.born[n] == s.born[n];
  }

  lemma {:induction false} SerialsDropped(s: State, id: int)
    requires SerialsOk(s) && id in s.links
    ensures SerialsOk(Dropped(s, id))
  {
    var t := Dropped(s, id);
    assert forall i :: 0 <= i < |s.removals| ==> t.removals[i] == s.removals[i];
  }

  lemma {:induction false} SerialsRemoved(s: State, id: int)
    requires SerialsOk(s) && id in s.links
    ensures SerialsOk(Removed(s, id))
  {
    var u := Unpaired(s, id);
    SerialsSame(s, u);
    SerialsDropped(u, id);
    var t := Dropped(u, id);
    if id in s.pairs && s.pairs[id] in t.links {
      SerialsDropped(t, s.pairs[id]);
    }
  }

  lemma {:induction false} SerialsMade(s: State, id: int, key: int, other: Option<int>)
    requires SerialsOk(s) && id !in s.links && id + 1 !in s.links
    ensures SerialsOk(Made(s, id, key, other))
  {
    SerialsAdded(s, id, key);
    if other.Some? {
      SerialsAdded(Added(s, id, key), id + 1, other.value);
      SerialsSame(Added(Added(s, id, key), id + 1, other.value), Made(s, id, key, other));
    }
  }

  lemma {:induction false} SerialsStep(s: State, step: Step)
    requires SerialsOk(s) && Possible(s, step)
    ensures SerialsOk(Perform(s, step))
  {
    var t := Perform(s, step);
    match step
    case Create(key, other) => SerialsMade(s, NextId(s.links), key, other);
    case Remove(who) =>
      var id := s.callers[who].target;
      if id in s.links {
        SerialsRemoved(s, id);
        SerialsSame(Removed(s, id), t);
      } else {
        SerialsSame(s, t);
      }
    case _ => SerialsSame(s, t);
  }

  lemma {:induction false} UnpairedOk(s: State, id: int)
    requires PairsOk(s)
    ensures PairsOk(Unpaired(s, id)) && id !in Unpaired(s, id).pairs
    ensures id in s.pairs ==> s.pairs[id] !in Unpaired(s, id).pairs
  {
  }

  lemma {:induction false} DroppedPairs(s: State, id: int)
    requires PairsOk(s) && id in s.links && id !in s.pairs
    ensures PairsOk(Dropped(s, id))
  {
  }

  lemma {:induction false} PairsRemoved(s: State, id: int)
    requires PairsOk(s) && id in s.links
    ensures PairsOk(Removed(s, id))
  {
    UnpairedOk(s, id);
    var u := Unpaired(s, id);
    DroppedPairs(u, id);
    var t := Dropped(u, id);
    if id in s.pairs && s.pairs[id] in t.links {
      DroppedPairs(t, s.pairs[id]);
    }
  }

  /** Deleting either half of a bridge takes out both halves and nothing else, and
      both are counted as removed. */
  lemma {:induction false} RemovedTakesPair(s: State, id: int)
    requires PairsOk(s) && id in s.links
    ensures var t := Removed(s, id);
      && t.links.Keys == s.links.Keys - {id} - (if id in s.pairs then {s.pairs[id]} else {})
      && t.removals == s.removals + [s.links[id].serial] + (if id in s.pairs then [s.links[s.pairs[id]].serial] else [])
  {
  }

  lemma {:induction false} PairsSame(s: State, t: State)
    requires PairsOk(s) && t.pairs == s.pairs && t.links.Keys >= s.links.Keys
    ensures PairsOk(t)
  {
  }

  lemma {:induction false} PairsJoined(s: State, a: int, b: int)
    requires PairsOk(s) && a != b && a in s.links && b in s.links && a !in s.pairs && b !in s.pairs
    ensures PairsOk(Joined(s, a, b))
  {
  }

  lemma {:induction false} PairsMade(s: State, id: int, key: int, other: Option<int>)
    requires PairsOk(s) && id !in s.links && id + 1 !in s.links
    ensures PairsOk(Made(s, id, key, other))
  {
    PairsSame(s, Added(s, id, key));
    if other.Some? {
      var u := Added(Added(s, id, key), id + 1, other.value);
      PairsSame(s, u);
      PairsJoined(u, id, id + 1);
    }
  }

  lemma {:induction false} PairsStep(s: State, step: Step)
    requires PairsOk(s) && Possible(s, step)
    ensures PairsOk(Perform(s, step))
  {
    var t := Perform(s, step);
    match step
    case Create(key, other) => PairsMade(s, NextId(s.links), key, other);
    case Promote(id) => UnpairedOk(s, id);
    case Remove(who) =>
      var id := s.callers[who].target;
      if id in s.links {
        PairsRemoved(s, id);
        PairsSame(Removed(s, id), t);
      }
    case _ => PairsSame(s, t);
  }

  lemma {:induction false} FileRun(p: Policy, s: State, steps: seq<Step>)
    requires PairsOk(s) && SerialsOk(s)
    ensures PairsOk(Run(p, s, steps)) && SerialsOk(Run(p, s, steps))
    decreases |steps|
  {
    if |steps| > 0 {
      if Possible(s, steps[0]) {
        PairsStep(s, steps[0]);
        SerialsStep(s, steps[0]);
      }
      FileRun(p, Apply(p, s, steps[0]), steps[1..]);
    }
  }

  /** Whatever is allowed to happen, each link incarnation is removed once at
      most, by a delete of its own or of its other half, and is not on file
      afterwards; and a delete takes out nothing but a link and its other half. */
  lemma {:induction false} RemovedOnce(p: Policy, steps: seq<Step>)
    ensures var s := Run(p, START, steps);
      && (forall i, j :: 0 <= i < j < |s.removals| ==> s.removals[i] != s.removals[j])
      && (forall i, id :: 0 <= i < |s.removals| && id in s.links ==> s.links[id].serial != s.removals[i])
      && PairsOk(s)
  {
    FileRun(p, START, steps);
  }

  // ---------------------------------------------------------------------
  // Locks and addresses
  // ---------------------------------------------------------------------

  /** A caller past its wait owns the lock it asked for. */
  predicate Locked(s: State, who: nat) {
    who in s.callers && Critical(s.callers[who]) ==>
      s.callers[who].key in s.owner && s.owner[s.callers[who].key] == who
  }

  /** The recorded address is reserved in the link's name. */
  predicate Reserved(s: State, rec: Rec) {
    rec.ip.Some? ==> rec.ip.value in s.used && rec.ip.value in s.holder && s.holder[rec.ip.value] == rec.serial
  }

  predicate Freeing(s: State, who: nat, id: int) {
    who in s.callers && s.callers[who].target == id && s.callers[who].phase.Freed?
  }

  /** A link's address is reserved in its name, unless its delete has just given
      it back. */
  ghost predicate AddressOk(s: State, id: int) {
    id in s.links && (forall who :: !Freeing(s, who, id)) ==> Reserved(s, s.links[id])
  }

  /** What both ways of running keep. */
  ghost predicate Base(s: State) {
    && (forall who :: Locked(s, who))
    && (forall id :: AddressOk(s, id))
    && SerialsOk(s)
    && !s.stolen
  }

  /** On one event loop: one body at a time, and what it read is on file. */
  ghost predicate OneBody(s: State) {
    && (forall who :: MidBody(s, who) ==>
          var c := s.callers[who];
          c.target in s.links && s.links[c.target] == c.phase.rec)
    && (forall a, b :: MidBody(s, a) && MidBody(s, b) ==> a == b)
  }

  /** On several threads, without reuse: what a body read is still so or the link
      has gone with its other half, and its address is not another's. */
  ghost predicate Current(s: State, who: nat) {
    who in s.callers ==>
      var c := s.callers[who];
      && (c.target in s.links ==> s.links[c.target].key == c.key)
      && (HasRec(c) ==> StillMine(s, c.target, c.key, c.phase.rec))
      && (Unfreed(c) ==> Reserved(s, c.phase.rec))
  }

  /** The record is the stored one, or its link is off the file for good. */
  ghost predicate StillMine(s: State, target: int, key: int, rec: Rec) {
    && rec.serial < |s.born| && s.born[rec.serial] == key == rec.key
    && (target in s.links ==> s.links[target] == rec)
    && forall id :: id in s.links && s.links[id].serial == rec.serial ==> id == target
  }

  ghost predicate Inv(p: Policy, s: State) {
    Base(s) && if p.parallel then forall who :: Current(s, who) else OneBody(s)
  }

  /** The policies under which nothing is stolen. */
  predicate Safe(p: Policy) {
    !p.lateFailure && !(p.parallel && p.reuse)
  }

  // ---------------------------------------------------------------------
  // Steps that touch the file
  // ---------------------------------------------------------------------

  lemma {:induction false} AddressesSame(s: State, t: State)
    requires forall id :: AddressOk(s, id)
    requires t.used == s.used && t.holder == s.holder && t.callers == s.callers
    requires forall id :: id in t.links ==> t.links[id].ip.None? || (id in s.links && t.links[id] == s.links[id])
    ensures forall id :: AddressOk(t, id)
  {
    forall id: int
      ensures AddressOk(t, id)
    {
      assert AddressOk(s, id);
      assert forall who: nat :: Freeing(t, who, id) == Freeing(s, who, id);
    }
  }

  /** The links made are the only ones changed. */
  lemma {:induction false} MadeLinks(s: State, id: int, key: int, other: Option<int>)
    requires id !in s.links && id + 1 !in s.links
    ensures var t := Made(s, id, key, other);
      && t == s.(links := t.links, pairs := t.pairs, born := t.born)
      && (forall x :: x in s.links ==> x in t.links && t.links[x] == s.links[x])
      && (forall x :: x in t.links && x !in s.links ==>
            (x == id || x == id + 1) && t.links[x].ip.None? && t.links[x].serial >= |s.born|)
      && |t.born| > |s.born| && forall n :: 0 <= n < |s.born| ==> t.born[n] == s.born[n]
  {
  }

  lemma {:induction false} CreateKeeps(p: Policy, s: State, key: int, other: Option<int>)
    requires Safe(p) && Inv(p, s) && Possible(s, Create(key, other)) && Allowed(p, s, Create(key, other))
    ensures Inv(p, Perform(s, Create(key, other)))
  {
    var id := NextId(s.links);
    var t := Made(s, id, key, other);
    SerialsMade(s, id, key, other);
    MadeLinks(s, id, key, other);
    CreateBase(s, t);
    if p.parallel {
      forall who: nat ensures Current(t, who) {
        assert !Aimed(s, who, id) && !Aimed(s, who, id + 1);
        CreateCurrent(s, t, who);
      }
    } else {
      assert forall who: nat :: !MidBody(s, who) && MidBody(t, who) == MidBody(s, who);
    }
  }

  lemma {:induction false} CreateBase(s: State, t: State)
    requires Base(s) && SerialsOk(t) && t == s.(links := t.links, pairs := t.pairs, born := t.born)
    requires forall x :: x in t.links ==> t.links[x].ip.None? || (x in s.links && t.links[x] == s.links[x])
    ensures Base(t)
  {
    AddressesSame(s, t);
    forall who: nat ensures Locked(t, who) { assert Locked(s, who); }
  }

  lemma {:induction false} CreateCurrent(s: State, t: State, who: nat)
    requires Current(s, who) && t == s.(links := t.links, pairs := t.pairs, born := t.born)
    requires |t.born| > |s.born| && forall n :: 0 <= n < |s.born| ==> t.born[n] == s.born[n]
    requires forall x :: x in s.links ==> x in t.links && t.links[x] == s.links[x]
    requires forall x :: x in t.links && x !in s.links ==> !Aimed(s, who, x) && t.links[x].serial >= |s.born|
    ensures Current(t, who)
  {
  }

  lemma {:induction false} AssignKeeps(p: Policy, s: State, id: int, ip: int)
    requires Inv(p, s) && Possible(s, Assign(id, ip)) && Allowed(p, s, Assign(id, ip))
    ensures Inv(p, Perform(s, Assign(id, ip)))
  {
    var t := Perform(s, Assign(id, ip));
    SerialsSame(s, t);
    forall who: nat ensures Locked(t, who) { assert Locked(s, who); }
    forall x: int ensures AddressOk(t, x) {
      assert AddressOk(s, x);
      assert forall who: nat :: Freeing(t, who, x) == Freeing(s, who, x);
    }
    if p.parallel {
      forall who: nat ensures Current(t, who) { assert Current(s, who) && Locked(s, who); }
    } else {
      assert forall who: nat :: !MidBody(s, who) && MidBody(t, who) == MidBody(s, who);
    }
  }

  /** Only the pairing or the power of interfaces changes. */
  lemma {:induction false} AsideKeeps(p: Policy, s: State, t: State)
    requires Inv(p, s) && t == s.(pairs := t.pairs, live := t.live)
    ensures Inv(p, t)
  {
    SerialsSame(s, t);
    AddressesSame(s, t);
    forall who: nat ensures Locked(t, who) && MidBody(t, who) == MidBody(s, who) { assert Locked(s, who); }
    if p.parallel {
      forall who: nat ensures Current(t, who) { assert Current(s, who); }
    }
  }

  // ---------------------------------------------------------------------
  // Steps of a caller
  // ---------------------------------------------------------------------

  /** A step that changes one caller, not into or out of the last phase of a
      body, and at most the lock of that caller. */
  ghost predicate Quiet(s: State, t: State, who: nat) {
    && t == s.(callers := t.callers, owner := t.owner)
    && (forall w: nat :: w != who ==> (w in t.callers <==> w in s.callers) && (w in s.callers ==> t.callers[w] == s.callers[w]))
    && (forall w: nat :: Locked(t, w))
    && (who in s.callers ==> !s.callers[who].phase.Freed?)
    && (who in t.callers ==> !t.callers[who].phase.Freed?)
  }

  lemma {:induction false} QuietKeepsBase(s: State, t: State, who: nat)
    requires Base(s) && Quiet(s, t, who)
    ensures Base(t)
  {
    SerialsSame(s, t);
    forall id: int ensures AddressOk(t, id) {
      assert AddressOk(s, id);
      assert forall w: nat :: Freeing(t, w, id) == Freeing(s, w, id);
    }
  }

  /** Taking or giving up a lock disturbs nobody else's. */
  lemma {:induction false} LocksKept(s: State, who: nat, step: Step)
    requires Possible(s, step) && Actor(step) == Some(who) && forall w: nat :: Locked(s, w)
    ensures forall w: nat :: Locked(Perform(s, step), w)
  {
    var t := Perform(s, step);
    forall w: nat
      ensures Locked(t, w)
    {
      assert Locked(s, w) && Locked(s, who);
    }
  }

  predicate IsQuiet(step: Step) {
    step.Probe? || step.Take? || step.GiveUp? || step.Reprobe? || step.Detach? || step.Fail? || step.Finish?
  }

  lemma {:induction false} QuietStep(s: State, step: Step)
    requires Base(s) && Possible(s, step) && IsQuiet(step)
    ensures Quiet(s, Perform(s, step), Actor(step).value)
  {
    LocksKept(s, Actor(step).value, step);
  }

  lemma {:induction false} QuietCurrent(s: State, step: Step, w: nat)
    requires Base(s) && (forall x :: Current(s, x)) && Possible(s, step) && IsQuiet(step)
    ensures Current(Perform(s, step), w)
  {
    var who := Actor(step).value;
    assert Current(s, w) && Current(s, who);
    if w == who && step.Reprobe? && s.callers[who].target in s.links {
      ReadsReserved(s, who);
    }
  }

  lemma {:induction false} QuietOneBody(s: State, step: Step)
    requires OneBody(s) && Possible(s, step) && Scheduled(s, step) && IsQuiet(step)
    ensures OneBody(Perform(s, step))
  {
    var who, t := Actor(step).value, Perform(s, step);
    assert forall w: nat :: w != who ==> MidBody(t, w) == MidBody(s, w);
    assert forall w: nat :: w != who ==> !MidBody(s, w);
    if MidBody(t, who) && !step.Reprobe? {
      assert MidBody(s, who);
    }
  }

  lemma {:induction false} QuietKeeps(p: Policy, s: State, step: Step)
    requires Inv(p, s) && Possible(s, step) && Allowed(p, s, step) && IsQuiet(step)
    ensures Inv(p, Perform(s, step))
  {
    QuietStep(s, step);
    QuietKeepsBase(s, Perform(s, step), Actor(step).value);
    if p.parallel {
      forall w: nat ensures Current(Perform(s, step), w) {
        QuietCurrent(s, step, w);
      }
    } else {
      QuietOneBody(s, step);
    }
  }

  /** At a second look nobody is giving the link's address back. */
  lemma {:induction false} ReadsReserved(s: State, who: nat)
    requires Base(s) && forall w :: Current(s, w)
    requires who in s.callers && s.callers[who].phase.Holding? && s.callers[who].target in s.links
    ensures Reserved(s, s.links[s.callers[who].target])
  {
    var id := s.callers[who].target;
    forall w: nat
      ensures !Freeing(s, w, id)
    {
      assert Locked(s, w) && Locked(s, who) && Current(s, w) && Current(s, who);
    }
    assert AddressOk(s, id);
  }

  /** The address a body is about to free is its own link's. */
  lemma {:induction false} FreesOwn(p: Policy, s: State, who: nat)
    requires Inv(p, s) && Possible(s, Free(who))
    ensures Reserved(s, s.callers[who].phase.rec)
  {
    var c := s.callers[who];
    if p.parallel {
      assert Current(s, who);
    } else {
      assert MidBody(s, who);
      forall w: nat
        ensures !Freeing(s, w, c.target)
      {
        assert Freeing(s, w, c.target) ==> MidBody(s, w);
      }
      assert AddressOk(s, c.target);
    }
  }

  lemma {:induction false} FreeKeeps(p: Policy, s: State, who: nat)
    requires Inv(p, s) && Possible(s, Free(who)) && Allowed(p, s, Free(who))
    ensures Inv(p, Perform(s, Free(who)))
  {
    var c, t := s.callers[who], Perform(s, Free(who));
    var rec := c.phase.rec;
    FreesOwn(p, s, who);
    SerialsSame(s, t);
    LocksKept(s, who, Free(who));
    assert MidBody(s, who) && Freeing(t, who, c.target);
    assert p.parallel ==> Current(s, who);
    forall id: int ensures AddressOk(t, id) {
      assert AddressOk(s, id);
      if id != c.target {
        assert forall w: nat :: Freeing(t, w, id) == Freeing(s, w, id);
        assert id in s.links ==> s.links[id].serial != rec.serial;
      }
    }
    if p.parallel {
      forall w: nat ensures Current(t, w) {
        assert Current(s, w) && Locked(s, w) && Locked(s, who);
      }
    } else {
      assert forall w: nat :: MidBody(t, w) == MidBody(s, w);
    }
  }

  /** A delete takes its link off the file and changes no link that stays. */
  lemma {:induction false} RemovedLinks(s: State, id: int)
    requires id in s.links
    ensures var t := Removed(s, id);
      && t == s.(links := t.links, pairs := t.pairs, removals := t.removals)
      && id !in t.links
      && forall x :: x in t.links ==> x in s.links && t.links[x] == s.links[x]
  {
  }

  /** A body that has done its write is no longer freeing anything. */
  lemma {:induction false} WrittenAddresses(s: State, who: nat, t: State)
    requires (forall id :: AddressOk(s, id)) && who in s.callers && t.used == s.used && t.holder == s.holder
    requires forall x :: x in t.links ==> x in s.links && t.links[x] == s.links[x]
    requires s.callers[who].target !in t.links
    requires forall w: nat :: w != who ==> (w in t.callers <==> w in s.callers) && (w in s.callers ==> t.callers[w] == s.callers[w])
    ensures forall id :: AddressOk(t, id)
  {
    forall id: int ensures AddressOk(t, id) {
      assert AddressOk(s, id);
      if id in t.links {
        assert forall w: nat :: Freeing(s, w, id) ==> Freeing(t, w, id);
      }
    }
  }

  lemma {:induction false} FewerLinksCurrent(s: State, t: State, w: nat)
    requires Current(s, w) && t.born == s.born && t.used == s.used && t.holder == s.holder
    requires forall x :: x in t.links ==> x in s.links && t.links[x] == s.links[x]
    requires w in t.callers ==> w in s.callers
    requires w in t.callers ==> t.callers[w] == s.callers[w] || t.callers[w] == s.callers[w].(phase := Announcing)
    ensures Current(t, w)
  {
  }

  lemma {:induction false} RemoveKeeps(p: Policy, s: State, who: nat)
    requires Inv(p, s) && Possible(s, Remove(who)) && Allowed(p, s, Remove(who))
    ensures Inv(p, Perform(s, Remove(who)))
  {
    var t := Perform(s, Remove(who));
    LocksKept(s, who, Remove(who));
    SerialsStep(s, Remove(who));
    if s.callers[who].target in s.links {
      RemovedLinks(s, s.callers[who].target);
    }
    WrittenAddresses(s, who, t);
    if p.parallel {
      forall w: nat ensures Current(t, w) {
        assert Current(s, w);
        FewerLinksCurrent(s, t, w);
      }
    } else {
      assert MidBody(s, who);
      assert forall w: nat :: MidBody(t, w) ==> w != who && MidBody(s, w);
    }
  }

  lemma {:induction false} StepKeepsInv(p: Policy, s: State, step: Step)
    requires Safe(p) && Inv(p, s)
    ensures Inv(p, Apply(p, s, step))
  {
    if Possible(s, step) && Allowed(p, s, step) {
      match step
      case Create(key, other) => CreateKeeps(p, s, key, other);
      case Promote(_) => AsideKeeps(p, s, Perform(s, step));
      case Power(_, _) => AsideKeeps(p, s, Perform(s, step));
      case Assign(id, ip) => AssignKeeps(p, s, id, ip);
      case Free(who) => FreeKeeps(p, s, who);
      case Remove(who) => RemoveKeeps(p, s, who);
      case LateFail(_) =>
      case _ => QuietKeeps(p, s, step);
    }
  }

  lemma {:induction false} RunKeepsInv(p: Policy, s: State, steps: seq<Step>)
    requires Safe(p) && Inv(p, s)
    ensures Inv(p, Run(p, s, steps))
    decreases |steps|
  {
    if |steps| > 0 {
      StepKeepsInv(p, s, steps[0]);
      RunKeepsInv(p, Apply(p, s, steps[0]), steps[1..]);
    }
  }

  /** On one event loop what a body read is what is on file until its write. */
  lemma {:induction false} LookIsCurrentOnOneLoop(reuse: bool, steps: seq<Step>, who: nat)
    requires MidBody(Run(Policy(false, reuse, false), START, steps), who)
    ensures var s := Run(Policy(false, reuse, false), START, steps);
      var c := s.callers[who];
      && c.target in s.links && s.links[c.target] == c.phase.rec
      && (Unfreed(c) ==> Reserved(s, c.phase.rec))
  {
    var p := Policy(false, reuse, false);
    RunKeepsInv(p, START, steps);
    var s := Run(p, START, steps);
    if Unfreed(s.callers[who]) {
      assert forall w: nat :: Freeing(s, w, s.callers[who].target) ==> MidBody(s, w);
      assert AddressOk(s, s.callers[who].target);
    }
  }

  /** On several threads, without reuse, the body holds the lock of the link it
      read, and the link is as it was read or has gone with its other half; the
      address it is about to free is that link's in both cases. */
  lemma {:induction false} LookIsCurrentOnThreads(steps: seq<Step>, who: nat)
    requires MidBody(Run(Policy(true, false, false), START, steps), who)
    ensures var s := Run(Policy(true, false, false), START, steps);
      var c := s.callers[who];
      && c.phase.rec.key in s.owner && s.owner[c.phase.rec.key] == who
      && (c.target in s.links ==> s.links[c.target] == c.phase.rec)
      && (Unfreed(c) ==> Reserved(s, c.phase.rec))
  {
    var p := Policy(true, false, false);
    RunKeepsInv(p, START, steps);
    assert Current(Run(p, START, steps), who) && Locked(Run(p, START, steps), who);
  }

  // ---------------------------------------------------------------------
  // Runs in which an address is stolen
  // ---------------------------------------------------------------------

  ghost predicate Reaches(p: Policy, s: State) {
    exists steps: seq<Step> :: Run(p, START, steps) == s
  }

  lemma {:induction false} StartReached(p: Policy)
    ensures Reaches(p, START)
  {
    assert Run(p, START, []) == START;
  }

  lemma {:induction false} ReachesNext(p: Policy, s: State, step: Step)
    requires Reaches(p, s)
    ensures Reaches(p, Apply(p, s, step))
  {
    var steps: seq<Step> :| Run(p, START, steps) == s;
    RunAppend(p, START, steps, step);
  }

  lemma {:induction false} RunAppend(p: Policy, s: State, steps: seq<Step>, step: Step)
    ensures Run(p, s, steps + [step]) == Apply(p, Run(p, s, steps), step)
    decreases |steps|
  {
    if |steps| == 0 {
      assert [step][1..] == [];
      assert steps + [step] == [step];
      assert Run(p, s, [step]) == Run(p, Apply(p, s, step), [step][1..]);
    } else {
      assert (steps + [step])[1..] == steps[1..] + [step];
      RunAppend(p, Apply(p, s, steps[0]), steps[1..], step);
    }
  }

  /** Nobody is in the way of a new step, and no node has a runtime record. */
  ghost predicate Clear(p: Policy, s: State) {
    s.live == {} && s.pairs == map[] && (p.parallel || forall who :: !MidBody(s, who))
  }

  /** Caller `who` inside its body on link `id`. */
  function InCall(s: State, who: nat, id: int, key: int, phase: Phase): State {
    s.(owner := s.owner[key := who], callers := s.callers[who := Caller(id, key, phase)])
  }

  /** With `who` in its body nobody else is in the way. */
  lemma {:induction false} MyTurn(p: Policy, s: State, who: nat, id: int, key: int, phase: Phase, step: Step)
    requires Clear(p, s) && Actor(step) == Some(who)
    ensures p.parallel || Scheduled(InCall(s, who, id, key, phase), step)
  {
    var t := InCall(s, who, id, key, phase);
    assert forall w: nat :: w != who ==> MidBody(t, w) == MidBody(s, w);
  }

  /** A waiting caller gets its lock and takes its second look. */
  lemma {:induction false} Look(p: Policy, s: State, who: nat)
    requires Reaches(p, s) && Clear(p, s)
    requires who in s.callers && s.callers[who].phase.Waiting? && s.callers[who].key !in s.owner
    requires s.callers[who].target in s.links
    ensures var c := s.callers[who];
      Reaches(p, InCall(s, who, c.target, c.key, Probed(s.links[c.target])))
  {
    var c := s.callers[who];
    var t := InCall(s, who, c.target, c.key, Holding);
    ReachesNext(p, s, Take(who));
    assert Apply(p, s, Take(who)) == t;
    MyTurn(p, s, who, c.target, c.key, Holding, Reprobe(who));
    ReachesNext(p, t, Reprobe(who));
    assert t.callers[who := Caller(c.target, c.key, Probed(s.links[c.target]))]
        == s.callers[who := Caller(c.target, c.key, Probed(s.links[c.target]))];
    assert Apply(p, t, Reprobe(who)) == InCall(s, who, c.target, c.key, Probed(s.links[c.target]));
  }

  /** First look, lock, second look, with nobody in the way. */
  lemma {:induction false} Enter(p: Policy, s: State, who: nat, id: int)
    requires Reaches(p, s) && Clear(p, s)
    requires who !in s.callers && id in s.links && s.links[id].key !in s.owner
    ensures Reaches(p, InCall(s, who, id, s.links[id].key, Probed(s.links[id])))
  {
    var rec := s.links[id];
    var t := s.(callers := s.callers[who := Caller(id, rec.key, Waiting)]);
    ReachesNext(p, s, Probe(who, id));
    assert Apply(p, s, Probe(who, id)) == t;
    assert forall w: nat :: MidBody(t, w) == MidBody(s, w);
    Look(p, t, who);
    assert t.callers[who := Caller(id, rec.key, Probed(rec))] == s.callers[who := Caller(id, rec.key, Probed(rec))];
  }

  lemma {:induction false} RunsDetach(p: Policy, s: State, who: nat, id: int, key: int, rec: Rec)
    requires Clear(p, s) && Reaches(p, InCall(s, who, id, key, Probed(rec)))
    ensures Reaches(p, InCall(s, who, id, key, Detached(rec)))
  {
    var t, u := InCall(s, who, id, key, Probed(rec)), InCall(s, who, id, key, Detached(rec));
    MyTurn(p, s, who, id, key, Probed(rec), Detach(who));
    ReachesNext(p, t, Detach(who));
    assert t.callers[who := Caller(id, key, Detached(rec))] == u.callers;
    assert Apply(p, t, Detach(who)) == u;
  }

  /** Detach and release. */
  lemma {:induction false} LetGo(p: Policy, s: State, who: nat, id: int, key: int, rec: Rec)
    requires Clear(p, s) && Reaches(p, InCall(s, who, id, key, Probed(rec)))
    ensures Reaches(p, InCall(Released(s, rec), who, id, key, Freed(rec)))
  {
    RunsDetach(p, s, who, id, key, rec);
    var t, u := InCall(s, who, id, key, Detached(rec)), InCall(Released(s, rec), who, id, key, Freed(rec));
    MyTurn(p, s, who, id, key, Detached(rec), Free(who));
    ReachesNext(p, t, Free(who));
    assert t.callers[who := Caller(id, key, Freed(rec))] == u.callers;
    assert Apply(p, t, Free(who)) == u;
  }

  lemma {:induction false} Writes(p: Policy, s: State, who: nat, id: int, key: int, rec: Rec)
    requires Clear(p, s) && Reaches(p, InCall(s, who, id, key, Freed(rec))) && id in s.links
    ensures Reaches(p, InCall(Dropped(s, id), who, id, key, Announcing))
  {
    var t, u := InCall(s, who, id, key, Freed(rec)), InCall(Dropped(s, id), who, id, key, Announcing);
    MyTurn(p, s, who, id, key, Freed(rec), Remove(who));
    ReachesNext(p, t, Remove(who));
    assert t.callers[who := Caller(id, key, Announcing)] == u.callers;
    assert Apply(p, t, Remove(who)) == u;
  }

  lemma {:induction false} Finishes(p: Policy, s: State, who: nat, id: int, key: int)
    requires Clear(p, s) && Reaches(p, InCall(s, who, id, key, Announcing))
    requires who !in s.callers && key !in s.owner
    ensures Reaches(p, s)
  {
    var t := InCall(s, who, id, key, Announcing);
    MyTurn(p, s, who, id, key, Announcing, Finish(who));
    assert Without(t.owner, key) == s.owner && Without(t.callers, who) == s.callers;
    ReachesNext(p, t, Finish(who));
    assert Apply(p, t, Finish(who)) == s;
  }

  /** Write, announce and leave. */
  lemma {:induction false} Leave(p: Policy, s: State, who: nat, id: int, key: int, rec: Rec)
    requires Clear(p, s) && Reaches(p, InCall(s, who, id, key, Freed(rec)))
    requires who !in s.callers && key !in s.owner && id in s.links
    ensures Reaches(p, Dropped(s, id))
  {
    Writes(p, s, who, id, key, rec);
    assert forall w: nat :: MidBody(Dropped(s, id), w) == MidBody(s, w);
    Finishes(p, Dropped(s, id), who, id, key);
  }

  /** Fail between the release and the write. */
  lemma {:induction false} LeaveLate(p: Policy, s: State, who: nat, id: int, key: int, rec: Rec)
    requires Clear(p, s) && p.lateFailure && Reaches(p, InCall(s, who, id, key, Freed(rec)))
    requires who !in s.callers && key !in s.owner
    ensures Reaches(p, s)
  {
    var t := InCall(s, who, id, key, Freed(rec));
    MyTurn(p, s, who, id, key, Freed(rec), LateFail(who));
    assert Without(t.owner, key) == s.owner && Without(t.callers, who) == s.callers;
    ReachesNext(p, t, LateFail(who));
    assert Apply(p, t, LateFail(who)) == s;
  }

  /** A whole undisturbed delete. */
  lemma {:induction false} DeleteRun(p: Policy, s: State, who: nat, id: int)
    requires Reaches(p, s) && Clear(p, s)
    requires who !in s.callers && id in s.links && s.links[id].key !in s.owner
    ensures Reaches(p, Dropped(Released(s, s.links[id]), id))
  {
    var rec := s.links[id];
    Enter(p, s, who, id);
    LetGo(p, s, who, id, rec.key, rec);
    assert forall w: nat :: MidBody(Released(s, rec), w) == MidBody(s, w);
    Leave(p, Released(s, rec), who, id, rec.key, rec);
  }

  const ADDRESS := 7

  /** The state after a link is made on an interface and given the address. */
  function WithAddress(s: State, id: int, key: int): State {
    s.(links := s.links[id := Rec(|s.born|, key, Some(ADDRESS))], born := s.born + [key],
       used := s.used + {ADDRESS}, holder := s.holder[ADDRESS := |s.born|])
  }

  lemma {:induction false} MakeWithAddress(p: Policy, s: State, key: int)
    requires Reaches(p, s) && Clear(p, s)
    requires Idle(s, key) && ADDRESS !in s.used
    requires p.reuse || FreshIds(s)
    ensures Reaches(p, WithAddress(s, NextId(s.links), key))
  {
    var id := NextId(s.links);
    var t := Added(s, id, key);
    ReachesNext(p, s, Create(key, None));
    assert Apply(p, s, Create(key, None)) == t;
    assert forall w: nat :: MidBody(t, w) == MidBody(s, w);
    ReachesNext(p, t, Assign(id, ADDRESS));
    assert t.links[id := Rec(|s.born|, key, Some(ADDRESS))] == s.links[id := Rec(|s.born|, key, Some(ADDRESS))];
    assert Apply(p, t, Assign(id, ADDRESS)) == WithAddress(s, id, key);
  }

  /** The call fails between the release of the address and the write: the link
      stays with an address that is handed on, and the delete, tried again, frees
      it once more. */
  lemma {:induction false} LateFailureSteals(p: Policy)
    requires p.lateFailure
    ensures exists s :: Reaches(p, s) && s.stolen
  {
    StartReached(p);
    var first := Rec(0, 1, Some(ADDRESS));
    MakeWithAddress(p, START, 1);
    var s1 := WithAddress(START, 1, 1);
    assert s1.links == map[1 := first];
    Enter(p, s1, 0, 1);
    LetGo(p, s1, 0, 1, 1, first);
    var s2 := s1.(used := {});
    assert Released(s1, first) == s2;
    LeaveLate(p, s2, 0, 1, 1, first);
    RetrySteals(p, s2);
  }

  /** The address goes to a second link; the first delete is tried again. */
  lemma {:induction false} RetrySteals(p: Policy, s: State)
    requires Reaches(p, s) && Clear(p, s) && |s.born| == 1
    requires s.links == map[1 := Rec(0, 1, Some(ADDRESS))] && s.holder == map[ADDRESS := 0]
    requires s.callers == map[] && s.owner == map[] && s.used == {}
    ensures exists t :: Reaches(p, t) && t.stolen
  {
    var first := Rec(0, 1, Some(ADDRESS));
    assert s.links.Keys == {1} && 1 in s.links.Keys;
    assert NextId(s.links) == 2;
    MakeWithAddress(p, s, 2);
    var t := WithAddress(s, 2, 2);
    assert t.links[1] == first && t.holder[ADDRESS] == 1;
    Enter(p, t, 0, 1);
    LetGo(p, t, 0, 1, 1, first);
    assert InCall(Released(t, first), 0, 1, 1, Freed(first)).stolen;
  }

  /** On several threads the id of a deleted link is given to a new one while a
      delete still aims at it: that delete works on the newcomer without its
      lock, and frees its address after a third link has got it. */
  lemma {:induction false} ReuseSteals(p: Policy)
    requires p.parallel && p.reuse
    ensures exists s :: Reaches(p, s) && s.stolen
  {
    StartReached(p);
    // A link on interface 1; caller 0 looks at it and waits.
    var waiting := Caller(1, 1, Waiting);
    var s1 := Added(START, 1, 1);
    ReachesNext(p, START, Create(1, None));
    assert Apply(p, START, Create(1, None)) == s1;
    var s2 := s1.(callers := map[0 := waiting]);
    ReachesNext(p, s1, Probe(0, 1));
    assert Apply(p, s1, Probe(0, 1)) == s2;
    // Another caller deletes it; its id goes to a new link on interface 2.
    DeleteRun(p, s2, 1, 1);
    var s3 := Dropped(s2, 1);
    assert Released(s2, s2.links[1]) == s2;
    assert s3.links == map[] && s3.links.Keys == {};
    MakeWithAddress(p, s3, 2);
    ReuseStealsEnd(p, WithAddress(s3, 1, 2));
  }

  /** The second half: caller 0 wakes up with the lock of the wrong interface. */
  lemma {:induction false} ReuseStealsEnd(p: Policy, s: State)
    requires p.parallel && p.reuse && Reaches(p, s) && Clear(p, s) && |s.born| == 2
    requires s.links == map[1 := Rec(1, 2, Some(ADDRESS))] && s.callers == map[0 := Caller(1, 1, Waiting)]
    requires s.used == {ADDRESS} && s.holder == map[ADDRESS := 1] && s.owner == map[]
    ensures exists t :: Reaches(p, t) && t.stolen
  {
    var mine := Rec(1, 2, Some(ADDRESS));
    Look(p, s, 0);
    // The new link is deleted under its own lock, and its address reassigned.
    var s1 := InCall(s, 0, 1, 1, Probed(mine));
    DeleteRun(p, s1, 1, 1);
    var s2 := Dropped(Released(s1, mine), 1);
    assert s2.links == map[] && s2.links.Keys == {};
    MakeWithAddress(p, s2, 3);
    var s3 := WithAddress(s2, 1, 3);
    var base := s3.(owner := map[], callers := map[]);
    assert s3 == InCall(base, 0, 1, 1, Probed(mine));
    LetGo(p, base, 0, 1, 1, mine);
    assert base.holder[ADDRESS] == 2;
    assert InCall(Released(base, mine), 0, 1, 1, Freed(mine)).stolen;
  }

  /** No delete ever frees an address that is another link's, in any run, exactly
      when no call fails after its release, and bodies that interleave never meet
      a reused id. */
  lemma {:induction false} NeverStolenIff(p: Policy)
    ensures (forall steps: seq<Step> :: !Run(p, START, steps).stolen) <==>
      !p.lateFailure && !(p.parallel && p.reuse)
  {
    if !Safe(p) {
      if p.lateFailure {
        LateFailureSteals(p);
      } else {
        ReuseSteals(p);
      }
      var s :| Reaches(p, s) && s.stolen;
      var steps: seq<Step> :| Run(p, START, steps) == s;
      assert Run(p, START, steps).stolen;
    } else {
      forall steps: seq<Step>
        ensures !Run(p, START, steps).stolen
      {
        RunKeepsInv(p, START, steps);
      }
    }
  }

  /** As the routers run it, on one event loop with ids reused, only a failure
      between the release and the write lets an address be freed twice. */
  lemma {:induction false} OnOneLoopIff(lateFailure: bool)
    ensures (forall steps: seq<Step> :: !Run(Policy(false, true, lateFailure), START, steps).stolen) <==> !lateFailure
  {
    NeverStolenIff(Policy(false, true, lateFailure));
  }
}
