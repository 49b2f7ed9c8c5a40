/** Any number of create_link and delete_link callers competing for the
    per-interface locks, one lock operation at a time. */
module LockOrder {
  import opened Collections
  import opened LabModel
  import opened RuntimeMutex

  datatype Phase = Entering | Inside | Leaving | Gone

  /** A caller, the keys it wants in the order it takes them, and how many of
      them it has. */
  datatype Caller = Caller(keys: seq<MutexKey>, taken: nat, phase: Phase)

  datatype State = State(owner: map<MutexKey, nat>, callers: seq<Caller>)

  datatype Step =
    | Take(who: nat)      // the next lock is free
    | GiveUp(who: nat)    // the bounded wait for a held lock ends
    | Start(who: nat)     // all locks taken
    | Finish(who: nat)    // the body returns or raises
    | Release(who: nat)   // the exit stack unwinds by one

  function Initial(wanted: seq<seq<MutexKey>>): State {
    State(map[], seq(|wanted|, i requires 0 <= i < |wanted| => Caller(wanted[i], 0, Entering)))
  }

  predicate Wanting(s: State, who: nat) {
    who < |s.callers| && s.callers[who].phase.Entering? && s.callers[who].taken < |s.callers[who].keys|
  }

  function NextKey(s: State, who: nat): MutexKey
    requires Wanting(s, who)
  {
    s.callers[who].keys[s.callers[who].taken]
  }

  predicate Enabled(s: State, step: Step) {
    step.who < |s.callers| &&
    var c := s.callers[step.who];
    match step
    case Take(who) => Wanting(s, who) && NextKey(s, who) !in s.owner
    case GiveUp(who) => Wanting(s, who) && NextKey(s, who) in s.owner
    case Start(_) => c.phase.Entering? && c.taken == |c.keys|
    case Finish(_) => c.phase.Inside?
    case Release(_) => c.phase.Leaving? && c.taken <= |c.keys|
  }

  function Apply(s: State, step: Step): State {
    if !Enabled(s, step) then s
    else
      var who := step.who;
      var c := s.callers[who];
      match step
      case Take(_) =>
        State(s.owner[NextKey(s, who) := who], s.callers[who := c.(taken := c.taken + 1)])
      case GiveUp(_) => s.(callers := s.callers[who := c.(phase := Leaving)])
      case Start(_) => s.(callers := s.callers[who := c.(phase := Inside)])
      case Finish(_) => s.(callers := s.callers[who := c.(phase := Leaving)])
      case Release(_) =>
        if c.taken == 0 then s.(callers := s.callers[who := c.(phase := Gone)])
        else State(Without(s.owner, c.keys[c.taken - 1]), s.callers[who := c.(taken := c.taken - 1)])
  }

  function Run(s: State, steps: seq<Step>): State
    decreases |steps|
  {
    if |steps| == 0 then s else Run(Apply(s, steps[0]), steps[1..])
  }

  // ---------------------------------------------------------------------
  // Ownership
  // ---------------------------------------------------------------------

  predicate Holds(c: Caller, k: MutexKey) {
    c.taken <= |c.keys| && k in c.keys[..c.taken]
  }

  ghost predicate CallerOk(s: State, who: nat)
    requires who < |s.callers|
  {
    var c := s.callers[who];
    && c.taken <= |c.keys|
    && Distinct(c.keys[..c.taken])
    && (c.phase.Inside? ==> c.taken == |c.keys|)
    && (c.phase.Gone? ==> c.taken == 0)
    && (forall i :: 0 <= i < c.taken ==> c.keys[i] in s.owner && s.owner[c.keys[i]] == who)
  }

  ghost predicate OwnersHold(s: State) {
    forall k :: k in s.owner ==> s.owner[k] < |s.callers| && Holds(s.callers[s.owner[k]], k)
  }

  ghost predicate Inv(s: State) {
    && (forall who :: 0 <= who < |s.callers| ==> CallerOk(s, who))
    && OwnersHold(s)
  }

  lemma {:induction false} TakerOk(s: State, who: nat)
    requires Inv(s) && Enabled(s, Take(who))
    ensures CallerOk(Apply(s, Take(who)), who) && Holds(Apply(s, Take(who)).callers[who], NextKey(s, who))
    ensures !Holds(s.callers[who], NextKey(s, who))
  {
    var t := Apply(s, Take(who));
    var c, d := s.callers[who], t.callers[who];
    var k := NextKey(s, who);
    assert CallerOk(s, who);
    assert d.keys[..d.taken] == c.keys[..c.taken] + [k];
    assert forall i :: 0 <= i < c.taken ==> c.keys[..c.taken][i] == c.keys[i] != k;
    assert d.keys[..d.taken][c.taken] == k;
  }

  lemma {:induction false} TakeKeepsInv(s: State, who: nat)
    requires Inv(s) && Enabled(s, Take(who))
    ensures Inv(Apply(s, Take(who)))
  {
    var t := Apply(s, Take(who));
    TakerOk(s, who);
    forall x | x in s.owner
      ensures s.owner[x] < |t.callers| && Holds(t.callers[s.owner[x]], x)
    {
      assert Holds(s.callers[s.owner[x]], x);
      if s.owner[x] == who {
        HoldsMore(s.callers[who], x);
      }
    }
    forall other | 0 <= other < |t.callers|
      ensures CallerOk(t, other)
    {
      assert CallerOk(s, other);
    }
  }

  lemma {:induction false} HoldsMore(c: Caller, k: MutexKey)
    requires Holds(c, k) && c.taken < |c.keys|
    ensures Holds(c.(taken := c.taken + 1), k)
  {
    assert c.keys[..c.taken + 1] == c.keys[..c.taken] + [c.keys[c.taken]];
  }

  lemma {:induction false} ReleaseKeepsInv(s: State, who: nat)
    requires Inv(s) && Enabled(s, Release(who))
    ensures Inv(Apply(s, Release(who)))
  {
    var t := Apply(s, Release(who));
    var c, d := s.callers[who], t.callers[who];
    assert CallerOk(s, who);
    if c.taken > 0 {
      var gone := c.keys[c.taken - 1];
      assert c.keys[..c.taken] == d.keys[..d.taken] + [gone];
      assert forall i :: 0 <= i < d.taken ==> c.keys[i] == c.keys[..c.taken][i] != c.keys[..c.taken][d.taken];
      forall x | x in t.owner
        ensures t.owner[x] < |t.callers| && Holds(t.callers[t.owner[x]], x)
      {
        assert Holds(s.callers[s.owner[x]], x);
      }
      forall other | 0 <= other < |t.callers|
        ensures CallerOk(t, other)
      {
        assert CallerOk(s, other);
      }
    } else {
      PhaseKeepsInv(s, who, Gone);
    }
  }

  lemma {:induction false} PhaseKeepsInv(s: State, who: nat, phase: Phase)
    requires Inv(s) && who < |s.callers|
    requires phase.Inside? ==> s.callers[who].taken == |s.callers[who].keys|
    requires phase.Gone? ==> s.callers[who].taken == 0
    ensures Inv(s.(callers := s.callers[who := s.callers[who].(phase := phase)]))
  {
    var t := s.(callers := s.callers[who := s.callers[who].(phase := phase)]);
    forall other | 0 <= other < |t.callers|
      ensures CallerOk(t, other)
    {
      assert CallerOk(s, other);
    }
    forall x | x in t.owner
      ensures t.owner[x] < |t.callers| && Holds(t.callers[t.owner[x]], x)
    {
      assert Holds(s.callers[s.owner[x]], x);
    }
  }

  /** The lock table and what each caller believes it has agree after any step. */
  lemma {:induction false} StepKeepsInv(s: State, step: Step)
    requires Inv(s)
    ensures Inv(Apply(s, step))
    ensures |Apply(s, step).callers| == |s.callers|
    ensures forall i :: 0 <= i < |s.callers| ==> Apply(s, step).callers[i].keys == s.callers[i].keys
  {
    if Enabled(s, step) {
      match step
      case Take(who) => TakeKeepsInv(s, who);
      case GiveUp(who) => PhaseKeepsInv(s, who, Leaving);
      case Start(who) => PhaseKeepsInv(s, who, Inside);
      case Finish(who) => PhaseKeepsInv(s, who, Leaving);
      case Release(who) => ReleaseKeepsInv(s, who);
    }
  }

  lemma {:induction false} RunKeepsInv(s: State, steps: seq<Step>)
    requires Inv(s)
    ensures Inv(Run(s, steps))
    ensures |Run(s, steps).callers| == |s.callers|
    ensures forall i :: 0 <= i < |s.callers| ==> Run(s, steps).callers[i].keys == s.callers[i].keys
    decreases |steps|
  {
    if |steps| > 0 {
      StepKeepsInv(s, steps[0]);
      RunKeepsInv(Apply(s, steps[0]), steps[1..]);
    }
  }

  lemma {:induction false} InitialInv(wanted: seq<seq<MutexKey>>)
    ensures Inv(Initial(wanted))
  {
    var s := Initial(wanted);
    forall who | 0 <= who < |s.callers|
      ensures CallerOk(s, who)
    {
    }
  }

  /** No two callers have one lock, whoever asked for it how often. */
  lemma {:induction false} MutualExclusion(wanted: seq<seq<MutexKey>>, steps: seq<Step>, a: nat, b: nat, k: MutexKey)
    requires a < |wanted| && b < |wanted|
    ensures var s := Run(Initial(wanted), steps);
      |s.callers| == |wanted| && (Holds(s.callers[a], k) && Holds(s.callers[b], k) ==> a == b)
  {
    InitialInv(wanted);
    RunKeepsInv(Initial(wanted), steps);
    var s := Run(Initial(wanted), steps);
    assert CallerOk(s, a) && CallerOk(s, b);
  }

  /** A caller that is gone, however it ended, owns no lock; one inside its
      critical section owns every lock it asked for, each once. */
  lemma {:induction false} ReleasedOrComplete(wanted: seq<seq<MutexKey>>, steps: seq<Step>, who: nat)
    requires who < |wanted|
    ensures var s := Run(Initial(wanted), steps);
      && |s.callers| == |wanted|
      && (s.callers[who].phase.Gone? ==> forall k :: k in s.owner ==> s.owner[k] != who)
      && (s.callers[who].phase.Inside? ==>
            Distinct(wanted[who])
            && forall i :: 0 <= i < |wanted[who]| ==> wanted[who][i] in s.owner && s.owner[wanted[who][i]] == who)
  {
    InitialInv(wanted);
    RunKeepsInv(Initial(wanted), steps);
    var s := Run(Initial(wanted), steps);
    assert CallerOk(s, who);
    var c := s.callers[who];
    assert Initial(wanted).callers[who].keys == wanted[who];
    if c.phase.Inside? {
      assert c.keys[..c.taken] == c.keys;
    }
  }

  // ---------------------------------------------------------------------
  // Waiting
  // ---------------------------------------------------------------------

  predicate WaitsFor(s: State, a: nat, b: nat) {
    Wanting(s, a) && NextKey(s, a) in s.owner && s.owner[NextKey(s, a)] == b
  }

  /** A closed chain of callers, each waiting for the next. */
  predicate Cycle(s: State, chain: seq<nat>) {
    |chain| > 0
    && (forall i :: 0 <= i < |chain| - 1 ==> WaitsFor(s, chain[i], chain[i + 1]))
    && WaitsFor(s, chain[|chain| - 1], chain[0])
  }

  /** Keys in strictly increasing order: sorted, and none asked for twice. */
  predicate Ascending(keys: seq<MutexKey>) {
    forall i, j :: 0 <= i < j < |keys| ==> Before(keys[i], keys[j])
  }

  ghost predicate AllAscending(s: State) {
    forall who :: 0 <= who < |s.callers| ==> Ascending(s.callers[who].keys)
  }

  /** Whoever is waited for, and waits in turn, waits for a later key. */
  lemma {:induction false} WaitingClimbs(s: State, a: nat, b: nat)
    requires Inv(s) && AllAscending(s)
    requires WaitsFor(s, a, b) && Wanting(s, b)
    ensures Before(NextKey(s, a), NextKey(s, b))
  {
    var k := NextKey(s, a);
    var d := s.callers[b];
    assert Holds(d, k);
    var i :| 0 <= i < |d.keys[..d.taken]| && d.keys[..d.taken][i] == k;
    assert d.keys[i] == k;
  }

  lemma {:induction false} ChainClimbs(s: State, chain: seq<nat>, last: nat)
    requires Inv(s) && AllAscending(s)
    requires last < |chain| && last > 0
    requires forall i :: 0 <= i < last ==> WaitsFor(s, chain[i], chain[i + 1])
    requires Wanting(s, chain[last])
    ensures Wanting(s, chain[0]) && Before(NextKey(s, chain[0]), NextKey(s, chain[last]))
  {
    WaitingClimbs(s, chain[last - 1], chain[last]);
    if last > 1 {
      ChainClimbs(s, chain, last - 1);
    }
  }

  lemma {:induction false} NoCycleWhenAscending(s: State, chain: seq<nat>)
    requires Inv(s) && AllAscending(s)
    ensures !Cycle(s, chain)
  {
    if Cycle(s, chain) {
      if |chain| > 1 {
        ChainClimbs(s, chain, |chain| - 1);
      }
      WaitingClimbs(s, chain[|chain| - 1], chain[0]);
    }
  }

  /** The first key asked for a second time. */
  function FirstRepeat(keys: seq<MutexKey>, n: nat): (j: nat)
    requires n <= |keys| && Distinct(keys[..n]) && !Distinct(keys)
    ensures n <= j < |keys| && Distinct(keys[..j]) && keys[j] in keys[..j]
    decreases |keys| - n
  {
    assert keys[..|keys|] == keys;
    if keys[n] in keys[..n] then n
    else
      assert keys[..n + 1] == keys[..n] + [keys[n]];
      assert forall i :: 0 <= i < n ==> keys[..n][i] == keys[i];
      FirstRepeat(keys, n + 1)
  }

  function Takes(who: nat, n: nat): (steps: seq<Step>)
    ensures |steps| == n && forall i :: 0 <= i < n ==> steps[i] == Take(who)
  {
    seq(n, _ => Take(who))
  }

  lemma {:induction false} NextIsFree(s: State, who: nat, n: nat)
    requires Inv(s) && who < |s.callers| && n > 0
    requires s.callers[who].phase.Entering? && s.callers[who].taken + n <= |s.callers[who].keys|
    requires forall k :: k in s.owner ==> s.owner[k] == who
    requires Distinct(s.callers[who].keys[..s.callers[who].taken + n])
    ensures Enabled(s, Take(who))
  {
    var c := s.callers[who];
    var all := c.keys[..c.taken + n];
    assert forall i :: 0 <= i < c.taken ==> c.keys[..c.taken][i] == all[i] != all[c.taken];
    assert !Holds(c, c.keys[c.taken]);
  }

  lemma {:induction false} TakesAlone(s: State, who: nat, n: nat)
    requires Inv(s) && who < |s.callers|
    requires s.callers[who].phase.Entering? && s.callers[who].taken + n <= |s.callers[who].keys|
    requires forall k :: k in s.owner ==> s.owner[k] == who
    requires Distinct(s.callers[who].keys[..s.callers[who].taken + n])
    ensures var t := Run(s, Takes(who, n));
      && Inv(t) && |t.callers| == |s.callers|
      && t.callers[who] == s.callers[who].(taken := s.callers[who].taken + n)
    decreases n
  {
    if n > 0 {
      NextIsFree(s, who, n);
      StepKeepsInv(s, Take(who));
      assert Takes(who, n)[1..] == Takes(who, n - 1);
      TakesAlone(Apply(s, Take(who)), who, n - 1);
    }
  }

  /** A caller that asks for one interface twice can be brought to wait for
      itself. */
  lemma {:induction false} RepeatDeadlocks(wanted: seq<seq<MutexKey>>, who: nat)
    requires who < |wanted| && !Distinct(wanted[who])
    ensures exists steps: seq<Step> :: Cycle(Run(Initial(wanted), steps), [who])
  {
    var keys := wanted[who];
    assert keys[..0] == [];
    var j := FirstRepeat(keys, 0);
    var s := Initial(wanted);
    InitialInv(wanted);
    TakesAlone(s, who, j);
    var t := Run(s, Takes(who, j));
    assert CallerOk(t, who);
    var i :| 0 <= i < j && keys[..j][i] == keys[j];
    assert t.callers[who].keys[i] == NextKey(t, who);
    assert Cycle(t, [who]);
  }

  lemma {:induction false} SortedDistinctAscends(keys: seq<MutexKey>)
    requires forall i :: 0 <= i < |keys| ==> keys[i].lab == keys[0].lab
    requires Sorted(keys) && Distinct(keys)
    ensures Ascending(keys)
  {
    forall i, j | 0 <= i < j < |keys|
      ensures Before(keys[i], keys[j])
    {
      assert keys[i] != keys[j] && keys[i].lab == keys[j].lab;
    }
  }

  /** Each caller sorts the keys of the one lab it works on. */
  ghost predicate WellAsked(wanted: seq<seq<MutexKey>>) {
    forall who :: 0 <= who < |wanted| ==>
      Sorted(wanted[who]) && forall i :: 0 <= i < |wanted[who]| ==> wanted[who][i].lab == wanted[who][0].lab
  }

  /** Nobody ever waits in a circle exactly when nobody asks for one interface
      twice. */
  lemma {:induction false} AcyclicIff(wanted: seq<seq<MutexKey>>)
    requires WellAsked(wanted)
    ensures (forall steps: seq<Step>, chain: seq<nat> :: !Cycle(Run(Initial(wanted), steps), chain))
        <==> (forall who :: 0 <= who < |wanted| ==> Distinct(wanted[who]))
  {
    if forall who :: 0 <= who < |wanted| ==> Distinct(wanted[who]) {
      InitialInv(wanted);
      forall who | 0 <= who < |wanted|
        ensures Ascending(wanted[who])
      {
        SortedDistinctAscends(wanted[who]);
      }
      forall steps: seq<Step>, chain: seq<nat>
        ensures !Cycle(Run(Initial(wanted), steps), chain)
      {
        RunKeepsInv(Initial(wanted), steps);
        NoCycleWhenAscending(Run(Initial(wanted), steps), chain);
      }
    } else {
      var who :| 0 <= who < |wanted| && !Distinct(wanted[who]);
      RepeatDeadlocks(wanted, who);
    }
  }

  /** A create names two ends; a delete's lock is that of one node end. */
  datatype Request = Request(lab: string, a: Endpoint, b: Endpoint)

  function Asked(requests: seq<Request>): (wanted: seq<seq<MutexKey>>)
    ensures |wanted| == |requests|
    ensures forall i :: 0 <= i < |requests| ==> wanted[i] == NodeKeys(requests[i].lab, requests[i].a, requests[i].b)
  {
    seq(|requests|, i requires 0 <= i < |requests| => NodeKeys(requests[i].lab, requests[i].a, requests[i].b))
  }

  predicate SameInterface(r: Request) {
    r.a.Node? && r.a == r.b
  }

  lemma {:induction false} RequestKeys(r: Request)
    ensures var keys := NodeKeys(r.lab, r.a, r.b);
      && Sorted(keys) && (forall k :: 0 <= k < |keys| ==> keys[k].lab == keys[0].lab)
      && (Distinct(keys) <==> !SameInterface(r))
  {
    IdleRequestContendsIff(r.lab, r.a, r.b);
    CanTakeAllIff({}, NodeKeys(r.lab, r.a, r.b));
  }

  /** Callers of the service never wait in a circle, in any interleaving, exactly
      when no request joins an interface to itself. */
  lemma {:induction false} RequestsAcyclicIff(requests: seq<Request>)
    ensures (forall steps: seq<Step>, chain: seq<nat> :: !Cycle(Run(Initial(Asked(requests)), steps), chain))
        <==> (forall i :: 0 <= i < |requests| ==> !SameInterface(requests[i]))
  {
    var wanted := Asked(requests);
    forall i | 0 <= i < |requests|
      ensures Sorted(wanted[i]) && forall k :: 0 <= k < |wanted[i]| ==> wanted[i][k].lab == wanted[i][0].lab
      ensures Distinct(wanted[i]) <==> !SameInterface(requests[i])
    {
      RequestKeys(requests[i]);
    }
    AcyclicIff(wanted);
  }

  // ---------------------------------------------------------------------
  // Progress
  // ---------------------------------------------------------------------

  /** Among the first `n` callers, one that wants the latest key, if any wants. */
  lemma {:induction false} LatestWanting(s: State, n: nat) returns (who: nat)
    requires n <= |s.callers|
    requires exists i :: 0 <= i < n && Wanting(s, i)
    ensures who < n && Wanting(s, who)
    ensures forall i :: 0 <= i < n && Wanting(s, i) ==> !Before(NextKey(s, who), NextKey(s, i))
  {
    if exists i :: 0 <= i < n - 1 && Wanting(s, i) {
      who := LatestWanting(s, n - 1);
      if Wanting(s, n - 1) && Before(NextKey(s, who), NextKey(s, n - 1)) {
        who := n - 1;
      }
    } else {
      who := n - 1;
    }
  }

  /** Without anybody's wait running out, as long as someone is not gone someone
      can move. */
  lemma {:induction false} SomeoneMoves(wanted: seq<seq<MutexKey>>, steps: seq<Step>, who: nat)
    requires WellAsked(wanted)
    requires forall i :: 0 <= i < |wanted| ==> Distinct(wanted[i])
    requires var s := Run(Initial(wanted), steps); who < |s.callers| && !s.callers[who].phase.Gone?
    ensures var s := Run(Initial(wanted), steps);
      exists step :: Enabled(s, step) && !step.GiveUp?
  {
    var s := Run(Initial(wanted), steps);
    InitialInv(wanted);
    RunKeepsInv(Initial(wanted), steps);
    forall i | 0 <= i < |wanted|
      ensures Ascending(s.callers[i].keys)
    {
      SortedDistinctAscends(wanted[i]);
      assert Initial(wanted).callers[i].keys == wanted[i];
    }
    if Wanting(s, who) {
      var latest := LatestWanting(s, |s.callers|);
      var k := NextKey(s, latest);
      if k in s.owner {
        var d := s.owner[k];
        if Wanting(s, d) {
          WaitingClimbs(s, latest, d);
        }
        assert Holds(s.callers[d], k) && CallerOk(s, d);
        CanMove(s, d);
      } else {
        assert Enabled(s, Take(latest));
      }
    } else {
      CanMove(s, who);
    }
  }

  /** A caller that neither wants a lock nor is gone can take its next step. */
  lemma {:induction false} CanMove(s: State, who: nat)
    requires Inv(s) && who < |s.callers|
    requires !Wanting(s, who) && !s.callers[who].phase.Gone?
    ensures exists step :: Enabled(s, step) && !step.GiveUp?
  {
    assert CallerOk(s, who);
    match s.callers[who].phase
    case Entering => assert Enabled(s, Start(who));
    case Inside => assert Enabled(s, Finish(who));
    case Leaving => assert Enabled(s, Release(who));
    case Gone =>
  }

  // ---------------------------------------------------------------------
  // Everybody leaves
  // ---------------------------------------------------------------------

  /** The steps a caller has before it at most. */
  function StepsLeft(c: Caller): int {
    match c.phase
    case Entering => 2 * |c.keys| - c.taken + 3
    case Inside => c.taken + 2
    case Leaving => c.taken + 1
    case Gone => 0
  }

  function AllStepsLeft(callers: seq<Caller>): int {
    if callers == [] then 0 else AllStepsLeft(callers[..|callers| - 1]) + StepsLeft(callers[|callers| - 1])
  }

  lemma {:induction false} OneCallerMoves(callers: seq<Caller>, who: nat, c: Caller)
    requires who < |callers|
    ensures AllStepsLeft(callers[who := c]) == AllStepsLeft(callers) - StepsLeft(callers[who]) + StepsLeft(c)
  {
    var n := |callers| - 1;
    var next := callers[who := c];
    if who == n {
      assert next[..n] == callers[..n];
    } else {
      assert next[..n] == callers[..n][who := c];
      OneCallerMoves(callers[..n], who, c);
    }
  }

  lemma {:induction false} NeverNegative(callers: seq<Caller>)
    requires forall i :: 0 <= i < |callers| ==> callers[i].taken <= |callers[i].keys|
    ensures AllStepsLeft(callers) >= 0
  {
    if callers != [] {
      NeverNegative(callers[..|callers| - 1]);
    }
  }

  /** Every step that is taken leaves fewer. */
  lemma {:induction false} StepCounts(s: State, step: Step)
    requires Inv(s) && Enabled(s, step)
    ensures AllStepsLeft(Apply(s, step).callers) < AllStepsLeft(s.callers)
  {
    var who := step.who;
    assert CallerOk(s, who);
    var c := Apply(s, step).callers[who];
    assert Apply(s, step).callers == s.callers[who := c];
    OneCallerMoves(s.callers, who, c);
  }

  /** Every step is one that can be taken when its turn comes. */
  ghost predicate Taken(s: State, steps: seq<Step>)
    decreases |steps|
  {
    |steps| > 0 ==> Enabled(s, steps[0]) && Taken(Apply(s, steps[0]), steps[1..])
  }

  lemma {:induction false} RunsAreShort(s: State, steps: seq<Step>)
    requires Inv(s) && Taken(s, steps)
    ensures |steps| <= AllStepsLeft(s.callers)
    decreases |steps|
  {
    if steps == [] {
      forall i | 0 <= i < |s.callers|
        ensures s.callers[i].taken <= |s.callers[i].keys|
      {
        assert CallerOk(s, i);
      }
      NeverNegative(s.callers);
    } else {
      StepCounts(s, steps[0]);
      StepKeepsInv(s, steps[0]);
      RunsAreShort(Apply(s, steps[0]), steps[1..]);
    }
  }

  function TotalKeys(wanted: seq<seq<MutexKey>>): nat {
    if wanted == [] then 0 else TotalKeys(wanted[..|wanted| - 1]) + |wanted[|wanted| - 1]|
  }

  lemma {:induction false} InitialSteps(wanted: seq<seq<MutexKey>>)
    ensures AllStepsLeft(Initial(wanted).callers) == 2 * TotalKeys(wanted) + 3 * |wanted|
  {
    if wanted != [] {
      var n := |wanted| - 1;
      InitialSteps(wanted[..n]);
      assert Initial(wanted).callers[..n] == Initial(wanted[..n]).callers;
    }
  }

  /** Callers that ask for distinct keys all get through, with no wait running out:
      no run takes more steps than their keys allow, and one that cannot go on has
      left nobody behind. */
  lemma {:induction false} EverybodyLeaves(wanted: seq<seq<MutexKey>>, steps: seq<Step>)
    requires WellAsked(wanted) && Taken(Initial(wanted), steps)
    requires forall i :: 0 <= i < |wanted| ==> Distinct(wanted[i])
    ensures |steps| <= 2 * TotalKeys(wanted) + 3 * |wanted|
    ensures var s := Run(Initial(wanted), steps);
      (forall step :: Enabled(s, step) ==> step.GiveUp?) ==>
        forall who :: 0 <= who < |s.callers| ==> s.callers[who].phase.Gone?
  {
    InitialInv(wanted);
    InitialSteps(wanted);
    RunsAreShort(Initial(wanted), steps);
    var s := Run(Initial(wanted), steps);
    if who: nat :| who < |s.callers| && !s.callers[who].phase.Gone? {
      SomeoneMoves(wanted, steps, who);
    }
  }

  lemma {:induction false} RunAppend(s: State, steps: seq<Step>, last: Step)
    ensures Run(s, steps + [last]) == Apply(Run(s, steps), last)
    decreases |steps|
  {
    var all := steps + [last];
    if steps == [] {
      assert Run(s, all) == Run(Apply(s, last), all[1..]);
    } else {
      assert all[1..] == steps[1..] + [last];
      RunAppend(Apply(s, steps[0]), steps[1..], last);
    }
  }

  /** Step number `j` is where the caller's body ends, or its wait runs out. */
  ghost predicate Turns(wanted: seq<seq<MutexKey>>, steps: seq<Step>, who: nat, j: nat) {
    j < |steps|
    && (steps[j] == GiveUp(who) || (steps[j] == Finish(who) && IsInside(Run(Initial(wanted), steps[..j]), who)))
  }

  predicate IsInside(s: State, who: nat) {
    who < |s.callers| && s.callers[who].phase.Inside?
  }

  /** A caller that is on its way out was inside with all its locks, unless its wait
      ran out. */
  lemma {:induction false} OutMeansServed(wanted: seq<seq<MutexKey>>, steps: seq<Step>, who: nat)
    requires var s := Run(Initial(wanted), steps);
      who < |s.callers| && (s.callers[who].phase.Leaving? || s.callers[who].phase.Gone?)
    ensures exists j: nat :: Turns(wanted, steps, who, j)
  {
    if steps != [] {
      var n := |steps| - 1;
      var before := Run(Initial(wanted), steps[..n]);
      assert steps == steps[..n] + [steps[n]];
      RunAppend(Initial(wanted), steps[..n], steps[n]);
      if before.callers[who].phase.Leaving? || before.callers[who].phase.Gone? {
        OutMeansServed(wanted, steps[..n], who);
        var j: nat :| Turns(wanted, steps[..n], who, j);
        assert steps[..n][..j] == steps[..j];
        assert Turns(wanted, steps, who, j);
      } else {
        assert Turns(wanted, steps, who, n);
      }
    }
  }
}
