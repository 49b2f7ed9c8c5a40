/** The event ring each lab keeps for clients that come back. */
module WsHub {
  datatype Body = Body(kind: string, rev: string, payload: string)

  datatype Event = Event(seqno: nat, body: Body)

  datatype LabState = LabState(events: seq<Event>, nextSeq: nat, subscribers: set<int>)

  // ---------------------------------------------------------------------
  // What the ring should be
  // ---------------------------------------------------------------------

  /** Everything published so far, numbered from 1. */
  function Numbered(history: seq<Body>): (r: seq<Event>)
    ensures |r| == |history| && forall i :: 0 <= i < |r| ==> r[i] == Event(i + 1, history[i])
  {
    seq(|history|, i requires 0 <= i < |history| => Event(i + 1, history[i]))
  }

  /** How many events have dropped out of a ring of size k after n of them. */
  function Dropped(n: nat, k: nat): nat {
    if n > k then n - k else 0
  }

  /** The last k events. */
  function Ring(history: seq<Body>, k: nat): seq<Event> {
    Numbered(history)[Dropped(|history|, k)..]
  }

  function Pushed(events: seq<Event>, e: Event, k: nat): seq<Event> {
    var all := events + [e];
    if |all| > k then all[|all| - k..] else all
  }

  /** One more event, the oldest out when the ring is full: the ring stays the
      last k events of the history. */
  lemma {:induction false} PushKeepsRing(history: seq<Body>, body: Body, k: nat)
    ensures Pushed(Ring(history, k), Event(|history| + 1, body), k) == Ring(history + [body], k)
  {
    var all := Numbered(history + [body]);
    assert all == Numbered(history) + [Event(|history| + 1, body)];
    var d := Dropped(|history|, k);
    assert Ring(history, k) + [Event(|history| + 1, body)] == all[d..];
  }

  /** The ring's numbers are consecutive and end with the last one given. */
  lemma {:induction false} RingContiguous(history: seq<Body>, k: nat, i: nat)
    requires i < |Ring(history, k)|
    ensures Ring(history, k)[i].seqno == |history| - |Ring(history, k)| + 1 + i
    ensures |Ring(history, k)| == if |history| < k then |history| else k
  {
  }

  // ---------------------------------------------------------------------
  // Replaying
  // ---------------------------------------------------------------------

  /** Events with a number above the client's last one. */
  function Newer(events: seq<Event>, last: nat): seq<Event> {
    if events == [] then []
    else (if events[0].seqno > last then [events[0]] else []) + Newer(events[1..], last)
  }

  /** `replay_since`: the events to send, and whether the client has to start
      over. */
  function Replay(events: seq<Event>, last: nat): (seq<Event>, bool) {
    if events == [] then ([], false)
    else if last == 0 then (events, false)
    else if last + 1 < events[0].seqno then ([], true)
    else (Newer(events, last), false)
  }

  lemma {:induction false} NewerIsSuffix(history: seq<Body>, from: nat, last: nat)
    requires from <= |history|
    ensures Newer(Numbered(history)[from..], last) ==
      (if last > |history| then [] else Numbered(history)[if from > last then from else last..])
    decreases |history| - from
  {
    var events := Numbered(history)[from..];
    if from < |history| {
      assert events[1..] == Numbered(history)[from + 1..];
      NewerIsSuffix(history, from + 1, last);
      assert events == [events[0]] + events[1..];
    }
  }

  /** A client that has seen number `last` gets exactly the events it missed, or
      is told to start over exactly when one of them has dropped out. */
  lemma {:induction false} ReplayExact(history: seq<Body>, k: nat, last: nat)
    requires k >= 1 && 1 <= last <= |history|
    ensures Replay(Ring(history, k), last) ==
      if last < Dropped(|history|, k) then ([], true) else (Numbered(history)[last..], false)
  {
    NewerIsSuffix(history, Dropped(|history|, k), last);
  }

  /** A client that claims more than was published gets nothing and is not told. */
  lemma {:induction false} ReplayAhead(history: seq<Body>, k: nat, last: nat)
    requires last > |history|
    ensures Replay(Ring(history, k), last) == ([], false)
  {
    NewerIsSuffix(history, Dropped(|history|, k), last);
  }

  /** A new client is sent the whole history exactly while nothing has dropped out,
      and is never told to start over. */
  lemma {:induction false} ReplayFromNothing(history: seq<Body>, k: nat)
    requires k >= 1
    ensures var (sent, startOver) := Replay(Ring(history, k), 0);
      !startOver && (sent == Numbered(history) <==> |history| <= k)
  {
    assert Numbered(history)[0..] == Numbered(history);
  }

  /** The events with a number above `last`, in order. */
  method CollectNewer(events: seq<Event>, last: nat) returns (replay: seq<Event>)
    ensures replay == Newer(events, last)
  {
    replay := [];
    for n := 0 to |events|
      invariant replay + Newer(events[n..], last) == Newer(events, last)
    {
      ghost var rest := Newer(events[n + 1..], last);
      assert events[n..][1..] == events[n + 1..];
      assert Newer(events[n..], last) == (if events[n].seqno > last then [events[n]] else []) + rest;
      if events[n].seqno > last {
        assert replay + ([events[n]] + rest) == (replay + [events[n]]) + rest;
        replay := replay + [events[n]];
      }
    }
  }

  // ---------------------------------------------------------------------
  // The hub
  // ---------------------------------------------------------------------

  class Hub {
    const ringSize: nat
    var labs: map<string, LabState>
    ghost var history: map<string, seq<Body>>

    constructor (ringSize: nat)
      ensures Valid() && this.ringSize == ringSize && history == map[]
    {
      this.ringSize := ringSize;
      labs := map[];
      history := map[];
    }

    /** Everything published to a lab. */
    ghost function Published(lab: string): seq<Body>
      reads this
    {
      if lab in history then history[lab] else []
    }

    ghost predicate Valid()
      reads this
    {
      && history.Keys <= labs.Keys
      && forall lab :: lab in labs ==>
           && labs[lab].events == Ring(Published(lab), ringSize)
           && labs[lab].nextSeq == |Published(lab)| + 1
    }

    /** `_get_or_create`. */
    function StateOf(lab: string): LabState
      reads this
    {
      if lab in labs then labs[lab] else LabState([], 1, {})
    }

    /** `publish`; `dead` are the sockets sending fails on. */
    method Publish(lab: string, body: Body, dead: set<int>) returns (event: Event, sentTo: set<int>)
      requires Valid()
      modifies this
      ensures Valid()
      ensures history == old(history)[lab := old(Published(lab)) + [body]]
      ensures event == Event(|old(Published(lab))| + 1, body)
      ensures sentTo == old(StateOf(lab)).subscribers
      ensures StateOf(lab).subscribers == sentTo - dead
      ensures forall other :: other != lab ==> StateOf(other) == old(StateOf(other))
    {
      var state := StateOf(lab);
      event := Event(state.nextSeq, body);
      sentTo := state.subscribers;
      PushKeepsRing(Published(lab), body, ringSize);
      state := LabState(Pushed(state.events, event, ringSize), state.nextSeq + 1, state.subscribers);
      history := history[lab := Published(lab) + [body]];
      labs := labs[lab := state];
      labs := labs[lab := state.(subscribers := state.subscribers - dead)];
    }

    method Subscribe(lab: string, socket: int)
      requires Valid()
      modifies this
      ensures Valid() && history == old(history)
      ensures StateOf(lab) == old(StateOf(lab)).(subscribers := old(StateOf(lab)).subscribers + {socket})
      ensures forall other :: other != lab ==> StateOf(other) == old(StateOf(other))
    {
      var state := StateOf(lab);
      labs := labs[lab := state.(subscribers := state.subscribers + {socket})];
    }

    method Unsubscribe(lab: string, socket: int)
      requires Valid()
      modifies this
      ensures Valid() && history == old(history)
      ensures StateOf(lab) == old(StateOf(lab)).(subscribers := old(StateOf(lab)).subscribers - {socket})
      ensures forall other :: other != lab ==> StateOf(other) == old(StateOf(other))
    {
      if lab in labs {
        labs := labs[lab := labs[lab].(subscribers := labs[lab].subscribers - {socket})];
      }
    }

    method ReplaySince(lab: string, last: nat) returns (replay: seq<Event>, startOver: bool)
      requires Valid()
      ensures (replay, startOver) == Replay(Ring(Published(lab), ringSize), last)
    {
      if lab !in labs || labs[lab].events == [] {
        return [], false;
      }
      var events := labs[lab].events;
      if last == 0 {
        return events, false;
      }
      if last + 1 < events[0].seqno {
        return [], true;
      }
      replay := CollectNewer(events, last);
      startOver := false;
    }

    method HeadSeq(lab: string) returns (head: nat)
      requires Valid()
      ensures head == |Published(lab)|
    {
      if lab !in labs || labs[lab].nextSeq == 1 {
        return 0;
      }
      return labs[lab].nextSeq - 1;
    }
  }
}
