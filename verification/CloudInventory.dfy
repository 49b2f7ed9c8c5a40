/** The host-wide scans: which clouds there are, which collide, who owns what. */
module CloudInventory {
  import opened Collections
  import opened Cidr
  import opened CloudModel

  // ---------------------------------------------------------------------
  // Marking collisions
  // ---------------------------------------------------------------------

  /** An owner as `list_nat_clouds` sees it: its cloud id and its stored CIDR. */
  datatype Entry = Entry(cloud: string, cidr: Field<Cidr>)

  /** The networks seen so far, one for each cloud id: the last one. */
  function Seen(entries: seq<Entry>): map<string, Cidr> {
    if entries == [] then map[]
    else
      var last := entries[|entries| - 1];
      var seen := Seen(entries[..|entries| - 1]);
      if last.cidr.Given? then seen[last.cloud := last.cidr.value] else seen
  }

  /** Ids of the networks seen that the new one overlaps. */
  function Hits(seen: map<string, Cidr>, c: Cidr): set<string> {
    set k | k in seen && Overlaps(c, seen[k])
  }

  /** The ids marked while the list is walked. */
  function Marked(entries: seq<Entry>): set<string> {
    if entries == [] then {}
    else
      var last, before := entries[|entries| - 1], entries[..|entries| - 1];
      match last.cidr
      case Absent => Marked(before)
      case Malformed => Marked(before) + {last.cloud}
      case Given(c) =>
        var hits := Hits(Seen(before), c);
        Marked(before) + hits + (if hits == {} then {} else {last.cloud})
  }

  predicate Meet(a: Entry, b: Entry) {
    a.cidr.Given? && b.cidr.Given? && Overlaps(a.cidr.value, b.cidr.value)
  }

  ghost predicate MeetsAnother(entries: seq<Entry>, i: nat)
    requires i < |entries|
  {
    exists j :: 0 <= j < |entries| && j != i && Meet(entries[i], entries[j])
  }

  /** No readable record from `i` on, before `end`, carries the cloud id of the
      i-th again. */
  ghost predicate Stands(entries: seq<Entry>, i: nat, end: nat)
    requires i < end <= |entries|
  {
    forall m :: i < m < end && entries[m].cidr.Given? ==> entries[m].cloud != entries[i].cloud
  }

  /** Two records overlap, and the earlier one is still remembered when the walk
      comes to the later one. */
  ghost predicate Noticed(entries: seq<Entry>, i: nat, j: nat) {
    i < j < |entries| && Meet(entries[i], entries[j]) && Stands(entries, i, j)
  }

  /** Why the cloud id of a record is marked. */
  ghost predicate Reason(entries: seq<Entry>, i: nat)
    requires i < |entries|
  {
    entries[i].cidr.Malformed? || exists j: nat :: Noticed(entries, i, j) || Noticed(entries, j, i)
  }

  /** The record is the last readable one of its cloud id. */
  ghost predicate Latest(entries: seq<Entry>, i: nat) {
    i < |entries| && entries[i].cidr.Given? && Stands(entries, i, |entries|)
  }

  lemma {:induction false} LatestNext(entries: seq<Entry>, i: nat)
    requires entries != []
    ensures var n := |entries| - 1;
      Latest(entries, i) <==>
        if i == n then entries[n].cidr.Given?
        else Latest(entries[..n], i) && (entries[n].cidr.Given? ==> entries[n].cloud != entries[i].cloud)
  {
    var n := |entries| - 1;
    assert forall m :: 0 <= m < n ==> entries[..n][m] == entries[m];
  }

  /** What is remembered is the last readable record of each id. */
  lemma {:induction false} SeenIff(entries: seq<Entry>, k: string)
    ensures k in Seen(entries) <==> exists i: nat :: Latest(entries, i) && entries[i].cloud == k
    ensures forall i: nat :: Latest(entries, i) && entries[i].cloud == k ==>
      k in Seen(entries) && Seen(entries)[k] == entries[i].cidr.value
  {
    if entries != [] {
      var n := |entries| - 1;
      var before := entries[..n];
      SeenIff(before, k);
      forall i: nat | Latest(entries, i) && entries[i].cloud == k
        ensures k in Seen(entries) && Seen(entries)[k] == entries[i].cidr.value
      {
        LatestNext(entries, i);
      }
      if k in Seen(entries) {
        if entries[n].cidr.Given? && entries[n].cloud == k {
          LatestNext(entries, n);
        } else {
          var i: nat :| Latest(before, i) && before[i].cloud == k;
          LatestNext(entries, i);
        }
      }
    }
  }

  /** The remembered record is hit by the network. */
  ghost predicate HitBy(entries: seq<Entry>, i: nat, c: Cidr) {
    Latest(entries, i) && Overlaps(c, entries[i].cidr.value)
  }

  /** What a new network hits. */
  lemma {:induction false} HitsIff(entries: seq<Entry>, c: Cidr, k: string)
    ensures k in Hits(Seen(entries), c) <==> exists i: nat :: HitBy(entries, i, c) && entries[i].cloud == k
  {
    SeenIff(entries, k);
    if k in Hits(Seen(entries), c) {
      var i: nat :| Latest(entries, i) && entries[i].cloud == k;
      assert HitBy(entries, i, c);
    }
  }

  /** What one more record adds to what is noticed. */
  lemma {:induction false} NoticedNext(entries: seq<Entry>, i: nat, j: nat)
    requires entries != []
    ensures var n := |entries| - 1;
      Noticed(entries, i, j) <==>
        if j == n then entries[n].cidr.Given? && HitBy(entries[..n], i, entries[n].cidr.value)
        else Noticed(entries[..n], i, j)
  {
    var n := |entries| - 1;
    assert forall m :: 0 <= m < n ==> entries[..n][m] == entries[m];
  }

  /** The reasons one more record adds. */
  lemma {:induction false} ReasonNext(entries: seq<Entry>, i: nat)
    requires i < |entries|
    ensures var n := |entries| - 1;
      var last := entries[n];
      Reason(entries, i) <==>
        if i == n then last.cidr.Malformed? || (last.cidr.Given? && exists j: nat :: HitBy(entries[..n], j, last.cidr.value))
        else Reason(entries[..n], i) || (last.cidr.Given? && HitBy(entries[..n], i, last.cidr.value))
  {
    var n := |entries| - 1;
    forall j: nat
      ensures j < n ==> Noticed(entries, i, j) == Noticed(entries[..n], i, j)
      ensures i < n ==> Noticed(entries, j, i) == Noticed(entries[..n], j, i)
    {
      NoticedNext(entries, i, j);
      NoticedNext(entries, j, i);
    }
    NoticedNext(entries, i, n);
    if i == n {
      forall j: nat
        ensures Noticed(entries, j, n) <==> entries[n].cidr.Given? && HitBy(entries[..n], j, entries[n].cidr.value)
      {
        NoticedNext(entries, j, n);
      }
    }
  }

  /** Some record of the id has a reason. */
  ghost predicate AnyReason(entries: seq<Entry>, k: string) {
    exists i :: 0 <= i < |entries| && entries[i].cloud == k && Reason(entries, i)
  }

  /** For every list, ids repeated or not: the walk marks an id exactly when some
      record of it is unreadable, or overlaps another record and the earlier of the
      two had not been replaced by a readable one of the same id in between. */
  lemma {:induction false} MarkedIff(entries: seq<Entry>, k: string)
    ensures k in Marked(entries) <==> AnyReason(entries, k)
  {
    if entries != [] {
      var n := |entries| - 1;
      var before, last := entries[..n], entries[n];
      MarkedIff(before, k);
      forall i: nat | i < |entries|
        ensures Reason(entries, i) <==>
          if i == n then last.cidr.Malformed? || (last.cidr.Given? && exists j: nat :: HitBy(before, j, last.cidr.value))
          else Reason(before, i) || (last.cidr.Given? && HitBy(before, i, last.cidr.value))
      {
        ReasonNext(entries, i);
      }
      if last.cidr.Given? {
        LastHits(before, last, k);
      }
      AnyReasonNext(entries, k);
    }
  }

  /** The ids a readable last record marks. */
  lemma {:induction false} LastHits(before: seq<Entry>, last: Entry, k: string)
    requires last.cidr.Given?
    ensures var hits := Hits(Seen(before), last.cidr.value);
      && (k in hits <==> exists i: nat :: HitBy(before, i, last.cidr.value) && before[i].cloud == k)
      && (hits != {} <==> exists i: nat :: HitBy(before, i, last.cidr.value))
  {
    var c := last.cidr.value;
    var hits := Hits(Seen(before), c);
    HitsIff(before, c, k);
    if hits != {} {
      var x :| x in hits;
      HitsIff(before, c, x);
    }
    if i: nat :| HitBy(before, i, c) {
      HitsIff(before, c, before[i].cloud);
    }
  }

  lemma {:induction false} AnyReasonNext(entries: seq<Entry>, k: string)
    requires entries != []
    ensures var n := |entries| - 1;
      AnyReason(entries, k) <==>
        || (exists i :: 0 <= i < n && entries[i].cloud == k && Reason(entries, i))
        || (entries[n].cloud == k && Reason(entries, n))
  {
  }

  ghost predicate DistinctClouds(entries: seq<Entry>) {
    forall i, j :: 0 <= i < j < |entries| ==> entries[i].cloud != entries[j].cloud
  }

  /** With one record for each id, an owner is marked exactly when its CIDR is
      unreadable or overlaps some other owner's. */
  lemma {:induction false} MarkedWhenDistinct(entries: seq<Entry>, i: nat)
    requires DistinctClouds(entries) && i < |entries|
    ensures entries[i].cloud in Marked(entries) <==> entries[i].cidr.Malformed? || MeetsAnother(entries, i)
  {
    MarkedIff(entries, entries[i].cloud);
    if j :| 0 <= j < |entries| && j != i && Meet(entries[i], entries[j]) {
      assert Noticed(entries, i, j) || Noticed(entries, j, i);
    }
  }

  /** Overlap number `i`, `j` is missed: a readable record between the two has the
      id of the earlier one. */
  ghost predicate Missed(entries: seq<Entry>, i: nat, j: nat)
    requires i < |entries| && j < |entries| && i != j
  {
    var early, late := if i < j then i else j, if i < j then j else i;
    !Stands(entries, early, late)
  }

  /** An overlapping owner stays unmarked exactly when no record of its id is
      unreadable and every overlap of every record of its id is missed. */
  lemma {:induction false} HiddenIff(entries: seq<Entry>, i: nat)
    requires i < |entries| && MeetsAnother(entries, i)
    ensures entries[i].cloud !in Marked(entries) <==>
      forall m :: 0 <= m < |entries| && entries[m].cloud == entries[i].cloud ==>
        !entries[m].cidr.Malformed?
        && forall j :: 0 <= j < |entries| && j != m && Meet(entries[m], entries[j]) ==> Missed(entries, m, j)
  {
    MarkedIff(entries, entries[i].cloud);
    forall m | 0 <= m < |entries|
      ensures Reason(entries, m) <==> (entries[m].cidr.Malformed?
        || exists j :: 0 <= j < |entries| && j != m && Meet(entries[m], entries[j]) && !Missed(entries, m, j))
    {
      ReasonIsNotMissed(entries, m);
    }
  }

  lemma {:induction false} ReasonIsNotMissed(entries: seq<Entry>, m: nat)
    requires m < |entries|
    ensures Reason(entries, m) <==> (entries[m].cidr.Malformed?
      || exists j :: 0 <= j < |entries| && j != m && Meet(entries[m], entries[j]) && !Missed(entries, m, j))
  {
    if j: nat :| Noticed(entries, m, j) || Noticed(entries, j, m) {
      assert Meet(entries[m], entries[j]) && !Missed(entries, m, j);
    }
    if j :| 0 <= j < |entries| && j != m && Meet(entries[m], entries[j]) && !Missed(entries, m, j) {
      assert Noticed(entries, m, j) || Noticed(entries, j, m);
    }
  }

  /** A list on which that happens: the first network of a repeated id is forgotten,
      and a later owner that overlaps it goes unmarked. */
  lemma {:induction false} SameIdHides(a: string, b: string, c: Cidr, d: Cidr)
    requires a != b && !Overlaps(c, d)
    ensures var entries := [Entry(a, Given(c)), Entry(a, Given(d)), Entry(b, Given(c))];
      MeetsAnother(entries, 2) && b !in Marked(entries)
  {
    var entries := [Entry(a, Given(c)), Entry(a, Given(d)), Entry(b, Given(c))];
    OverlapsSymmetric(c, d);
    ContainsIsRange(c, c.addr);
    assert Meet(entries[2], entries[0]) && !Meet(entries[2], entries[1]);
    assert entries[1].cidr.Given? && entries[1].cloud == entries[0].cloud;
    assert Missed(entries, 2, 0);
    HiddenIff(entries, 2);
  }

  /** The marking loop of `list_nat_clouds`. */
  method MarkCollisions(entries: seq<Entry>) returns (colliding: set<string>)
    ensures colliding == Marked(entries)
  {
    colliding := {};
    var seen: map<string, Cidr> := map[];
    for n := 0 to |entries|
      invariant seen == Seen(entries[..n])
      invariant colliding == Marked(entries[..n])
    {
      assert entries[..n + 1][..n] == entries[..n];
      var entry := entries[n];
      if entry.cidr.Malformed? {
        colliding := colliding + {entry.cloud};
      } else if entry.cidr.Given? {
        ghost var was := colliding;
        var net := entry.cidr.value;
        var others := seen.Keys;
        while others != {}
          invariant others <= seen.Keys
          invariant var hit := Hits(seen, net) - others;
            colliding == was + hit + (if hit == {} then {} else {entry.cloud})
        {
          var other := Choose(others);
          if Overlaps(net, seen[other]) {
            colliding := colliding + {entry.cloud, other};
          }
          others := others - {other};
        }
        assert Hits(seen, net) - {} == Hits(seen, net);
        seen := seen[entry.cloud := net];
      }
    }
    assert entries[..|entries|] == entries;
  }

  // ---------------------------------------------------------------------
  // Rows
  // ---------------------------------------------------------------------

  predicate IsRow(host: Host, p: string, i: nat) {
    Exists(host, p, i) && At(host, p, i).nat_cloud
  }

  /** The rows are the cloud records of the host, each once. */
  ghost predicate Lists(host: Host, rows: seq<(string, nat)>) {
    && (forall p: string, i: nat :: IsRow(host, p, i) <==> (p, i) in rows)
    && (forall a, b :: 0 <= a < b < |rows| ==> rows[a] != rows[b])
  }

  /** `_cloud_refs`. */
  method CloudRefs(host: Host) returns (rows: seq<(string, nat)>)
    ensures Lists(host, rows)
  {
    rows := [];
    var paths := host.Keys;
    while paths != {}
      invariant paths <= host.Keys
      invariant forall p: string, i: nat :: (p, i) in rows <==> p !in paths && IsRow(host, p, i)
      invariant forall a, b :: 0 <= a < b < |rows| ==> rows[a] != rows[b]
    {
      var path := Choose(paths);
      rows := LabRows(host, path, paths, rows);
      paths := paths - {path};
    }
  }

  method LabRows(host: Host, path: string, ghost paths: set<string>, before: seq<(string, nat)>)
    returns (rows: seq<(string, nat)>)
    requires path in host && path in paths
    requires forall p: string, i: nat :: (p, i) in before <==> p !in paths && IsRow(host, p, i)
    requires forall a, b :: 0 <= a < b < |before| ==> before[a] != before[b]
    ensures forall p: string, i: nat :: (p, i) in rows <==> (p !in paths || p == path) && IsRow(host, p, i)
    ensures forall a, b :: 0 <= a < b < |rows| ==> rows[a] != rows[b]
  {
    rows := before;
    var ids := host[path].networks.Keys;
    while ids != {}
      invariant ids <= host[path].networks.Keys
      invariant forall p: string, i: nat :: (p, i) in rows <==>
        (p !in paths && IsRow(host, p, i)) || (p == path && i !in ids && IsRow(host, p, i))
      invariant forall a, b :: 0 <= a < b < |rows| ==> rows[a] != rows[b]
    {
      var id := Choose(ids);
      if host[path].networks[id].nat_cloud {
        assert (path, id) !in rows;
        rows := rows + [(path, id)];
      }
      ids := ids - {id};
    }
  }
}
