/** The registry of planned MAC addresses of all labs, keyed by network id and
    address. */
module MacRegistry {
  import opened Collections
  import opened Text
  import opened LabModel

  datatype Key = Key(network: int, mac: string)

  datatype Owner = Owner(lab: string, node: int, iface: int)

  /** What the registry reads of a lab: its links, and the planned address of each
      interface of each node, empty where there is none. */
  datatype LabData = LabData(links: seq<Link>, macs: map<int, seq<string>>)

  function Normalized(mac: string): string {
    Lower(Strip(mac))
  }

  /** Two texts are one address exactly when, white space around them aside, they
      agree letter by letter up to case. */
  lemma {:induction false} OneAddressIff(a: string, b: string)
    ensures Normalized(a) == Normalized(b) <==> SameLetters(Strip(a), Strip(b))
  {
    LowerIff(Strip(a), Strip(b));
  }

  // ---------------------------------------------------------------------
  // What a lab claims
  // ---------------------------------------------------------------------

  function ClaimOf(lab: string, data: LabData, near: Endpoint, network: int): Option<(Key, Owner)>
    requires near.Node?
  {
    if near.node !in data.macs || !(0 <= near.iface < |data.macs[near.node]|) then None
    else
      var mac := Normalized(data.macs[near.node][near.iface]);
      if mac == "" then None else Some((Key(network, mac), Owner(lab, near.node, near.iface)))
  }

  /** The address a link puts on a network, and whose it is. */
  function Claim(lab: string, data: LabData, l: Link): Option<(Key, Owner)> {
    match (l.src, l.dst)
    case (Node(_, _), Net(id)) => ClaimOf(lab, data, l.src, id)
    case (Net(id), Node(_, _)) => ClaimOf(lab, data, l.dst, id)
    case _ => None
  }

  /** The fresh entries after the first n links. */
  function Scan(lab: string, data: LabData, n: nat): map<Key, Owner>
    requires n <= |data.links|
  {
    if n == 0 then map[]
    else
      var claim := Claim(lab, data, data.links[n - 1]);
      var before := Scan(lab, data, n - 1);
      if claim.Some? then before[claim.value.0 := claim.value.1] else before
  }

  function Fresh(lab: string, data: LabData): map<Key, Owner> {
    Scan(lab, data, |data.links|)
  }

  predicate Claims(lab: string, data: LabData, i: nat, k: Key, o: Owner)
    requires i < |data.links|
  {
    Claim(lab, data, data.links[i]) == Some((k, o))
  }

  /** The link joins the owner's interface and the network, in either order, and the
      lab has a planned address for that interface. */
  predicate Plans(data: LabData, l: Link, o: Owner, network: int) {
    && ((l.src == Node(o.node, o.iface) && l.dst == Net(network)) || (l.src == Net(network) && l.dst == Node(o.node, o.iface)))
    && o.node in data.macs && 0 <= o.iface < |data.macs[o.node]|
    && exists c :: c in data.macs[o.node][o.iface] && !IsSpace(c)
  }

  /** What a link claims is the address planned for the interface it joins to the
      network, and for that interface of this lab. */
  lemma {:induction false} ClaimIff(lab: string, data: LabData, l: Link, k: Key, o: Owner)
    ensures Claim(lab, data, l) == Some((k, o)) <==>
      && o.lab == lab && Plans(data, l, o, k.network) && k.mac == Normalized(data.macs[o.node][o.iface])
  {
    if o.node in data.macs && 0 <= o.iface < |data.macs[o.node]| {
      var text := data.macs[o.node][o.iface];
      assert Normalized(text) == "" <==> Strip(text) == "";
      assert Strip(text) == "" <==> forall i :: 0 <= i < |text| ==> IsSpace(text[i]);
    }
  }

  /** The scan holds exactly the keys some link claims, each with a claimant, and
      every owner is an interface of this lab. */
  lemma {:induction false} ScanIff(lab: string, data: LabData, n: nat, k: Key)
    requires n <= |data.links|
    ensures k in Scan(lab, data, n) <==> exists i, o :: 0 <= i < n && Claims(lab, data, i, k, o)
    ensures k in Scan(lab, data, n) ==>
      Scan(lab, data, n)[k].lab == lab && exists i :: 0 <= i < n && Claims(lab, data, i, k, Scan(lab, data, n)[k])
  {
    if n > 0 {
      ScanIff(lab, data, n - 1, k);
      var claim := Claim(lab, data, data.links[n - 1]);
      if claim.Some? && claim.value.0 == k {
        assert Claims(lab, data, n - 1, k, claim.value.1);
      }
    }
  }

  /** Of several claims to a key the last link's counts. */
  lemma {:induction false} LastClaimCounts(lab: string, data: LabData, n: nat, i: nat, k: Key, o: Owner)
    requires i < n <= |data.links| && Claims(lab, data, i, k, o)
    requires forall j, x :: i < j < n ==> !Claims(lab, data, j, k, x)
    ensures k in Scan(lab, data, n) && Scan(lab, data, n)[k] == o
  {
    if i < n - 1 {
      LastClaimCounts(lab, data, n - 1, i, k, o);
      var claim := Claim(lab, data, data.links[n - 1]);
      assert claim.Some? ==> !Claims(lab, data, n - 1, k, claim.value.1);
    }
  }

  // ---------------------------------------------------------------------
  // Recomputing
  // ---------------------------------------------------------------------

  type Entries = map<Key, Owner>

  function Stale(entries: Entries, lab: string): set<Key> {
    set k | k in entries && entries[k].lab == lab
  }

  /** `recompute_for_lab`: evict what the lab has, then enter its fresh claims. */
  function Recomputed(entries: Entries, lab: string, scanned: Entries): Entries {
    (entries - Stale(entries, lab)) + scanned
  }

  datatype Event = Event(lab: string, data: LabData)

  function Run(events: seq<Event>): Entries {
    if events == [] then map[]
    else
      var last := events[|events| - 1];
      Recomputed(Run(events[..|events| - 1]), last.lab, Fresh(last.lab, last.data))
  }

  predicate ClaimedAt(events: seq<Event>, i: nat, k: Key)
    requires i < |events|
  {
    k in Fresh(events[i].lab, events[i].data)
  }

  /** The i-th recompute is the last that claims the key, and the last of its lab. */
  ghost predicate Decides(events: seq<Event>, i: nat, k: Key) {
    && i < |events| && ClaimedAt(events, i, k)
    && forall j :: i < j < |events| ==> !ClaimedAt(events, j, k) && events[j].lab != events[i].lab
  }

  /** What one more recompute means for who decides. */
  lemma {:induction false} DecidesNext(events: seq<Event>, i: nat, k: Key)
    requires events != []
    ensures var n := |events| - 1;
      Decides(events, i, k) <==>
        if i == n then ClaimedAt(events, n, k)
        else Decides(events[..n], i, k) && !ClaimedAt(events, n, k) && events[i].lab != events[n].lab
  {
    var n := |events| - 1;
    assert forall j :: 0 <= j < n ==>
      events[..n][j] == events[j] && ClaimedAt(events[..n], j, k) == ClaimedAt(events, j, k);
  }

  /** The deciding recompute's entry is the one registered. */
  lemma {:induction false} DecidedEntry(events: seq<Event>, i: nat, k: Key)
    requires Decides(events, i, k)
    ensures k in Run(events) && Run(events)[k] == Fresh(events[i].lab, events[i].data)[k]
    ensures Run(events)[k].lab == events[i].lab
  {
    var n := |events| - 1;
    ScanIff(events[i].lab, events[i].data, |events[i].data.links|, k);
    if i < n {
      DecidesNext(events, i, k);
      DecidedEntry(events[..n], i, k);
    }
  }

  lemma {:induction false} EntryDecided(events: seq<Event>, k: Key)
    requires k in Run(events)
    ensures exists i :: Decides(events, i, k)
  {
    var n := |events| - 1;
    if k in Fresh(events[n].lab, events[n].data) {
      DecidesNext(events, n, k);
    } else {
      EntryDecided(events[..n], k);
      var i: nat :| Decides(events[..n], i, k);
      DecidedEntry(events[..n], i, k);
      DecidesNext(events, i, k);
    }
  }

  /** An address is registered exactly when the last recompute that claimed it is
      still the latest of its lab, and then with the owner it gave. */
  lemma {:induction false} RegisteredIff(events: seq<Event>, k: Key)
    ensures k in Run(events) <==> exists i :: Decides(events, i, k)
    ensures forall i: nat :: Decides(events, i, k) ==>
      k in Run(events) && Run(events)[k] == Fresh(events[i].lab, events[i].data)[k]
  {
    if k in Run(events) {
      EntryDecided(events, k);
    }
    forall i: nat | Decides(events, i, k)
      ensures k in Run(events) && Run(events)[k] == Fresh(events[i].lab, events[i].data)[k]
    {
      DecidedEntry(events, i, k);
    }
  }

  /** Index of the latest recompute of a lab. */
  function Latest(events: seq<Event>, lab: string): (r: Option<nat>)
    ensures r.Some? ==> r.value < |events| && events[r.value].lab == lab
    ensures r.Some? ==> forall j :: r.value < j < |events| ==> events[j].lab != lab
    ensures r.None? ==> forall j :: 0 <= j < |events| ==> events[j].lab != lab
  {
    if events == [] then None
    else if events[|events| - 1].lab == lab then Some(|events| - 1)
    else Latest(events[..|events| - 1], lab)
  }

  /** Every entry is justified by the latest data of the lab that owns it. */
  lemma {:induction false} EveryEntryJustified(events: seq<Event>, k: Key)
    requires k in Run(events)
    ensures var o := Run(events)[k];
      var latest := Latest(events, o.lab);
      latest.Some? && k in Fresh(o.lab, events[latest.value].data) && Fresh(o.lab, events[latest.value].data)[k] == o
  {
    RegisteredIff(events, k);
    var i: nat :| Decides(events, i, k);
    ScanIff(events[i].lab, events[i].data, |events[i].data.links|, k);
    var latest := Latest(events, events[i].lab).value;
    assert latest == i;
  }

  /** Right after a lab is recomputed its own entries are its scan, neither more
      nor less. */
  lemma {:induction false} OwnEntriesAreScan(entries: Entries, lab: string, data: LabData, k: Key, o: Owner)
    ensures var after := Recomputed(entries, lab, Fresh(lab, data));
      (k in after && after[k] == o && o.lab == lab) <==> (k in Fresh(lab, data) && Fresh(lab, data)[k] == o)
  {
    ScanIff(lab, data, |data.links|, k);
  }

  /** A recompute of one lab leaves another's entry alone unless it claims the
      same key. */
  lemma {:induction false} OthersKept(entries: Entries, lab: string, data: LabData, k: Key)
    requires k in entries && entries[k].lab != lab
    ensures var after := Recomputed(entries, lab, Fresh(lab, data));
      k in after && (after[k] == entries[k] <==> k !in Fresh(lab, data))
  {
    ScanIff(lab, data, |data.links|, k);
  }

  /** `check_collision`: the owner that has the address on the network, unless it is
      the one that asks. */
  function Collision(entries: Entries, network: int, mac: string, owner: Option<Owner>): (r: Option<Owner>)
    ensures r.Some? <==> (Normalized(mac) != "" && Key(network, Normalized(mac)) in entries
                          && Some(entries[Key(network, Normalized(mac))]) != owner)
    ensures r.Some? ==> r.value == entries[Key(network, Normalized(mac))]
  {
    var key := Key(network, Normalized(mac));
    if key.mac == "" || key !in entries || Some(entries[key]) == owner then None else Some(entries[key])
  }

  /** Some link of the lab from number `m` on puts a spelling of the address on the
      network. */
  ghost predicate Uses(data: LabData, m: nat, network: int, mac: string) {
    exists j, o :: m <= j < |data.links| && Plans(data, data.links[j], o, network)
      && SameLetters(Strip(data.macs[o.node][o.iface]), Strip(mac))
  }

  lemma {:induction false} UsesIff(lab: string, data: LabData, m: nat, network: int, mac: string)
    ensures Uses(data, m, network, mac) <==>
      exists j, o :: m <= j < |data.links| && Claims(lab, data, j, Key(network, Normalized(mac)), o)
  {
    var k := Key(network, Normalized(mac));
    if j: nat, o :| m <= j < |data.links| && Claims(lab, data, j, k, o) {
      ClaimIff(lab, data, data.links[j], k, o);
      OneAddressIff(data.macs[o.node][o.iface], mac);
    }
    if Uses(data, m, network, mac) {
      var j, o :| m <= j < |data.links| && Plans(data, data.links[j], o, network)
        && SameLetters(Strip(data.macs[o.node][o.iface]), Strip(mac));
      var mine := Owner(lab, o.node, o.iface);
      OneAddressIff(data.macs[o.node][o.iface], mac);
      ClaimIff(lab, data, data.links[j], k, mine);
      assert Claims(lab, data, j, k, mine);
    }
  }

  /** Once a lab has been recomputed, and until it is recomputed again or another
      lab takes the address, every spelling of an address it plans collides with the
      interface it is planned for, whoever else asks. */
  lemma {:induction false} SpellingsCollide(events: seq<Event>, i: nat, m: nat, o: Owner, network: int, mac: string,
                                            asker: Option<Owner>)
    requires i < |events| && m < |events[i].data.links| && o.lab == events[i].lab
    requires Plans(events[i].data, events[i].data.links[m], o, network)
    requires SameLetters(Strip(events[i].data.macs[o.node][o.iface]), Strip(mac))
    requires !Uses(events[i].data, m + 1, network, mac)
    requires forall j :: i < j < |events| ==> events[j].lab != o.lab && !Uses(events[j].data, 0, network, mac)
    ensures Collision(Run(events), network, mac, asker) == if asker == Some(o) then None else Some(o)
  {
    var lab, data, k := events[i].lab, events[i].data, Key(network, Normalized(mac));
    OneAddressIff(data.macs[o.node][o.iface], mac);
    ClaimIff(lab, data, data.links[m], k, o);
    UsesIff(lab, data, m + 1, network, mac);
    LastClaimCounts(lab, data, |data.links|, m, k, o);
    forall j | i < j < |events|
      ensures !ClaimedAt(events, j, k)
    {
      UsesIff(events[j].lab, events[j].data, 0, network, mac);
      ScanIff(events[j].lab, events[j].data, |events[j].data.links|, k);
    }
    DecidedEntry(events, i, k);
    assert Normalized(data.macs[o.node][o.iface]) != "";
  }

  function OneClaim(mac: string): LabData {
    LabData([Link("lnk_001", Node(1, 0), Net(1), "")], map[1 := [mac]])
  }

  const UNWIRED := LabData([], map[])

  /** A claim can be lost while its lab still makes it: another lab takes the key
      over and then drops it. */
  lemma {:induction false} ClaimLost(a: string, b: string, mac: string)
    requires a != b && Normalized(mac) != ""
    ensures var k := Key(1, Normalized(mac));
      var events := [Event(a, OneClaim(mac)), Event(b, OneClaim(mac)), Event(b, UNWIRED)];
      Latest(events, a) == Some(0) && k in Fresh(a, OneClaim(mac)) && k !in Run(events)
  {
    var k := Key(1, Normalized(mac));
    var events := [Event(a, OneClaim(mac)), Event(b, OneClaim(mac)), Event(b, UNWIRED)];
    assert events[..2][..1] == events[..1];
    forall lab: string
      ensures k in Fresh(lab, OneClaim(mac))
    {
      assert Claims(lab, OneClaim(mac), 0, k, Owner(lab, 1, 0));
      ScanIff(lab, OneClaim(mac), 1, k);
    }
    RegisteredIff(events, k);
    assert ClaimedAt(events, 1, k) && !ClaimedAt(events, 2, k);
    assert !Decides(events, 1, k) && !Decides(events, 0, k) && !Decides(events, 2, k);
  }

  // ---------------------------------------------------------------------
  // Suggesting
  // ---------------------------------------------------------------------

  const TAILS: nat := 0x1_00_00_00

  /** `50:00:00:xx:yy:zz` for the last 24 bits of a number. */
  function MacText(candidate: int): string {
    "50:00:00:" + Hex(candidate / 0x1_00_00 % 0x100, 2) + ":" + Hex(candidate / 0x100 % 0x100, 2) + ":"
    + Hex(candidate % 0x100, 2)
  }

  predicate Taken(entries: Entries, network: int, candidate: int) {
    Key(network, MacText(candidate)) in entries
  }

  /** The k-th tail tried. */
  function Tail(start: int, k: nat): nat {
    (start + k) % TAILS
  }

  lemma {:induction false} HighOctet(q: int, c: int)
    ensures (q * 0x1_00_00_00 + c) / 0x1_00_00 % 0x100 == c / 0x1_00_00 % 0x100
  {
    var d, e := c / 0x1_00_00, c % 0x1_00_00;
    assert q * 0x1_00_00_00 + c == (q * 0x100 + d) * 0x1_00_00 + e;
    assert (q * 0x1_00_00_00 + c) / 0x1_00_00 == q * 0x100 + d;
  }

  lemma {:induction false} MiddleOctet(q: int, c: int)
    ensures (q * 0x1_00_00_00 + c) / 0x100 % 0x100 == c / 0x100 % 0x100
  {
    var d, e := c / 0x100, c % 0x100;
    assert q * 0x1_00_00_00 + c == (q * 0x1_00_00 + d) * 0x100 + e;
    assert (q * 0x1_00_00_00 + c) / 0x100 == q * 0x1_00_00 + d;
  }

  lemma {:induction false} LowOctet(q: int, c: int)
    ensures (q * 0x1_00_00_00 + c) % 0x100 == c % 0x100
  {
    assert q * 0x1_00_00_00 + c == (q * 0x1_00_00 + c / 0x100) * 0x100 + c % 0x100;
  }

  lemma {:induction false} SameOctets(q: int, c: int)
    ensures MacText(q * 0x1_00_00_00 + c) == MacText(c)
  {
    HighOctet(q, c);
    MiddleOctet(q, c);
    LowOctet(q, c);
  }

  /** Only the last 24 bits matter. */
  lemma {:induction false} TextOfTail(candidate: int)
    ensures MacText(candidate) == MacText(candidate % TAILS)
  {
    SameOctets(candidate / TAILS, candidate % TAILS);
    assert candidate / TAILS * 0x1_00_00_00 + candidate % TAILS == candidate;
  }

  lemma {:induction false} OctetReads(a: nat)
    requires a < 0x100
    ensures HexValue(Hex(a, 2)) == a
  {
    assert Pow16(2) == 16 * Pow16(1) == 256 * Pow16(0);
    ValueOfHex(a, 2);
  }

  /** The number of the last three octets. */
  function TailIn(s: string): nat
    requires |s| == 17
  {
    HexValue(s[9..11]) * 0x1_00_00 + HexValue(s[12..14]) * 0x100 + HexValue(s[15..])
  }

  /** The text is six octets between colons: 50, 00, 00 and the last 24 bits of the
      number. */
  lemma {:induction false} TextReads(candidate: int)
    ensures var s := MacText(candidate);
      |s| == 17 && s[..9] == "50:00:00:" && s[11] == ':' && s[14] == ':' && TailIn(s) == candidate % TAILS
  {
    var tail := candidate % TAILS;
    TextOfTail(candidate);
    var s := MacText(tail);
    assert s[9..11] == Hex(tail / 0x1_00_00 % 0x100, 2);
    assert s[12..14] == Hex(tail / 0x100 % 0x100, 2);
    assert s[15..] == Hex(tail % 0x100, 2);
    OctetReads(tail / 0x1_00_00 % 0x100);
    OctetReads(tail / 0x100 % 0x100);
    OctetReads(tail % 0x100);
    ThreeOctets(tail);
  }

  lemma {:induction false} TailReads(a: nat)
    requires a < TAILS
    ensures |MacText(a)| == 17 && TailIn(MacText(a)) == a
  {
    TextReads(a);
  }

  /** Different tails print differently: there are 2^24 addresses. */
  lemma {:induction false} TailsDiffer(a: nat, b: nat)
    requires a < TAILS && b < TAILS && MacText(a) == MacText(b)
    ensures a == b
  {
    TailReads(a);
    TailReads(b);
  }

  lemma {:induction false} ThreeOctets(a: nat)
    requires a < 0x1_00_00_00
    ensures a == a / 0x1_00_00 % 0x100 * 0x1_00_00 + a / 0x100 % 0x100 * 0x100 + a % 0x100
  {
    assert a / 0x1_00_00 == a / 0x100 / 0x100;
  }

  /** An address that is printed is in the form addresses are compared in. */
  lemma {:induction false} TextIsNormal(candidate: int)
    ensures Normalized(MacText(candidate)) == MacText(candidate) != ""
  {
    var s := MacText(candidate);
    HexIsLower(candidate / 0x1_00_00 % 0x100, 2);
    HexIsLower(candidate / 0x100 % 0x100, 2);
    HexIsLower(candidate % 0x100, 2);
    assert s[0] == '5' && s[16] == Hex(candidate % 0x100, 2)[1];
    StripOf("", s, "");
    assert "" + s + "" == s;
    LowerStays(s);
  }

  /** The k-th tail is free and the k tails before it are taken. */
  ghost predicate FreeAt(entries: Entries, network: int, start: int, k: nat) {
    !Taken(entries, network, Tail(start, k)) && forall j: nat :: j < k ==> Taken(entries, network, Tail(start, j))
  }

  ghost predicate AllTaken(entries: Entries, network: int) {
    forall v: nat :: v < TAILS ==> Taken(entries, network, v)
  }

  /** The address is the first free one in cyclic order from the start; the search
      is given up only when every tail is taken. */
  ghost predicate Suggestion(entries: Entries, network: int, start: int, mac: string) {
    || (exists k: nat :: k < TAILS && FreeAt(entries, network, start, k) && mac == MacText(Tail(start, k)))
    || (AllTaken(entries, network) && mac == MacText(0))
  }

  /** The suggestion collides with nobody exactly when some tail is free. */
  lemma {:induction false} SuggestionFreeIff(entries: Entries, network: int, start: int, mac: string)
    requires Suggestion(entries, network, start, mac)
    ensures Collision(entries, network, mac, None).None? <==> !AllTaken(entries, network)
  {
    if c :| mac == MacText(c) {
      TextIsNormal(c);
    }
    if k: nat :| k < TAILS && FreeAt(entries, network, start, k) && mac == MacText(Tail(start, k)) {
      assert !Taken(entries, network, Tail(start, k));
    } else {
      assert Taken(entries, network, 0);
    }
  }

  /** Going round once tries every tail. */
  lemma {:induction false} AllTried(entries: Entries, network: int, start: int)
    requires forall j: nat :: j < TAILS ==> Taken(entries, network, Tail(start, j))
    ensures AllTaken(entries, network)
  {
    forall v: nat | v < TAILS
      ensures Taken(entries, network, v)
    {
      var k := (v - start) % TAILS;
      Wrap(v, start);
      assert Tail(start, k) == v;
    }
  }

  lemma {:induction false} Wrap(v: nat, start: int)
    requires v < TAILS
    ensures (start + (v - start) % TAILS) % TAILS == v
  {
    var q := (v - start) / TAILS;
    assert start + (v - start) % TAILS == v - q * TAILS;
  }

  // ---------------------------------------------------------------------
  // The registry object
  // ---------------------------------------------------------------------

  class Registry {
    var entries: Entries

    constructor ()
      ensures entries == map[]
    {
      entries := map[];
    }

    method CheckCollision(network: int, mac: string, owner: Option<Owner>) returns (r: Option<Owner>)
      ensures r == Collision(entries, network, mac, owner)
    {
      var key := Key(network, Normalized(mac));
      if key.mac == "" || key !in entries || Some(entries[key]) == owner {
        return None;
      }
      return Some(entries[key]);
    }

    method RecomputeForLab(lab: string, data: LabData)
      modifies this
      ensures entries == Recomputed(old(entries), lab, Fresh(lab, data))
    {
      var scanned: Entries := map[];
      for n := 0 to |data.links|
        invariant scanned == Scan(lab, data, n)
        invariant entries == old(entries)
      {
        var claim := Claim(lab, data, data.links[n]);
        if claim.None? {
          continue;
        }
        scanned := scanned[claim.value.0 := claim.value.1];
      }
      var stale := Stale(entries, lab);
      while stale != {}
        invariant stale <= Stale(old(entries), lab)
        invariant entries == old(entries) - (Stale(old(entries), lab) - stale)
      {
        var key := Choose(stale);
        entries := Without(entries, key);
        stale := stale - {key};
      }
      entries := entries + scanned;
    }

    method SuggestMac(network: int, start: int) returns (mac: string)
      ensures Suggestion(entries, network, start, mac)
    {
      var candidate := start;
      for k := 0 to TAILS
        invariant candidate % TAILS == Tail(start, k)
        invariant forall j: nat :: j < k ==> Taken(entries, network, Tail(start, j))
      {
        TextOfTail(candidate);
        mac := MacText(candidate);
        if Key(network, mac) !in entries {
          assert FreeAt(entries, network, start, k);
          return;
        }
        NextTail(candidate, start, k);
        candidate := (candidate + 1) % TAILS;
      }
      AllTried(entries, network, start);
      mac := MacText(0);
    }
  }

  lemma {:induction false} NextTail(candidate: int, start: int, k: nat)
    requires candidate % TAILS == Tail(start, k)
    ensures (candidate + 1) % TAILS % TAILS == Tail(start, k + 1)
  {
    var p, q := candidate / TAILS, (start + k) / TAILS;
    assert candidate + 1 - p * TAILS == start + k + 1 - q * TAILS;
    assert candidate + 1 == start + k + 1 + (p - q) * TAILS;
  }
}
