/** Names of kernel objects, and the sweeps that pick objects by name.  The hash
    of a lab is a number below 0x10000; that two labs may share one is outside
    this model. */
module HostNames {
  import opened Text

  const HASHES: nat := 0x10000

  /** A TAP device, the host end of a veth pair, or its peer end. */
  datatype Kind = Tap | HostEnd | PeerEnd

  function Suffix(kind: Kind): string {
    match kind
    case Tap => ""
    case HostEnd => "h"
    case PeerEnd => "p"
  }

  function BridgeName(hash: nat, network: nat): string {
    "nove" + Hex(hash, 4) + "n" + Decimal(network)
  }

  /** The name of an interface up to its node. */
  function Head(hash: nat): (s: string)
    ensures |s| == 8
  {
    "nve" + Hex(hash, 4) + "d"
  }

  /** What follows the hash in the name of an interface. */
  function Tail(node: nat, iface: nat, kind: Kind): string {
    Decimal(node) + (['i'] + (Decimal(iface) + Suffix(kind)))
  }

  /** `tap_name`, `veth_host_name` and `veth_peer_name`. */
  function IfaceName(hash: nat, node: nat, iface: nat, kind: Kind): string {
    Head(hash) + Tail(node, iface, kind)
  }

  // ---------------------------------------------------------------------
  // Names read back
  // ---------------------------------------------------------------------

  lemma {:induction false} HashUnique(a: nat, b: nat)
    requires a < HASHES && b < HASHES && Hex(a, 4) == Hex(b, 4)
    ensures a == b
  {
    assert Pow16(4) == 16 * Pow16(3) == 256 * Pow16(2) == 4096 * Pow16(1) == 65536 * Pow16(0);
    HexUnique(a, b, 4);
  }

  /** A bridge name tells its hash and its network. */
  lemma {:induction false} BridgeNameUnique(h: nat, n: nat, h': nat, n': nat)
    requires h < HASHES && h' < HASHES && BridgeName(h, n) == BridgeName(h', n')
    ensures h == h' && n == n'
  {
    var s, t := BridgeName(h, n), BridgeName(h', n');
    assert s[4..8] == Hex(h, 4) && t[4..8] == Hex(h', 4);
    HashUnique(h, h');
    assert s[9..] == Decimal(n) && t[9..] == Decimal(n');
    ValueOfDecimal(n);
    ValueOfDecimal(n');
  }

  lemma {:induction false} TailUnique(n: nat, i: nat, k: Kind, n': nat, i': nat, k': Kind)
    requires Tail(n, i, k) == Tail(n', i', k')
    ensures n == n' && i == i' && k == k'
  {
    var x, y := Decimal(i) + Suffix(k), Decimal(i') + Suffix(k');
    NumberThenStop(n, n', ['i'] + x, ['i'] + y);
    assert x == (['i'] + x)[1..] && y == (['i'] + y)[1..];
    NumberThenStop(i, i', Suffix(k), Suffix(k'));
  }

  lemma {:induction false} IfaceParts(h: nat, n: nat, i: nat, k: Kind)
    ensures var s := IfaceName(h, n, i, k);
      |s| == 8 + |Tail(n, i, k)| && s[..3] == "nve" && s[3..7] == Hex(h, 4) && s[7] == 'd' && s[8..] == Tail(n, i, k)
  {
  }

  /** An interface name tells its hash, node, interface and kind. */
  lemma {:induction false} IfaceNameUnique(h: nat, n: nat, i: nat, k: Kind, h': nat, n': nat, i': nat, k': Kind)
    requires h < HASHES && h' < HASHES && IfaceName(h, n, i, k) == IfaceName(h', n', i', k')
    ensures h == h' && n == n' && i == i' && k == k'
  {
    IfaceParts(h, n, i, k);
    IfaceParts(h', n', i', k');
    HashUnique(h, h');
    TailUnique(n, i, k, n', i', k');
  }

  /** The last letter tells the two ends of a veth pair, and a TAP from both. */
  lemma {:induction false} LastLetterTells(h: nat, n: nat, i: nat, k: Kind)
    ensures var s := IfaceName(h, n, i, k);
      && (s[|s| - 1] == 'h' <==> k.HostEnd?) && (s[|s| - 1] == 'p' <==> k.PeerEnd?) && (IsDigit(s[|s| - 1]) <==> k.Tap?)
  {
    var s, d := IfaceName(h, n, i, k), Decimal(i);
    assert IsDigit(d[|d| - 1]);
    assert k.Tap? ==> s[|s| - 1] == d[|d| - 1];
  }

  // ---------------------------------------------------------------------
  // The asserted length
  // ---------------------------------------------------------------------

  const MAX_NAME := 14

  lemma {:induction false} TenThousand()
    ensures Pow10(1) == 10 && Pow10(2) == 100 && Pow10(3) == 1000 && Pow10(5) == 100000
  {
    assert Pow10(1) == 10 * Pow10(0);
    assert Pow10(2) == 10 * Pow10(1);
    assert Pow10(3) == 10 * Pow10(2);
    assert Pow10(4) == 10 * Pow10(3);
  }

  /** The assertion on a bridge name holds exactly below network 100000. */
  lemma {:induction false} BridgeFitsIff(hash: nat, network: nat)
    ensures |BridgeName(hash, network)| <= MAX_NAME <==> network < 100000
  {
    TenThousand();
    DecimalLength(network, 5);
  }

  /** Five digits are left for the two numbers of a TAP, four for those of a veth
      end. */
  lemma {:induction false} IfaceFitsIff(hash: nat, node: nat, iface: nat, kind: Kind)
    ensures |IfaceName(hash, node, iface, kind)| <= MAX_NAME <==>
      |Decimal(node)| + |Decimal(iface)| <= (if kind.Tap? then 5 else 4)
  {
    IfaceParts(hash, node, iface, kind);
  }

  /** The documented bound suffices for a TAP; for a veth end it does not. */
  lemma {:induction false} DocumentedBound(hash: nat, node: nat, iface: nat, kind: Kind)
    requires node <= 999 && iface <= 99
    ensures |IfaceName(hash, node, iface, kind)| <= MAX_NAME <==> kind.Tap? || node <= 99 || iface <= 9
  {
    TenThousand();
    IfaceFitsIff(hash, node, iface, kind);
    DecimalLength(node, 3);
    DecimalLength(node, 2);
    DecimalLength(iface, 2);
    DecimalLength(iface, 1);
  }

  // ---------------------------------------------------------------------
  // Patterns
  // ---------------------------------------------------------------------

  function DigitRun(s: string): (n: nat)
    ensures n <= |s| && forall i :: 0 <= i < n ==> IsDigit(s[i])
    ensures n < |s| ==> !IsDigit(s[n])
  {
    if s == "" || !IsDigit(s[0]) then 0 else 1 + DigitRun(s[1..])
  }

  predicate IsHex(c: char) {
    IsDigit(c) || 'a' <= c <= 'f'
  }

  predicate FourHex(s: string) {
    |s| >= 4 && IsHex(s[0]) && IsHex(s[1]) && IsHex(s[2]) && IsHex(s[3])
  }

  /** `^nove[0-9a-f]{4}n\d{1,5}$` */
  predicate BridgePattern(s: string) {
    && |s| >= 9 && s[..4] == "nove" && FourHex(s[4..]) && s[8] == 'n'
    && 1 <= DigitRun(s[9..]) <= 5 && DigitRun(s[9..]) == |s| - 9
  }

  /** `\d{1,3}i\d{1,2}[hp]?$` */
  predicate TailPattern(s: string) {
    var d := DigitRun(s);
    && 1 <= d <= 3 && d < |s| && s[d] == 'i'
    && var rest := s[d + 1..];
       var e := DigitRun(rest);
       1 <= e <= 2 && rest[e..] in ["", "h", "p"]
  }

  /** `^nve[0-9a-f]{4}d\d{1,3}i\d{1,2}[hp]?$` */
  predicate IfacePattern(s: string) {
    |s| >= 8 && s[..3] == "nve" && FourHex(s[3..]) && s[7] == 'd' && TailPattern(s[8..])
  }

  /** Four hexadecimal digits are the print of some hash. */
  lemma {:induction false} FourHexIff(s: string)
    ensures FourHex(s) <==> |s| >= 4 && exists h: nat :: h < HASHES && s[..4] == Hex(h, 4)
  {
    if FourHex(s) {
      var t := s[..4];
      assert t[0] == s[0] && t[1] == s[1] && t[2] == s[2] && t[3] == s[3];
      HexOfValue(t);
      assert Pow16(4) == 16 * Pow16(3) == 256 * Pow16(2) == 4096 * Pow16(1) == 65536 * Pow16(0);
      assert s[..4] == Hex(HexValue(t), 4);
    }
    if |s| >= 4 && exists h: nat :: h < HASHES && s[..4] == Hex(h, 4) {
      var h: nat :| h < HASHES && s[..4] == Hex(h, 4);
      HexIsFour(h, s[4..]);
      assert s == Hex(h, 4) + s[4..];
    }
  }

  /** The text is one to `most` digits. */
  predicate Digits(s: string, most: nat) {
    AllDigits(s) && |s| <= most
  }

  lemma {:induction false} RunIs(digits: string, rest: string)
    requires forall i :: 0 <= i < |digits| ==> IsDigit(digits[i])
    requires rest != "" ==> !IsDigit(rest[0])
    ensures DigitRun(digits + rest) == |digits|
  {
    var s := digits + rest;
    assert forall i :: 0 <= i < |digits| ==> s[i] == digits[i];
    assert |digits| < |s| ==> s[|digits|] == rest[0];
    assert DigitRun(s) < |s| ==> !IsDigit(s[DigitRun(s)]);
  }

  /** A bridge pattern is a hash and up to five digits. */
  lemma {:induction false} BridgePatternIff(s: string)
    ensures BridgePattern(s) <==>
      exists h: nat, digits: string :: h < HASHES && Digits(digits, 5) && s == "nove" + Hex(h, 4) + "n" + digits
  {
    if BridgePattern(s) {
      FourHexIff(s[4..]);
      var h: nat :| h < HASHES && s[4..][..4] == Hex(h, 4);
      var digits := s[9..];
      assert Digits(digits, 5);
      assert s == "nove" + Hex(h, 4) + "n" + digits;
    }
    if h: nat, digits: string :| h < HASHES && Digits(digits, 5) && s == "nove" + Hex(h, 4) + "n" + digits {
      HexIsFour(h, "n" + digits);
      assert s[4..] == Hex(h, 4) + ("n" + digits) && s[9..] == digits;
      RunIs(digits, "");
      assert digits + "" == digits;
    }
  }

  /** The text is two numbers, of up to three and two digits, and at most one letter
      for the end of a veth pair. */
  predicate IsTail(s: string, node: string, iface: string, k: Kind) {
    Digits(node, 3) && Digits(iface, 2) && s == node + ("i" + (iface + Suffix(k)))
  }

  lemma {:induction false} EndOf(end: string)
    requires end in ["", "h", "p"]
    ensures exists k: Kind :: Suffix(k) == end
  {
    assert Suffix(Tap) == "" && Suffix(HostEnd) == "h" && Suffix(PeerEnd) == "p";
  }

  lemma {:induction false} Cut(s: string, most: nat)
    requires 1 <= DigitRun(s) <= most
    ensures var d := DigitRun(s); Digits(s[..d], most) && s == s[..d] + s[d..]
  {
  }

  lemma {:induction false} TailRead(s: string)
    requires TailPattern(s)
    ensures exists node: string, iface: string, k: Kind :: IsTail(s, node, iface, k)
  {
    var d := DigitRun(s);
    var rest := s[d + 1..];
    var e := DigitRun(rest);
    Cut(s, 3);
    Cut(rest, 2);
    EndOf(rest[e..]);
    var k: Kind :| Suffix(k) == rest[e..];
    assert s[d..] == "i" + rest;
    assert IsTail(s, s[..d], rest[..e], k);
  }

  lemma {:induction false} TailMade(s: string, node: string, iface: string, k: Kind)
    requires IsTail(s, node, iface, k)
    ensures TailPattern(s)
  {
    var rest := iface + Suffix(k);
    RunIs(node, "i" + rest);
    assert s[|node|] == 'i' && s[|node| + 1..] == rest;
    RunIs(iface, Suffix(k));
    assert rest[|iface|..] == Suffix(k);
  }

  /** The name has the head of the hash and a tail of the pattern. */
  predicate IsIface(s: string, h: nat, node: string, iface: string, k: Kind) {
    |s| >= 8 && h < HASHES && s[..8] == Head(h) && IsTail(s[8..], node, iface, k)
  }

  lemma {:induction false} HeadRead(s: string) returns (h: nat)
    requires |s| >= 8 && s[..3] == "nve" && FourHex(s[3..]) && s[7] == 'd'
    ensures h < HASHES && s[..8] == Head(h)
  {
    FourHexIff(s[3..]);
    h :| h < HASHES && s[3..][..4] == Hex(h, 4);
    assert s[..8] == s[..3] + s[3..][..4] + [s[7]];
  }

  lemma {:induction false} IfaceRead(s: string)
    requires IfacePattern(s)
    ensures exists h: nat, node: string, iface: string, k: Kind :: IsIface(s, h, node, iface, k)
  {
    var h := HeadRead(s);
    TailRead(s[8..]);
    var node: string, iface: string, k: Kind :| IsTail(s[8..], node, iface, k);
    assert IsIface(s, h, node, iface, k);
  }

  lemma {:induction false} HeadMade(s: string, h: nat)
    requires |s| >= 8 && h < HASHES && s[..8] == Head(h)
    ensures s[..3] == "nve" && FourHex(s[3..]) && s[7] == 'd'
  {
    var head := Head(h);
    assert s[..3] == head[..3] && s[7] == head[7];
    assert s[3..7] == head[3..7] == Hex(h, 4);
    HexIsFour(h, s[7..]);
    assert s[3..] == Hex(h, 4) + s[7..];
  }

  /** An interface pattern is a hash and such a tail. */
  lemma {:induction false} IfacePatternIff(s: string)
    ensures IfacePattern(s) <==> exists h: nat, node: string, iface: string, k: Kind :: IsIface(s, h, node, iface, k)
  {
    if IfacePattern(s) {
      IfaceRead(s);
    }
    if h: nat, node: string, iface: string, k: Kind :| IsIface(s, h, node, iface, k) {
      TailMade(s[8..], node, iface, k);
      HeadMade(s, h);
    }
  }

  lemma {:induction false} RunOfNumber(n: nat, rest: string)
    requires rest != "" ==> !IsDigit(rest[0])
    ensures DigitRun(Decimal(n) + rest) == |Decimal(n)|
  {
    var s := Decimal(n) + rest;
    var d := DigitRun(s);
    assert forall i :: 0 <= i < |Decimal(n)| ==> s[i] == Decimal(n)[i];
    assert |Decimal(n)| < |s| ==> s[|Decimal(n)|] == rest[0] && !IsDigit(s[|Decimal(n)|]);
    assert d < |s| ==> !IsDigit(s[d]);
  }

  lemma {:induction false} HexIsFour(hash: nat, rest: string)
    ensures FourHex(Hex(hash, 4) + rest)
  {
    var s := Hex(hash, 4);
    assert Hex(hash / 16, 3) == Hex(hash / 16 / 16, 2) + [HexDigit(hash / 16 % 16)];
    assert Hex(hash / 16 / 16, 2) == Hex(hash / 16 / 16 / 16, 1) + [HexDigit(hash / 16 / 16 % 16)];
    assert Hex(hash / 16 / 16 / 16, 1) == Hex(hash / 16 / 16 / 16 / 16, 0) + [HexDigit(hash / 16 / 16 / 16 % 16)];
    HexDigitIsHex(hash % 16);
    HexDigitIsHex(hash / 16 % 16);
    HexDigitIsHex(hash / 16 / 16 % 16);
    HexDigitIsHex(hash / 16 / 16 / 16 % 16);
  }

  lemma {:induction false} HexDigitIsHex(d: nat)
    requires d < 16
    ensures IsHex(HexDigit(d))
  {
  }

  /** Where the numbers of a tail end, as the pattern finds them. */
  lemma {:induction false} TailRuns(node: nat, iface: nat, kind: Kind)
    ensures var s, d := Tail(node, iface, kind), |Decimal(node)|;
      var rest := Decimal(iface) + Suffix(kind);
      && DigitRun(s) == d < |s| && s[d] == 'i' && s[d + 1..] == rest
      && DigitRun(rest) == |Decimal(iface)| && rest[|Decimal(iface)|..] == Suffix(kind)
  {
    var rest := Decimal(iface) + Suffix(kind);
    RunOfNumber(node, ['i'] + rest);
    RunOfNumber(iface, Suffix(kind));
  }

  lemma {:induction false} TailMatchesIff(node: nat, iface: nat, kind: Kind)
    ensures TailPattern(Tail(node, iface, kind)) <==> node <= 999 && iface <= 99
  {
    TenThousand();
    TailRuns(node, iface, kind);
    DecimalLength(node, 3);
    DecimalLength(iface, 2);
  }

  /** A made name is recognised by the sweeps exactly up to node 999 and
      interface 99, which is not all the names that may be made. */
  lemma {:induction false} IfaceMatchesIff(hash: nat, node: nat, iface: nat, kind: Kind)
    ensures IfacePattern(IfaceName(hash, node, iface, kind)) <==> node <= 999 && iface <= 99
  {
    var s := IfaceName(hash, node, iface, kind);
    IfaceParts(hash, node, iface, kind);
    assert s[3..] == Hex(hash, 4) + (['d'] + Tail(node, iface, kind));
    HexIsFour(hash, ['d'] + Tail(node, iface, kind));
    TailMatchesIff(node, iface, kind);
  }

  lemma {:induction false} BridgeMatchesIff(hash: nat, network: nat)
    ensures BridgePattern(BridgeName(hash, network)) <==> network < 100000
  {
    TenThousand();
    var s := BridgeName(hash, network);
    assert s[4..] == Hex(hash, 4) + (['n'] + Decimal(network));
    HexIsFour(hash, ['n'] + Decimal(network));
    assert s[9..] == Decimal(network) == Decimal(network) + "";
    RunOfNumber(network, "");
    DecimalLength(network, 5);
  }

  /** The TAP of node 1000, interface 0, may be made but is never swept. */
  lemma {:induction false} NeverSwept(hash: nat)
    ensures |IfaceName(hash, 1000, 0, Tap)| <= MAX_NAME && !IfacePattern(IfaceName(hash, 1000, 0, Tap))
  {
    IfaceMatchesIff(hash, 1000, 0, Tap);
    TenThousand();
    DecimalLength(1000, 5);
    assert |Decimal(1000)| == 4 && |Decimal(0)| == 1 by {
      assert Decimal(1000) == Decimal(100) + Decimal(0);
      assert Decimal(100) == Decimal(10) + Decimal(0);
      assert Decimal(10) == Decimal(1) + Decimal(0);
    }
    IfaceFitsIff(hash, 1000, 0, Tap);
  }

  // ---------------------------------------------------------------------
  // What each sweep selects
  // ---------------------------------------------------------------------

  /** The four sweeps; `known` holds the printed hashes of the labs on disk. */
  datatype Sweep =
    | OfNode(hash: nat, node: nat)
    | OfLab(hash: nat)
    | OrphanIfaces(known: set<string>)
    | OrphanBridges(known: set<string>)

  /** The prefix the host's interfaces are listed by. */
  function Prefix(sweep: Sweep): string {
    match sweep
    case OfNode(hash, node) => Head(hash) + (Decimal(node) + "i")
    case OfLab(hash) => "nve" + Hex(hash, 4)
    case OrphanIfaces(_) => "nve"
    case OrphanBridges(_) => "nove"
  }

  /** The test on each listed name. */
  predicate Meant(sweep: Sweep, name: string) {
    match sweep
    case OfNode(_, _) => IfacePattern(name)
    case OfLab(_) => IfacePattern(name)
    case OrphanIfaces(known) => IfacePattern(name) && name[3..7] !in known
    case OrphanBridges(known) => BridgePattern(name) && name[4..8] !in known
  }

  predicate Takes(sweep: Sweep, name: string) {
    Prefix(sweep) <= name && Meant(sweep, name)
  }

  lemma {:induction false} HashInPrefix(hash: nat, h: nat, n: nat, i: nat, k: Kind)
    requires hash < HASHES && h < HASHES
    ensures "nve" + Hex(hash, 4) <= IfaceName(h, n, i, k) <==> h == hash
  {
    var prefix, s := "nve" + Hex(hash, 4), IfaceName(h, n, i, k);
    IfaceParts(h, n, i, k);
    if prefix <= s {
      assert prefix[3..7] == Hex(hash, 4) && s[3..7] == prefix[3..7];
      HashUnique(h, hash);
    }
  }

  lemma {:induction false} NodeInPrefix(hash: nat, node: nat, n: nat, i: nat, k: Kind)
    ensures Prefix(OfNode(hash, node)) <= IfaceName(hash, n, i, k) <==> n == node
  {
    var prefix, s := Prefix(OfNode(hash, node)), IfaceName(hash, n, i, k);
    if prefix <= s {
      PrefixTellsNode(hash, node, n, i, k, s[|prefix|..]);
    }
    if n == node {
      assert s == prefix + (Decimal(i) + Suffix(k));
    }
  }

  lemma {:induction false} PrefixTellsNode(hash: nat, node: nat, n: nat, i: nat, k: Kind, rest: string)
    requires Head(hash) + Tail(n, i, k) == Head(hash) + (Decimal(node) + "i") + rest
    ensures n == node
  {
    var tail := Decimal(node) + (['i'] + rest);
    assert (Head(hash) + Tail(n, i, k))[8..] == Tail(n, i, k);
    assert (Decimal(node) + "i") + rest == tail;
    assert Head(hash) + (Decimal(node) + "i") + rest == Head(hash) + tail;
    assert (Head(hash) + tail)[8..] == tail;
    NumberThenStop(n, node, ['i'] + (Decimal(i) + Suffix(k)), ['i'] + rest);
  }

  /** The node sweep takes an interface exactly when it is of that lab hash and
      that node, within the bounds of the pattern. */
  lemma {:induction false} NodeSweepIff(hash: nat, node: nat, h: nat, n: nat, i: nat, k: Kind)
    requires hash < HASHES && h < HASHES
    ensures Takes(OfNode(hash, node), IfaceName(h, n, i, k)) <==> h == hash && n == node && n <= 999 && i <= 99
  {
    var s := IfaceName(h, n, i, k);
    IfaceMatchesIff(h, n, i, k);
    var short, prefix := "nve" + Hex(hash, 4), Prefix(OfNode(hash, node));
    if prefix <= s {
      assert prefix[..7] == short && s[..7] == prefix[..7];
      assert short <= s;
    }
    HashInPrefix(hash, h, n, i, k);
    NodeInPrefix(hash, node, n, i, k);
  }

  lemma {:induction false} LabSweepIff(hash: nat, h: nat, n: nat, i: nat, k: Kind)
    requires hash < HASHES && h < HASHES
    ensures Takes(OfLab(hash), IfaceName(h, n, i, k)) <==> h == hash && n <= 999 && i <= 99
  {
    IfaceMatchesIff(h, n, i, k);
    HashInPrefix(hash, h, n, i, k);
  }

  ghost function Printed(known: set<nat>): set<string> {
    set h | h in known :: Hex(h, 4)
  }

  /** The orphan sweeps take a made object exactly when no known lab has its hash
      and its numbers are within the pattern. */
  lemma {:induction false} OrphanIff(known: set<nat>, h: nat, n: nat, i: nat, k: Kind)
    requires h < HASHES && forall x :: x in known ==> x < HASHES
    ensures Takes(OrphanIfaces(Printed(known)), IfaceName(h, n, i, k)) <==> h !in known && n <= 999 && i <= 99
    ensures Takes(OrphanBridges(Printed(known)), BridgeName(h, n)) <==> h !in known && n < 100000
  {
    IfaceParts(h, n, i, k);
    IfaceMatchesIff(h, n, i, k);
    BridgeMatchesIff(h, n);
    var s := BridgeName(h, n);
    assert s[4..8] == Hex(h, 4);
    if Hex(h, 4) in Printed(known) {
      var x :| x in known && Hex(x, 4) == Hex(h, 4);
      HashUnique(x, h);
    }
  }

  /** No sweep of interfaces takes a bridge, nor the other way round. */
  lemma {:induction false} PatternsApart(name: string)
    ensures BridgePattern(name) ==> !IfacePattern(name)
  {
    if BridgePattern(name) {
      assert name[1] == name[..4][1] == 'o';
      assert name[..3][1] == name[1];
    }
  }

  // ---------------------------------------------------------------------
  // The sweeps
  // ---------------------------------------------------------------------

  /** The names a sweep goes through, in the order of the host's list. */
  function Taken(names: seq<string>, sweep: Sweep): seq<string> {
    if names == [] then []
    else
      var last := names[|names| - 1];
      Taken(names[..|names| - 1], sweep) + (if Takes(sweep, last) then [last] else [])
  }

  lemma {:induction false} TakenIff(names: seq<string>, sweep: Sweep, name: string)
    ensures name in Taken(names, sweep) <==> name in names && Takes(sweep, name)
  {
    if names != [] {
      var n := |names| - 1;
      var taken := Taken(names[..n], sweep);
      TakenIff(names[..n], sweep, name);
      assert names == names[..n] + [names[n]];
      assert Taken(names, sweep) == taken + (if Takes(sweep, names[n]) then [names[n]] else []);
    }
  }

  /** The host after a sweep: without the names gone through, unless their deletion
      is refused. */
  ghost function Swept(names: set<string>, taken: seq<string>, stuck: set<string>): set<string> {
    set name | name in names && (name in taken ==> name in stuck)
  }

  lemma {:induction false} SweptNext(names: set<string>, taken: seq<string>, name: string, stuck: set<string>)
    ensures Swept(names, taken + [name], stuck) == Swept(names, taken, stuck) - ({name} - stuck)
  {}

  /** The deletion of a listed name that is there and that the sweep takes is refused. */
  ghost predicate Refused(names: set<string>, sweep: Sweep, listed: seq<string>, stuck: set<string>, name: string) {
    name in listed && name in names && name in stuck && Takes(sweep, name)
  }

  /** A name the sweep returns is still there exactly when its deletion is refused;
      so all of them are gone exactly when no deletion of a name that was there is. */
  lemma {:induction false} ReturnedGoneIff(names: set<string>, sweep: Sweep, listed: seq<string>, stuck: set<string>)
    ensures (forall name :: name in Taken(listed, sweep) ==> name !in Swept(names, Taken(listed, sweep), stuck)) <==>
            (forall name :: !Refused(names, sweep, listed, stuck, name))
  {
    var taken := Taken(listed, sweep);
    forall name: string
      ensures name in taken && name in Swept(names, taken, stuck) <==> Refused(names, sweep, listed, stuck, name)
    {
      TakenIff(listed, sweep, name);
    }
  }

  /** The objects of the host. */
  class Host {
    var names: set<string>

    constructor (names: set<string>)
      ensures this.names == names
    {
      this.names := names;
    }

    /** A deletion that the host refuses is logged and passed over. */
    method TryDelete(name: string, stuck: set<string>)
      modifies this
      ensures names == old(names) - ({name} - stuck)
    {
      if name !in stuck {
        names := names - {name};
      }
    }

    /** A sweep over the listed interfaces: it deletes what it is meant to and
        touches nothing else.  The list it returns also has the names whose
        deletion was refused. */
    method Run(sweep: Sweep, listed: seq<string>, stuck: set<string>) returns (removed: seq<string>)
      modifies this
      ensures removed == Taken(listed, sweep)
      ensures names == Swept(old(names), removed, stuck)
    {
      removed := [];
      for n := 0 to |listed|
        invariant removed == Taken(listed[..n], sweep)
        invariant names == Swept(old(names), removed, stuck)
      {
        var name := listed[n];
        assert listed[..n + 1] == listed[..n] + [name];
        if !(Prefix(sweep) <= name) {
          continue;
        }
        if !Meant(sweep, name) {
          continue;
        }
        TryDelete(name, stuck);
        SweptNext(old(names), removed, name, stuck);
        removed := removed + [name];
      }
      assert listed[..|listed|] == listed;
    }
  }
}
