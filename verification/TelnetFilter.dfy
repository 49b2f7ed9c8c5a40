/** Stripping Telnet commands (RFC 854, "TELNET COMMAND STRUCTURE") from what a
    console client sends. */
module TelnetFilter {

  type Byte = b: int | 0 <= b < 256

  const SE: Byte := 240
  const SB: Byte := 250
  const IAC: Byte := 255

  /** WILL, WON'T, DO and DON'T: an option code follows. */
  predicate IsOption(b: Byte) {
    251 <= b <= 254
  }

  datatype State = InData | InIac | InOption | InSub | InSubIac

  // ---------------------------------------------------------------------
  // The filter
  // ---------------------------------------------------------------------

  function Next(state: State, b: Byte): State {
    match state
    case InData => if b == IAC then InIac else InData
    case InIac => if b == IAC then InData else if IsOption(b) then InOption else if b == SB then InSub else InData
    case InOption => InData
    case InSub => if b == IAC then InSubIac else InSub
    case InSubIac => if b == SE then InData else InSub
  }

  function Emitted(state: State, b: Byte): seq<Byte> {
    if (state.InData? && b != IAC) || (state.InIac? && b == IAC) then [b] else []
  }

  function After(state: State, data: seq<Byte>): State
    decreases |data|
  {
    if data == [] then state else After(Next(state, data[0]), data[1..])
  }

  function Output(state: State, data: seq<Byte>): seq<Byte>
    decreases |data|
  {
    if data == [] then [] else Emitted(state, data[0]) + Output(Next(state, data[0]), data[1..])
  }

  /** Feeding two pieces is feeding them joined. */
  lemma {:induction false} FeedJoined(state: State, a: seq<Byte>, b: seq<Byte>)
    ensures After(state, a + b) == After(After(state, a), b)
    ensures Output(state, a + b) == Output(state, a) + Output(After(state, a), b)
    decreases |a|
  {
    if a == [] {
      assert a + b == b;
    } else {
      assert (a + b)[1..] == a[1..] + b;
      FeedJoined(Next(state, a[0]), a[1..], b);
    }
  }

  function Flat(chunks: seq<seq<Byte>>): seq<Byte> {
    if chunks == [] then [] else chunks[0] + Flat(chunks[1..])
  }

  /** The outputs of feeding the chunks one after the other, joined. */
  function Outputs(state: State, chunks: seq<seq<Byte>>): seq<Byte>
    decreases |chunks|
  {
    if chunks == [] then [] else Output(state, chunks[0]) + Outputs(After(state, chunks[0]), chunks[1..])
  }

  /** The state after feeding them all. */
  function AfterAll(state: State, chunks: seq<seq<Byte>>): State
    decreases |chunks|
  {
    if chunks == [] then state else AfterAll(After(state, chunks[0]), chunks[1..])
  }

  /** How the bytes are cut into chunks makes no difference. */
  lemma {:induction false} AnyChunking(state: State, chunks: seq<seq<Byte>>)
    ensures Outputs(state, chunks) == Output(state, Flat(chunks))
    ensures AfterAll(state, chunks) == After(state, Flat(chunks))
    decreases |chunks|
  {
    if chunks != [] {
      FeedJoined(state, chunks[0], Flat(chunks[1..]));
      AnyChunking(After(state, chunks[0]), chunks[1..]);
    }
  }

  // ---------------------------------------------------------------------
  // What a client sends
  // ---------------------------------------------------------------------

  /** A byte inside a subnegotiation, or IAC and a byte that does not end it. */
  datatype SubItem = Plain(b: Byte) | Escaped(b: Byte)

  datatype Verb = Will | Wont | Do | Dont

  datatype Item =
    | Data(b: Byte)
    | Command(b: Byte)
    | Option(verb: Verb, option: Byte)
    | Sub(items: seq<SubItem>)

  /** The codes of RFC 854, "TELNET COMMAND STRUCTURE". */
  function Code(verb: Verb): Byte {
    match verb
    case Will => 251
    case Wont => 252
    case Do => 253
    case Dont => 254
  }

  predicate SubOk(i: SubItem) {
    match i
    case Plain(b) => b != 255
    case Escaped(b) => b != 240
  }

  /** A command of two bytes has a code below that of a subnegotiation. */
  predicate Ok(i: Item) {
    match i
    case Data(_) => true
    case Command(b) => b < 250
    case Option(_, _) => true
    case Sub(items) => forall k :: 0 <= k < |items| ==> SubOk(items[k])
  }

  ghost predicate AllOk(items: seq<Item>) {
    forall k :: 0 <= k < |items| ==> Ok(items[k])
  }

  function EncodeSub(items: seq<SubItem>): seq<Byte> {
    if items == [] then [255, 240]
    else (match items[0] case Plain(b) => [b] case Escaped(b) => [255, b]) + EncodeSub(items[1..])
  }

  function EncodeItem(i: Item): seq<Byte> {
    match i
    case Data(b) => if b == 255 then [255, 255] else [b]
    case Command(b) => [255, b]
    case Option(verb, option) => [255, Code(verb), option]
    case Sub(items) => [255, 250] + EncodeSub(items)
  }

  function Encode(items: seq<Item>): seq<Byte> {
    if items == [] then [] else EncodeItem(items[0]) + Encode(items[1..])
  }

  /** The bytes the client means. */
  function DataOf(items: seq<Item>): seq<Byte> {
    if items == [] then []
    else (if items[0].Data? then [items[0].b] else []) + DataOf(items[1..])
  }

  // ---------------------------------------------------------------------
  // Both directions
  // ---------------------------------------------------------------------

  lemma {:induction false} OneByte(state: State, b: Byte)
    ensures After(state, [b]) == Next(state, b) && Output(state, [b]) == Emitted(state, b)
  {
    assert [b][1..] == [];
  }

  lemma {:induction false} TwoBytes(state: State, a: Byte, b: Byte)
    ensures After(state, [a, b]) == Next(Next(state, a), b)
    ensures Output(state, [a, b]) == Emitted(state, a) + Emitted(Next(state, a), b)
  {
    assert [a, b][1..] == [b];
    OneByte(Next(state, a), b);
  }

  lemma {:induction false} SubSwallowed(items: seq<SubItem>)
    requires forall k :: 0 <= k < |items| ==> SubOk(items[k])
    ensures After(InSub, EncodeSub(items)) == InData && Output(InSub, EncodeSub(items)) == []
  {
    if items == [] {
      TwoBytes(InSub, IAC, SE);
    } else {
      SubSwallowed(items[1..]);
      var first := match items[0] case Plain(b) => [b] case Escaped(b) => [IAC, b];
      FeedJoined(InSub, first, EncodeSub(items[1..]));
      match items[0]
      case Plain(b) => OneByte(InSub, b);
      case Escaped(b) => TwoBytes(InSub, IAC, b);
    }
  }

  lemma {:induction false} ItemFiltered(i: Item)
    requires Ok(i)
    ensures After(InData, EncodeItem(i)) == InData
    ensures Output(InData, EncodeItem(i)) == if i.Data? then [i.b] else []
  {
    match i
    case Data(b) =>
      OneByte(InData, b);
      TwoBytes(InData, IAC, b);
    case Command(b) => TwoBytes(InData, IAC, b);
    case Option(verb, option) =>
      var command := Code(verb);
      assert [IAC, command, option] == [IAC, command] + [option];
      FeedJoined(InData, [IAC, command], [option]);
      TwoBytes(InData, IAC, command);
      OneByte(InOption, option);
    case Sub(items) =>
      FeedJoined(InData, [IAC, SB], EncodeSub(items));
      TwoBytes(InData, IAC, SB);
      SubSwallowed(items);
  }

  /** From data with complete commands in between, exactly the data comes out, and
      the filter is ready for more. */
  lemma {:induction false} DataComesOut(items: seq<Item>)
    requires AllOk(items)
    ensures After(InData, Encode(items)) == InData && Output(InData, Encode(items)) == DataOf(items)
  {
    if items != [] {
      ItemFiltered(items[0]);
      DataComesOut(items[1..]);
      FeedJoined(InData, EncodeItem(items[0]), Encode(items[1..]));
    }
  }

  /** The same over any chunking. */
  lemma {:induction false} DataComesOutOfChunks(items: seq<Item>, chunks: seq<seq<Byte>>)
    requires AllOk(items) && Flat(chunks) == Encode(items)
    ensures Outputs(InData, chunks) == DataOf(items) && AfterAll(InData, chunks) == InData
  {
    AnyChunking(InData, chunks);
    DataComesOut(items);
  }

  ghost predicate Complete(s: seq<Byte>) {
    exists items :: AllOk(items) && Encode(items) == s
  }

  lemma {:induction false} Prepended(i: Item, rest: seq<Byte>)
    requires Ok(i) && Complete(rest)
    ensures Complete(EncodeItem(i) + rest)
  {
    var items :| AllOk(items) && Encode(items) == rest;
    assert ([i] + items)[1..] == items;
    assert Encode([i] + items) == EncodeItem(i) + rest;
  }

  /** A subnegotiation that ends can be cut off at its end. */
  lemma {:induction false} SubEnds(s: seq<Byte>) returns (items: seq<SubItem>, rest: seq<Byte>)
    requires After(InSub, s) == InData
    ensures forall k :: 0 <= k < |items| ==> SubOk(items[k])
    ensures s == EncodeSub(items) + rest && After(InData, rest) == InData && |rest| < |s|
    decreases |s|
  {
    if s[0] != IAC {
      items, rest := SubEnds(s[1..]);
      items := [Plain(s[0])] + items;
      assert items[1..] == items[1..];
      assert s == [s[0]] + s[1..];
    } else {
      assert s[1..] != [];
      assert s == [s[0], s[1]] + s[2..] && s[1..][1..] == s[2..];
      if s[1] == SE {
        items, rest := [], s[2..];
      } else {
        items, rest := SubEnds(s[2..]);
        items := [Escaped(s[1])] + items;
      }
    }
  }

  lemma {:induction false} ReadyMeansComplete(s: seq<Byte>)
    requires After(InData, s) == InData
    ensures Complete(s)
    decreases |s|
  {
    if s == [] {
      assert Encode([]) == s && AllOk([]);
    } else if s[0] != IAC {
      ReadyMeansComplete(s[1..]);
      Prepended(Data(s[0]), s[1..]);
      assert s == EncodeItem(Data(s[0])) + s[1..];
    } else {
      CommandComplete(s[1..]);
      assert s == [IAC] + s[1..];
    }
  }

  lemma {:induction false} CommandComplete(s: seq<Byte>)
    requires After(InIac, s) == InData
    ensures Complete([IAC] + s)
    decreases |s|
  {
    var c, rest := s[0], s[1..];
    assert After(Next(InIac, c), rest) == InData;
    assert [IAC] + s == [IAC, c] + rest;
    if c == SB {
      SubComplete(rest);
    } else if IsOption(c) {
      OptionComplete(c, rest);
    } else {
      ReadyMeansComplete(rest);
      Prepended(if c == IAC then Data(IAC) else Command(c), rest);
    }
  }

  lemma {:induction false} Regroup(a: seq<Byte>, b: seq<Byte>, c: seq<Byte>)
    ensures (a + b) + c == a + (b + c)
  {
  }

  lemma {:induction false} SubComplete(s: seq<Byte>)
    requires After(InSub, s) == InData
    ensures Complete([IAC, SB] + s)
    decreases |s|
  {
    var items, rest := SubEnds(s);
    ReadyMeansComplete(rest);
    Prepended(Sub(items), rest);
    Regroup([IAC, SB], EncodeSub(items), rest);
  }

  lemma {:induction false} VerbOf(c: Byte)
    ensures IsOption(c) <==> exists verb :: Code(verb) == c
  {
    assert Code(Will) == 251 && Code(Wont) == 252 && Code(Do) == 253 && Code(Dont) == 254;
  }

  lemma {:induction false} OptionComplete(c: Byte, s: seq<Byte>)
    requires IsOption(c) && After(InOption, s) == InData
    ensures Complete([IAC, c] + s)
    decreases |s|
  {
    var o, rest := s[0], s[1..];
    assert [IAC, c] + s == [IAC, c, o] + rest by {
      assert s == [o] + rest;
    }
    ReadyMeansComplete(rest);
    VerbOf(c);
    var verb :| Code(verb) == c;
    Prepended(Option(verb, o), rest);
  }

  /** The filter is back in its data state exactly when what it was fed is data
      with complete commands. */
  lemma {:induction false} ReadyIff(s: seq<Byte>)
    ensures After(InData, s) == InData <==> Complete(s)
  {
    if After(InData, s) == InData {
      ReadyMeansComplete(s);
    }
    if Complete(s) {
      var items :| AllOk(items) && Encode(items) == s;
      DataComesOut(items);
    }
  }

  // ---------------------------------------------------------------------
  // The filter object
  // ---------------------------------------------------------------------

  class Filter {
    var state: State

    constructor ()
      ensures state == InData
    {
      state := InData;
    }

    /** What one byte does. */
    method Take(b: Byte) returns (output: seq<Byte>)
      modifies this
      ensures state == Next(old(state), b) && output == Emitted(old(state), b)
    {
      output := [];
      match state {
        case InData =>
          if b == IAC {
            state := InIac;
          } else {
            output := [b];
          }
        case InIac =>
          if b == IAC {
            output := [IAC];
            state := InData;
          } else if IsOption(b) {
            state := InOption;
          } else if b == SB {
            state := InSub;
          } else {
            state := InData;
          }
        case InOption =>
          state := InData;
        case InSub =>
          if b == IAC {
            state := InSubIac;
          }
        case InSubIac =>
          state := if b == SE then InData else InSub;
      }
    }

    method Feed(data: seq<Byte>) returns (output: seq<Byte>)
      modifies this
      ensures state == After(old(state), data) && output == Output(old(state), data)
    {
      output := [];
      for n := 0 to |data|
        invariant state == After(old(state), data[..n])
        invariant output == Output(old(state), data[..n])
      {
        assert data[..n + 1] == data[..n] + [data[n]];
        FeedJoined(old(state), data[..n], [data[n]]);
        OneByte(state, data[n]);
        var more := Take(data[n]);
        output := output + more;
      }
      assert data[..|data|] == data;
    }
  }
}
