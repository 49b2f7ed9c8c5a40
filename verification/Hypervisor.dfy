/** Framing of Dynamips hypervisor replies read from a byte stream.  Bytes are
    ASCII characters. */
module Hypervisor {
  import opened Collections
  import opened Text

  // ---------------------------------------------------------------------
  // Lines
  // ---------------------------------------------------------------------

  /** Place of the first line end, or the length when there is none. */
  function LineEnd(s: string): (k: nat)
    ensures k <= |s|
    ensures forall i :: 0 <= i < k ==> s[i] != '\n'
    ensures k < |s| ==> s[k] == '\n'
  {
    if s == "" || s[0] == '\n' then 0 else 1 + LineEnd(s[1..])
  }

  /** `line.rstrip(b"\r")`. */
  function Bare(line: string): string {
    if line != "" && line[|line| - 1] == '\r' then Bare(line[..|line| - 1]) else line
  }

  /** The first line of a stream and what follows it; none without a line end. */
  function TakeLine(s: string): Option<(string, string)> {
    var k := LineEnd(s);
    if k == |s| then None else Some((Bare(s[..k]), s[k + 1..]))
  }

  lemma {:induction false} LineEndUnique(s: string, k: nat)
    requires k < |s| && s[k] == '\n' && forall i :: 0 <= i < k ==> s[i] != '\n'
    ensures LineEnd(s) == k
  {
    if k > 0 {
      assert forall i :: 0 <= i < k - 1 ==> s[1..][i] == s[i + 1];
      LineEndUnique(s[1..], k - 1);
    }
  }

  // ---------------------------------------------------------------------
  // Replies
  // ---------------------------------------------------------------------

  /** How a request ends, and the stream left behind. */
  datatype Outcome =
    | Replied(code: nat, lines: seq<string>)
    | Refused(code: nat, lines: seq<string>)
    | Closed
    | Malformed

  predicate Headed(raw: string) {
    |raw| >= 4 && IsDigit(raw[0]) && IsDigit(raw[1]) && IsDigit(raw[2])
  }

  /** What one request makes of a stream, after the lines already read. */
  function ParseReply(s: string, lines: seq<string>): (Outcome, string)
    decreases |s|
  {
    var line := TakeLine(s);
    if line.None? then (Closed, s)
    else
      var (raw, rest) := line.value;
      if !Headed(raw) then (Malformed, rest)
      else
        var code := Value(raw[..3]);
        var all := lines + [raw[4..]];
        if raw[3] == ' ' then (if 100 <= code < 200 then Replied(code, all) else Refused(code, all), rest)
        else if raw[3] == '-' then ParseReply(rest, all)
        else (Malformed, rest)
  }

  /** What n requests in a row make of a stream. */
  function ParseAll(s: string, n: nat): (seq<Outcome>, string)
    decreases n
  {
    if n == 0 then ([], s)
    else
      var (outcome, rest) := ParseReply(s, []);
      var (more, left) := ParseAll(rest, n - 1);
      ([outcome] + more, left)
  }

  // ---------------------------------------------------------------------
  // What a hypervisor sends
  // ---------------------------------------------------------------------

  /** A reply line: a code of three digits, a text, and the carriage returns
      before its line end. */
  datatype ReplyLine = ReplyLine(code: nat, text: string, crs: nat)

  /** A reply is one or more lines; the last one carries its code. */
  type Reply = seq<ReplyLine>

  predicate Sendable(l: ReplyLine) {
    && l.code < 1000
    && (forall i :: 0 <= i < |l.text| ==> l.text[i] != '\n')
    && (l.text != "" ==> l.text[|l.text| - 1] != '\r')
  }

  predicate WellFormed(r: Reply) {
    r != [] && forall i :: 0 <= i < |r| ==> Sendable(r[i])
  }

  function CarriageReturns(n: nat): (s: string)
    ensures |s| == n && forall i :: 0 <= i < n ==> s[i] == '\r'
  {
    seq(n, _ => '\r')
  }

  function Head(l: ReplyLine, sep: char): string {
    Padded(l.code, 3) + [sep] + l.text
  }

  function EncodeLine(l: ReplyLine, sep: char): string {
    Head(l, sep) + CarriageReturns(l.crs) + "\n"
  }

  function Encode(r: Reply): string {
    if r == [] then ""
    else EncodeLine(r[0], if |r| == 1 then ' ' else '-') + Encode(r[1..])
  }

  function Texts(r: Reply): seq<string> {
    if r == [] then [] else [r[0].text] + Texts(r[1..])
  }

  function Expected(r: Reply, lines: seq<string>): Outcome
    requires r != []
  {
    var code := r[|r| - 1].code;
    if 100 <= code < 200 then Replied(code, lines + Texts(r)) else Refused(code, lines + Texts(r))
  }

  ghost predicate AllWellFormed(replies: seq<Reply>) {
    forall i :: 0 <= i < |replies| ==> WellFormed(replies[i])
  }

  function EncodeAll(replies: seq<Reply>): string {
    if replies == [] then "" else Encode(replies[0]) + EncodeAll(replies[1..])
  }

  ghost function ExpectedAll(replies: seq<Reply>): seq<Outcome>
    requires AllWellFormed(replies)
  {
    if replies == [] then [] else [Expected(replies[0], [])] + ExpectedAll(replies[1..])
  }

  // ---------------------------------------------------------------------
  // Decoding what was encoded
  // ---------------------------------------------------------------------

  lemma {:induction false} BareOfReturns(head: string, n: nat)
    requires head != "" && head[|head| - 1] != '\r'
    ensures Bare(head + CarriageReturns(n)) == head
  {
    var s := head + CarriageReturns(n);
    if n > 0 {
      assert s[..|s| - 1] == head + CarriageReturns(n - 1);
      BareOfReturns(head, n - 1);
    } else {
      assert s == head;
    }
  }

  /** A code below 1000 is sent as exactly three digits. */
  lemma {:induction false} ThreeDigits(code: nat)
    requires code < 1000
    ensures |Padded(code, 3)| == 3 && Value(Padded(code, 3)) == code
  {
    assert Pow10(3) == 10 * Pow10(2) == 100 * Pow10(1) == 1000 * Pow10(0);
    DecimalLength(code, 3);
    ValueOfPadded(code, 3);
  }

  lemma {:induction false} LineOfHead(l: ReplyLine, sep: char, rest: string)
    requires Sendable(l) && (sep == ' ' || sep == '-')
    ensures TakeLine(EncodeLine(l, sep) + rest) == Some((Head(l, sep), rest))
  {
    ThreeDigits(l.code);
    var head := Head(l, sep);
    var s := EncodeLine(l, sep) + rest;
    var k := |head| + l.crs;
    assert head[3] == sep;
    assert forall i :: 0 <= i < 3 ==> IsDigit(head[i]);
    assert forall i :: 4 <= i < |head| ==> head[i] == l.text[i - 4];
    assert forall i :: 0 <= i < |head| ==> head[i] != '\n';
    assert s[..k] == head + CarriageReturns(l.crs);
    assert forall i :: 0 <= i < k ==> s[i] == (head + CarriageReturns(l.crs))[i];
    assert s[k] == '\n';
    LineEndUnique(s, k);
    assert s[k + 1..] == rest;
    BareOfReturns(head, l.crs);
  }

  lemma {:induction false} HeadParts(l: ReplyLine, sep: char)
    requires Sendable(l)
    ensures var raw := Head(l, sep);
      Headed(raw) && Value(raw[..3]) == l.code && raw[3] == sep && raw[4..] == l.text
  {
    ThreeDigits(l.code);
    var raw := Head(l, sep);
    assert raw[..3] == Padded(l.code, 3);
    assert forall i :: 0 <= i < 3 ==> raw[i] == Padded(l.code, 3)[i];
    assert raw[4..] == l.text;
  }

  lemma {:induction false} ParseLine(l: ReplyLine, sep: char, rest: string, lines: seq<string>)
    requires Sendable(l) && (sep == ' ' || sep == '-')
    ensures ParseReply(EncodeLine(l, sep) + rest, lines) ==
      (if sep == ' ' then (Expected([l], lines), rest) else ParseReply(rest, lines + [l.text]))
  {
    LineOfHead(l, sep, rest);
    HeadParts(l, sep);
    assert [l][1..] == [];
    assert Texts([l]) == [l.text];
  }

  lemma {:induction false} ExpectedStep(r: Reply, lines: seq<string>)
    requires |r| > 1
    ensures Expected(r, lines) == Expected(r[1..], lines + [r[0].text])
  {
    assert lines + Texts(r) == lines + [r[0].text] + Texts(r[1..]);
  }

  lemma {:induction false} EncodeStep(r: Reply, rest: string)
    requires r != []
    ensures Encode(r) + rest == EncodeLine(r[0], if |r| == 1 then ' ' else '-') + (Encode(r[1..]) + rest)
  {
  }

  lemma {:induction false} ParseLast(l: ReplyLine, lines: seq<string>, rest: string)
    requires Sendable(l)
    ensures ParseReply(Encode([l]) + rest, lines) == (Expected([l], lines), rest)
  {
    EncodeStep([l], rest);
    assert [l][1..] == [];
    assert Encode([]) + rest == rest;
    ParseLine(l, ' ', rest, lines);
  }

  /** One request takes exactly one reply off the stream and sees its code and
      lines, refused or not. */
  lemma {:induction false} ParseOfEncode(r: Reply, lines: seq<string>, rest: string)
    requires WellFormed(r)
    ensures ParseReply(Encode(r) + rest, lines) == (Expected(r, lines), rest)
    decreases |r|
  {
    if |r| == 1 {
      assert r == [r[0]];
      ParseLast(r[0], lines, rest);
    } else {
      calc {
        ParseReply(Encode(r) + rest, lines);
        { EncodeStep(r, rest); }
        ParseReply(EncodeLine(r[0], '-') + (Encode(r[1..]) + rest), lines);
        { ParseLine(r[0], '-', Encode(r[1..]) + rest, lines); }
        ParseReply(Encode(r[1..]) + rest, lines + [r[0].text]);
        { ParseOfEncode(r[1..], lines + [r[0].text], rest); }
        (Expected(r[1..], lines + [r[0].text]), rest);
        { ExpectedStep(r, lines); }
        (Expected(r, lines), rest);
      }
    }
  }

  /** The i-th request gets the i-th reply, and nothing after the last is lost. */
  lemma {:induction false} RequestsInOrder(replies: seq<Reply>, rest: string)
    requires AllWellFormed(replies)
    ensures ParseAll(EncodeAll(replies) + rest, |replies|) == (ExpectedAll(replies), rest)
    decreases |replies|
  {
    if replies == [] {
      assert EncodeAll(replies) + rest == rest;
    } else {
      var tail := EncodeAll(replies[1..]) + rest;
      assert EncodeAll(replies) + rest == Encode(replies[0]) + tail;
      ParseOfEncode(replies[0], [], tail);
      RequestsInOrder(replies[1..], rest);
      assert ParseAll(tail, |replies[1..]|) == (ExpectedAll(replies[1..]), rest);
    }
  }

  // ---------------------------------------------------------------------
  // Streams nobody meant to send
  // ---------------------------------------------------------------------

  /** Three digits, a blank or a dash, and any text. */
  predicate IsReplyLine(raw: string, sep: char) {
    |raw| >= 4 && (forall i :: 0 <= i < 3 ==> IsDigit(raw[i])) && raw[3] == sep
  }

  /** The stream after the lines that say a reply goes on. */
  function AfterDashes(s: string): string
    decreases |s|
  {
    var line := TakeLine(s);
    if line.Some? && IsReplyLine(line.value.0, '-') then AfterDashes(line.value.1) else s
  }

  /** A reply is garbled exactly when the line after those that say it goes on is no
      reply line; that line is taken from the stream.  It is cut off exactly when the
      stream ends before such a line does; what is left stays, so every later request
      is cut off too. */
  lemma {:induction false} NoReplyIff(s: string, lines: seq<string>)
    ensures var (outcome, left) := ParseReply(s, lines);
      var last := TakeLine(AfterDashes(s));
      && (outcome == Malformed <==> last.Some? && !IsReplyLine(last.value.0, ' '))
      && (outcome == Malformed ==> left == last.value.1)
      && (outcome == Closed <==> last.None?)
      && (outcome == Closed ==> left == AfterDashes(s) && ParseReply(left, []) == (Closed, left))
    decreases |s|
  {
    var line := TakeLine(s);
    if line.Some? && IsReplyLine(line.value.0, '-') {
      NoReplyIff(line.value.1, lines + [line.value.0[4..]]);
    }
  }

  // ---------------------------------------------------------------------
  // The client
  // ---------------------------------------------------------------------

  /** All that the socket will still deliver; an empty chunk means it is closed. */
  function Flat(chunks: seq<string>): string {
    if chunks == [] || chunks[0] == "" then "" else chunks[0] + Flat(chunks[1..])
  }

  /** Chunks are delivered in order until an empty one. */
  lemma {:induction false} FlatUpToEmpty(before: seq<string>, chunk: string, after: seq<string>)
    requires forall i :: 0 <= i < |before| ==> before[i] != ""
    ensures Flat(before + [chunk] + after) == Flat(before) + chunk + (if chunk == "" then "" else Flat(after))
    decreases |before|
  {
    var all := before + [chunk] + after;
    if before == [] {
      assert all[1..] == after;
    } else {
      assert all[0] == before[0] && all[1..] == before[1..] + [chunk] + after;
      FlatUpToEmpty(before[1..], chunk, after);
    }
  }

  class Client {
    var buf: string
    var chunks: seq<string>

    constructor (chunks: seq<string>)
      ensures Stream() == Flat(chunks)
    {
      this.buf := "";
      this.chunks := chunks;
    }

    /** What is still to be read. */
    function Stream(): string
      reads this
    {
      buf + Flat(chunks)
    }

    /** `_readline`. */
    method ReadLine() returns (r: Option<string>)
      modifies this
      ensures match TakeLine(old(Stream()))
        case Some(line) => r == Some(line.0) && Stream() == line.1
        case None => r == None && Stream() == old(Stream())
    {
      while LineEnd(buf) == |buf|
        invariant Stream() == old(Stream())
        decreases |chunks|
      {
        if chunks == [] || chunks[0] == "" {
          assert Stream() == buf;
          return None;
        }
        assert buf + Flat(chunks) == (buf + chunks[0]) + Flat(chunks[1..]);
        buf, chunks := buf + chunks[0], chunks[1..];
      }
      var k := LineEnd(buf);
      ghost var s := Stream();
      assert s[k] == buf[k] && forall i :: 0 <= i < k ==> s[i] == buf[i];
      LineEndUnique(s, k);
      assert s[..k] == buf[..k] && s[k + 1..] == buf[k + 1..] + Flat(chunks);
      r := Some(Bare(buf[..k]));
      buf := buf[k + 1..];
    }

    /** `request`, after the command has been sent: however the stream was cut
        into chunks, the outcome and the position are those of the whole stream. */
    method Request() returns (outcome: Outcome)
      modifies this
      ensures (outcome, Stream()) == ParseReply(old(Stream()), [])
    {
      var lines: seq<string> := [];
      while true
        invariant ParseReply(old(Stream()), []) == ParseReply(Stream(), lines)
        decreases |Stream()|
      {
        var line := ReadLine();
        if line.None? {
          return Closed;
        }
        var raw := line.value;
        if !Headed(raw) {
          return Malformed;
        }
        var code := Value(raw[..3]);
        lines := lines + [raw[4..]];
        if raw[3] == ' ' {
          return if 100 <= code < 200 then Replied(code, lines) else Refused(code, lines);
        }
        if raw[3] != '-' {
          return Malformed;
        }
      }
    }
  }
}
