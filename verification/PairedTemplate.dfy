/** Paired templates: the check made before instantiation against what
    instantiation then looks up. */
module PairedTemplate {
  import opened Collections
  import opened Text

  /** `interface_naming` of a child.  An entry of `explicit` that is not a string
      is None.  A `format` given as a list or a dictionary is not part of this
      model. */
  datatype Naming =
    | NoNaming
    | NotAnObject
    | Block(format: Format, explicit: Option<seq<Option<string>>>)

  /** The `format` key: absent, a value that is not text, such as null or a number,
      as it prints, or text. */
  datatype Format = NoFormat | NotText(shown: Printed) | Text(text: string)

  /** How null, booleans and numbers print. */
  type Printed = s: string | Plain(s) && NoBrace(s) && s[0] != 'G' && s[0] != 'e' witness "None"

  /** A child of the template; `ethernet` is None when it is not a number, and
      the flags say whether cpu, ram and cpulimit are numbers, and whether the
      capabilities block is valid. */
  datatype Child =
    | NotADict
    | Child(id: string, kind: string, ethernet: Option<int>, naming: Naming, scalarsOk: bool,
            capabilitiesOk: bool)

  datatype PairedLink = PairedLink(fromNode: string, fromIface: string, toNode: string, toIface: string)

  datatype Template = Template(nodes: seq<Child>, links: seq<PairedLink>)

  // ---------------------------------------------------------------------
  // Interface names
  // ---------------------------------------------------------------------

  /** `s.split(",")`, each part stripped, empty parts dropped. */
  function Items(s: string, part: string): seq<string> {
    if s == "" then Item(part)
    else if s[0] == ',' then Item(part) + Items(s[1..], "")
    else Items(s[1..], part + [s[0]])
  }

  function Item(part: string): seq<string> {
    if Strip(part) == "" then [] else [Strip(part)]
  }

  /** `s.replace(token, with)`. */
  function Replaced(s: string, token: string, with: string): string
    requires token != ""
  {
    if s == "" then ""
    else if token <= s then with + Replaced(s[|token|..], token, with)
    else [s[0]] + Replaced(s[1..], token, with)
  }

  predicate Occurs(token: string, s: string) {
    token <= s || (s != "" && Occurs(token, s[1..]))
  }

  /** `render_interface_name`. */
  function Render(fmt: string, index: nat): string {
    var items := Items(fmt, "");
    if items == [] then "" else Nth(items, index)
  }

  /** The name at a position: the fixed items first, then the last one filled in. */
  function Nth(items: seq<string>, index: nat): string
    requires items != []
  {
    var fixed := |items| - 1;
    if index < fixed then items[index] else Filled(items[fixed], index - fixed)
  }

  function Filled(item: string, n: nat): string {
    Replaced(Replaced(Replaced(item, "{n}", Decimal(n)), "{slot}", Decimal(n)), "{port}", Decimal(n + 1))
  }

  /** `normalize_paired_child_kind`. */
  function Kind(raw: string): string {
    var kind := Lower(Strip(if raw == "" then "qemu" else raw));
    if Known(kind) then kind else "qemu"
  }

  function DefaultName(kind: string, index: nat): string {
    if kind == "qemu" then "Gi" + Decimal(index + 1) else "eth" + Decimal(index)
  }

  function Size(c: Child): nat
    requires c.Child?
  {
    if c.ethernet.Some? && c.ethernet.value > 0 then c.ethernet.value else 0
  }

  /** The name at a position when the explicit list is laid over a base name. */
  function Overlaid(naming: Naming, index: nat, base: string): string {
    if Named(naming, index) then naming.explicit.value[index].value else base
  }

  /** Base name in the prediction: a blank format, or one that is not text, counts
      as none. */
  function PredictedBase(c: Child, index: nat): string
    requires c.Child?
  {
    if c.naming.Block? && c.naming.format.Text? && Strip(c.naming.format.text) != ""
    then Render(c.naming.format.text, index)
    else DefaultName(Kind(c.kind), index)
  }

  /** `str(fmt)` of a format that is there. */
  function FormatText(format: Format): string
    requires !format.NoFormat?
  {
    if format.Text? then format.text else format.shown
  }

  /** Base name in the payload. */
  function BuiltBase(c: Child, index: nat): string
    requires c.Child?
  {
    if c.naming.Block? && !c.naming.format.NoFormat? then Render(FormatText(c.naming.format), index)
    else DefaultName(Kind(c.kind), index)
  }

  function Predicted(c: Child): (names: seq<string>)
    requires c.Child?
    ensures |names| == Size(c)
    ensures forall i :: 0 <= i < |names| ==> names[i] == Overlaid(c.naming, i, PredictedBase(c, i))
  {
    seq(Size(c), i requires i >= 0 => Overlaid(c.naming, i, PredictedBase(c, i)))
  }

  function Built(c: Child): (names: seq<string>)
    requires c.Child?
    ensures |names| == Size(c)
    ensures forall i :: 0 <= i < |names| ==> names[i] == Overlaid(c.naming, i, BuiltBase(c, i))
  {
    seq(Size(c), i requires i >= 0 => Overlaid(c.naming, i, BuiltBase(c, i)))
  }

  /** The format is there, and the prediction does not use it. */
  predicate OddFormat(c: Child) {
    c.Child? && c.naming.Block? && !c.naming.format.NoFormat?
    && (c.naming.format.Text? ==> Strip(c.naming.format.text) == "")
  }

  /** The explicit list names the position. */
  predicate Named(naming: Naming, index: nat) {
    naming.Block? && naming.explicit.Some? && index < |naming.explicit.value| && naming.explicit.value[index].Some?
  }

  lemma {:induction false} ItemsOfBlank(s: string, part: string)
    requires forall i :: 0 <= i < |s| ==> IsSpace(s[i])
    requires forall i :: 0 <= i < |part| ==> IsSpace(part[i])
    ensures Items(s, part) == []
    decreases |s|
  {
    assert Strip(part) == "";
    if s != "" {
      assert IsSpace(s[0]);
      ItemsOfBlank(s[1..], part + [s[0]]);
    }
  }

  /** What the payload makes of a format the prediction does not use is never a
      default name. */
  lemma {:induction false} OddNames(c: Child, index: nat)
    requires OddFormat(c)
    ensures BuiltBase(c, index) != PredictedBase(c, index)
  {
    var name := DefaultName(Kind(c.kind), index);
    assert name[0] == 'G' || name[0] == 'e';
    if c.naming.format.Text? {
      ItemsOfBlank(c.naming.format.text, "");
    } else {
      var shown := c.naming.format.shown;
      RenderOne(shown, index);
      TextStays(shown, "{n}", Decimal(index));
      TextStays(shown, "{slot}", Decimal(index));
      TextStays(shown, "{port}", Decimal(index + 1));
    }
  }

  /** Prediction and payload agree on every name exactly when the format is absent
      or text that is not blank, or the explicit list names every position. */
  lemma {:induction false} PredictionIff(c: Child)
    requires c.Child?
    ensures Predicted(c) == Built(c) <==> !OddFormat(c) || forall i :: 0 <= i < Size(c) ==> Named(c.naming, i)
  {
    if OddFormat(c) {
      forall i | 0 <= i < Size(c)
        ensures Predicted(c)[i] == Built(c)[i] <==> Named(c.naming, i)
      {
        OddNames(c, i);
      }
    }
  }

  // ---------------------------------------------------------------------
  // What formats mean
  // ---------------------------------------------------------------------

  /** The pieces of a list format, joined by commas. */
  function Joined(pieces: seq<string>): string {
    if pieces == [] then ""
    else if |pieces| == 1 then pieces[0]
    else pieces[0] + "," + Joined(pieces[1..])
  }

  predicate NoComma(piece: string) {
    forall i :: 0 <= i < |piece| ==> piece[i] != ','
  }

  ghost predicate AllPieces(pieces: seq<string>) {
    forall i :: 0 <= i < |pieces| ==> NoComma(pieces[i])
  }

  /** An item stands as it is: no comma in it, no white space around it. */
  predicate Plain(item: string) {
    item != "" && Strip(item) == item && NoComma(item)
  }

  predicate Blank(piece: string) {
    forall i :: 0 <= i < |piece| ==> IsSpace(piece[i])
  }

  /** The pieces that are not blank, without the white space around them. */
  function Trimmed(pieces: seq<string>): seq<string> {
    if pieces == [] then []
    else if Blank(pieces[0]) then Trimmed(pieces[1..])
    else [Strip(pieces[0])] + Trimmed(pieces[1..])
  }

  lemma {:induction false} PieceRead(piece: string, part: string, rest: string)
    requires NoComma(piece)
    ensures Items(piece + "," + rest, part) == Item(part + piece) + Items(rest, "")
    ensures Items(piece, part) == Item(part + piece)
    decreases |piece|
  {
    if piece == "" {
      assert part + piece == part;
      assert (piece + "," + rest)[1..] == rest;
    } else {
      assert (piece + "," + rest)[1..] == piece[1..] + "," + rest;
      assert part + [piece[0]] + piece[1..] == part + piece;
      PieceRead(piece[1..], part + [piece[0]], rest);
    }
  }

  lemma {:induction false} ItemsOfJoined(pieces: seq<string>)
    requires AllPieces(pieces)
    ensures Items(Joined(pieces), "") == Trimmed(pieces)
  {
    if pieces != [] {
      assert NoComma(pieces[0]) && "" + pieces[0] == pieces[0];
      PieceRead(pieces[0], "", Joined(pieces[1..]));
      assert Item(pieces[0]) == if Blank(pieces[0]) then [] else [Strip(pieces[0])];
      if |pieces| > 1 {
        ItemsOfJoined(pieces[1..]);
      } else {
        assert Trimmed(pieces[1..]) == [];
      }
    }
  }

  /** In a format of pieces between commas blank ones do not count; of the others,
      white space around them aside, the fixed ones go to one interface each, in
      order, and from there on the last is filled in with numbers counted from
      there. */
  lemma {:induction false} RenderList(pieces: seq<string>, index: nat)
    requires AllPieces(pieces)
    ensures var items := Trimmed(pieces);
      Render(Joined(pieces), index) ==
        if items == [] then ""
        else if index < |items| - 1 then items[index]
        else Filled(items[|items| - 1], index - (|items| - 1))
  {
    ItemsOfJoined(pieces);
  }

  predicate NoBrace(s: string) {
    forall i :: 0 <= i < |s| ==> s[i] != '{'
  }

  /** A last item: text and placeholders in any order. */
  datatype Part = Lit(text: string) | N | Slot | Port

  function Written(p: Part): string {
    match p
    case Lit(text) => text
    case N => "{n}"
    case Slot => "{slot}"
    case Port => "{port}"
  }

  /** {n} and {slot} count from 0, {port} from 1. */
  function Meaning(p: Part, n: nat): string {
    match p
    case Lit(text) => text
    case N => Decimal(n)
    case Slot => Decimal(n)
    case Port => Decimal(n + 1)
  }

  function AllWritten(parts: seq<Part>): string {
    if parts == [] then "" else Written(parts[0]) + AllWritten(parts[1..])
  }

  function AllMeant(parts: seq<Part>, n: nat): string {
    if parts == [] then "" else Meaning(parts[0], n) + AllMeant(parts[1..], n)
  }

  ghost predicate Braceless(parts: seq<Part>) {
    forall i :: 0 <= i < |parts| && parts[i].Lit? ==> NoBrace(parts[i].text)
  }

  lemma {:induction false} TextPasses(text: string, rest: string, token: string, with: string)
    requires token != "" && token[0] == '{' && NoBrace(text)
    ensures Replaced(text + rest, token, with) == text + Replaced(rest, token, with)
  {
    if text == "" {
      assert text + rest == rest;
    } else {
      assert (text + rest)[0] == text[0] && (text + rest)[1..] == text[1..] + rest;
      TextPasses(text[1..], rest, token, with);
      assert text == [text[0]] + text[1..];
    }
  }

  lemma {:induction false} TextStays(text: string, token: string, with: string)
    requires token != "" && token[0] == '{' && NoBrace(text)
    ensures Replaced(text, token, with) == text
  {
    TextPasses(text, "", token, with);
    assert text + "" == text;
  }

  lemma {:induction false} TokenGoes(rest: string, token: string, with: string)
    requires token != ""
    ensures Replaced(token + rest, token, with) == with + Replaced(rest, token, with)
  {
    assert (token + rest)[|token|..] == rest;
  }

  lemma {:induction false} OtherStays(other: string, rest: string, token: string, with: string)
    requires |token| >= 2 && token[0] == '{' && |other| >= 2 && other[1] != token[1] && NoBrace(other[1..])
    ensures Replaced(other + rest, token, with) == other + Replaced(rest, token, with)
  {
    var s := other + rest;
    assert s[1] == other[1] && s[1..] == other[1..] + rest;
    TextPasses(other[1..], rest, token, with);
    assert other == [other[0]] + other[1..];
  }

  /** One kind of placeholder turned into text. */
  function SetIn(parts: seq<Part>, kind: Part, with: string): (r: seq<Part>)
    ensures |r| == |parts| && forall i :: 0 <= i < |r| ==> r[i] == if parts[i] == kind then Lit(with) else parts[i]
  {
    if parts == [] then [] else [if parts[0] == kind then Lit(with) else parts[0]] + SetIn(parts[1..], kind, with)
  }

  lemma {:induction false} OneReplaced(parts: seq<Part>, kind: Part, with: string)
    requires Braceless(parts) && !kind.Lit?
    ensures Replaced(AllWritten(parts), Written(kind), with) == AllWritten(SetIn(parts, kind, with))
  {
    if parts != [] {
      var rest := AllWritten(parts[1..]);
      OneReplaced(parts[1..], kind, with);
      assert SetIn(parts, kind, with)[1..] == SetIn(parts[1..], kind, with);
      if parts[0].Lit? {
        TextPasses(parts[0].text, rest, Written(kind), with);
      } else if parts[0] == kind {
        TokenGoes(rest, Written(kind), with);
      } else {
        OtherStays(Written(parts[0]), rest, Written(kind), with);
      }
    }
  }

  lemma {:induction false} DigitsNoBrace(n: nat)
    ensures NoBrace(Decimal(n))
  {
    assert AllDigits(Decimal(n));
  }

  lemma {:induction false} AllSet(parts: seq<Part>, n: nat)
    ensures var one := SetIn(parts, N, Decimal(n));
      var two := SetIn(one, Slot, Decimal(n));
      AllWritten(SetIn(two, Port, Decimal(n + 1))) == AllMeant(parts, n)
  {
    if parts != [] {
      AllSet(parts[1..], n);
      var one := SetIn(parts, N, Decimal(n));
      var two := SetIn(one, Slot, Decimal(n));
      var three := SetIn(two, Port, Decimal(n + 1));
      assert one[1..] == SetIn(parts[1..], N, Decimal(n));
      assert two[1..] == SetIn(one[1..], Slot, Decimal(n));
      assert three[1..] == SetIn(two[1..], Port, Decimal(n + 1));
      assert three[0] == Lit(Meaning(parts[0], n));
    }
  }

  /** Filling an item in gives every placeholder its number, and leaves the text
      between them. */
  lemma {:induction false} FilledMeans(parts: seq<Part>, n: nat)
    requires Braceless(parts)
    ensures Filled(AllWritten(parts), n) == AllMeant(parts, n)
  {
    DigitsNoBrace(n);
    DigitsNoBrace(n + 1);
    OneReplaced(parts, N, Decimal(n));
    var one := SetIn(parts, N, Decimal(n));
    OneReplaced(one, Slot, Decimal(n));
    var two := SetIn(one, Slot, Decimal(n));
    OneReplaced(two, Port, Decimal(n + 1));
    AllSet(parts, n);
  }

  lemma {:induction false} FilledOne(name: string, kind: Part, n: nat)
    requires NoBrace(name) && !kind.Lit?
    ensures Filled(name + Written(kind), n) == name + Meaning(kind, n)
  {
    var parts := [Lit(name), kind];
    assert parts[1..] == [kind] && parts[1..][1..] == [];
    assert AllWritten(parts) == name + Written(kind) && AllMeant(parts, n) == name + Meaning(kind, n) by {
      assert AllWritten([kind]) == Written(kind) + AllWritten([]) == Written(kind);
      assert AllMeant([kind], n) == Meaning(kind, n) + AllMeant([], n) == Meaning(kind, n);
    }
    FilledMeans(parts, n);
  }

  lemma {:induction false} RenderOne(item: string, index: nat)
    requires Plain(item)
    ensures Render(item, index) == Filled(item, index)
  {
    assert Joined([item]) == item;
    assert Trimmed([item]) == [item] by {
      assert [item][1..] == [];
      assert Strip(item) != "";
    }
    RenderList([item], index);
  }

  /** The names used when a template has no format are those of the formats
      Gi{port} and eth{n}. */
  lemma {:induction false} DefaultsAreFormats(kind: string, index: nat)
    ensures DefaultName(kind, index) == if kind == "qemu" then Render("Gi{port}", index) else Render("eth{n}", index)
  {
    if kind == "qemu" {
      assert "Gi" + "{port}" == "Gi{port}";
      RenderOne("Gi{port}", index);
      FilledOne("Gi", Port, index);
    } else {
      assert "eth" + "{n}" == "eth{n}";
      RenderOne("eth{n}", index);
      FilledOne("eth", N, index);
    }
  }

  predicate Known(kind: string) {
    kind == "qemu" || kind == "docker" || kind == "iol" || kind == "dynamips"
  }

  lemma {:induction false} KnownStays(kind: string)
    requires Known(kind)
    ensures Strip(kind) == kind && Lower(kind) == kind && Kind(kind) == kind
  {
    assert Strip(kind) == kind;
    LowerStays(kind);
  }

  /** The kind is one of the four, and normalizing it again changes nothing; any
      but qemu is the one that was written, up to case and outer white space. */
  lemma {:induction false} KindStable(raw: string)
    ensures Kind(raw) == "qemu" || Kind(raw) == "docker" || Kind(raw) == "iol" || Kind(raw) == "dynamips"
    ensures Kind(Kind(raw)) == Kind(raw)
    ensures Kind(raw) != "qemu" ==> Kind(raw) == Lower(Strip(raw))
  {
    KnownStays(Kind(raw));
    KnownStays("qemu");
  }

  /** It is the one of the four that is written, up to case and outer white space,
      and qemu when none is. */
  lemma {:induction false} KindIs(raw: string, kind: string)
    requires kind == "qemu" || kind == "docker" || kind == "iol" || kind == "dynamips"
    ensures SameLetters(Strip(raw), kind) ==> Kind(raw) == kind
    ensures Kind(raw) == kind && kind != "qemu" ==> SameLetters(Strip(raw), kind)
  {
    KnownStays(kind);
    LowerIff(Strip(raw), kind);
    assert raw == "" ==> Strip(raw) == "" && !SameLetters(Strip(raw), kind);
  }

  /** Without a naming block there is a default name for every interface, and none
      for a number below 1 or what is no number. */
  lemma {:induction false} DefaultNames(c: Child)
    requires c.Child? && !c.naming.Block?
    ensures Predicted(c) == Built(c)
    ensures |Predicted(c)| == (if c.ethernet.Some? && c.ethernet.value >= 1 then c.ethernet.value else 0)
    ensures forall i :: 0 <= i < |Predicted(c)| ==>
      Predicted(c)[i] == if Kind(c.kind) == "qemu" then "Gi" + Decimal(i + 1) else "eth" + Decimal(i)
  {
    assert forall i :: 0 <= i < Size(c) ==> PredictedBase(c, i) == BuiltBase(c, i);
  }

  // ---------------------------------------------------------------------
  // The check before instantiation
  // ---------------------------------------------------------------------

  predicate HasPlaceholder(s: string) {
    Occurs("{n}", s) || Occurs("{slot}", s) || Occurs("{port}", s)
  }

  /** `_validate_interface_naming` accepts the block. */
  predicate NamingOk(naming: Naming) {
    match naming
    case NoNaming => true
    case NotAnObject => false
    case Block(format, explicit) =>
      && (format.NoFormat? <==> explicit.Some?)
      && !format.NotText?
      && (format.Text? ==> Strip(format.text) != "" && HasPlaceholder(format.text))
      && (explicit.Some? ==> explicit.value != [] && forall i :: 0 <= i < |explicit.value| ==>
            explicit.value[i].Some? && Strip(explicit.value[i].value) != "")
  }

  ghost predicate OccursAt(token: string, s: string, i: nat) {
    i + |token| <= |s| && s[i..i + |token|] == token
  }

  lemma {:induction false} OccursIff(token: string, s: string)
    ensures Occurs(token, s) <==> exists i: nat :: OccursAt(token, s, i)
  {
    if token <= s {
      assert OccursAt(token, s, 0);
    } else if s != "" {
      OccursIff(token, s[1..]);
      if i: nat :| OccursAt(token, s[1..], i) {
        assert s[1..][i..i + |token|] == s[i + 1..i + 1 + |token|];
        assert OccursAt(token, s, i + 1);
      }
      if i: nat :| OccursAt(token, s, i) {
        assert i > 0;
        assert s[1..][i - 1..i - 1 + |token|] == s[i..i + |token|];
        assert OccursAt(token, s[1..], i - 1);
      }
    }
  }

  predicate HasLetter(s: string) {
    exists c <- s :: !IsSpace(c)
  }

  /** One of the three placeholders stands somewhere in the text. */
  ghost predicate Numbers(text: string) {
    exists i: nat :: OccursAt("{n}", text, i) || OccursAt("{slot}", text, i) || OccursAt("{port}", text, i)
  }

  lemma {:induction false} NotBlank(token: string, s: string, i: nat)
    requires token != "" && !IsSpace(token[0]) && OccursAt(token, s, i)
    ensures Strip(s) != ""
  {
    assert s[i] == s[i..i + |token|][0];
  }

  lemma {:induction false} NumbersIff(text: string)
    ensures Numbers(text) <==> HasPlaceholder(text)
    ensures Numbers(text) ==> Strip(text) != ""
  {
    OccursIff("{n}", text);
    OccursIff("{slot}", text);
    OccursIff("{port}", text);
    if Numbers(text) {
      var i: nat :| OccursAt("{n}", text, i) || OccursAt("{slot}", text, i) || OccursAt("{port}", text, i);
      if OccursAt("{n}", text, i) {
        NotBlank("{n}", text, i);
      } else if OccursAt("{slot}", text, i) {
        NotBlank("{slot}", text, i);
      } else {
        NotBlank("{port}", text, i);
      }
    }
  }

  /** A list of names: at least one, and none of them blank. */
  ghost predicate ListsNames(names: seq<Option<string>>) {
    |names| >= 1 && forall i :: 0 <= i < |names| ==> names[i].Some? && HasLetter(names[i].value)
  }

  /** A naming block passes exactly when it has a format that is text with one of the
      three placeholders in it and no list, or no format and a list of names. */
  lemma {:induction false} NamingIff(format: Format, explicit: Option<seq<Option<string>>>)
    ensures NamingOk(Block(format, explicit)) <==>
      if explicit.None? then format.Text? && Numbers(format.text) else format.NoFormat? && ListsNames(explicit.value)
    ensures NamingOk(NoNaming) && !NamingOk(NotAnObject)
  {
    if format.Text? {
      NumbersIff(format.text);
    }
    if explicit.Some? {
      forall i | 0 <= i < |explicit.value| && explicit.value[i].Some?
        ensures HasLetter(explicit.value[i].value) <==> Strip(explicit.value[i].value) != ""
      {
      }
    }
  }

  /** The scalars of the child can be read. */
  predicate Readable(c: Child) {
    c.Child? && c.ethernet.Some? && c.scalarsOk
  }

  /** The child by itself passes the check. */
  predicate ChildOk(c: Child) {
    Readable(c) && NamingOk(c.naming) && c.capabilitiesOk
  }

  /** Index of the last child, below n, that is a dictionary with the id. */
  function LastWithId(nodes: seq<Child>, n: nat, id: string): (r: Option<nat>)
    requires n <= |nodes|
    ensures r.Some? ==> r.value < n && nodes[r.value].Child? && nodes[r.value].id == id
  {
    if n == 0 then None
    else if nodes[n - 1].Child? && nodes[n - 1].id == id then Some(n - 1)
    else LastWithId(nodes, n - 1, id)
  }

  /** No child with the id comes after the last one. */
  lemma {:induction false} LastIsLast(nodes: seq<Child>, n: nat, k: nat)
    requires k < n <= |nodes| && nodes[k].Child?
    ensures LastWithId(nodes, n, nodes[k].id).Some? && k <= LastWithId(nodes, n, nodes[k].id).value
  {
    if k < n - 1 {
      LastIsLast(nodes, n - 1, k);
    }
  }

  /** The child the check keeps under an id. */
  function Checked(t: Template, id: string): (r: Option<nat>)
    ensures r.Some? ==> r.value < |t.nodes| && t.nodes[r.value].Child? && t.nodes[r.value].id == id
  {
    LastWithId(t.nodes, |t.nodes|, id)
  }

  predicate EndKnown(t: Template, id: string, iface: string) {
    var k := Checked(t, id);
    k.Some? && iface in Predicted(t.nodes[k.value])
  }

  predicate LinkKnown(t: Template, l: PairedLink) {
    EndKnown(t, l.fromNode, l.fromIface) && EndKnown(t, l.toNode, l.toIface)
  }

  /** `validate_paired_template` finds nothing wrong. */
  ghost predicate Accepted(t: Template) {
    && (forall id :: Checked(t, id).Some? ==> ChildOk(t.nodes[Checked(t, id).value]))
    && (forall m :: 0 <= m < |t.links| ==> LinkKnown(t, t.links[m]))
  }

  /** The child is a dictionary and no later one has its id. */
  ghost predicate Stays(t: Template, k: nat) {
    k < |t.nodes| && t.nodes[k].Child?
    && forall j :: k < j < |t.nodes| && t.nodes[j].Child? ==> t.nodes[j].id != t.nodes[k].id
  }

  lemma {:induction false} CheckedIff(t: Template, id: string, k: nat)
    ensures Checked(t, id) == Some(k) <==> Stays(t, k) && t.nodes[k].id == id
  {
    if k < |t.nodes| && t.nodes[k].Child? && t.nodes[k].id == id {
      LastIsLast(t.nodes, |t.nodes|, k);
      if Checked(t, id) == Some(k) {
        forall j: nat | k < j < |t.nodes| && t.nodes[j].Child?
          ensures t.nodes[j].id != id
        {
          LastIsLast(t.nodes, |t.nodes|, j);
        }
      }
    }
  }

  /** Some child that stays has the id and, by its predicted names, the interface. */
  ghost predicate Offers(t: Template, id: string, iface: string) {
    exists k: nat :: Stays(t, k) && t.nodes[k].id == id && iface in Predicted(t.nodes[k])
  }

  /** A template passes exactly when every child that stays has numbers where numbers
      are due, a naming block that passes and valid capabilities, and every link end
      names such a child and one of its predicted interfaces. */
  lemma {:induction false} AcceptedIff(t: Template)
    ensures Accepted(t) <==>
      && (forall k: nat :: Stays(t, k) ==>
            var c := t.nodes[k]; c.ethernet.Some? && c.scalarsOk && c.capabilitiesOk && NamingOk(c.naming))
      && (forall m :: 0 <= m < |t.links| ==>
            Offers(t, t.links[m].fromNode, t.links[m].fromIface) && Offers(t, t.links[m].toNode, t.links[m].toIface))
  {
    forall id: string, iface: string
      ensures EndKnown(t, id, iface) <==> Offers(t, id, iface)
    {
      OfferedIff(t, id, iface);
    }
    forall k: nat | Stays(t, k)
      ensures Checked(t, t.nodes[k].id) == Some(k)
    {
      CheckedIff(t, t.nodes[k].id, k);
    }
    forall id: string | Checked(t, id).Some?
      ensures Stays(t, Checked(t, id).value)
    {
      CheckedIff(t, id, Checked(t, id).value);
    }
  }

  lemma {:induction false} OfferedIff(t: Template, id: string, iface: string)
    ensures EndKnown(t, id, iface) <==> Offers(t, id, iface)
  {
    if Checked(t, id).Some? {
      CheckedIff(t, id, Checked(t, id).value);
    }
    if k: nat :| Stays(t, k) && t.nodes[k].id == id && iface in Predicted(t.nodes[k]) {
      CheckedIff(t, id, k);
    }
  }

  // ---------------------------------------------------------------------
  // Instantiation
  // ---------------------------------------------------------------------

  /** The id a child is filed under when the nodes are made. */
  function RuntimeId(t: Template, k: nat): string
    requires k < |t.nodes| && t.nodes[k].Child?
  {
    if t.nodes[k].id == "" then "child-" + Decimal(k) else t.nodes[k].id
  }

  /** The node made for an id: of those filed under it, the last. */
  function Made(t: Template, n: nat, id: string): (r: Option<nat>)
    requires n <= |t.nodes|
    ensures r.Some? ==> r.value < n && t.nodes[r.value].Child? && RuntimeId(t, r.value) == id
  {
    if n == 0 then None
    else if t.nodes[n - 1].Child? && RuntimeId(t, n - 1) == id then Some(n - 1)
    else Made(t, n - 1, id)
  }

  predicate EndResolves(t: Template, id: string, iface: string) {
    var k := Made(t, |t.nodes|, id);
    k.Some? && iface in Built(t.nodes[k.value])
  }

  predicate LinkResolves(t: Template, l: PairedLink) {
    EndResolves(t, l.fromNode, l.fromIface) && EndResolves(t, l.toNode, l.toIface)
  }

  /** Every node payload can be built. */
  predicate AllReadable(t: Template) {
    forall k :: 0 <= k < |t.nodes| ==> Readable(t.nodes[k])
  }

  /** Every node payload can be built, and every link finds both children and
      both interfaces. */
  predicate Resolves(t: Template) {
    && AllReadable(t)
    && (forall m :: 0 <= m < |t.links| ==> LinkResolves(t, t.links[m]))
  }

  /** No later child is filed under this one's id. */
  ghost predicate Remains(t: Template, k: nat) {
    k < |t.nodes| && t.nodes[k].Child?
    && forall j :: k < j < |t.nodes| && t.nodes[j].Child? ==> RuntimeId(t, j) != RuntimeId(t, k)
  }

  /** Some child that remains is filed under the id and, as built, has the interface. */
  ghost predicate Provides(t: Template, id: string, iface: string) {
    exists k: nat :: Remains(t, k) && RuntimeId(t, k) == id && iface in Built(t.nodes[k])
  }

  lemma {:induction false} MadeIff(t: Template, n: nat, id: string, k: nat)
    requires n <= |t.nodes|
    ensures Made(t, n, id) == Some(k) <==>
      && k < n && t.nodes[k].Child? && RuntimeId(t, k) == id
      && forall j :: k < j < n && t.nodes[j].Child? ==> RuntimeId(t, j) != id
  {
    if n > 0 {
      MadeIff(t, n - 1, id, k);
    }
  }

  lemma {:induction false} ProvidedIff(t: Template, id: string, iface: string)
    ensures EndResolves(t, id, iface) <==> Provides(t, id, iface)
  {
    if Made(t, |t.nodes|, id).Some? {
      MadeIff(t, |t.nodes|, id, Made(t, |t.nodes|, id).value);
    }
    if k: nat :| Remains(t, k) && RuntimeId(t, k) == id && iface in Built(t.nodes[k]) {
      MadeIff(t, |t.nodes|, id, k);
    }
  }

  /** Instantiation goes through exactly when every child is a dictionary with numbers
      where numbers are due, and every link end names an id that a child is filed
      under which has the interface. */
  lemma {:induction false} ResolvesIff(t: Template)
    ensures Resolves(t) <==>
      && (forall k :: 0 <= k < |t.nodes| ==> t.nodes[k].Child? && t.nodes[k].ethernet.Some? && t.nodes[k].scalarsOk)
      && (forall m :: 0 <= m < |t.links| ==>
            Provides(t, t.links[m].fromNode, t.links[m].fromIface) && Provides(t, t.links[m].toNode, t.links[m].toIface))
  {
    forall id: string, iface: string
      ensures EndResolves(t, id, iface) <==> Provides(t, id, iface)
    {
      ProvidedIff(t, id, iface);
    }
  }

  /** A child without an id, after the one the check keeps under an id, is filed
      under that id too. */
  predicate TakenBy(t: Template, id: string, k: nat) {
    && k < |t.nodes| && t.nodes[k].Child? && t.nodes[k].id == "" && id == "child-" + Decimal(k)
    && Checked(t, id).Some? && Checked(t, id).value < k
  }

  /** Whoever takes an id over has the interface as well. */
  ghost predicate EndStands(t: Template, id: string, iface: string) {
    forall k: nat :: TakenBy(t, id, k) ==> iface in Built(t.nodes[k])
  }

  ghost predicate LinkStands(t: Template, l: PairedLink) {
    EndStands(t, l.fromNode, l.fromIface) && EndStands(t, l.toNode, l.toIface)
  }

  /** No link names a child without saying which. */
  predicate LinksNamed(t: Template) {
    forall m :: 0 <= m < |t.links| ==> t.links[m].fromNode != "" && t.links[m].toNode != ""
  }

  lemma {:induction false} MadeIsLast(t: Template, n: nat, k: nat)
    requires k < n <= |t.nodes| && t.nodes[k].Child?
    ensures var r := Made(t, n, RuntimeId(t, k)); r.Some? && k <= r.value
  {
    if k < n - 1 {
      MadeIsLast(t, n - 1, k);
    }
  }

  /** The node made for an id is the child the check keeps, or the one that takes
      the id over. */
  lemma {:induction false} MadeIs(t: Template, id: string)
    requires id != "" && Checked(t, id).Some?
    ensures forall k: nat :: TakenBy(t, id, k) ==> Made(t, |t.nodes|, id) == Some(k)
    ensures (forall k: nat :: !TakenBy(t, id, k)) ==> Made(t, |t.nodes|, id) == Checked(t, id)
  {
    var n, c := |t.nodes|, Checked(t, id).value;
    MadeIsLast(t, n, c);
    var r := Made(t, n, id).value;
    if t.nodes[r].id != "" {
      LastIsLast(t.nodes, n, r);
    }
    assert r != c ==> TakenBy(t, id, r);
    forall k: nat | TakenBy(t, id, k)
      ensures k == r
    {
      MadeIsLast(t, n, k);
      assert "child-" + Decimal(r) == "child-" + Decimal(k);
      assert ("child-" + Decimal(r))[6..] == Decimal(r) && ("child-" + Decimal(k))[6..] == Decimal(k);
      ValueOfDecimal(r);
      ValueOfDecimal(k);
    }
  }

  lemma {:induction false} NothingUnderEmpty(t: Template, n: nat)
    requires n <= |t.nodes|
    ensures Made(t, n, "").None?
  {
    if n > 0 {
      NothingUnderEmpty(t, n - 1);
    }
  }

  lemma {:induction false} EndResolvesIff(t: Template, id: string, iface: string)
    requires id != "" && EndKnown(t, id, iface) && NamingOk(t.nodes[Checked(t, id).value].naming)
    ensures EndResolves(t, id, iface) <==> EndStands(t, id, iface)
  {
    MadeIs(t, id);
    PredictionIff(t.nodes[Checked(t, id).value]);
    if k: nat :| TakenBy(t, id, k) {
      assert Made(t, |t.nodes|, id) == Some(k);
      assert forall m: nat :: TakenBy(t, id, m) ==> m == k;
    }
  }

  /** An accepted template resolves at instantiation exactly when every child is a
      dictionary with readable scalars, every link names its children, and where a
      child without an id takes over a linked id it has the interface too.  Ids
      may repeat. */
  lemma {:induction false} AcceptedResolvesIff(t: Template)
    requires Accepted(t)
    ensures Resolves(t) <==>
      && AllReadable(t)
      && LinksNamed(t)
      && (forall m :: 0 <= m < |t.links| ==> LinkStands(t, t.links[m]))
  {
    NothingUnderEmpty(t, |t.nodes|);
    forall m | 0 <= m < |t.links|
      ensures LinkResolves(t, t.links[m]) <==>
        t.links[m].fromNode != "" && t.links[m].toNode != "" && LinkStands(t, t.links[m])
    {
      var l := t.links[m];
      assert LinkKnown(t, l);
      if l.fromNode != "" {
        EndResolvesIff(t, l.fromNode, l.fromIface);
      }
      if l.toNode != "" {
        EndResolvesIff(t, l.toNode, l.toIface);
      }
    }
  }

  /** With distinct, non-empty ids on children that are all dictionaries, being
      accepted is enough. */
  lemma {:induction false} AcceptedResolves(t: Template)
    requires Accepted(t)
    requires forall k :: 0 <= k < |t.nodes| ==> t.nodes[k].Child? && t.nodes[k].id != ""
    requires forall k, m :: 0 <= k < m < |t.nodes| ==> t.nodes[k].id != t.nodes[m].id
    ensures Resolves(t)
  {
    forall k | 0 <= k < |t.nodes|
      ensures Readable(t.nodes[k])
    {
      LastIsLast(t.nodes, |t.nodes|, k);
      assert Checked(t, t.nodes[k].id) == Some(k);
    }
    AcceptedResolvesIff(t);
  }

  lemma {:induction false} SecondTakesOver(t: Template)
    requires |t.nodes| == 2 && t.nodes[0].Child? && t.nodes[0].id == "child-1"
    requires t.nodes[1].Child? && t.nodes[1].id == ""
    ensures Checked(t, "child-1") == Some(0) && TakenBy(t, "child-1", 1)
  {
    assert Decimal(1) == "1";
    assert LastWithId(t.nodes, 1, "child-1") == Some(0);
  }

  /** A template that is accepted and does not resolve, though its children are in
      order and its links name them: the second child, without an id, takes over
      the first one's. */
  lemma {:induction false} ShadowedFails()
    ensures exists t :: Accepted(t) && LinksNamed(t) && AllReadable(t) && !Resolves(t)
  {
    var l := PairedLink("child-1", "a", "child-1", "a");
    var t := Template([OnlyInterface("child-1", "a"), OnlyInterface("", "b")], [l]);
    SecondTakesOver(t);
    OldEndLost(t);
    AllFineAccepted(t);
    assert LinksNamed(t) && AllReadable(t);
    LostDoesNotResolve(t);
  }

  lemma {:induction false} LostDoesNotResolve(t: Template)
    requires Accepted(t) && |t.links| > 0 && !LinkStands(t, t.links[0])
    ensures !Resolves(t)
  {
    AcceptedResolvesIff(t);
  }

  lemma {:induction false} OldEndLost(t: Template)
    requires |t.nodes| == 2 && t.nodes[0].Child? && TakenBy(t, "child-1", 1) && Checked(t, "child-1") == Some(0)
    requires Predicted(t.nodes[0]) == ["a"] && Built(t.nodes[1]) == ["b"]
    ensures EndKnown(t, "child-1", "a") && !EndStands(t, "child-1", "a")
  {
  }

  lemma {:induction false} AllFineAccepted(t: Template)
    requires forall k :: 0 <= k < |t.nodes| ==> t.nodes[k].Child? && ChildOk(t.nodes[k])
    requires forall m :: 0 <= m < |t.links| ==> LinkKnown(t, t.links[m])
    ensures Accepted(t)
  {
  }

  /** A child with one interface of a given name. */
  function OnlyInterface(id: string, iface: string): (c: Child)
    requires Strip(iface) != ""
    ensures c.Child? && c.id == id && ChildOk(c) && Predicted(c) == Built(c) == [iface]
  {
    var c := Child(id, "", Some(1), Block(NoFormat, Some([Some(iface)])), true, true);
    assert Predicted(c)[0] == iface && Built(c)[0] == iface;
    c
  }

  // ---------------------------------------------------------------------
  // The loops
  // ---------------------------------------------------------------------

  /** `_paired_child_iface_names`: the explicit names are written over the base
      list. */
  method PredictNames(c: Child) returns (names: seq<string>)
    requires c.Child?
    ensures names == Predicted(c)
  {
    names := seq(Size(c), i requires i >= 0 => PredictedBase(c, i));
    if c.naming.Block? && c.naming.explicit.Some? {
      var explicit := c.naming.explicit.value;
      var idx := 0;
      while idx < |explicit| && idx < |names|
        invariant idx <= |explicit| && idx <= |names| == Size(c)
        invariant forall i :: 0 <= i < idx ==> names[i] == Overlaid(c.naming, i, PredictedBase(c, i))
        invariant forall i :: idx <= i < |names| ==> names[i] == PredictedBase(c, i)
      {
        if explicit[idx].Some? {
          names := names[idx := explicit[idx].value];
        }
        idx := idx + 1;
      }
    }
  }

  /** `_default_interfaces` and the renaming in `_build_paired_child_payload`. */
  method BuildNames(c: Child) returns (names: seq<string>)
    requires c.Child?
    ensures names == Built(c)
  {
    names := [];
    for index := 0 to Size(c)
      invariant |names| == index
      invariant forall i :: 0 <= i < index ==> names[i] == BuiltBase(c, i)
    {
      var name := BuiltBase(c, index);
      names := names + [name];
    }
    if c.naming.Block? && c.naming.explicit.Some? {
      var explicit := c.naming.explicit.value;
      for idx := 0 to |names|
        invariant |names| == Size(c)
        invariant forall i :: 0 <= i < idx ==> names[i] == Overlaid(c.naming, i, BuiltBase(c, i))
        invariant forall i :: idx <= i < |names| ==> names[i] == BuiltBase(c, i)
      {
        if idx < |explicit| && explicit[idx].Some? {
          names := names[idx := explicit[idx].value];
        }
      }
    }
  }

  /** `_resolve_iface_index`: the first interface with the name. */
  method ResolveIndex(names: seq<string>, iface: string) returns (r: Option<nat>)
    ensures r.None? <==> iface !in names
    ensures r.Some? ==> r.value < |names| && names[r.value] == iface && iface !in names[..r.value]
  {
    for idx := 0 to |names|
      invariant iface !in names[..idx]
    {
      if names[idx] == iface {
        return Some(idx);
      }
    }
    assert names[..|names|] == names;
    return None;
  }

  ghost predicate Files(t: Template, byId: map<string, nat>) {
    && (forall id :: (id in byId) == Checked(t, id).Some?)
    && (forall id :: id in byId ==> Checked(t, id) == Some(byId[id]))
  }

  /** The children by id, as the check files them. */
  method FileChildren(t: Template) returns (byId: map<string, nat>)
    ensures Files(t, byId)
  {
    byId := map[];
    for k := 0 to |t.nodes|
      invariant forall id :: (id in byId) == LastWithId(t.nodes, k, id).Some?
      invariant forall id :: id in byId ==> LastWithId(t.nodes, k, id) == Some(byId[id])
    {
      if t.nodes[k].Child? {
        byId := byId[t.nodes[k].id := k];
      }
    }
  }

  /** `validate_paired_template`. */
  method Validate(t: Template) returns (ok: bool)
    ensures ok == Accepted(t)
  {
    var byId := FileChildren(t);
    var ids := byId.Keys;
    while ids != {}
      invariant ids <= byId.Keys
      invariant forall id :: id in byId && id !in ids ==> ChildOk(t.nodes[byId[id]])
    {
      var id := Choose(ids);
      if !ChildOk(t.nodes[byId[id]]) {
        assert Checked(t, id).Some?;
        return false;
      }
      ids := ids - {id};
    }
    ok := CheckLinks(t, byId);
  }

  method CheckLinks(t: Template, byId: map<string, nat>) returns (ok: bool)
    requires Files(t, byId)
    ensures ok == forall m :: 0 <= m < |t.links| ==> LinkKnown(t, t.links[m])
  {
    ok := true;
    var n := 0;
    while n < |t.links| && ok
      invariant n <= |t.links|
      invariant ok ==> forall m :: 0 <= m < n ==> LinkKnown(t, t.links[m])
      invariant !ok ==> n > 0 && !LinkKnown(t, t.links[n - 1])
    {
      ok := CheckLink(t, byId, t.links[n]);
      n := n + 1;
    }
  }

  method CheckLink(t: Template, byId: map<string, nat>, l: PairedLink) returns (ok: bool)
    requires Files(t, byId)
    ensures ok == LinkKnown(t, l)
  {
    ok := CheckEnd(t, byId, l.fromNode, l.fromIface);
    if ok {
      ok := CheckEnd(t, byId, l.toNode, l.toIface);
    }
  }

  method CheckEnd(t: Template, byId: map<string, nat>, id: string, iface: string) returns (ok: bool)
    requires Files(t, byId)
    ensures ok == EndKnown(t, id, iface)
  {
    if id !in byId {
      return false;
    }
    var available := PredictNames(t.nodes[byId[id]]);
    return iface in available;
  }

  /** The nodes that are made, by the id they are filed under; nothing when a
      payload cannot be built. */
  method MakeNodes(t: Template) returns (made: Option<map<string, nat>>)
    ensures made.Some? <==> AllReadable(t)
    ensures made.Some? ==> Filed(t, made.value)
  {
    var byId: map<string, nat> := map[];
    for k := 0 to |t.nodes|
      invariant forall m :: 0 <= m < k ==> Readable(t.nodes[m])
      invariant forall id :: (id in byId) == Made(t, k, id).Some?
      invariant forall id :: id in byId ==> Made(t, k, id) == Some(byId[id])
    {
      if !Readable(t.nodes[k]) {
        return None;
      }
      byId := byId[RuntimeId(t, k) := k];
    }
    return Some(byId);
  }

  ghost predicate Filed(t: Template, made: map<string, nat>) {
    && (forall x :: (x in made) == Made(t, |t.nodes|, x).Some?)
    && (forall x :: x in made ==> Made(t, |t.nodes|, x) == Some(made[x]))
  }

  /** The lookups of `create_nodes_from_paired_template`: nodes first, then links. */
  method Instantiate(t: Template) returns (ok: bool)
    ensures ok == Resolves(t)
  {
    var made := MakeNodes(t);
    if made.None? {
      return false;
    }
    ok := true;
    var n := 0;
    while n < |t.links| && ok
      invariant n <= |t.links|
      invariant ok ==> forall m :: 0 <= m < n ==> LinkResolves(t, t.links[m])
      invariant !ok ==> n > 0 && !LinkResolves(t, t.links[n - 1])
    {
      ok := FindEnds(t, made.value, t.links[n]);
      n := n + 1;
    }
  }

  method FindEnds(t: Template, made: map<string, nat>, l: PairedLink) returns (ok: bool)
    requires Filed(t, made)
    ensures ok == LinkResolves(t, l)
  {
    ok := FindEnd(t, made, l.fromNode, l.fromIface);
    if ok {
      ok := FindEnd(t, made, l.toNode, l.toIface);
    }
  }

  method FindEnd(t: Template, made: map<string, nat>, id: string, iface: string) returns (ok: bool)
    requires Filed(t, made)
    ensures ok == EndResolves(t, id, iface)
  {
    if id !in made {
      return false;
    }
    var names := BuildNames(t.nodes[made[id]]);
    var at := ResolveIndex(names, iface);
    return at.Some?;
  }
}
