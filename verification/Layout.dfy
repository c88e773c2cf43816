/**
 * The indented form told from the compact one, byte by byte: an indenter that knows no trees, only how many brackets are
 * open and whether it stands in a string.
 */
module Layout {
  import opened Stream
  import opened Sequences
  import opened Events
  import opened Grammar
  import opened Dom
  import opened Printing

  datatype Place = Between | InString | Escaped

  /** Where the indenter stands: the containers open, whether in a string, and whether the last byte opened a container. */
  datatype Indenter = Indenter(open: nat, place: Place, first: bool)

  /** A line feed, and the indentation of `open` containers. */
  function Line(c: byte, n: nat, open: nat): seq<byte> { [0x0A] + seq(open * n, i => c) }

  /** The state behind one byte of the compact text. */
  function Behind(s: Indenter, b: byte): Indenter {
    match s.place
    case Escaped => s.(place := InString)
    case InString => s.(place := if b == 0x5C then Escaped else if b == 0x22 then Between else InString)
    case Between =>
      if b == 0x5B || b == 0x7B then Indenter(s.open + 1, Between, true)
      else if b == 0x5D || b == 0x7D then Indenter(if s.open > 0 then s.open - 1 else 0, Between, false)
      else if b == 0x22 then Indenter(s.open, InString, false)
      else s.(first := false)
  }

  /**
   * What one byte becomes: a line of its own for the first thing in a container, and for a closing bracket with
   * anything in front of it; a line behind a comma; a blank behind a colon.
   */
  function Becomes(c: byte, n: nat, s: Indenter, b: byte): seq<byte> {
    if s.place != Between then [b]
    else if b == 0x5D || b == 0x7D then (if s.first then [b] else Line(c, n, Behind(s, b).open) + [b])
    else if b == 0x2C then [b] + Line(c, n, s.open)
    else if b == 0x3A then [b, 0x20]
    else if s.first then Line(c, n, s.open) + [b]
    else [b]
  }

  function Final(s: Indenter, text: seq<byte>): Indenter
    decreases |text|
  {
    if text == [] then s else Final(Behind(s, text[0]), text[1..])
  }

  function Indent(c: byte, n: nat, s: Indenter, text: seq<byte>): seq<byte>
    decreases |text|
  {
    if text == [] then [] else Becomes(c, n, s, text[0]) + Indent(c, n, Behind(s, text[0]), text[1..])
  }

  lemma {:induction false} IndentBoth(c: byte, n: nat, s: Indenter, a: seq<byte>, b: seq<byte>)
    ensures Final(s, a + b) == Final(Final(s, a), b)
    ensures Indent(c, n, s, a + b) == Indent(c, n, s, a) + Indent(c, n, Final(s, a), b)
    decreases |a|
  {
    hide Becomes, Behind;
    if a == [] {
      assert a + b == b;
    } else {
      assert (a + b)[1..] == a[1..] + b;
      IndentBoth(c, n, Behind(s, a[0]), a[1..], b);
    }
  }

  lemma IndentOne(c: byte, n: nat, s: Indenter, b: byte)
    ensures Final(s, [b]) == Behind(s, b) && Indent(c, n, s, [b]) == Becomes(c, n, s, b)
  {
    hide Becomes, Behind;
    assert [b][1..] == [];
    assert Indent(c, n, Behind(s, b), []) == [];
  }

  // ---------- Strings and plain text ----------

  predicate IsPlain(b: byte) { b != 0x22 && b != 0x2C && b != 0x3A && b != 0x5B && b != 0x5D && b != 0x7B && b != 0x7D }

  predicate AllPlain(s: seq<byte>) { s != [] && forall i :: 0 <= i < |s| ==> IsPlain(s[i]) }

  /** The layout in front of the first thing in a container, and nothing in front of anything else. */
  function Due(c: byte, n: nat, s: Indenter): seq<byte> { if s.first then Line(c, n, s.open) else [] }

  /** A value or a name from `s` on is laid out as `text`, whatever is due in front of it. */
  predicate LaidOut(c: byte, n: nat, s: Indenter, compact: seq<byte>, text: seq<byte>) {
    Indent(c, n, s, compact) == Due(c, n, s) + text && Final(s, compact) == s.(first := false)
  }

  lemma {:induction false} PlainStays(c: byte, n: nat, s: Indenter, text: seq<byte>)
    requires s.place == Between && !s.first && forall i :: 0 <= i < |text| ==> IsPlain(text[i])
    ensures Indent(c, n, s, text) == text && Final(s, text) == s
    decreases |text|
  {
    if text != [] {
      assert IsPlain(text[0]);
      PlainStays(c, n, s, text[1..]);
    }
  }

  lemma PlainLaidOut(c: byte, n: nat, s: Indenter, text: seq<byte>)
    requires s.place == Between && AllPlain(text)
    ensures LaidOut(c, n, s, text, text)
  {
    hide Line;
    assert IsPlain(text[0]);
    PlainStays(c, n, s.(first := false), text[1..]);
    assert [text[0]] + text[1..] == text;
    Associate(Due(c, n, s), [text[0]], text[1..]);
  }

  /** The bytes of a string between its quotes. */
  lemma {:induction false} EscapedStays(c: byte, n: nat, s: Indenter, bytes: seq<byte>)
    requires s.place == InString
    ensures Indent(c, n, s, EscapeAll(bytes)) == EscapeAll(bytes) && Final(s, EscapeAll(bytes)) == s
    decreases |bytes|
  {
    if bytes != [] {
      var k := |bytes| - 1;
      EscapedStays(c, n, s, bytes[..k]);
      EscapeStays(c, n, s, bytes[k]);
      IndentBoth(c, n, s, EscapeAll(bytes[..k]), EscapeByte(bytes[k]));
    }
  }

  lemma EscapeStays(c: byte, n: nat, s: Indenter, b: byte)
    requires s.place == InString
    ensures Indent(c, n, s, EscapeByte(b)) == EscapeByte(b) && Final(s, EscapeByte(b)) == s
  {
    hide Line;
    var w := EscapeByte(b);
    if |w| == 1 {
      IndentOne(c, n, s, w[0]);
    } else {
      SecondStays(c, n, s, w);
    }
  }

  lemma SecondStays(c: byte, n: nat, s: Indenter, w: seq<byte>)
    requires s.place == InString && |w| >= 2 && w[0] == 0x5C && forall i :: 2 <= i < |w| ==> w[i] != 0x5C && w[i] != 0x22
    ensures Indent(c, n, s, w) == w && Final(s, w) == s
  {
    hide Line;
    var e := s.(place := Escaped);
    assert w[1..][1..] == w[2..];
    InStringStays(c, n, s, w[2..]);
    assert Indent(c, n, e, w[1..]) == [w[1]] + w[2..] == w[1..];
    assert [w[0]] + w[1..] == w;
  }

  lemma {:induction false} InStringStays(c: byte, n: nat, s: Indenter, w: seq<byte>)
    requires s.place == InString && forall i :: 0 <= i < |w| ==> w[i] != 0x5C && w[i] != 0x22
    ensures Indent(c, n, s, w) == w && Final(s, w) == s
    decreases |w|
  {
    if w != [] {
      InStringStays(c, n, s, w[1..]);
    }
  }

  lemma QuotedLaidOut(c: byte, n: nat, s: Indenter, bytes: seq<byte>)
    requires s.place == Between
    ensures LaidOut(c, n, s, Quoted(bytes), Quoted(bytes))
  {
    hide EscapeAll, Line;
    var q: byte := 0x22;
    var inside := Indenter(s.open, InString, false);
    EscapedStays(c, n, inside, bytes);
    IndentOne(c, n, s, q);
    IndentOne(c, n, inside, q);
    IndentBoth(c, n, s, [q], EscapeAll(bytes));
    IndentBoth(c, n, s, [q] + EscapeAll(bytes), [q]);
    hide Indent, Final;
    Associate(Due(c, n, s), [q], EscapeAll(bytes));
    Associate(Due(c, n, s), [q] + EscapeAll(bytes), [q]);
  }

  // ---------- Scalars ----------

  /** The text of a double has no bracket, comma, colon or quote in it. */
  ghost predicate PlainDoubles(dtoa: nat -> seq<byte>) { forall bits: nat :: AllPlain(dtoa(bits)) }

  lemma IntegerPlain(i: int)
    ensures AllPlain(IntegerText(i))
  {
    hide Digits;
  }

  lemma ScalarLaidOut(dtoa: nat -> seq<byte>, c: byte, n: nat, s: Indenter, v: Value, k: nat)
    requires s.place == Between && PlainDoubles(dtoa) && !v.ArrayValue? && !v.ObjectValue?
    ensures LaidOut(c, n, s, Print(Compact(dtoa), v, k), Print(Pretty(dtoa, c, n), v, s.open))
  {
    match v {
      case StringValue(bytes) =>
        hide Quoted, LaidOut;
        QuotedLaidOut(c, n, s, bytes);
      case NumberValue(number) =>
        NumberPlain(dtoa, c, n, number);
        hide *;
        PlainLaidOut(c, n, s, Print(Compact(dtoa), v, k));
      case _ =>
        hide LaidOut;
        PlainLaidOut(c, n, s, Print(Compact(dtoa), v, k));
    }
  }

  lemma NumberPlain(dtoa: nat -> seq<byte>, c: byte, n: nat, number: Number)
    requires PlainDoubles(dtoa)
    ensures var x, f, g := NumberEvent(number), Compact(dtoa), Pretty(dtoa, c, n);
            ScalarText(f, x) == ScalarText(g, x) && AllPlain(ScalarText(f, x))
  {
    match NumberEvent(number)
    case Int(i) => IntegerPlain(i);
    case Int64(i) => IntegerPlain(i);
    case Uint(u) => IntegerPlain(u);
    case Uint64(u) => IntegerPlain(u);
    case Double(bits) => assert AllPlain(dtoa(bits));
  }

  // ---------- Trees ----------

  /** From `s` on the compact text becomes `text`, which leads to `d`. */
  predicate Turns(c: byte, n: nat, s: Indenter, compact: seq<byte>, text: seq<byte>, d: Indenter) {
    Indent(c, n, s, compact) == text && Final(s, compact) == d
  }

  lemma TurnsBoth(c: byte, n: nat, s: Indenter, a: seq<byte>, x: seq<byte>, m: Indenter, b: seq<byte>, y: seq<byte>, d: Indenter)
    requires Turns(c, n, s, a, x, m) && Turns(c, n, m, b, y, d)
    ensures Turns(c, n, s, a + b, x + y, d)
  {
    IndentBoth(c, n, s, a, b);
  }

  lemma TurnsOne(c: byte, n: nat, s: Indenter, b: byte)
    ensures Turns(c, n, s, [b], Becomes(c, n, s, b), Behind(s, b))
  {
    IndentOne(c, n, s, b);
  }

  lemma LineIs(dtoa: nat -> seq<byte>, c: byte, n: nat, open: nat)
    ensures NewLine(Pretty(dtoa, c, n), open) == Line(c, n, open)
  {
    assert open * n == n * open;
  }

  /** The elements without the line break in front of the first. */
  function Elements(f: Format, elements: seq<Value>, depth: nat): seq<byte>
    requires elements != []
  {
    Print(f, elements[0], depth) + if |elements| == 1 then [] else [COMMA] + NewLine(f, depth) + Elements(f, elements[1..], depth)
  }

  lemma {:induction false} ElementsAre(f: Format, elements: seq<Value>, depth: nat)
    requires elements != []
    ensures PrintElements(f, elements, depth) == NewLine(f, depth) + Elements(f, elements, depth)
    decreases elements
  {
    hide Print, NewLine;
    if |elements| > 1 {
      ElementsAre(f, elements[1..], depth);
    }
  }

  lemma {:induction false} TreeLaidOut(dtoa: nat -> seq<byte>, c: byte, n: nat, s: Indenter, v: Value, k: nat)
    requires s.place == Between && PlainDoubles(dtoa)
    ensures LaidOut(c, n, s, Print(Compact(dtoa), v, k), Print(Pretty(dtoa, c, n), v, s.open))
    decreases v, 2
  {
    hide Print, LaidOut, PlainDoubles;
    match v {
      case ArrayValue(elements) =>
        ArrayLaidOut(dtoa, c, n, s, elements, k);
      case ObjectValue(members) =>
        ObjectLaidOut(dtoa, c, n, s, members, k);
      case _ =>
        ScalarLaidOut(dtoa, c, n, s, v, k);
    }
  }

  lemma {:induction false} ArrayLaidOut(dtoa: nat -> seq<byte>, c: byte, n: nat, s: Indenter, elements: seq<Value>, k: nat)
    requires s.place == Between && PlainDoubles(dtoa)
    ensures LaidOut(c, n, s, Print(Compact(dtoa), ArrayValue(elements), k), Print(Pretty(dtoa, c, n), ArrayValue(elements), s.open))
    decreases elements, 1
  {
    hide Print, LaidOut, PlainDoubles, Elements, NewLine;
    var f, g := Compact(dtoa), Pretty(dtoa, c, n);
    if elements == [] {
      EmptyLaidOut(c, n, s, 0x5B, 0x5D);
      EmptyPrinted(f, k);
      EmptyPrinted(g, s.open);
    } else {
      ElementsLaidOut(dtoa, c, n, Indenter(s.open + 1, Between, true), elements, k + 1);
      ArrayPrinted(f, elements, k);
      ArrayPrinted(g, elements, s.open);
      ContainerLaidOut(dtoa, c, n, s, 0x5B, Elements(f, elements, k + 1), Elements(g, elements, s.open + 1), 0x5D, k);
    }
  }

  lemma ArrayPrinted(f: Format, elements: seq<Value>, depth: nat)
    requires elements != []
    ensures Print(f, ArrayValue(elements), depth)
         == [0x5B] + (NewLine(f, depth + 1) + Elements(f, elements, depth + 1)) + (NewLine(f, depth) + [0x5D])
  {
    hide NewLine, PrintElements, Elements;
    ElementsAre(f, elements, depth + 1);
  }

  lemma EmptyPrinted(f: Format, depth: nat)
    ensures Print(f, ArrayValue([]), depth) == [0x5B, 0x5D] && Print(f, ObjectValue([]), depth) == [0x7B, 0x7D]
  {
  }

  lemma EmptyLaidOut(c: byte, n: nat, s: Indenter, open: byte, close: byte)
    requires s.place == Between && (open == 0x5B || open == 0x7B) && (close == 0x5D || close == 0x7D)
    ensures LaidOut(c, n, s, [open, close], [open, close])
  {
    hide Line;
    TurnsOne(c, n, s, open);
    TurnsOne(c, n, Behind(s, open), close);
    TurnsBoth(c, n, s, [open], Due(c, n, s) + [open], Behind(s, open), [close], [close], s.(first := false));
    assert [open] + [close] == [open, close];
    Associate(Due(c, n, s), [open], [close]);
  }

  /** A container by its contents. */
  lemma ContainerLaidOut(dtoa: nat -> seq<byte>, c: byte, n: nat, s: Indenter, open: byte, compact: seq<byte>, text: seq<byte>, close: byte, k: nat)
    requires s.place == Between && (open == 0x5B || open == 0x7B) && (close == 0x5D || close == 0x7D)
    requires LaidOut(c, n, Indenter(s.open + 1, Between, true), compact, text)
    ensures var f, g := Compact(dtoa), Pretty(dtoa, c, n);
            LaidOut(c, n, s, [open] + (NewLine(f, k + 1) + compact) + (NewLine(f, k) + [close]),
                    [open] + (NewLine(g, s.open + 1) + text) + (NewLine(g, s.open) + [close]))
  {
    LineIs(dtoa, c, n, s.open);
    LineIs(dtoa, c, n, s.open + 1);
    var inner := Indenter(s.open + 1, Between, true);
    var full := Indenter(s.open + 1, Between, false);
    TurnsOne(c, n, s, open);
    TurnsOne(c, n, full, close);
    hide Line, Indent, Final;
    TurnsBoth(c, n, s, [open], Due(c, n, s) + [open], inner, compact, Line(c, n, s.open + 1) + text, full);
    TurnsBoth(c, n, s, [open] + compact, Due(c, n, s) + [open] + (Line(c, n, s.open + 1) + text), full,
              [close], Line(c, n, s.open) + [close], s.(first := false));
    ContainerBytes(Due(c, n, s), [open], Line(c, n, s.open + 1) + text, Line(c, n, s.open) + [close]);
    assert NewLine(Compact(dtoa), k + 1) + compact == compact && NewLine(Compact(dtoa), k) + [close] == [close];
  }

  lemma ContainerBytes(due: seq<byte>, a: seq<byte>, b: seq<byte>, d: seq<byte>)
    ensures due + a + b + d == due + (a + b + d)
  {
  }

  lemma {:induction false} ElementsLaidOut(dtoa: nat -> seq<byte>, c: byte, n: nat, s: Indenter, elements: seq<Value>, k: nat)
    requires s.place == Between && PlainDoubles(dtoa) && elements != []
    ensures LaidOut(c, n, s, Elements(Compact(dtoa), elements, k), Elements(Pretty(dtoa, c, n), elements, s.open))
    decreases elements, 0
  {
    var f, g := Compact(dtoa), Pretty(dtoa, c, n);
    TreeLaidOut(dtoa, c, n, s, elements[0], k);
    if |elements| > 1 {
      var m := s.(first := false);
      ElementsLaidOut(dtoa, c, n, m, elements[1..], k);
      hide Print, PlainDoubles;
      MoreLaidOut(dtoa, c, n, s, Print(f, elements[0], k), Print(g, elements[0], s.open),
                  Elements(f, elements[1..], k), Elements(g, elements[1..], s.open), k);
    } else {
      Nothing(Print(f, elements[0], k));
      Nothing(Print(g, elements[0], s.open));
    }
  }

  /** A comma and what follows it. */
  lemma MoreLaidOut(dtoa: nat -> seq<byte>, c: byte, n: nat, s: Indenter, a: seq<byte>, x: seq<byte>, b: seq<byte>, y: seq<byte>, k: nat)
    requires s.place == Between && LaidOut(c, n, s, a, x) && LaidOut(c, n, s.(first := false), b, y)
    ensures LaidOut(c, n, s, a + ([COMMA] + NewLine(Compact(dtoa), k) + b), x + ([COMMA] + NewLine(Pretty(dtoa, c, n), s.open) + y))
  {
    var m := s.(first := false);
    LineIs(dtoa, c, n, s.open);
    TurnsOne(c, n, m, 0x2C);
    assert Due(c, n, m) + y == y;
    hide Line, Indent, Final;
    TurnsBoth(c, n, m, [COMMA], [COMMA] + Line(c, n, s.open), m, b, y, m);
    TurnsBoth(c, n, s, a, Due(c, n, s) + x, m, [COMMA] + b, [COMMA] + Line(c, n, s.open) + y, m);
    Associate(Due(c, n, s), x, [COMMA] + Line(c, n, s.open) + y);
    assert [COMMA] + NewLine(Compact(dtoa), k) + b == [COMMA] + b;
  }

  // ---------- Objects ----------

  function Entry(f: Format, m: Member, depth: nat): seq<byte> { Quoted(m.name) + Colon(f) + Print(f, m.value, depth) }

  /** The members without the line break in front of the first. */
  function Members(f: Format, members: seq<Member>, depth: nat): seq<byte>
    requires members != []
  {
    Entry(f, members[0], depth) + if |members| == 1 then [] else [COMMA] + NewLine(f, depth) + Members(f, members[1..], depth)
  }

  lemma {:induction false} MembersAre(f: Format, members: seq<Member>, depth: nat)
    requires members != []
    ensures PrintMembers(f, members, depth) == NewLine(f, depth) + Members(f, members, depth)
    decreases members
  {
    hide Print, NewLine, Quoted, Colon;
    var rest := members[1..];
    if rest != [] {
      MembersAre(f, rest, depth);
      hide PrintMembers, Members;
    }
  }

  lemma ObjectPrinted(f: Format, members: seq<Member>, depth: nat)
    requires members != []
    ensures Print(f, ObjectValue(members), depth)
         == [0x7B] + (NewLine(f, depth + 1) + Members(f, members, depth + 1)) + (NewLine(f, depth) + [0x7D])
  {
    hide NewLine, PrintMembers, Members;
    MembersAre(f, members, depth + 1);
  }

  lemma {:induction false} ObjectLaidOut(dtoa: nat -> seq<byte>, c: byte, n: nat, s: Indenter, members: seq<Member>, k: nat)
    requires s.place == Between && PlainDoubles(dtoa)
    ensures LaidOut(c, n, s, Print(Compact(dtoa), ObjectValue(members), k), Print(Pretty(dtoa, c, n), ObjectValue(members), s.open))
    decreases members, 1
  {
    hide Print, LaidOut, PlainDoubles, Members, NewLine;
    var f, g := Compact(dtoa), Pretty(dtoa, c, n);
    if members == [] {
      EmptyLaidOut(c, n, s, 0x7B, 0x7D);
      EmptyPrinted(f, k);
      EmptyPrinted(g, s.open);
    } else {
      MembersLaidOut(dtoa, c, n, Indenter(s.open + 1, Between, true), members, k + 1);
      ObjectPrinted(f, members, k);
      ObjectPrinted(g, members, s.open);
      ContainerLaidOut(dtoa, c, n, s, 0x7B, Members(f, members, k + 1), Members(g, members, s.open + 1), 0x7D, k);
    }
  }

  lemma {:induction false} MembersLaidOut(dtoa: nat -> seq<byte>, c: byte, n: nat, s: Indenter, members: seq<Member>, k: nat)
    requires s.place == Between && PlainDoubles(dtoa) && members != []
    ensures LaidOut(c, n, s, Members(Compact(dtoa), members, k), Members(Pretty(dtoa, c, n), members, s.open))
    decreases members, 0
  {
    var f, g := Compact(dtoa), Pretty(dtoa, c, n);
    var m := s.(first := false);
    hide Print, LaidOut, PlainDoubles, Entry;
    TreeLaidOut(dtoa, c, n, m, members[0].value, k);
    EntryLaidOut(dtoa, c, n, s, members[0], k);
    if |members| > 1 {
      MembersLaidOut(dtoa, c, n, m, members[1..], k);
      MoreLaidOut(dtoa, c, n, s, Entry(f, members[0], k), Entry(g, members[0], s.open),
                  Members(f, members[1..], k), Members(g, members[1..], s.open), k);
    } else {
      Nothing(Entry(f, members[0], k));
      Nothing(Entry(g, members[0], s.open));
    }
  }

  /** A name, a colon and a value. */
  lemma EntryLaidOut(dtoa: nat -> seq<byte>, c: byte, n: nat, s: Indenter, x: Member, k: nat)
    requires s.place == Between
    requires LaidOut(c, n, s.(first := false), Print(Compact(dtoa), x.value, k), Print(Pretty(dtoa, c, n), x.value, s.open))
    ensures LaidOut(c, n, s, Entry(Compact(dtoa), x, k), Entry(Pretty(dtoa, c, n), x, s.open))
  {
    var f, g := Compact(dtoa), Pretty(dtoa, c, n);
    var m := s.(first := false);
    QuotedLaidOut(c, n, s, x.name);
    TurnsOne(c, n, m, 0x3A);
    assert Due(c, n, m) + Print(g, x.value, s.open) == Print(g, x.value, s.open);
    hide Line, Indent, Final, Print, Quoted;
    TurnsBoth(c, n, s, Quoted(x.name), Due(c, n, s) + Quoted(x.name), m, Colon(f), Colon(g), m);
    TurnsBoth(c, n, s, Quoted(x.name) + Colon(f), Due(c, n, s) + Quoted(x.name) + Colon(g), m,
              Print(f, x.value, k), Print(g, x.value, s.open), m);
    ContainerBytes(Due(c, n, s), Quoted(x.name), Colon(g), Print(g, x.value, s.open));
  }

  // ---------- The layout of a tree ----------

  /**
   * The indented text of any tree is the compact one with line breaks: in front of each thing in a container, as many
   * indentations as containers are open there; in front of the bracket that closes it, one fewer; a blank behind a colon.
   */
  lemma IndentedText(dtoa: nat -> seq<byte>, c: byte, n: nat, v: Value)
    requires PlainDoubles(dtoa)
    ensures Print(Pretty(dtoa, c, n), v, 0) == Indent(c, n, Indenter(0, Between, false), Print(Compact(dtoa), v, 0))
  {
    TreeLaidOut(dtoa, c, n, Indenter(0, Between, false), v, 0);
    hide Print, Indent;
    assert [] + Print(Pretty(dtoa, c, n), v, 0) == Print(Pretty(dtoa, c, n), v, 0);
  }
}
