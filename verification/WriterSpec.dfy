/** The Writer and the PrettyWriter as functions from events to text. */
module WriterSpec {
  import opened Stream
  import opened Sequences
  import opened Events
  import opened Grammar
  import opened Dom
  import opened Printing

  /** An open container: how many values (names included) it has received. */
  datatype Level = Level(inArray: bool, valueCount: nat)

  datatype Writer = Writer(out: seq<byte>, levels: seq<Level>, hasRoot: bool)

  const EMPTY := Writer([], [], false)

  /** What the writers assert: a single root, names in the even places of an object, matching brackets. */
  predicate Accepts(w: Writer, x: Event) {
    match x
    case EndObject(_) => w.levels != [] && !w.levels[|w.levels| - 1].inArray
    case EndArray(_) => w.levels != [] && w.levels[|w.levels| - 1].inArray
    case _ =>
      if w.levels == [] then !w.hasRoot
      else
        var top := w.levels[|w.levels| - 1];
        !top.inArray && top.valueCount % 2 == 0 ==> x.String? || x.Key?
  }

  /** What the assertions let through, place by place. */
  lemma AcceptedPlaces(w: Writer, x: Event)
    ensures w.levels == [] ==> (Accepts(w, x) <==> !w.hasRoot && !x.EndObject? && !x.EndArray?)
    ensures w.levels != [] && w.levels[|w.levels| - 1].inArray ==> (Accepts(w, x) <==> !x.EndObject?)
    ensures w.levels != [] && !w.levels[|w.levels| - 1].inArray ==>
              (Accepts(w, x) <==> !x.EndArray? && (w.levels[|w.levels| - 1].valueCount % 2 == 1 || x.String? || x.Key? || x.EndObject?))
  {
  }

  /** What goes in front of a value: a separator and, in the indented form, a line break. */
  function Lead(f: Format, levels: seq<Level>): seq<byte> {
    if levels == [] then []
    else
      var top := levels[|levels| - 1];
      if !top.inArray && top.valueCount % 2 == 1 then Colon(f)
      else (if top.valueCount > 0 then [COMMA] else []) + NewLine(f, |levels|)
  }

  /** The state behind Prefix. */
  function Prefix(f: Format, w: Writer): Writer {
    if w.levels == [] then w.(hasRoot := true)
    else
      var k := |w.levels| - 1;
      var top := w.levels[k];
      w.(out := w.out + Lead(f, w.levels), levels := w.levels[k := top.(valueCount := top.valueCount + 1)])
  }

  function Put(w: Writer, s: seq<byte>): Writer { w.(out := w.out + s) }

  function Open(f: Format, w: Writer, inArray: bool): Writer {
    var p := Prefix(f, w);
    Put(p, [if inArray then LBRACKET else LCURLY]).(levels := p.levels + [Level(inArray, 0)])
  }

  function Close(f: Format, w: Writer): Writer
    requires w.levels != []
  {
    var k := |w.levels| - 1;
    var top := w.levels[k];
    var tail := if top.valueCount == 0 then [] else NewLine(f, k);
    Put(w.(levels := w.levels[..k]), tail + [if top.inArray then RBRACKET else RCURLY])
  }

  /** The state behind one event. */
  function Handle(f: Format, w: Writer, x: Event): Writer
    requires Accepts(w, x)
  {
    match x
    case StartObject => Open(f, w, false)
    case StartArray => Open(f, w, true)
    case EndObject(_) => Close(f, w)
    case EndArray(_) => Close(f, w)
    case _ => Put(Prefix(f, w), ScalarText(f, x))
  }

  datatype Written = Text(w: Writer) | AssertionFailure

  function Write(f: Format, w: Writer, events: seq<Event>): Written
    decreases |events|
  {
    if events == [] then Text(w)
    else if Accepts(w, events[0]) then Write(f, Handle(f, w, events[0]), events[1..])
    else AssertionFailure
  }

  lemma {:induction false} WriteAppend(f: Format, w: Writer, xs: seq<Event>, ys: seq<Event>)
    ensures Write(f, w, xs + ys) == match Write(f, w, xs)
                                    case AssertionFailure => AssertionFailure
                                    case Text(v) => Write(f, v, ys)
    decreases |xs|
  {
    if xs == [] {
      assert xs + ys == ys;
    } else {
      assert (xs + ys)[1..] == xs[1..] + ys;
      if Accepts(w, xs[0]) {
        WriteAppend(f, Handle(f, w, xs[0]), xs[1..], ys);
      }
    }
  }

  /** A place where a value may come that is not a name. */
  predicate ValueDue(w: Writer) {
    if w.levels == [] then !w.hasRoot
    else var top := w.levels[|w.levels| - 1]; top.inArray || top.valueCount % 2 == 1
  }

  /** The levels with the top count advanced. */
  function Advance(levels: seq<Level>, n: nat): seq<Level> {
    if levels == [] then []
    else var k := |levels| - 1; levels[k := levels[k].(valueCount := levels[k].valueCount + n)]
  }

  /** The writer with a value's text behind it. */
  function Behind(w: Writer, text: seq<byte>, levels: seq<Level>): Writer {
    Writer(w.out + text, levels, w.hasRoot || w.levels == [])
  }

  /** From `w` on the events put `text` and leave `levels`. */
  predicate Puts(f: Format, w: Writer, events: seq<Event>, text: seq<byte>, levels: seq<Level>) {
    Write(f, w, events) == Text(Behind(w, text, levels))
  }

  lemma {:induction false} Chain(f: Format, w: Writer, xs: seq<Event>, s: seq<byte>, mid: seq<Level>, ys: seq<Event>, t: seq<byte>, levels: seq<Level>)
    requires Puts(f, w, xs, s, mid) && mid != []
    requires Puts(f, Behind(w, s, mid), ys, t, levels)
    ensures Puts(f, w, xs + ys, s + t, levels)
  {
    hide Write;
    WriteAppend(f, w, xs, ys);
    Associate(w.out, s, t);
  }

  lemma {:induction false} OnePuts(f: Format, w: Writer, x: Event)
    requires Accepts(w, x) && !x.EndArray? && !x.EndObject?
    ensures match x
            case StartArray => Puts(f, w, [x], Lead(f, w.levels) + [LBRACKET], Advance(w.levels, 1) + [Level(true, 0)])
            case StartObject => Puts(f, w, [x], Lead(f, w.levels) + [LCURLY], Advance(w.levels, 1) + [Level(false, 0)])
            case _ => Puts(f, w, [x], Lead(f, w.levels) + ScalarText(f, x), Advance(w.levels, 1))
  {
    assert Write(f, w, [x]) == Write(f, Handle(f, w, x), []);
    Associate(w.out, Lead(f, w.levels), match x case StartArray => [LBRACKET] case StartObject => [LCURLY] case _ => ScalarText(f, x));
    if w.levels == [] {
      assert w.out + [] == w.out;
    }
    hide ScalarText;
  }

  /** A closing bracket, where the levels are known. */
  lemma {:induction false} ClosePuts(f: Format, w: Writer, outer: seq<Level>, top: Level, x: Event)
    requires w.levels == outer + [top] && (if top.inArray then x.EndArray? else x.EndObject?)
    ensures Puts(f, w, [x], (if top.valueCount == 0 then [] else NewLine(f, |outer|)) + [if top.inArray then RBRACKET else RCURLY], outer)
  {
    assert w.levels[..|outer|] == outer;
    assert Write(f, w, [x]) == Write(f, Handle(f, w, x), []);
  }

  /** Writing the events of a tree puts, behind the separator that is due, exactly its text. */
  lemma {:induction false} AcceptPuts(f: Format, w: Writer, v: Value)
    requires IsCanonical(v) && ValueDue(w)
    ensures Puts(f, w, Accept(v), Lead(f, w.levels) + Print(f, v, |w.levels|), Advance(w.levels, 1))
    decreases v, 2
  {
    match v {
      case ArrayValue(elements) => ArrayPuts(f, w, elements);
      case ObjectValue(members) => ObjectPuts(f, w, members);
      case NullValue => OnePuts(f, w, Null);
      case BoolValue(b) => OnePuts(f, w, Bool(b));
      case StringValue(s) => OnePuts(f, w, String(s));
      case NumberValue(n) => OnePuts(f, w, NumberEvent(n));
      case DoubleValue(bits) => OnePuts(f, w, Double(bits));
    }
    hide Puts, Lead, NumberEvent;
  }

  /** An opening bracket, the contents, and the closing bracket. */
  lemma {:induction false} BracketsPut(f: Format, w: Writer, inArray: bool, body: seq<Event>, text: seq<byte>, count: nat, end: Event)
    requires ValueDue(w) && (if inArray then end.EndArray? else end.EndObject?)
    requires var mid := Advance(w.levels, 1) + [Level(inArray, 0)];
             Puts(f, Behind(w, Lead(f, w.levels) + [if inArray then LBRACKET else LCURLY], mid), body, text, Advance(mid, count))
    ensures Puts(f, w, [if inArray then StartArray else StartObject] + body + [end],
                 Lead(f, w.levels) + [if inArray then LBRACKET else LCURLY] + text
                 + ((if count == 0 then [] else NewLine(f, |w.levels|)) + [if inArray then RBRACKET else RCURLY]),
                 Advance(w.levels, 1))
  {
    hide Lead, Write, Puts, NewLine;
    var start := if inArray then StartArray else StartObject;
    var outer := Advance(w.levels, 1);
    var mid := outer + [Level(inArray, 0)];
    var s := Lead(f, w.levels) + [if inArray then LBRACKET else LCURLY];
    OnePuts(f, w, start);
    Chain(f, w, [start], s, mid, body, text, Advance(mid, count));
    assert Advance(mid, count) == outer + [Level(inArray, count)];
    var b := Behind(w, s + text, Advance(mid, count));
    ClosePuts(f, b, outer, Level(inArray, count), end);
    Chain(f, w, [start] + body, s + text, Advance(mid, count),
          [end], (if count == 0 then [] else NewLine(f, |outer|)) + [if inArray then RBRACKET else RCURLY], outer);
  }

  /** A container with nothing inside. */
  lemma {:induction false} EmptyBracketsPut(f: Format, w: Writer, inArray: bool, end: Event)
    requires ValueDue(w) && (if inArray then end.EndArray? else end.EndObject?)
    ensures Puts(f, w, [if inArray then StartArray else StartObject] + [] + [end],
                 Lead(f, w.levels) + [if inArray then LBRACKET else LCURLY, if inArray then RBRACKET else RCURLY], Advance(w.levels, 1))
  {
    hide Lead, Write, NewLine, Puts;
    var mid := Advance(w.levels, 1) + [Level(inArray, 0)];
    var s := Lead(f, w.levels) + [if inArray then LBRACKET else LCURLY];
    EmptyPuts(f, Behind(w, s, mid));
    assert Advance(mid, 0) == mid;
    BracketsPut(f, w, inArray, [], [], 0, end);
    assert s + [] + ([] + [if inArray then RBRACKET else RCURLY])
        == Lead(f, w.levels) + [if inArray then LBRACKET else LCURLY, if inArray then RBRACKET else RCURLY];
  }

  lemma {:induction false} ArrayPuts(f: Format, w: Writer, elements: seq<Value>)
    requires AreCanonical(elements) && ValueDue(w)
    ensures Puts(f, w, [StartArray] + AcceptElements(elements) + [EndArray(|elements|)],
                 Lead(f, w.levels) + Print(f, ArrayValue(elements), |w.levels|), Advance(w.levels, 1))
    decreases elements, 1
  {
    hide Lead, Write, NewLine, Puts;
    if elements == [] {
      EmptyBracketsPut(f, w, true, EndArray(0));
    } else {
      hide PrintElements;
      var mid := Advance(w.levels, 1) + [Level(true, 0)];
      var text := PrintElements(f, elements, |w.levels| + 1);
      ElementsPut(f, Behind(w, Lead(f, w.levels) + [LBRACKET], mid), elements);
      assert [] + text == text;
      BracketsPut(f, w, true, AcceptElements(elements), text, |elements|, EndArray(|elements|));
      Associate4(Lead(f, w.levels), [LBRACKET], text, NewLine(f, |w.levels|), [RBRACKET]);
    }
  }

  lemma {:induction false} EmptyPuts(f: Format, w: Writer)
    requires w.levels != []
    ensures Puts(f, w, [], [], w.levels)
  {
    assert w.out + [] == w.out;
  }

  lemma Associate4(a: seq<byte>, b: seq<byte>, c: seq<byte>, d: seq<byte>, e: seq<byte>)
    ensures a + b + c + (d + e) == a + (b + c + d + e)
  {
  }

  lemma {:induction false} ObjectPuts(f: Format, w: Writer, members: seq<Member>)
    requires MembersCanonical(members) && ValueDue(w)
    ensures Puts(f, w, [StartObject] + AcceptMembers(members) + [EndObject(|members|)],
                 Lead(f, w.levels) + Print(f, ObjectValue(members), |w.levels|), Advance(w.levels, 1))
    decreases members, 1
  {
    hide Lead, Write, NewLine, Puts;
    if members == [] {
      EmptyBracketsPut(f, w, false, EndObject(0));
    } else {
      hide PrintMembers;
      var mid := Advance(w.levels, 1) + [Level(false, 0)];
      var text := PrintMembers(f, members, |w.levels| + 1);
      MembersPut(f, Behind(w, Lead(f, w.levels) + [LCURLY], mid), members);
      assert [] + text == text;
      BracketsPut(f, w, false, AcceptMembers(members), text, 2 * |members|, EndObject(|members|));
      Associate4(Lead(f, w.levels), [LCURLY], text, NewLine(f, |w.levels|), [RCURLY]);
    }
  }

  /** The comma that separates what comes next from what is there. */
  function Comma(levels: seq<Level>): seq<byte>
    requires levels != []
  {
    if levels[|levels| - 1].valueCount > 0 then [COMMA] else []
  }

  lemma LeadIs(f: Format, levels: seq<Level>)
    requires levels != []
    requires var top := levels[|levels| - 1]; top.inArray || top.valueCount % 2 == 0
    ensures Lead(f, levels) == Comma(levels) + NewLine(f, |levels|)
  {
    hide NewLine;
  }

  lemma AdvanceTwice(levels: seq<Level>, m: nat, n: nat)
    requires levels != []
    ensures Advance(Advance(levels, m), n) == Advance(levels, m + n) && Advance(levels, m) != []
    ensures |Advance(levels, m)| == |levels|
    ensures m > 0 ==> Comma(Advance(levels, m)) == [COMMA]
  {
  }

  /** The elements from any place in an array on. */
  lemma {:induction false} ElementsPut(f: Format, w: Writer, elements: seq<Value>)
    requires elements != [] && AreCanonical(elements) && w.levels != [] && w.levels[|w.levels| - 1].inArray
    ensures Puts(f, w, AcceptElements(elements), Comma(w.levels) + PrintElements(f, elements, |w.levels|), Advance(w.levels, |elements|))
    decreases elements, 0
  {
    hide Puts, NewLine, Lead, Comma, Print, Accept, PrintElements, AcceptElements;
    var d := |w.levels|;
    var first, rest := Print(f, elements[0], d), elements[1..];
    AcceptPuts(f, w, elements[0]);
    LeadIs(f, w.levels);
    ElementsUnfold(f, elements, d);
    var s, mid := Lead(f, w.levels) + first, Advance(w.levels, 1);
    if rest == [] {
      Associate(Comma(w.levels), NewLine(f, d), first);
    } else {
      AdvanceTwice(w.levels, 1, |rest|);
      ElementsPut(f, Behind(w, s, mid), rest);
      Chain(f, w, Accept(elements[0]), s, mid, AcceptElements(rest), [COMMA] + PrintElements(f, rest, d), Advance(mid, |rest|));
      AssociateElement(Comma(w.levels), NewLine(f, d), first, [COMMA] + PrintElements(f, rest, d));
    }
  }

  lemma ElementsUnfold(f: Format, elements: seq<Value>, d: nat)
    requires elements != []
    ensures var first, rest := NewLine(f, d) + Print(f, elements[0], d), elements[1..];
            && (rest == [] ==> PrintElements(f, elements, d) == first && AcceptElements(elements) == Accept(elements[0]))
            && (rest != [] ==> PrintElements(f, elements, d) == first + ([COMMA] + PrintElements(f, rest, d)))
            && (rest != [] ==> AcceptElements(elements) == Accept(elements[0]) + AcceptElements(rest))
  {
    hide NewLine, Print, Accept;
  }

  lemma AssociateElement(a: seq<byte>, b: seq<byte>, c: seq<byte>, d: seq<byte>)
    ensures a + b + c + d == a + (b + c + d)
  {
  }

  lemma {:induction false} MembersPut(f: Format, w: Writer, members: seq<Member>)
    requires members != [] && MembersCanonical(members)
    requires w.levels != [] && !w.levels[|w.levels| - 1].inArray && w.levels[|w.levels| - 1].valueCount % 2 == 0
    ensures Puts(f, w, AcceptMembers(members), Comma(w.levels) + PrintMembers(f, members, |w.levels|), Advance(w.levels, 2 * |members|))
    decreases members, 0
  {
    hide Puts, NewLine, Quoted, Comma, Print, Accept, Colon, PrintMembers, AcceptMembers;
    var m, rest, d := members[0], members[1..], |w.levels|;
    var text := NewLine(f, d) + Quoted(m.name) + Colon(f) + Print(f, m.value, d);
    MemberPuts(f, w, m);
    MembersUnfold(f, members, d);
    var s, mid := Comma(w.levels) + text, Advance(w.levels, 2);
    if rest != [] {
      AdvanceTwice(w.levels, 2, 2 * |rest|);
      MembersPut(f, Behind(w, s, mid), rest);
      Chain(f, w, [Key(m.name)] + Accept(m.value), s, mid, AcceptMembers(rest), [COMMA] + PrintMembers(f, rest, d), Advance(mid, 2 * |rest|));
      Associate(Comma(w.levels), text, [COMMA] + PrintMembers(f, rest, d));
    }
  }

  lemma MembersUnfold(f: Format, members: seq<Member>, d: nat)
    requires members != []
    ensures var m, rest := members[0], members[1..];
            var first := NewLine(f, d) + Quoted(m.name) + Colon(f) + Print(f, m.value, d);
            && (rest == [] ==> PrintMembers(f, members, d) == first && AcceptMembers(members) == [Key(m.name)] + Accept(m.value))
            && (rest != [] ==> PrintMembers(f, members, d) == first + ([COMMA] + PrintMembers(f, rest, d)))
            && (rest != [] ==> AcceptMembers(members) == [Key(m.name)] + Accept(m.value) + AcceptMembers(rest))
  {
    hide NewLine, Print, Accept, Quoted, Colon;
  }

  lemma {:induction false} MemberPuts(f: Format, w: Writer, m: Member)
    requires IsCanonical(m.value)
    requires w.levels != [] && !w.levels[|w.levels| - 1].inArray && w.levels[|w.levels| - 1].valueCount % 2 == 0
    ensures var d := |w.levels|;
            Puts(f, w, [Key(m.name)] + Accept(m.value),
                 Comma(w.levels) + (NewLine(f, d) + Quoted(m.name) + Colon(f) + Print(f, m.value, d)), Advance(w.levels, 2))
    decreases m, 3
  {
    hide Puts, NewLine, Quoted, Lead, Print, Accept, Colon, Comma;
    var d, c := |w.levels|, Comma(w.levels);
    var name, first := Quoted(m.name), Print(f, m.value, d);
    OnePuts(f, w, Key(m.name));
    LeadIs(f, w.levels);
    var s, mid := Lead(f, w.levels) + name, Advance(w.levels, 1);
    AcceptPuts(f, Behind(w, s, mid), m.value);
    LeadBeforeValue(f, mid);
    AdvanceTwice(w.levels, 1, 1);
    Chain(f, w, [Key(m.name)], s, mid, Accept(m.value), Colon(f) + first, Advance(mid, 1));
    AssociateMember(c, NewLine(f, d), name, Colon(f), first);
  }

  lemma LeadBeforeValue(f: Format, levels: seq<Level>)
    requires levels != [] && var top := levels[|levels| - 1]; !top.inArray && top.valueCount % 2 == 1
    ensures Lead(f, levels) == Colon(f)
  {
  }

  lemma AssociateMember(c: seq<byte>, n: seq<byte>, name: seq<byte>, colon: seq<byte>, first: seq<byte>)
    ensures c + n + name + (colon + first) == c + (n + name + colon + first)
  {
  }

  /** A whole tree: the text is complete, and nothing is left open. */
  lemma WriterPrints(f: Format, v: Value)
    requires IsCanonical(v)
    ensures Write(f, EMPTY, Accept(v)) == Text(Writer(Print(f, v, 0), [], true))
  {
    AcceptPuts(f, EMPTY, v);
    assert [] + ([] + Print(f, v, 0)) == Print(f, v, 0);
    hide Write, Print;
  }
}
