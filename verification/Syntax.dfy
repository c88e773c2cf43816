/** The language of the parser, told without a parser: derivation trees over a text, one for every accepted text. */
module Syntax {
  import opened Stream
  import opened Sequences
  import opened Events
  import opened Grammar
  import opened Automaton
  import opened Equivalence

  /** A value in a text, from its first byte to behind its last one. */
  datatype Node =
    | Leaf(from: nat, to: nat)
    | Array(from: nat, to: nat, elements: seq<Node>)
    | Object(from: nat, to: nat, entries: seq<Entry>)

  /** A member: where its name ends, and its value. */
  datatype Entry = Entry(from: nat, nameTo: nat, value: Node)

  predicate Derives(e: Env, n: Node)
    decreases n, 1
  {
    match n
    case Leaf(from, to) =>
      Peek(e.text, from) != LCURLY && Peek(e.text, from) != LBRACKET
      && ScanScalar(e, from).Scalar? && ScanScalar(e, from).next == to
    case Array(from, to, elements) =>
      var p := SkipSpace(e.text, from + 1);
      Peek(e.text, from) == LBRACKET
      && if elements == [] then Peek(e.text, p) == RBRACKET && to == p + 1
         else Peek(e.text, p) != RBRACKET && elements[0].from == p && ElementsDerive(e, elements, to)
    case Object(from, to, entries) =>
      var p := SkipSpace(e.text, from + 1);
      Peek(e.text, from) == LCURLY
      && if entries == [] then Peek(e.text, p) == RCURLY && to == p + 1
         else entries[0].from == p && EntriesDerive(e, entries, to)
  }

  /** Elements with commas between them and a bracket behind them, which ends at `to`. */
  predicate ElementsDerive(e: Env, elements: seq<Node>, to: nat)
    requires elements != []
    decreases elements, 0
  {
    var q := SkipSpace(e.text, elements[0].to);
    Derives(e, elements[0])
    && if |elements| == 1 then Peek(e.text, q) == RBRACKET && to == q + 1
       else Peek(e.text, q) == COMMA && elements[1].from == SkipSpace(e.text, q + 1) && ElementsDerive(e, elements[1..], to)
  }

  /** A name, a colon and a value. */
  predicate EntryDerives(e: Env, x: Entry)
    decreases x, 0
  {
    var s := ScanString(e.text, e.validateEncoding, x.from + 1, []);
    var q := SkipSpace(e.text, x.nameTo);
    && Peek(e.text, x.from) == QUOTE && s.Str? && s.next == x.nameTo
    && Peek(e.text, q) == COLON && x.value.from == SkipSpace(e.text, q + 1) && Derives(e, x.value)
  }

  predicate EntriesDerive(e: Env, entries: seq<Entry>, to: nat)
    requires entries != []
    decreases entries, 0
  {
    var q := SkipSpace(e.text, entries[0].value.to);
    EntryDerives(e, entries[0])
    && if |entries| == 1 then Peek(e.text, q) == RCURLY && to == q + 1
       else Peek(e.text, q) == COMMA && entries[1].from == SkipSpace(e.text, q + 1) && EntriesDerive(e, entries[1..], to)
  }

  // ---------- The events of a tree ----------

  function Name(e: Env, x: Entry): seq<byte> {
    match ScanString(e.text, e.validateEncoding, x.from + 1, [])
    case Str(_, s) => s
    case StrError(_) => []
  }

  function ScalarEvent(e: Env, from: nat): seq<Event> {
    match ScanScalar(e, from)
    case Scalar(_, x) => [x]
    case ScalarError(_) => []
  }

  /** Counts are 32-bit. */
  function EventsOf(e: Env, n: Node): seq<Event>
    decreases n, 1
  {
    match n
    case Leaf(from, _) => ScalarEvent(e, from)
    case Array(_, _, elements) => [StartArray] + ElementEvents(e, elements) + [EndArray(|elements| % SIZE_LIMIT)]
    case Object(_, _, entries) => [StartObject] + EntryEvents(e, entries) + [EndObject(|entries| % SIZE_LIMIT)]
  }

  function ElementEvents(e: Env, elements: seq<Node>): seq<Event>
    decreases elements, 0
  {
    if elements == [] then [] else EventsOf(e, elements[0]) + ElementEvents(e, elements[1..])
  }

  function EntryEvents(e: Env, entries: seq<Entry>): seq<Event>
    decreases entries, 0
  {
    if entries == [] then [] else EventsOfEntry(e, entries[0]) + EntryEvents(e, entries[1..])
  }

  function EventsOfEntry(e: Env, x: Entry): seq<Event>
    decreases x, 0
  {
    [Key(Name(e, x))] + EventsOf(e, x.value)
  }

  lemma CountUp(n: nat, k: nat)
    requires n < SIZE_LIMIT
    ensures (Inc(n) + k) % SIZE_LIMIT == (n + 1 + k) % SIZE_LIMIT && Inc(n) < SIZE_LIMIT
  {
  }

  // ---------- Every tree is parsed ----------

  lemma {:induction false} ValueComplete(e: Env, events: seq<Event>, n: Node)
    requires Plain(e) && Derives(e, n)
    ensures ParseValue(e, n.from, events) == Outcome(n.to, events + EventsOf(e, n), NoError)
    decreases n, 1
  {
    match n {
      case Leaf(from, to) =>
        hide ScanScalar;
      case Array(from, to, elements) =>
        ArrayComplete(e, events, from, to, elements);
      case Object(from, to, entries) =>
        ObjectComplete(e, events, from, to, entries);
    }
    hide ParseValue, EventsOf, Derives;
  }

  lemma {:induction false} ArrayComplete(e: Env, events: seq<Event>, from: nat, to: nat, elements: seq<Node>)
    requires Plain(e) && Derives(e, Array(from, to, elements))
    ensures ParseValue(e, from, events) == Outcome(to, events + EventsOf(e, Array(from, to, elements)), NoError)
    decreases elements, 5
  {
    hide ParseElements, ParseMembers, SkipSpace, ElementsDerive, ElementEvents, Peek;
    var inside := ElementEvents(e, elements);
    if elements == [] {
      NoEvents(e);
    } else {
      ElementsComplete(e, events + [StartArray], elements, to, 0);
    }
    Bracketed(events, [StartArray], inside, [EndArray(|elements| % SIZE_LIMIT)]);
  }

  lemma NoEvents(e: Env)
    ensures ElementEvents(e, []) == [] && EntryEvents(e, []) == []
  {
  }

  lemma Bracketed(events: seq<Event>, start: seq<Event>, inside: seq<Event>, end: seq<Event>)
    ensures events + start + inside + end == events + (start + inside + end)
    ensures inside == [] ==> events + start + end == events + (start + inside + end)
  {
  }

  lemma {:induction false} ElementsComplete(e: Env, events: seq<Event>, elements: seq<Node>, to: nat, n: nat)
    requires Plain(e) && elements != [] && ElementsDerive(e, elements, to) && n < SIZE_LIMIT
    ensures ParseElements(e, elements[0].from, events, n)
         == Outcome(to, events + ElementEvents(e, elements) + [EndArray((n + |elements|) % SIZE_LIMIT)], NoError)
    decreases elements, 3
  {
    hide ParseElements, ParseValue, SkipSpace, Derives, EventsOf, Peek;
    var x, rest := elements[0], elements[1..];
    var more := events + EventsOf(e, x);
    ElementUnfold(e, x.from, events, n);
    ValueComplete(e, events, x);
    CountUp(n, |rest|);
    Associate(events, EventsOf(e, x), ElementEvents(e, rest));
    if rest != [] {
      ElementsComplete(e, more, rest, to, Inc(n));
    } else {
      NoEvents(e);
      Nothing(EventsOf(e, x));
    }
  }

  lemma {:induction false} ObjectComplete(e: Env, events: seq<Event>, from: nat, to: nat, entries: seq<Entry>)
    requires Plain(e) && Derives(e, Object(from, to, entries))
    ensures ParseValue(e, from, events) == Outcome(to, events + EventsOf(e, Object(from, to, entries)), NoError)
    decreases entries, 5
  {
    hide ParseElements, ParseMembers, SkipSpace, EntriesDerive, EntryEvents, Peek;
    var inside := EntryEvents(e, entries);
    if entries == [] {
      NoEvents(e);
    } else {
      FirstByte(e, entries, to);
      EntriesComplete(e, events + [StartObject], entries, to, 0);
    }
    Bracketed(events, [StartObject], inside, [EndObject(|entries| % SIZE_LIMIT)]);
  }

  lemma FirstByte(e: Env, entries: seq<Entry>, to: nat)
    requires entries != [] && EntriesDerive(e, entries, to)
    ensures Peek(e.text, entries[0].from) == QUOTE
  {
    hide ScanString, SkipSpace, Derives;
  }

  lemma {:induction false} EntryComplete(e: Env, events: seq<Event>, x: Entry)
    requires Plain(e) && EntryDerives(e, x)
    ensures var k := ParseName(e, x.from, events);
            k.Ok() && ParseValue(e, k.pos, k.events) == Outcome(x.value.to, events + EventsOfEntry(e, x), NoError)
    decreases x, 2
  {
    hide ParseValue, SkipSpace, EventsOf;
    NameComplete(e, events, x);
    ValueComplete(e, events + [Key(Name(e, x))], x.value);
    Associate(events, [Key(Name(e, x))], EventsOf(e, x.value));
    hide ParseName, EntryDerives, Name;
  }

  lemma NameComplete(e: Env, events: seq<Event>, x: Entry)
    requires Plain(e) && EntryDerives(e, x)
    ensures ParseName(e, x.from, events) == Outcome(x.value.from, events + [Key(Name(e, x))], NoError)
    ensures Derives(e, x.value)
  {
    hide ScanString, SkipSpace, Derives, Peek;
  }

  lemma {:induction false} EntriesComplete(e: Env, events: seq<Event>, entries: seq<Entry>, to: nat, n: nat)
    requires Plain(e) && entries != [] && EntriesDerive(e, entries, to) && n < SIZE_LIMIT
    ensures ParseMembers(e, entries[0].from, events, n)
         == Outcome(to, events + EntryEvents(e, entries) + [EndObject((n + |entries|) % SIZE_LIMIT)], NoError)
    decreases entries, 3
  {
    hide ParseMembers, ParseName, ParseValue, SkipSpace, Derives, EntryDerives, EventsOfEntry, Peek;
    var x, rest := entries[0], entries[1..];
    MemberUnfold(e, x.from, events, n);
    EntryComplete(e, events, x);
    CountUp(n, |rest|);
    Associate(events, EventsOfEntry(e, x), EntryEvents(e, rest));
    if rest != [] {
      EntriesComplete(e, events + EventsOfEntry(e, x), rest, to, Inc(n));
    } else {
      NoEvents(e);
      Nothing(EventsOfEntry(e, x));
    }
  }

  // ---------- Everything parsed has a tree ----------

  lemma {:induction false} ValueSound(e: Env, p: nat, events: seq<Event>) returns (n: Node)
    requires Plain(e) && ParseValue(e, p, events).Ok()
    ensures Derives(e, n) && n.from == p && n.to == ParseValue(e, p, events).pos
    decreases Left(e.text, p), 1
  {
    if Peek(e.text, p) == LBRACKET {
      n := ArraySound(e, p, events);
    } else if Peek(e.text, p) == LCURLY {
      n := ObjectSound(e, p, events);
    } else {
      n := LeafSound(e, p, events);
    }
  }

  lemma LeafSound(e: Env, p: nat, events: seq<Event>) returns (n: Node)
    requires ParseValue(e, p, events).Ok() && Peek(e.text, p) != LCURLY && Peek(e.text, p) != LBRACKET
    ensures Derives(e, n) && n.from == p && n.to == ParseValue(e, p, events).pos
  {
    hide ScanScalar;
    n := Leaf(p, ParseValue(e, p, events).pos);
  }

  lemma {:induction false} ArraySound(e: Env, p: nat, events: seq<Event>) returns (n: Node)
    requires Plain(e) && ParseValue(e, p, events).Ok() && Peek(e.text, p) == LBRACKET
    ensures Derives(e, n) && n.from == p && n.to == ParseValue(e, p, events).pos
    decreases Left(e.text, p), 0
  {
    hide ParseElements, ParseMembers, SkipSpace, ElementsDerive;
    var q := SkipSpace(e.text, p + 1);
    if Peek(e.text, q) == RBRACKET {
      n := Array(p, q + 1, []);
    } else {
      var elements := ElementsSound(e, q, events + [StartArray], 0);
      n := Array(p, ParseValue(e, p, events).pos, elements);
    }
  }

  lemma {:induction false} ElementsSound(e: Env, p: nat, events: seq<Event>, n: nat) returns (elements: seq<Node>)
    requires Plain(e) && ParseElements(e, p, events, n).Ok()
    ensures elements != [] && elements[0].from == p && ElementsDerive(e, elements, ParseElements(e, p, events, n).pos)
    decreases Left(e.text, p), 2
  {
    hide ParseElements, ParseValue, SkipSpace, Derives;
    ElementUnfold(e, p, events, n);
    var o := ParseValue(e, p, events);
    var x := ValueSound(e, p, events);
    var q := SkipSpace(e.text, o.pos);
    if Peek(e.text, q) == COMMA {
      var rest := ElementsSound(e, SkipSpace(e.text, q + 1), o.events, Inc(n));
      elements := [x] + rest;
      assert elements[1..] == rest;
    } else {
      elements := [x];
    }
  }

  lemma {:induction false} ObjectSound(e: Env, p: nat, events: seq<Event>) returns (n: Node)
    requires Plain(e) && ParseValue(e, p, events).Ok() && Peek(e.text, p) == LCURLY
    ensures Derives(e, n) && n.from == p && n.to == ParseValue(e, p, events).pos
    decreases Left(e.text, p), 0
  {
    hide ParseElements, ParseMembers, SkipSpace, EntriesDerive;
    var q := SkipSpace(e.text, p + 1);
    if Peek(e.text, q) == RCURLY {
      n := Object(p, q + 1, []);
    } else {
      var entries := EntriesSound(e, q, events + [StartObject], 0);
      n := Object(p, ParseValue(e, p, events).pos, entries);
    }
  }

  lemma {:induction false} EntriesSound(e: Env, p: nat, events: seq<Event>, n: nat) returns (entries: seq<Entry>)
    requires Plain(e) && ParseMembers(e, p, events, n).Ok()
    ensures entries != [] && entries[0].from == p && EntriesDerive(e, entries, ParseMembers(e, p, events, n).pos)
    decreases Left(e.text, p), 2
  {
    hide ParseMembers, ParseName, ParseValue, SkipSpace, EntryDerives;
    MemberUnfold(e, p, events, n);
    var k := ParseName(e, p, events);
    var o := ParseValue(e, k.pos, k.events);
    var x := EntrySound(e, p, events);
    var q := SkipSpace(e.text, o.pos);
    if Peek(e.text, q) == COMMA {
      var rest := EntriesSound(e, SkipSpace(e.text, q + 1), o.events, Inc(n));
      entries := [x] + rest;
      assert entries[1..] == rest;
    } else {
      entries := [x];
    }
  }

  lemma {:induction false} EntrySound(e: Env, p: nat, events: seq<Event>) returns (x: Entry)
    requires Plain(e) && ParseName(e, p, events).Ok()
    requires var k := ParseName(e, p, events); ParseValue(e, k.pos, k.events).Ok()
    ensures var k := ParseName(e, p, events);
            && EntryDerives(e, x) && x.from == p && x.value.to == ParseValue(e, k.pos, k.events).pos
            && Left(e.text, ParseValue(e, k.pos, k.events).pos) < Left(e.text, p)
    decreases Left(e.text, p), 1
  {
    hide ParseName, EntryDerives, Derives;
    NameConsumes(e, p, events);
    var k := ParseName(e, p, events);
    var v := ValueSound(e, k.pos, k.events);
    hide ParseValue;
    x := NameSound(e, p, events, v);
  }

  lemma NameConsumes(e: Env, p: nat, events: seq<Event>)
    requires ParseName(e, p, events).Ok()
    ensures Left(e.text, ParseName(e, p, events).pos) < Left(e.text, p)
  {
    hide ScanString, SkipSpace;
  }

  lemma NameSound(e: Env, p: nat, events: seq<Event>, v: Node) returns (x: Entry)
    requires ParseName(e, p, events).Ok() && Derives(e, v) && v.from == ParseName(e, p, events).pos
    ensures x.from == p && x.value == v && EntryDerives(e, x)
  {
    hide ScanString, SkipSpace, Derives;
    var k := ParseKey(e, p, events);
    x := Entry(p, k.pos, v);
  }

  // ---------- No text has two trees ----------

  lemma {:induction false} Unambiguous(e: Env, m: Node, n: Node)
    requires Derives(e, m) && Derives(e, n) && m.from == n.from
    ensures m == n
    decreases m, 1
  {
    hide ScanScalar, SkipSpace, ElementsDerive, EntriesDerive, Peek;
    match m {
      case Leaf(_, _) =>
      case Array(_, to, elements) =>
        if elements != [] { ElementsUnambiguous(e, elements, to, n.elements, n.to); }
      case Object(_, to, entries) =>
        if entries != [] { ObjectUnambiguous(e, entries, to, n); } else { EmptyUnambiguous(e, n); }
    }
  }

  lemma {:induction false} ElementsUnambiguous(e: Env, xs: seq<Node>, to: nat, ys: seq<Node>, to': nat)
    requires xs != [] && ys != [] && ElementsDerive(e, xs, to) && ElementsDerive(e, ys, to') && xs[0].from == ys[0].from
    ensures xs == ys && to == to'
    decreases xs, 0
  {
    hide SkipSpace, Derives, Peek;
    Unambiguous(e, xs[0], ys[0]);
    if |xs| > 1 {
      ElementsUnambiguous(e, xs[1..], to, ys[1..], to');
    }
    assert xs == [xs[0]] + xs[1..] && ys == [ys[0]] + ys[1..];
  }

  lemma EmptyUnambiguous(e: Env, n: Node)
    requires Derives(e, n) && n.Object? && Peek(e.text, SkipSpace(e.text, n.from + 1)) == RCURLY
    ensures n.entries == []
  {
    hide SkipSpace, EntriesDerive, Peek;
    if n.entries != [] {
      FirstByte(e, n.entries, n.to);
    }
  }

  /** Where a name starts no closing bracket stands, so the other tree has entries too. */
  lemma {:induction false} ObjectUnambiguous(e: Env, entries: seq<Entry>, to: nat, n: Node)
    requires entries != [] && EntriesDerive(e, entries, to) && n.Object? && Derives(e, n)
    requires entries[0].from == SkipSpace(e.text, n.from + 1)
    ensures n.entries == entries && n.to == to
    decreases entries, 1
  {
    hide SkipSpace, EntriesDerive, Peek;
    FirstByte(e, entries, to);
    EntriesUnambiguous(e, entries, to, n.entries, n.to);
  }

  lemma {:induction false} EntriesUnambiguous(e: Env, xs: seq<Entry>, to: nat, ys: seq<Entry>, to': nat)
    requires xs != [] && ys != [] && EntriesDerive(e, xs, to) && EntriesDerive(e, ys, to') && xs[0].from == ys[0].from
    ensures xs == ys && to == to'
    decreases xs, 0
  {
    hide SkipSpace, EntryDerives, Peek;
    EntryUnambiguous(e, xs[0], ys[0]);
    if |xs| > 1 {
      EntriesUnambiguous(e, xs[1..], to, ys[1..], to');
    }
    assert xs == [xs[0]] + xs[1..] && ys == [ys[0]] + ys[1..];
  }

  lemma {:induction false} EntryUnambiguous(e: Env, x: Entry, y: Entry)
    requires EntryDerives(e, x) && EntryDerives(e, y) && x.from == y.from
    ensures x == y
    decreases x, 2
  {
    hide SkipSpace, Derives, Peek, ScanString;
    Unambiguous(e, x.value, y.value);
  }

  // ---------- The language ----------

  /** The text is one value between whitespace. */
  predicate IsText(e: Env, n: Node) {
    Derives(e, n) && n.from == SkipSpace(e.text, 0) && (e.stopWhenDone || Peek(e.text, SkipSpace(e.text, n.to)) == 0)
  }

  /** Either parser accepts exactly the texts that have a derivation tree, and then delivers the events of the one tree there is. */
  lemma ParserAcceptsLanguage(e: Env)
    requires Plain(e)
    ensures Parse(e).Ok() <==> exists n: Node :: IsText(e, n)
    ensures forall n: Node :: IsText(e, n) ==> Parse(e).events == EventsOf(e, n)
    ensures IterativeParse(e).Ok() == Parse(e).Ok() && IterativeParse(e).events == Parse(e).events
    ensures forall m: Node, n: Node :: IsText(e, m) && IsText(e, n) ==> m == n
  {
    hide ParseValue, SkipSpace, Derives, EventsOf, IterativeParse;
    ParsersAgree(e);
    if Parse(e).Ok() {
      var n := ValueSound(e, SkipSpace(e.text, 0), []);
      assert IsText(e, n);
    }
    forall n: Node | IsText(e, n) ensures Parse(e).Ok() && Parse(e).events == EventsOf(e, n) {
      ValueComplete(e, [], n);
      NotEmpty(e, n);
      assert [] + EventsOf(e, n) == EventsOf(e, n);
    }
    forall m: Node, n: Node | IsText(e, m) && IsText(e, n) ensures m == n {
      Unambiguous(e, m, n);
    }
  }

  lemma NotEmpty(e: Env, n: Node)
    requires Derives(e, n)
    ensures Peek(e.text, n.from) != 0
  {
    hide ElementsDerive, EntriesDerive, SkipSpace;
  }
}
