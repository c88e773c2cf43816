/** The document loses nothing: walking the tree it has built delivers the events it was built from. */
module Replay {
  import opened Stream
  import opened Events
  import opened Grammar
  import opened Nesting
  import opened Dom
  import opened Document
  import opened DocumentParse
  import opened ReadBack
  import opened Sequences
  import RoundTrip

  // ---------- The events that a stack stands for ----------

  function NameOf(v: Value): seq<byte> { if v.StringValue? then v.str else [] }

  /** The events of names and values that alternate; the last name may still wait for its value. */
  function PairEvents(values: seq<Value>): seq<Event>
    decreases |values|
  {
    if values == [] then []
    else
      var key := [Key(NameOf(values[0]))];
      if |values| == 1 then key else key + Accept(values[1]) + PairEvents(values[2..])
  }

  function Inside(level: Level, values: seq<Value>): seq<Event> {
    if level.ArrayLevel? then AcceptElements(values) else PairEvents(values)
  }

  function Opening(level: Level): Event { if level.ArrayLevel? then StartArray else StartObject }

  /** The events so far, told from the open levels and the stack of the handler alone. */
  function Trace(levels: seq<Level>, stack: seq<Value>): seq<Event>
    decreases |levels|
  {
    if levels == [] then (if stack == [] then [] else Accept(stack[0]))
    else
      var k := |levels| - 1;
      var base := |stack| - Contents(levels[k]);
      if base < 1 then []
      else Trace(levels[..k], stack[..base - 1]) + [Opening(levels[k])] + Inside(levels[k], stack[base..])
  }

  // ---------- One more value ----------

  lemma {:induction false} ElementsPush(values: seq<Value>, v: Value)
    ensures AcceptElements(values + [v]) == AcceptElements(values) + Accept(v)
    decreases |values|
  {
    if values == [] {
      assert ([] + [v])[1..] == [] && Accept(v) + [] == Accept(v);
    } else {
      hide Accept;
      ElementsPush(values[1..], v);
      assert (values + [v])[1..] == values[1..] + [v];
      Associate(Accept(values[0]), AcceptElements(values[1..]), Accept(v));
    }
  }

  lemma {:induction false} PairsPushValue(values: seq<Value>, v: Value)
    requires |values| % 2 == 1
    ensures PairEvents(values + [v]) == PairEvents(values) + Accept(v)
    decreases |values|
  {
    hide Accept;
    var t := values + [v];
    if |values| == 1 {
      assert t[2..] == [] && PairEvents(t[2..]) == [];
    } else {
      PairsPushValue(values[2..], v);
      assert t[2..] == values[2..] + [v];
    }
  }

  lemma {:induction false} PairsPushName(values: seq<Value>, name: seq<byte>)
    requires |values| % 2 == 0
    ensures PairEvents(values + [StringValue(name)]) == PairEvents(values) + [Key(name)]
    decreases |values|
  {
    hide Accept;
    var t := values + [StringValue(name)];
    if values != [] {
      PairsPushName(values[2..], name);
      assert t[2..] == values[2..] + [StringValue(name)];
    }
  }

  /** Closed, a run of names and values has the events of the members it stands for. */
  lemma {:induction false} PairsAreMembers(values: seq<Value>)
    requires |values| % 2 == 0
    ensures PairEvents(values) == AcceptMembers(Members(values)) && |Members(values)| == |values| / 2
    decreases |values|
  {
    hide Accept, PairEvents, AcceptMembers, Members;
    if values == [] {
      NoPairs();
    } else {
      PairsAreMembers(values[2..]);
      PairsCons(values);
      MembersOfPairs(values);
      MembersCons(Members(values));
    }
  }

  lemma NoPairs()
    ensures PairEvents([]) == AcceptMembers([]) == [] && Members([]) == []
  {
  }

  lemma PairsCons(values: seq<Value>)
    requires |values| >= 2
    ensures PairEvents(values) == [Key(NameOf(values[0]))] + Accept(values[1]) + PairEvents(values[2..])
  {
    hide Accept;
  }

  lemma MembersOfPairs(values: seq<Value>)
    requires |values| >= 2 && |values| % 2 == 0
    ensures var m := Members(values);
            m != [] && m[0] == Member(NameOf(values[0]), values[1]) && m[1..] == Members(values[2..]) && |m| == 1 + |Members(values[2..])|
  {
  }

  lemma MembersCons(members: seq<Member>)
    requires members != []
    ensures AcceptMembers(members) == [Key(members[0].name)] + Accept(members[0].value) + AcceptMembers(members[1..])
  {
    hide Accept;
  }

  /** The innermost open container, told last. */
  lemma TraceLast(levels: seq<Level>, below: seq<Level>, level: Level, stack: seq<Value>, under: seq<Value>, contents: seq<Value>)
    requires levels == below + [level] && |contents| == Contents(level)
    requires |stack| == |under| + 1 + |contents| && stack[..|under|] == under && stack[|under| + 1..] == contents
    ensures Trace(levels, stack) == Trace(below, under) + [Opening(level)] + Inside(level, contents)
  {
    hide Accept, Inside, Opening;
    assert levels[..|below|] == below;
  }

  /** What one more value or name adds inside the innermost container, it adds to the whole. */
  lemma TraceGrows(below: seq<Level>, level: Level, level': Level, stack: seq<Value>, v: Value, xs: seq<Event>)
    requires Contents(level) < |stack| && Contents(level') == Contents(level) + 1 && Opening(level') == Opening(level)
    requires var base := |stack| - Contents(level); Inside(level', stack[base..] + [v]) == Inside(level, stack[base..]) + xs
    ensures Trace(below + [level'], stack + [v]) == Trace(below + [level], stack) + xs
  {
    hide Accept, Inside, Opening, Trace, Contents;
    var base := |stack| - Contents(level);
    var under, contents := stack[..base - 1], stack[base..];
    assert (stack + [v])[..base - 1] == under && (stack + [v])[base..] == contents + [v];
    TraceLast(below + [level], below, level, stack, under, contents);
    TraceLast(below + [level'], below, level', stack + [v], under, contents + [v]);
    Associate(Trace(below, under) + [Opening(level)], Inside(level, contents), xs);
  }

  lemma InsideArray(level: Level, values: seq<Value>)
    requires level.ArrayLevel?
    ensures Inside(level, values) == AcceptElements(values)
  {
    hide AcceptElements;
  }

  lemma InsidePairs(level: Level, values: seq<Value>)
    requires level.ObjectLevel?
    ensures Inside(level, values) == PairEvents(values)
  {
    hide PairEvents;
  }

  /** A value adds its events inside its container. */
  lemma InsidePush(level: Level, level': Level, values: seq<Value>, v: Value)
    requires level.ArrayLevel? == level'.ArrayLevel? && (level.ObjectLevel? ==> |values| % 2 == 1)
    ensures Inside(level', values + [v]) == Inside(level, values) + Accept(v)
  {
    hide Inside, Accept, AcceptElements, PairEvents;
    if level.ArrayLevel? {
      ElementsPush(values, v);
      InsideArray(level, values);
      InsideArray(level', values + [v]);
    } else {
      PairsPushValue(values, v);
      InsidePairs(level, values);
      InsidePairs(level', values + [v]);
    }
  }

  lemma RootTrace(v: Value)
    ensures Trace([], [v]) == Accept(v) && Trace([], []) == []
  {
    hide Accept;
  }

  /** A complete value where one is due adds exactly its own events. */
  lemma {:induction false} PushTrace(n: Nest, stack: seq<Value>, v: Value, limit: nat)
    requires TakesValue(n) && Fits(n, stack, limit) && limit + 1 < SIZE_LIMIT
    ensures Trace(Complete(n).levels, stack + [v]) == Trace(n.levels, stack) + Accept(v)
  {
    hide Accept, Trace, Inside;
    if n.levels == [] {
      RootTrace(v);
      assert stack == [] && stack + [v] == [v];
    } else {
      var k := |n.levels| - 1;
      var level, level' := n.levels[k], Complete(n).levels[k];
      var values := stack[|stack| - Contents(level)..];
      assert n.levels == n.levels[..k] + [level] && Complete(n).levels == n.levels[..k] + [level'];
      InsidePush(level, level', values, v);
      TraceGrows(n.levels[..k], level, level', stack, v, Accept(v));
    }
  }

  lemma {:induction false} KeyTrace(n: Nest, stack: seq<Value>, name: seq<byte>, limit: nat)
    requires NestStep(n, Key(name)).Nest? && Fits(n, stack, limit)
    ensures Trace(NestStep(n, Key(name)).levels, stack + [StringValue(name)]) == Trace(n.levels, stack) + [Key(name)]
  {
    hide Accept, Trace, Inside;
    var k := |n.levels| - 1;
    var level, level' := n.levels[k], NestStep(n, Key(name)).levels[k];
    var values := stack[|stack| - Contents(level)..];
    assert n.levels == n.levels[..k] + [level] && NestStep(n, Key(name)).levels == n.levels[..k] + [level'];
    PairsPushName(values, name);
    InsidePairs(level, values);
    InsidePairs(level', values + [StringValue(name)]);
    TraceGrows(n.levels[..k], level, level', stack, StringValue(name), [Key(name)]);
  }

  /** A container that opens adds its Start event. */
  lemma OpenTrace(n: Nest, stack: seq<Value>, level: Level, v: Value)
    requires TakesValue(n) && (level == ArrayLevel(0) || level == ObjectLevel(0, false)) && (n.levels == [] ==> stack == [])
    ensures Trace(OpenLevel(n, level).levels, stack + [v]) == Trace(n.levels, stack) + [Opening(level)]
  {
    hide Accept;
    var m, s := OpenLevel(n, level), stack + [v];
    assert m.levels[..|n.levels|] == n.levels && s[..|stack|] == stack && s[|s|..] == [];
    Nothing(Trace(n.levels, stack) + [Opening(level)]);
  }

  /** A container that closes: what was told as its opening and its inside is told as a value, and its End event is added. */
  lemma {:induction false} CloseTrace(n: Nest, stack: seq<Value>, level: Level, limit: nat, v: Value, end: Event)
    requires CloseLevel(n, level).Nest? && Fits(n, stack, limit) && limit + 1 < SIZE_LIMIT && Contents(level) < |stack|
    requires Accept(v) == [Opening(level)] + Inside(level, stack[|stack| - Contents(level)..]) + [end]
    ensures Trace(CloseLevel(n, level).levels, stack[..|stack| - Contents(level) - 1] + [v]) == Trace(n.levels, stack) + [end]
  {
    hide Accept, Inside;
    var k := |n.levels| - 1;
    var rest := n.(levels := n.levels[..k]);
    var base := |stack| - Contents(level);
    var below, inside := stack[..base - 1], Inside(level, stack[base..]);
    PushTrace(rest, below, v, limit);
    Rejoin(Trace(rest.levels, below), [Opening(level)], inside, [end]);
  }

  lemma Rejoin(a: seq<Event>, b: seq<Event>, c: seq<Event>, d: seq<Event>)
    ensures a + (b + c + d) == a + b + c + d
  {
  }

  /** What closing a container makes of its contents is walked as opening, contents, end. */
  lemma ArrayWalk(elements: seq<Value>)
    ensures Accept(ArrayValue(elements)) == [StartArray] + Inside(ArrayLevel(|elements|), elements) + [EndArray(|elements|)]
  {
  }

  lemma ObjectWalk(values: seq<Value>)
    requires |values| % 2 == 0
    ensures Accept(ObjectValue(Members(values)))
         == [StartObject] + Inside(ObjectLevel(|values| / 2, false), values) + [EndObject(|values| / 2)]
  {
    PairsAreMembers(values);
    ObjectEvents(Members(values));
    InsideObject(values);
    hide Accept, Inside;
  }

  lemma ObjectEvents(members: seq<Member>)
    ensures Accept(ObjectValue(members)) == [StartObject] + AcceptMembers(members) + [EndObject(|members|)]
  {
    hide AcceptMembers;
  }

  lemma InsideObject(values: seq<Value>)
    requires |values| % 2 == 0
    ensures Inside(ObjectLevel(|values| / 2, false), values) == PairEvents(values)
  {
    hide PairEvents;
  }

  // ---------- One event ----------

  /** An integer event and the number it pushes are walked as the same integer. */
  lemma NumberWalk(stack: seq<Value>, x: Event)
    requires Accepts(stack, x) && (x.Int? || x.Uint? || x.Int64? || x.Uint64?)
    ensures Handle(stack, x) == stack + [Handle(stack, x)[|stack|]]
    ensures RetypeAll(Accept(Handle(stack, x)[|stack|])) == RetypeAll([x])
  {
    var i: int := match x case Int(i) => i case Uint(u) => u case Int64(i) => i case Uint64(u) => u;
    NumberHandled(stack, x, i);
    NumberEventValue(i);
    RetypeOne(x);
    RetypeOne(NumberEvent(Canonical(i)));
    hide Canonical, RetypeAll;
  }

  /** Every event adds itself, up to the type of an integer, to what the levels and the stack tell. */
  lemma {:induction false} HandleTrace(n: Nest, stack: seq<Value>, x: Event, limit: nat)
    requires NestStep(n, x).Nest? && Fits(n, stack, limit) && limit + 1 < SIZE_LIMIT && Accepts(stack, x)
    ensures RetypeAll(Trace(NestStep(n, x).levels, Handle(stack, x))) == RetypeAll(Trace(n.levels, stack)) + RetypeAll([x])
  {
    hide Fits, TakesValue, Complete, OpenLevel, CloseLevel, Trace, Accept, RetypeAll, Inside;
    StepNests(n, x);
    RetypeAppend(Trace(n.levels, stack), [x]);
    match x {
      case Key(name) => KeyTrace(n, stack, name, limit);
      case StartArray => OpenEvent(n, stack, ArrayLevel(0), ArrayValue([]), limit);
      case StartObject => OpenEvent(n, stack, ObjectLevel(0, false), ObjectValue([]), limit);
      case EndArray(c) =>
        var s := stack[|stack| - c..];
        ArrayWalk(s);
        CloseTrace(n, stack, ArrayLevel(c), limit, ArrayValue(s), x);
      case EndObject(c) =>
        var s := stack[|stack| - 2 * c..];
        ObjectWalk(s);
        CloseTrace(n, stack, ObjectLevel(c, false), limit, ObjectValue(Members(s)), x);
      case _ => ValueEvent(n, stack, x, limit);
    }
  }

  lemma OpenEvent(n: Nest, stack: seq<Value>, level: Level, v: Value, limit: nat)
    requires OpenLevel(n, level).Nest? && Fits(n, stack, limit) && (level == ArrayLevel(0) || level == ObjectLevel(0, false))
    ensures Trace(OpenLevel(n, level).levels, stack + [v]) == Trace(n.levels, stack) + [Opening(level)]
  {
    hide Trace;
    OpenTrace(n, stack, level, v);
  }

  lemma {:induction false} ValueEvent(n: Nest, stack: seq<Value>, x: Event, limit: nat)
    requires NestStep(n, x).Nest? && Fits(n, stack, limit) && limit + 1 < SIZE_LIMIT && Accepts(stack, x) && IsScalar(x)
    ensures RetypeAll(Trace(NestStep(n, x).levels, Handle(stack, x))) == RetypeAll(Trace(n.levels, stack)) + RetypeAll([x])
  {
    hide Fits, TakesValue, Complete, Trace, RetypeAll, NumberEvent;
    StepNests(n, x);
    var v := Handle(stack, x)[|stack|];
    assert Handle(stack, x) == stack + [v];
    PushTrace(n, stack, v, limit);
    RetypeAppend(Trace(n.levels, stack), Accept(v));
    if x.Int? || x.Uint? || x.Int64? || x.Uint64? {
      NumberWalk(stack, x);
    }
  }

  // ---------- All events ----------

  lemma {:induction false} EventsTrace(events: seq<Event>)
    requires Nested(events).Nest? && |events| + 1 < SIZE_LIMIT
    ensures Build([], events).Stack?
    ensures RetypeAll(Trace(Nested(events).levels, Build([], events).values)) == RetypeAll(events)
    decreases |events|
  {
    hide Fits, NestStep, Handle, Accepts, Trace, RetypeAll;
    NestedBuilds(events);
    if events == [] {
      NothingTraced();
    } else {
      var k := |events| - 1;
      var x, n := events[k], Nested(events[..k]);
      StepNests(n, x);
      EventsTrace(events[..k]);
      NestedBuilds(events[..k]);
      var stack := Build([], events[..k]).values;
      HandleFits(n, stack, x, k);
      HandleTrace(n, stack, x, k);
      BuildAppend([], events[..k], [x]);
      BuildOne(stack, x);
      RetypeAppend(events[..k], [x]);
      assert events == events[..k] + [x];
    }
  }

  lemma NothingTraced()
    ensures Trace(Nested([]).levels, Build([], []).values) == []
  {
  }

  /**
   * For every text below 4 GiB that parses, with any flags: walking the tree that the document has built delivers the
   * events of the parse, in order and with the same counts; only the type of an integer may be a narrower one.
   */
  lemma ParseReplays(e: Env) returns (v: Value)
    requires |e.text| + 1 < SIZE_LIMIT && Grammar.Parse(e).Ok()
    ensures Build([], Grammar.Parse(e).events) == Stack([v])
    ensures RetypeAll(Accept(v)) == RetypeAll(Grammar.Parse(e).events)
  {
    hide Build, Grammar.Parse, Accept, RetypeAll, Nested;
    ParseLeavesOneRoot(e);
    ParseCounts(e);
    EventsNest(e);
    var events := Grammar.Parse(e).events;
    EventsTrace(events);
    v := Build([], events).values[0];
    assert Build([], events).values == [v];
  }

  /** Two texts have the same tree exactly when their parses deliver the same events, up to the types of integers. */
  lemma SameTreeSameEvents(d: Env, e: Env)
    requires |d.text| + 1 < SIZE_LIMIT && Grammar.Parse(d).Ok()
    requires |e.text| + 1 < SIZE_LIMIT && Grammar.Parse(e).Ok()
    ensures Build([], Grammar.Parse(d).events) == Build([], Grammar.Parse(e).events)
       <==> RetypeAll(Grammar.Parse(d).events) == RetypeAll(Grammar.Parse(e).events)
  {
    hide Build, Grammar.Parse, Accept, RetypeAll;
    var v := ParseReplays(d);
    var w := ParseReplays(e);
    RoundTrip.RetypeBuilds([], Grammar.Parse(d).events);
    RoundTrip.RetypeBuilds([], Grammar.Parse(e).events);
  }
}
