/** Parsing a text into a document: the handler's assertions hold, and exactly one root value is left. */
module DocumentParse {
  import opened Stream
  import opened Events
  import opened Grammar
  import opened Automaton
  import opened Nesting
  import opened Equivalence
  import opened Dom
  import opened Document

  /** How many values a level has on the stack above its own. */
  function Contents(level: Level): nat {
    match level
    case ArrayLevel(n) => n
    case ObjectLevel(n, named) => 2 * n + if named then 1 else 0
  }

  /** Every other value from `base` on is a name. */
  predicate NamesFrom(stack: seq<Value>, base: nat) {
    forall i :: base <= i < |stack| && (i - base) % 2 == 0 ==> stack[i].StringValue?
  }

  /** The stack holds, for every open container, its value and above it the contents received so far; names are strings. */
  predicate Stacked(levels: seq<Level>, done: bool, stack: seq<Value>)
    decreases |levels|
  {
    if levels == [] then |stack| == if done then 1 else 0
    else
      var k := |levels| - 1;
      var base := |stack| - Contents(levels[k]);
      && base >= 1 && !done
      && Stacked(levels[..k], false, stack[..base - 1])
      && (levels[k].ObjectLevel? ==> NamesFrom(stack, base))
  }

  /** No count has wrapped. */
  predicate Counted(levels: seq<Level>, limit: nat) {
    forall i :: 0 <= i < |levels| ==> match levels[i] case ArrayLevel(c) => c <= limit case ObjectLevel(c, _) => c <= limit
  }

  predicate Fits(n: Nest, stack: seq<Value>, limit: nat) {
    n.Nest? && Stacked(n.levels, n.done, stack) && Counted(n.levels, limit)
  }

  lemma NamesPush(stack: seq<Value>, base: nat, v: Value)
    requires NamesFrom(stack, base) && base <= |stack| && ((|stack| - base) % 2 == 0 ==> v.StringValue?)
    ensures NamesFrom(stack + [v], base)
  {
  }

  /** A value is pushed where one is due. */
  lemma {:induction false} PushFits(n: Nest, stack: seq<Value>, v: Value, limit: nat)
    requires TakesValue(n) && Fits(n, stack, limit) && limit + 1 < SIZE_LIMIT
    ensures Fits(Complete(n), stack + [v], limit + 1)
  {
    if n.levels != [] {
      var k := |n.levels| - 1;
      var m, s := Complete(n), stack + [v];
      var base := |stack| - Contents(n.levels[k]);
      assert m.levels[..k] == n.levels[..k];
      assert s[..base - 1] == stack[..base - 1];
      assert |s| - Contents(m.levels[k]) == base;
      if n.levels[k].ObjectLevel? {
        NamesPush(stack, base, v);
      }
    }
  }

  /** A container is pushed where a value is due. */
  lemma {:induction false} OpenFits(n: Nest, stack: seq<Value>, level: Level, limit: nat)
    requires TakesValue(n) && Fits(n, stack, limit) && (level == ArrayLevel(0) || level == ObjectLevel(0, false))
    ensures Fits(OpenLevel(n, level), stack + [if level.ArrayLevel? then ArrayValue([]) else ObjectValue([])], limit + 1)
  {
    var m := OpenLevel(n, level);
    var v := if level.ArrayLevel? then ArrayValue([]) else ObjectValue([]);
    assert m.levels[..|n.levels|] == n.levels;
    assert (stack + [v])[..|stack|] == stack;
    StackedOpen(n.levels, n.done, stack);
  }

  lemma {:induction false} StackedOpen(levels: seq<Level>, done: bool, stack: seq<Value>)
    requires Stacked(levels, done, stack) && (levels == [] ==> !done)
    ensures Stacked(levels, false, stack)
  {
  }

  lemma {:induction false} KeyFits(n: Nest, stack: seq<Value>, name: seq<byte>, limit: nat)
    requires NestStep(n, Key(name)).Nest? && Fits(n, stack, limit)
    ensures Fits(NestStep(n, Key(name)), stack + [StringValue(name)], limit + 1)
  {
    var k := |n.levels| - 1;
    var m, s := NestStep(n, Key(name)), stack + [StringValue(name)];
    var base := |stack| - Contents(n.levels[k]);
    assert m.levels[..k] == n.levels[..k];
    assert s[..base - 1] == stack[..base - 1];
    NamesPush(stack, base, StringValue(name));
  }

  /** A container closes: its contents become its value, and it counts in the container around it. */
  lemma {:induction false} CloseFits(n: Nest, stack: seq<Value>, level: Level, limit: nat, v: Value)
    requires CloseLevel(n, level).Nest? && Fits(n, stack, limit) && limit + 1 < SIZE_LIMIT
    ensures Contents(level) < |stack|
    ensures Fits(CloseLevel(n, level), stack[..|stack| - Contents(level) - 1] + [v], limit + 1)
  {
    var k := |n.levels| - 1;
    var rest := n.(levels := n.levels[..k]);
    PushFits(rest, stack[..|stack| - Contents(level) - 1], v, limit);
  }

  /** Where the events nest, the handler's assertions hold and the stack goes on fitting. */
  lemma {:induction false} HandleFits(n: Nest, stack: seq<Value>, x: Event, limit: nat)
    requires NestStep(n, x).Nest? && Fits(n, stack, limit) && limit + 1 < SIZE_LIMIT
    ensures Accepts(stack, x) && Fits(NestStep(n, x), Handle(stack, x), limit + 1)
  {
    hide Fits, TakesValue, Complete, OpenLevel, CloseLevel;
    match x {
      case Key(name) => KeyFits(n, stack, name, limit);
      case StartArray => OpenTakes(n, ArrayLevel(0)); OpenFits(n, stack, ArrayLevel(0), limit);
      case StartObject => OpenTakes(n, ObjectLevel(0, false)); OpenFits(n, stack, ObjectLevel(0, false), limit);
      case EndArray(c) => CloseFits(n, stack, ArrayLevel(c), limit, ArrayValue(LastValues(stack, c)));
      case EndObject(c) =>
        var v := ObjectValue(Members(LastValues(stack, 2 * c)));
        CloseFits(n, stack, ObjectLevel(c, false), limit, v);
      case _ => PushFits(n, stack, Handle(stack, x)[|stack|], limit);
    }
  }

  lemma OpenTakes(n: Nest, level: Level)
    ensures OpenLevel(n, level).Nest? ==> TakesValue(n)
  {
  }

  /** The last `n` values of a stack, or all of them when there are fewer. */
  function LastValues(stack: seq<Value>, n: nat): (s: seq<Value>)
    ensures n <= |stack| ==> s == stack[|stack| - n..]
    ensures n % 2 == 0 ==> |s| % 2 == 0
  {
    if n <= |stack| then stack[|stack| - n..] else []
  }

  /** The events of any nest, from an empty stack: no assertion fails. */
  lemma {:induction false} NestedBuilds(events: seq<Event>)
    requires Nested(events).Nest? && |events| + 1 < SIZE_LIMIT
    ensures Build([], events).Stack? && Fits(Nested(events), Build([], events).values, |events|)
    decreases |events|
  {
    hide Fits, NestStep, Handle, Accepts;
    if events == [] {
      NothingFits();
    } else {
      var k := |events| - 1;
      var x := events[k];
      StepNests(Nested(events[..k]), x);
      NestedBuilds(events[..k]);
      HandleFits(Nested(events[..k]), Build([], events[..k]).values, x, k);
      BuildAppend([], events[..k], [x]);
      assert events == events[..k] + [x];
      BuildOne(Build([], events[..k]).values, x);
    }
  }

  lemma NothingFits()
    ensures Fits(Nested([]), [], 0)
  {
  }

  lemma StepNests(n: Nest, x: Event)
    ensures NestStep(n, x).Nest? ==> n.Nest?
  {
  }

  lemma BuildOne(stack: seq<Value>, x: Event)
    requires Accepts(stack, x)
    ensures Build(stack, [x]) == Stack(Handle(stack, x))
  {
    hide Handle, Accepts;
    assert [x][1..] == [];
  }

  // ---------- Number of events ----------

  /** A parse delivers at most one event for every byte it takes. */
  lemma {:induction false} RunCounts(e: Env, c: Conf)
    requires Live(c)
    ensures |Run(e, c).events| <= |c.events| + Left(e.text, c.pos)
    decreases Left(e.text, c.pos)
  {
    if Peek(e.text, c.pos) != 0 {
      hide StackFits;
      Turn(e, c);
      StepConsumes(e, c);
      StepCounts(e, c);
      hide Step;
      var d := Step(e, c);
      if d.state != Error && !(e.stopWhenDone && d.state == Finish) {
        RunCounts(e, d.(pos := SkipSpace(e.text, d.pos)));
      }
    }
  }

  lemma {:induction false} StepCounts(e: Env, c: Conf)
    requires Live(c)
    ensures |Step(e, c).events| <= |c.events| + 1
  {
    hide StackFits, Predict, Tokenize, ScanScalar, ScanString;
  }

  lemma {:induction false} ParseCounts(e: Env)
    ensures |Grammar.Parse(e).events| <= |e.text|
  {
    hide Run, Grammar.Parse, StackFits;
    EventsNest(e);
    InitialFaithful(e);
    RunCounts(e, InitialConf(e));
    ParsersAgree(e);
  }

  /**
   * Any text shorter than 4 GiB, any flags: whatever the verdict, no Pop and no Top of the document handler fails on
   * the events delivered, and after a successful parse exactly one value is on the stack.
   */
  lemma {:induction false} ParseLeavesOneRoot(e: Env)
    requires |e.text| + 1 < SIZE_LIMIT
    ensures Build([], Grammar.Parse(e).events).Stack?
    ensures Grammar.Parse(e).Ok() ==> |Build([], Grammar.Parse(e).events).values| == 1
  {
    hide Run, Grammar.Parse, StackFits;
    EventsNest(e);
    InitialFaithful(e);
    RunCounts(e, InitialConf(e));
    NestedBuilds(Grammar.Parse(e).events);
  }
}
