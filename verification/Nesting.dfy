/** The event lists that describe a JSON text, and the proof that the automaton delivers nothing else. */
module Nesting {
  import opened Stream
  import opened Events
  import opened Grammar
  import opened Automaton
  import opened Equivalence
  import Dom

  /** An open container: how many elements or members are complete, and whether a member waits for its value. */
  datatype Level = ArrayLevel(elements: nat) | ObjectLevel(members: nat, named: bool)

  /** The containers that are open, outermost first, and whether the root value has been completed. */
  datatype Nest = Nest(levels: seq<Level>, done: bool) | Broken

  predicate TakesValue(n: Nest) {
    n.Nest? && if n.levels == [] then !n.done
               else var top := n.levels[|n.levels| - 1]; top.ArrayLevel? || top.named
  }

  /** A value has been completed where one was due. */
  function Complete(n: Nest): Nest
    requires TakesValue(n)
  {
    if n.levels == [] then n.(done := true)
    else
      var k := |n.levels| - 1;
      match n.levels[k]
      case ArrayLevel(elements) => n.(levels := n.levels[k := ArrayLevel(Inc(elements))])
      case ObjectLevel(members, named) => n.(levels := n.levels[k := ObjectLevel(Inc(members), false)])
  }

  function OpenLevel(n: Nest, level: Level): Nest {
    if TakesValue(n) then n.(levels := n.levels + [level]) else Broken
  }

  /** The top level is closed; it must be `level`. */
  function CloseLevel(n: Nest, level: Level): Nest {
    if n.Broken? || n.levels == [] then Broken
    else
      var k := |n.levels| - 1;
      var rest := n.(levels := n.levels[..k]);
      if n.levels[k] == level && TakesValue(rest) then Complete(rest) else Broken
  }

  function NestStep(n: Nest, x: Event): Nest {
    match x
    case StartArray => OpenLevel(n, ArrayLevel(0))
    case StartObject => OpenLevel(n, ObjectLevel(0, false))
    case EndArray(count) => CloseLevel(n, ArrayLevel(count))
    case EndObject(count) => CloseLevel(n, ObjectLevel(count, false))
    case Key(name) =>
      if n.Broken? || n.levels == [] then Broken
      else
        var k := |n.levels| - 1;
        if n.levels[k].ObjectLevel? && !n.levels[k].named
        then n.(levels := n.levels[k := n.levels[k].(named := true)]) else Broken
    case Null | Bool(_) | Int(_) | Uint(_) | Int64(_) | Uint64(_) | Double(_) | String(_) =>
      if TakesValue(n) && InRange(x) then Complete(n) else Broken
  }

  /** An integer event carries a value of its type. */
  predicate InRange(x: Event) {
    match x
    case Int(i) => Dom.IsInt(i)
    case Uint(u) => Dom.IsUint(u)
    case Int64(i) => Dom.IsInt64(i)
    case Uint64(u) => Dom.IsUint64(u)
    case _ => true
  }

  /**
   * Reads an event list.  Broken as soon as an End event does not close a Start of its own kind with the right count,
   * a name is missing or out of place, an integer does not fit its type, or something follows the root.
   */
  function Nested(events: seq<Event>): Nest {
    if events == [] then Nest([], false) else NestStep(Nested(events[..|events| - 1]), events[|events| - 1])
  }

  lemma NestedAppend(events: seq<Event>, x: Event)
    ensures Nested(events + [x]) == NestStep(Nested(events), x)
  {
    assert (events + [x])[..|events|] == events;
  }

  /** The level that state `s` with `count` stands for while the innermost container is in state `s`. */
  predicate TopFits(level: Level, s: State, count: nat) {
    match s
    case ArrayInitial => level == ArrayLevel(0) && count == 0
    case Element => level == ArrayLevel(Inc(count))
    case ElementDelimiter => level == ArrayLevel(count)
    case ObjectInitial => level == ObjectLevel(0, false) && count == 0
    case MemberKey | KeyValueDelimiter => level == ObjectLevel(count, true)
    case MemberValue => level == ObjectLevel(Inc(count), false)
    case MemberDelimiter => level == ObjectLevel(count, false)
    case _ => false
  }

  /** The levels below: each waits for the value that the container above it is going to be. */
  predicate BelowFits(levels: seq<Level>, stack: seq<Frame>, saved: State) {
    |levels| == |stack| &&
    if stack == [] then saved == Start
    else
      var k := |stack| - 1;
      && (saved == Element || saved == MemberValue)
      && levels[k] == (if saved == Element then ArrayLevel(stack[k].count) else ObjectLevel(stack[k].count, true))
      && BelowFits(levels[..k], stack[..k], stack[k].saved)
  }

  /** The stack and the state tell exactly which containers are open, with their counts. */
  predicate Describes(n: Nest, stack: seq<Frame>, s: State) {
    n.Nest? && |n.levels| == |stack| &&
    if stack == [] then (s == Start && !n.done) || (s == Finish && n.done)
    else
      var k := |stack| - 1;
      !n.done && TopFits(n.levels[k], s, stack[k].count) && BelowFits(n.levels[..k], stack[..k], stack[k].saved)
  }

  /** A configuration whose stack and state agree with the events delivered so far. */
  predicate Faithful(c: Conf) { Describes(Nested(c.events), c.stack, c.state) }

  /** A completed value takes the containers around it on. */
  lemma {:induction false} CompleteDescribes(n: Nest, stack: seq<Frame>, saved: State)
    requires n.Nest? && !n.done && BelowFits(n.levels, stack, saved)
    ensures TakesValue(n) && Describes(Complete(n), stack, if saved == Start then Finish else saved)
  {
    if stack != [] {
      var k := |stack| - 1;
      assert Complete(n).levels[..k] == n.levels[..k];
    }
  }

  /** Where a value is expected, the levels are as they are below the value. */
  lemma {:induction false} ValueDescribes(n: Nest, stack: seq<Frame>, s: State)
    requires ExpectsValue(s) && Describes(n, stack, s)
    ensures !n.done && BelowFits(n.levels, stack, if s == Start then Start else Behind(s))
  {
  }

  lemma {:induction false} OpenDescribes(n: Nest, stack: seq<Frame>, s: State, inObject: bool)
    requires ExpectsValue(s) && Describes(n, stack, s)
    ensures Describes(OpenLevel(n, if inObject then ObjectLevel(0, false) else ArrayLevel(0)),
                      stack + [Frame(Saved(s), 0)], if inObject then ObjectInitial else ArrayInitial)
  {
    ValueDescribes(n, stack, s);
    CompleteDescribes(n, stack, Saved(s));
    var level := if inObject then ObjectLevel(0, false) else ArrayLevel(0);
    assert (n.levels + [level])[..|n.levels|] == n.levels;
    assert (stack + [Frame(Saved(s), 0)])[..|stack|] == stack;
  }

  lemma {:induction false} CloseDescribes(c: Conf, n: Nest)
    requires c.stack != [] && Describes(n, c.stack, c.state)
    requires c.state == ArrayInitial || c.state == Element || c.state == ObjectInitial || c.state == MemberValue
    ensures var level := if InArray(c.state) then ArrayLevel(Total(c)) else ObjectLevel(Total(c), false);
            Describes(CloseLevel(n, level), Close(c).stack, Close(c).state)
  {
    var k := |c.stack| - 1;
    CompleteDescribes(n.(levels := n.levels[..k]), c.stack[..k], c.stack[k].saved);
    hide BelowFits;
  }

  lemma {:induction false} CommaDescribes(n: Nest, stack: seq<Frame>, s: State)
    requires stack != [] && Describes(n, stack, s) && (s == Element || s == MemberValue)
    ensures var k := |stack| - 1;
            Describes(n, stack[k := stack[k].(count := Inc(stack[k].count))], if s == Element then ElementDelimiter else MemberDelimiter)
  {
    var k := |stack| - 1;
    assert stack[k := stack[k].(count := Inc(stack[k].count))][..k] == stack[..k];
  }

  predicate IsScalar(x: Event) {
    x.Null? || x.Bool? || x.Int? || x.Uint? || x.Int64? || x.Uint64? || x.Double? || x.String?
  }

  lemma ScanIsScalar(e: Env, p: nat)
    ensures ScanScalar(e, p).Scalar? ==> IsScalar(ScanScalar(e, p).event) && InRange(ScanScalar(e, p).event)
  {
    hide ScanString, DigitsEnd, Decimal;
  }

  /** A scalar where a value is expected. */
  lemma {:induction false} ScalarDescribes(e: Env, c: Conf)
    requires Faithful(c) && ExpectsValue(c.state)
    ensures var o := ParseScalar(e, c.pos, c.events);
            Nested(o.events).Nest? && (o.Ok() ==> Describes(Nested(o.events), c.stack, Behind(c.state)))
  {
    ScanIsScalar(e, c.pos);
    match ScanScalar(e, c.pos) {
      case ScalarError(_) =>
      case Scalar(_, x) =>
        NestedAppend(c.events, x);
        ValueDescribes(Nested(c.events), c.stack, c.state);
        CompleteDescribes(Nested(c.events), c.stack, if c.state == Start then Start else Behind(c.state));
    }
    hide ScanScalar, BelowFits, Describes;
  }

  lemma {:induction false} KeyDescribes(e: Env, c: Conf)
    requires Faithful(c) && c.stack != [] && (c.state == ObjectInitial || c.state == MemberDelimiter)
    ensures var o := ParseKey(e, c.pos, c.events);
            Nested(o.events).Nest? && (o.Ok() ==> Describes(Nested(o.events), c.stack, MemberKey))
  {
    hide BelowFits, ScanString, Nested, NestStep, Describes;
    match ScanString(e.text, e.validateEncoding, c.pos + 1, []) {
      case StrError(_) =>
        BrokenNot(c);
      case Str(_, name) =>
        NestedAppend(c.events, Key(name));
        NameDescribes(Nested(c.events), c.stack, c.state, name);
    }
  }

  lemma BrokenNot(c: Conf)
    requires Faithful(c)
    ensures Nested(c.events).Nest?
  {
  }

  lemma {:induction false} NameDescribes(n: Nest, stack: seq<Frame>, s: State, name: seq<byte>)
    requires stack != [] && Describes(n, stack, s) && (s == ObjectInitial || s == MemberDelimiter)
    ensures NestStep(n, Key(name)).Nest? && Describes(NestStep(n, Key(name)), stack, MemberKey)
  {
    var k := |n.levels| - 1;
    assert NestStep(n, Key(name)).levels[..k] == n.levels[..k];
    hide BelowFits;
  }

  /** An event that nests is delivered: stack and events stay in agreement. */
  lemma DeliverFaithful(e: Env, b: Conf, x: Event)
    requires Describes(NestStep(Nested(b.events), x), b.stack, b.state)
    ensures Nested(Deliver(e, b, x).events).Nest?
    ensures Deliver(e, b, x).state != Error ==> Faithful(Deliver(e, b, x))
  {
    hide Nested, NestStep, BelowFits, TopFits;
    NestedAppend(b.events, x);
  }

  lemma OpenIsStep(n: Nest, inObject: bool)
    ensures NestStep(n, if inObject then StartObject else StartArray)
         == OpenLevel(n, if inObject then ObjectLevel(0, false) else ArrayLevel(0))
  {
    hide OpenLevel;
  }

  lemma {:induction false} OpenFaithful(e: Env, c: Conf, dst: State)
    requires Live(c) && Faithful(c) && dst == Predict(c.state, Tokenize(Peek(e.text, c.pos)))
    requires dst == ObjectInitial || dst == ArrayInitial
    ensures Nested(Transit(e, c, dst).events).Nest?
    ensures Transit(e, c, dst).state != Error ==> Faithful(Transit(e, c, dst))
  {
    PredictSources(c.state, Tokenize(Peek(e.text, c.pos)));
    OpenStep(e, c, dst);
    hide Predict, Tokenize, StackFits, Transit, Deliver, Saved;
    hide Describes, OpenLevel, Nested, NestStep, Peek, ExpectsValue;
    var inObject := dst == ObjectInitial;
    OpenDescribes(Nested(c.events), c.stack, c.state, inObject);
    OpenIsStep(Nested(c.events), inObject);
    DeliverFaithful(e, Open(c, dst), if inObject then StartObject else StartArray);
  }

  lemma DescribesNonempty(c: Conf)
    requires Live(c) && (InArray(c.state) || InObject(c.state))
    ensures c.stack != []
  {
  }

  lemma CloseIsStep(n: Nest, inObject: bool, count: nat)
    ensures NestStep(n, if inObject then EndObject(count) else EndArray(count))
         == CloseLevel(n, if inObject then ObjectLevel(count, false) else ArrayLevel(count))
  {
    hide CloseLevel;
  }

  lemma CloseKeepsEvents(c: Conf)
    requires c.stack != []
    ensures Close(c).events == c.events
  {
  }

  lemma {:induction false} CloseFaithful(e: Env, c: Conf, dst: State)
    requires Live(c) && Faithful(c) && dst == Predict(c.state, Tokenize(Peek(e.text, c.pos)))
    requires dst == ObjectFinish || dst == ArrayFinish
    ensures Nested(Transit(e, c, dst).events).Nest?
    ensures Transit(e, c, dst).state != Error ==> Faithful(Transit(e, c, dst))
  {
    PredictSources(c.state, Tokenize(Peek(e.text, c.pos)));
    DescribesNonempty(c);
    CloseStep(e, c, dst);
    CloseKeepsEvents(c);
    hide Predict, Tokenize, StackFits, Transit, Deliver, Close, Total;
    hide Describes, CloseLevel, Nested, NestStep, Peek;
    var inObject := dst == ObjectFinish;
    CloseDescribes(c, Nested(c.events));
    CloseIsStep(Nested(c.events), inObject, Total(c));
    DeliverFaithful(e, Close(c), if inObject then EndObject(Total(c)) else EndArray(Total(c)));
  }

  /** One step of the loop keeps stack and events in agreement, and even a failing step delivers only what nests. */
  lemma {:induction false} StepFaithful(e: Env, c: Conf)
    requires Live(c) && Faithful(c)
    ensures Nested(Step(e, c).events).Nest?
    ensures Step(e, c).state != Error ==> Faithful(Step(e, c))
  {
    var dst := Predict(c.state, Tokenize(Peek(e.text, c.pos)));
    PredictSources(c.state, Tokenize(Peek(e.text, c.pos)));
    hide Predict, Tokenize, StackFits, BelowFits, ParseKey, ParseScalar, Nested, NestStep;
    match dst {
      case ObjectInitial | ArrayInitial => OpenFaithful(e, c, dst);
      case ObjectFinish | ArrayFinish => CloseFaithful(e, c, dst);
      case MemberKey => KeyDescribes(e, c);
      case MemberValue | Element | SingleValue => ScalarDescribes(e, c);
      case MemberDelimiter | ElementDelimiter => CommaDescribes(Nested(c.events), c.stack, c.state);
      case _ =>
    }
  }

  /** A configuration that the loop of IterativeParse can be in after `steps` turns. */
  ghost predicate Reachable(e: Env, c: Conf, steps: nat)
    requires Live(c)
    decreases steps
  {
    if steps == 0 then c == InitialConf(e)
    else exists b: Conf :: Live(b) && Leads(e, b, c) && Reachable(e, b, steps - 1)
  }

  /** One full turn of the loop: a successful step and the whitespace behind it. */
  predicate Leads(e: Env, b: Conf, c: Conf)
    requires Live(b)
  {
    Peek(e.text, b.pos) != 0 && var d := Step(e, b); d.state != Error && c == d.(pos := SkipSpace(e.text, d.pos))
  }

  lemma {:induction false} TurnFaithful(e: Env, b: Conf, c: Conf)
    requires Live(b) && Leads(e, b, c) && Faithful(b)
    ensures Faithful(c)
  {
    StepFaithful(e, b);
    hide Step, Describes, StackFits, Nested;
  }

  /**
   * In every configuration that the loop can reach, the stack holds exactly one frame per open container: its kinds,
   * its saved states and its counts are those of the events delivered so far.
   */
  lemma {:induction false} ReachableFaithful(e: Env, c: Conf, steps: nat)
    requires Live(c) && Reachable(e, c, steps)
    ensures Faithful(c)
    decreases steps
  {
    hide Faithful, Leads, StackFits, InitialConf;
    if steps == 0 {
      InitialFaithful(e);
    } else {
      var b: Conf :| Live(b) && Leads(e, b, c) && Reachable(e, b, steps - 1);
      ReachableFaithful(e, b, steps - 1);
      TurnFaithful(e, b, c);
    }
  }

  lemma InitialFaithful(e: Env)
    ensures Live(InitialConf(e)) && Faithful(InitialConf(e))
  {
  }

  lemma {:induction false} RunNests(e: Env, c: Conf)
    requires Live(c) && Faithful(c)
    ensures Nested(Run(e, c).events).Nest?
    ensures Run(e, c).Ok() ==> Nested(Run(e, c).events) == Nest([], true)
    decreases Left(e.text, c.pos)
  {
    if Peek(e.text, c.pos) != 0 {
      Turn(e, c);
      StepFaithful(e, c);
      StepConsumes(e, c);
      var d := Step(e, c);
      if d.state != Error && !(e.stopWhenDone && d.state == Finish) {
        RunNests(e, d.(pos := SkipSpace(e.text, d.pos)));
      }
    }
    hide Step, BelowFits, TopFits;
  }

  /**
   * Whatever the text and the handler, the events either parser delivers nest: every End event closes a Start event of
   * its own kind and carries the number of its members or elements, and a successful parse is one complete value.
   */
  lemma {:induction false} EventsNest(e: Env)
    ensures Parse(e).events == IterativeParse(e).events && Nested(Parse(e).events).Nest?
    ensures Parse(e).Ok() ==> Nested(Parse(e).events) == Nest([], true)
  {
    ParsersAgree(e);
    RunNests(e, InitialConf(e));
    hide Run, Parse;
  }
}
