/** The Document as a handler: it rebuilds the tree on a stack of values. */
module Document {
  import opened Stream
  import opened Events
  import opened Dom

  /** The members that a run of name, value, name, value, ... on the stack stands for. */
  function Members(values: seq<Value>): seq<Member>
    requires |values| % 2 == 0
  {
    if values == [] then []
    else
      var name := if values[0].StringValue? then values[0].str else [];
      [Member(name, values[1])] + Members(values[2..])
  }

  /** What Pop and Top assert before an event is handled, and the ranges of the integer types. */
  predicate Accepts(stack: seq<Value>, x: Event) {
    match x
    case EndObject(n) => 2 * n < |stack|
    case EndArray(n) => n < |stack|
    case Int(i) => IsInt(i)
    case Uint(u) => IsUint(u)
    case Int64(i) => IsInt64(i)
    case Uint64(u) => IsUint64(u)
    case _ => true
  }

  /** The stack behind one event. */
  function Handle(stack: seq<Value>, x: Event): seq<Value>
    requires Accepts(stack, x)
  {
    match x
    case Null => stack + [NullValue]
    case Bool(b) => stack + [BoolValue(b)]
    case Int(i) => stack + [NumberValue(FromInt(i))]
    case Uint(u) => stack + [NumberValue(FromUint(u))]
    case Int64(i) => stack + [NumberValue(FromInt64(i))]
    case Uint64(u) => stack + [NumberValue(FromUint64(u))]
    case Double(bits) => stack + [DoubleValue(bits)]
    case String(s) => stack + [StringValue(s)]
    case Key(s) => stack + [StringValue(s)]
    case StartObject => stack + [ObjectValue([])]
    case StartArray => stack + [ArrayValue([])]
    case EndObject(n) =>
      var k := |stack| - 2 * n;
      stack[..k - 1] + [ObjectValue(Members(stack[k..]))]
    case EndArray(n) =>
      var k := |stack| - n;
      stack[..k - 1] + [ArrayValue(stack[k..])]
  }

  datatype Built = Stack(values: seq<Value>) | AssertionFailure

  /** The stack behind a list of events. */
  function Build(stack: seq<Value>, events: seq<Event>): Built
    decreases |events|
  {
    if events == [] then Stack(stack)
    else if Accepts(stack, events[0]) then Build(Handle(stack, events[0]), events[1..])
    else AssertionFailure
  }

  lemma {:induction false} BuildAppend(stack: seq<Value>, xs: seq<Event>, ys: seq<Event>)
    ensures Build(stack, xs + ys) == match Build(stack, xs)
                                     case AssertionFailure => AssertionFailure
                                     case Stack(values) => Build(values, ys)
    decreases |xs|
  {
    if xs == [] {
      assert xs + ys == ys;
    } else {
      assert (xs + ys)[1..] == xs[1..] + ys;
      if Accepts(stack, xs[0]) {
        BuildAppend(Handle(stack, xs[0]), xs[1..], ys);
      }
    }
  }

  // ---------- Accept into a Document ----------

  /** Any integer event of value `i` pushes the same number. */
  lemma NumberHandled(stack: seq<Value>, x: Event, i: int)
    requires (x == Int(i) && IsInt(i)) || (IsUint(i) && x == Uint(i)) || (x == Int64(i) && IsInt64(i)) || (IsUint64(i) && x == Uint64(i))
    ensures Accepts(stack, x) && Handle(stack, x) == stack + [NumberValue(Canonical(i))]
  {
  }

  /** The name-and-value run that a member list leaves on the stack. */
  function Flat(members: seq<Member>): seq<Value> {
    if members == [] then [] else [StringValue(members[0].name), members[0].value] + Flat(members[1..])
  }

  lemma {:induction false} FlatMembers(members: seq<Member>)
    ensures |Flat(members)| == 2 * |members| && Members(Flat(members)) == members
  {
    if members != [] {
      FlatMembers(members[1..]);
      assert Flat(members)[2..] == Flat(members[1..]);
      assert [members[0]] + members[1..] == members;
    }
  }

  /** What a container's events build, once it is known what its contents build. */
  lemma {:induction false} ContainerBuilds(stack: seq<Value>, start: Event, body: seq<Event>, contents: seq<Value>, end: Event)
    requires start == StartArray || start == StartObject
    requires end == if start == StartArray then EndArray(|contents|) else EndObject(|contents| / 2)
    requires start == StartObject ==> |contents| % 2 == 0
    requires var s1 := Handle(stack, start); Build(s1, body) == Stack(s1 + contents)
    ensures Build(stack, [start] + body + [end])
         == Stack(stack + [if start == StartArray then ArrayValue(contents) else ObjectValue(Members(contents))])
  {
    var s1 := Handle(stack, start);
    var s2 := s1 + contents;
    BuildAppend(stack, [start], body);
    BuildAppend(stack, [start] + body, [end]);
    assert s2[..|stack|] == stack && s2[|stack| + 1..] == contents;
    assert Build(s2, [end]) == Build(Handle(s2, end), []);
  }

  /**
   * Feeding the events of Accept on any tree, doubles included, into the handler leaves the stack as it was, plus one value equal to the
   * tree.  The deep copy is this with an empty stack.
   */
  lemma {:induction false} AcceptRebuilds(stack: seq<Value>, v: Value)
    requires IsCanonical(v)
    ensures Build(stack, Accept(v)) == Stack(stack + [v])
    decreases v, 1
  {
    hide Build, AcceptElements, AcceptMembers, Canonical, NumberEvent, Flat, Members;
    match v {
      case ArrayValue(elements) =>
        ElementsRebuild(stack + [ArrayValue([])], elements);
        ContainerBuilds(stack, StartArray, AcceptElements(elements), elements, EndArray(|elements|));
      case ObjectValue(members) =>
        MembersRebuild(stack + [ObjectValue([])], members);
        FlatMembers(members);
        ContainerBuilds(stack, StartObject, AcceptMembers(members), Flat(members), EndObject(|members|));
      case _ =>
        ScalarRebuilds(stack, v);
    }
  }

  lemma ScalarRebuilds(stack: seq<Value>, v: Value)
    requires IsCanonical(v) && !v.ArrayValue? && !v.ObjectValue?
    ensures Build(stack, Accept(v)) == Stack(stack + [v])
  {
    hide Canonical, NumberEvent;
    EmptyBuild(stack + [v]);
    var x := Accept(v)[0];
    if v.NumberValue? {
      var i :| -TWO63 <= i < TWO64 && v.number == Canonical(i);
      NumberEventValue(i);
      NumberHandled(stack, x, i);
    }
    assert [x][1..] == [];
  }

  lemma {:induction false} ElementsRebuild(stack: seq<Value>, elements: seq<Value>)
    requires AreCanonical(elements)
    ensures Build(stack, AcceptElements(elements)) == Stack(stack + elements)
    decreases elements, 0
  {
    hide Build, Accept;
    if elements == [] {
      EmptyBuild(stack);
      assert stack + elements == stack;
    } else {
      AcceptRebuilds(stack, elements[0]);
      ElementsRebuild(stack + [elements[0]], elements[1..]);
      BuildAppend(stack, Accept(elements[0]), AcceptElements(elements[1..]));
      assert stack + [elements[0]] + elements[1..] == stack + elements;
    }
  }

  lemma {:induction false} MembersRebuild(stack: seq<Value>, members: seq<Member>)
    requires MembersCanonical(members)
    ensures Build(stack, AcceptMembers(members)) == Stack(stack + Flat(members))
    decreases members, 0
  {
    hide Build, Accept;
    if members == [] {
      EmptyBuild(stack);
      assert stack + Flat(members) == stack;
    } else {
      var m, rest := members[0], members[1..];
      var s1 := stack + [StringValue(m.name)];
      KeyBuilds(stack, m.name);
      AcceptRebuilds(s1, m.value);
      MembersRebuild(s1 + [m.value], rest);
      BuildAppend(stack, [Key(m.name)], Accept(m.value));
      BuildAppend(stack, [Key(m.name)] + Accept(m.value), AcceptMembers(rest));
      assert s1 + [m.value] + Flat(rest) == stack + Flat(members);
    }
  }

  lemma EmptyBuild(stack: seq<Value>)
    ensures Build(stack, []) == Stack(stack)
  {
  }

  lemma KeyBuilds(stack: seq<Value>, name: seq<byte>)
    ensures Build(stack, [Key(name)]) == Stack(stack + [StringValue(name)])
  {
    EmptyBuild(stack + [StringValue(name)]);
  }
}
