/** Any text, parsed, written and parsed again: the second tree is the first. */
module Reprint {
  import opened Stream
  import opened Events
  import opened Grammar
  import opened Nesting
  import opened Dom
  import opened Document
  import opened Printing
  import opened ReadBack
  import Automaton
  import DocumentParse
  import Equivalence
  import Rereading
  import RoundTrip
  import Utf8
  import WriterSpec

  ghost predicate AllTrees(values: seq<Value>) { forall i :: 0 <= i < |values| ==> IsTree(values[i]) }

  lemma {:induction false} AllAreTrees(values: seq<Value>)
    requires AllTrees(values)
    ensures AreTrees(values)
    decreases |values|
  {
    if values != [] {
      hide IsTree;
      AllAreTrees(values[1..]);
    }
  }

  lemma {:induction false} AllAreMembers(values: seq<Value>)
    requires |values| % 2 == 0 && AllTrees(values)
    ensures AreMembers(Members(values)) && |Members(values)| == |values| / 2
    decreases |values|
  {
    if values != [] {
      hide IsTree;
      AllAreMembers(values[2..]);
      var m := Members(values);
      assert m[1..] == Members(values[2..]);
    }
  }

  predicate NoDoubles(events: seq<Event>) { forall i :: 0 <= i < |events| ==> !events[i].Double? }

  /** The handler keeps trees on its stack, as long as no double comes in. */
  lemma HandleTrees(stack: seq<Value>, x: Event)
    requires AllTrees(stack) && Accepts(stack, x) && !x.Double? && |stack| < SIZE_LIMIT
    ensures AllTrees(Handle(stack, x)) && |Handle(stack, x)| <= |stack| + 1
  {
    match x {
      case EndObject(n) =>
        var s := stack[|stack| - 2 * n..];
        AllAreMembers(s);
        ObjectIsTree(Members(s));
        hide IsTree;
      case EndArray(n) =>
        var s := stack[|stack| - n..];
        AllAreTrees(s);
        ArrayIsTree(s);
        hide IsTree;
      case Int(i) => NumberIsTree(stack, x, i);
      case Uint(u) => NumberIsTree(stack, x, u);
      case Int64(i) => NumberIsTree(stack, x, i);
      case Uint64(u) => NumberIsTree(stack, x, u);
      case StartObject => ObjectIsTree([]);
      case StartArray => ArrayIsTree([]);
      case _ =>
    }
  }

  lemma ObjectIsTree(members: seq<Member>)
    requires AreMembers(members) && |members| < SIZE_LIMIT
    ensures IsTree(ObjectValue(members))
  {
  }

  lemma ArrayIsTree(elements: seq<Value>)
    requires AreTrees(elements) && |elements| < SIZE_LIMIT
    ensures IsTree(ArrayValue(elements))
  {
  }

  lemma NumberIsTree(stack: seq<Value>, x: Event, i: int)
    requires Accepts(stack, x) && (x == Int(i) || x == Int64(i) || (i >= 0 && (x == Uint(i) || x == Uint64(i))))
    ensures Handle(stack, x) == stack + [NumberValue(Canonical(i))] && IsTree(NumberValue(Canonical(i)))
  {
    ConstructorsCanonical(i);
  }

  lemma {:induction false} BuildTrees(stack: seq<Value>, events: seq<Event>)
    requires AllTrees(stack) && NoDoubles(events) && |stack| + |events| < SIZE_LIMIT && Build(stack, events).Stack?
    ensures AllTrees(Build(stack, events).values)
    decreases |events|
  {
    if events != [] {
      hide Handle, IsTree;
      HandleTrees(stack, events[0]);
      BuildTrees(Handle(stack, events[0]), events[1..]);
    }
  }

  /** What a successful parse leaves, when the text has no number that needs a double. */
  lemma ParsedTree(e: Env) returns (v: Value)
    requires |e.text| + 1 < SIZE_LIMIT && Grammar.Parse(e).Ok() && NoDoubles(Grammar.Parse(e).events)
    ensures Build([], Grammar.Parse(e).events) == Stack([v]) && IsTree(v)
  {
    hide Build, Grammar.Parse, IsTree;
    DocumentParse.ParseLeavesOneRoot(e);
    DocumentParse.ParseCounts(e);
    var events := Grammar.Parse(e).events;
    BuildTrees([], events);
    v := Build([], events).values[0];
    assert Build([], events).values == [v];
  }

  /**
   * For every text that parses without doubles, with any flags: the tree it stands for can be written compactly or with
   * any indentation; with any flags again, either parser accepts what is written exactly when it does not validate or
   * the strings of the tree are well-formed UTF-8, and then it reads the same tree back.
   */
  lemma ParseWriteParse(e: Env, f: Format, validate: bool, stop: bool, double: (Text, nat) -> DoubleResult) returns (v: Value)
    requires |e.text| + 1 < SIZE_LIMIT && Grammar.Parse(e).Ok() && NoDoubles(Grammar.Parse(e).events) && IsFormat(f)
    ensures Build([], Grammar.Parse(e).events) == Stack([v])
    ensures var again := RoundTrip.Reading(Print(f, v, 0), validate, stop, double);
            && (Grammar.Parse(again).Ok() <==> ReadableTree(validate, v))
            && (Automaton.IterativeParse(again).Ok() <==> ReadableTree(validate, v))
            && (ReadableTree(validate, v) ==> Build([], Grammar.Parse(again).events) == Stack([v]))
            && (ReadableTree(validate, v) ==> Build([], Automaton.IterativeParse(again).events) == Stack([v]))
  {
    hide Build, Grammar.Parse, Automaton.IterativeParse, IsTree, IsCanonical, Print, WriterSpec.Write, Accept, ReadableTree;
    v := ParsedTree(e);
    var again := RoundTrip.Reading(Print(f, v, 0), validate, stop, double);
    if ReadableTree(validate, v) {
      TreeIsCanonical(v);
      RoundTrip.WriteReadSame(f, v, validate, stop, double);
      WriterSpec.WriterPrints(f, v);
    } else {
      if !validate {
        RoundTrip.ReadableAlways(v);
      }
      Rereading.TextRefused(again, f, v);
      Equivalence.ParsersAgree(again);
    }
  }

  /** The text "\uDC00" passes a validating parser; what is written of its tree does not. */
  lemma LoneLowNotReread(f: Format, stop: bool, double: (Text, nat) -> DoubleResult)
    requires IsFormat(f)
    ensures var e := RoundTrip.Reading([QUOTE, BACKSLASH, LOWER_U, 0x44, 0x43, 0x30, 0x30, QUOTE], true, stop, double);
            var v := StringValue([0xED, 0xB0, 0x80]);
            && Grammar.Parse(e).Ok() && Build([], Grammar.Parse(e).events) == Stack([v])
            && !Grammar.Parse(RoundTrip.Reading(Print(f, v, 0), true, stop, double)).Ok()
  {
    hide Print, ScanString, Utf8.WellFormed;
    Rereading.LoneLowExample();
    var e := RoundTrip.Reading([QUOTE, BACKSLASH, LOWER_U, 0x44, 0x43, 0x30, 0x30, QUOTE], true, stop, double);
    var v := StringValue([0xED, 0xB0, 0x80]);
    OneString(e, [0xED, 0xB0, 0x80]);
    KeepsString([0xED, 0xB0, 0x80]);
    hide Grammar.Parse, Build;
    Rereading.TextRefused(RoundTrip.Reading(Print(f, v, 0), true, stop, double), f, v);
  }

  lemma OneString(e: Env, s: seq<byte>)
    requires Plain(e) && |e.text| == 8 && e.text[0] == QUOTE && ScanString(e.text, e.validateEncoding, 1, []) == Str(8, s)
    ensures Grammar.Parse(e).Ok() && Grammar.Parse(e).events == [String(s)]
  {
    hide ScanString;
    assert Peek(e.text, 0) == QUOTE && SkipSpace(e.text, 0) == 0;
    assert Grammar.ParseValue(e, 0, []) == Outcome(8, [] + [String(s)], NoError);
    assert SkipSpace(e.text, 8) == 8;
  }

  lemma KeepsString(s: seq<byte>)
    ensures Build([], [String(s)]) == Stack([StringValue(s)])
  {
    assert Build([StringValue(s)], []) == Stack([StringValue(s)]);
  }
}
