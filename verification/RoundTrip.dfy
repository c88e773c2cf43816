/** Writing a tree and parsing the text gives the same tree. */
module RoundTrip {
  import opened Stream
  import opened Sequences
  import opened Events
  import opened Grammar
  import opened Dom
  import opened Printing
  import opened ReadBack
  import Automaton
  import Equivalence
  import Document
  import WriterSpec

  /** The document handler builds the same from an event and from its retyped form. */
  lemma RetypeHandled(stack: seq<Value>, x: Event)
    requires Document.Accepts(stack, x)
    ensures Document.Accepts(stack, Retype(x)) && Document.Handle(stack, Retype(x)) == Document.Handle(stack, x)
  {
    match x {
      case Int(i) => Document.NumberHandled(stack, x, i); Document.NumberHandled(stack, Retype(x), i);
      case Uint(u) => Document.NumberHandled(stack, x, u); Document.NumberHandled(stack, Retype(x), u);
      case Int64(i) => Document.NumberHandled(stack, x, i); Document.NumberHandled(stack, Retype(x), i);
      case Uint64(u) => Document.NumberHandled(stack, x, u); Document.NumberHandled(stack, Retype(x), u);
      case _ =>
    }
  }

  lemma {:induction false} RetypeBuilds(stack: seq<Value>, xs: seq<Event>)
    requires Document.Build(stack, xs).Stack?
    ensures Document.Build(stack, RetypeAll(xs)) == Document.Build(stack, xs)
    decreases |xs|
  {
    if xs != [] {
      RetypeHandled(stack, xs[0]);
      RetypeBuilds(Document.Handle(stack, xs[0]), xs[1..]);
      assert RetypeAll(xs)[1..] == RetypeAll(xs[1..]);
    }
    hide Document.Handle, Retype, Document.Accepts;
  }

  /** The text that a writer makes of a tree, read by a parser with any flags into a handler that never refuses. */
  function Reading(text: Text, validate: bool, stop: bool, double: (Text, nat) -> DoubleResult): Env {
    Env(text, _ => true, validate, stop, double)
  }

  /** The text of a tree parses, to the end, into the retyped events of the tree. */
  lemma {:induction false} TextParses(f: Format, v: Value, validate: bool, stop: bool, double: (Text, nat) -> DoubleResult)
    requires IsFormat(f) && IsTree(v) && ReadableTree(validate, v)
    ensures var text := Print(f, v, 0);
            Parse(Reading(text, validate, stop, double)) == Outcome(|text|, RetypeAll(Accept(v)), NoError)
  {
    var text := Print(f, v, 0);
    var e := Reading(text, validate, stop, double);
    PrintFirst(f, v, 0);
    assert text[0..] == text && At(text, 0, text);
    assert Peek(text, 0) == text[0];
    ReadTree(e, f, 0, [], v, 0);
    assert [] + RetypeAll(Accept(v)) == RetypeAll(Accept(v));
    hide Print, Accept, ParseValue, RetypeAll;
  }

  /**
   * The round trip.  A tree is written by Accept into a Writer or a PrettyWriter with any whitespace indentation; the
   * text is complete; either parser, with any flags, reads it to its end; and the document handler builds from the
   * events exactly the same tree: types, member order, every string byte, every integer.
   */
  lemma {:induction false} WriteReadSame(f: Format, v: Value, validate: bool, stop: bool, double: (Text, nat) -> DoubleResult)
    requires IsFormat(f) && IsTree(v) && ReadableTree(validate, v)
    ensures var written := WriterSpec.Write(f, WriterSpec.EMPTY, Accept(v));
            && written.Text? && written.w.levels == [] && written.w.hasRoot
            && var e := Reading(written.w.out, validate, stop, double);
            && Parse(e).Ok() && Automaton.IterativeParse(e).Ok()
            && Parse(e).pos == Automaton.IterativeParse(e).pos == |e.text|
            && Document.Build([], Parse(e).events) == Document.Stack([v])
            && Document.Build([], Automaton.IterativeParse(e).events) == Document.Stack([v])
  {
    hide WriterSpec.Write, Print, Accept, Parse, Automaton.IterativeParse, RetypeAll, Document.Build;
    TreeIsCanonical(v);
    WriterSpec.WriterPrints(f, v);
    TextParses(f, v, validate, stop, double);
    var e := Reading(Print(f, v, 0), validate, stop, double);
    Equivalence.ParsersAgree(e);
    Document.AcceptRebuilds([], v);
    assert [] + [v] == [v];
    RetypeBuilds([], Accept(v));
  }

  /** Different trees have different texts. */
  lemma {:induction false} PrintInjective(f: Format, v: Value, w: Value)
    requires IsFormat(f) && IsTree(v) && IsTree(w) && Print(f, v, 0) == Print(f, w, 0)
    ensures v == w
  {
    hide Print, Accept, RetypeAll, Document.Build;
    var double := (t: Text, p: nat) => DoubleAt(0, 0);
    ReadableAlways(v);
    ReadableAlways(w);
    TextParses(f, v, false, false, double);
    TextParses(f, w, false, false, double);
    TreeIsCanonical(v);
    TreeIsCanonical(w);
    Document.AcceptRebuilds([], v);
    Document.AcceptRebuilds([], w);
    RetypeBuilds([], Accept(v));
    RetypeBuilds([], Accept(w));
    assert [] + [v] == [v] && [] + [w] == [w];
  }

  /** A reader that does not validate gives every string back. */
  lemma {:induction false} ReadableAlways(v: Value)
    ensures ReadableTree(false, v)
    decreases v, 1
  {
    match v {
      case ArrayValue(elements) => ReadableAllAlways(elements);
      case ObjectValue(members) => ReadableMembersAlways(members);
      case _ =>
    }
  }

  lemma {:induction false} ReadableAllAlways(elements: seq<Value>)
    ensures ReadableAll(false, elements)
    decreases elements, 0
  {
    if elements != [] {
      ReadableAlways(elements[0]);
      ReadableAllAlways(elements[1..]);
    }
  }

  lemma {:induction false} ReadableMembersAlways(members: seq<Member>)
    ensures ReadableMembers(false, members)
    decreases members, 0
  {
    if members != [] {
      ReadableAlways(members[0].value);
      ReadableMembersAlways(members[1..]);
    }
  }
}
