/** The two handlers as objects: the writers, and the document with its parse and its walk. */
module Handlers {
  import opened Stream
  import opened Sequences
  import opened Events
  import opened Grammar
  import opened Dom
  import opened Printing
  import opened ReadBack
  import D = Document
  import W = WriterSpec
  import Itoa
  import DocumentParse
  import GenericReader
  import RoundTrip

  /** Writer, and PrettyWriter when the format is indented. */
  class Writer {
    const format: Format
    var os: seq<byte>
    var levels: seq<W.Level>
    var hasRoot: bool

    constructor (format: Format)
      ensures this.format == format && State() == W.EMPTY
    {
      this.format := format;
      os, levels, hasRoot := [], [], false;
    }

    function State(): W.Writer
      reads this
    {
      W.Writer(os, levels, hasRoot)
    }

    method Put(c: byte)
      modifies this`os
      ensures os == old(os) + [c]
    {
      os := os + [c];
    }

    method PutAll(s: seq<byte>)
      modifies this`os
      ensures os == old(os) + s
    {
      for i := 0 to |s|
        invariant os == old(os) + s[..i]
      {
        Put(s[i]);
      }
      assert s[..|s|] == s;
    }

    /** `os` is `before` with one line feed and `count` times the byte `c` behind it. */
    static predicate Broken(before: seq<byte>, os: seq<byte>, c: byte, count: nat) {
      && |os| == |before| + 1 + count && before <= os && os[|before|] == 0x0A
      && forall i :: |before| < i < |os| ==> os[i] == c
    }

    /** A line break and the indentation of the current depth; nothing in the compact form. */
    method BreakLine()
      modifies this`os
      ensures os == old(os) + NewLine(format, |levels|)
      ensures format.Compact? ==> os == old(os)
      ensures format.Pretty? ==> Broken(old(os), os, format.indentChar, |levels| * format.indentCount)
    {
      match format {
        case Compact(_) =>
        case Pretty(_, indentChar, indentCount) =>
          Put(0x0A);
          var count := |levels| * indentCount;
          for i := 0 to count
            invariant os == old(os) + [0x0A] + Repeat(indentChar, i)
          {
            assert Repeat(indentChar, i) + [indentChar] == Repeat(indentChar, i + 1);
            Put(indentChar);
          }
      }
    }

    /** The part of Prefix and PrettyPrefix that writes: comma, colon, line break or nothing. */
    method Separate()
      requires levels != []
      modifies this`os
      ensures os == old(os) + W.Lead(format, levels)
    {
      hide NewLine, W.Lead, Broken;
      var level := levels[|levels| - 1];
      if level.inArray {
        W.LeadIs(format, levels);
        if level.valueCount > 0 {
          Put(COMMA);
        }
        BreakLine();
      } else if level.valueCount % 2 == 0 {
        W.LeadIs(format, levels);
        if level.valueCount > 0 {
          Put(COMMA);
        }
        BreakLine();
      } else {
        W.LeadBeforeValue(format, levels);
        Put(COLON);
        if format.Pretty? {
          Put(0x20);
          assert [COLON] + [0x20] == Colon(format);
        }
        return;
      }
      Nothing(old(os));
      Associate(old(os), W.Comma(levels), NewLine(format, |levels|));
    }

    /** Prefix and PrettyPrefix: the separator in front of a value, and the counting of values. */
    method Prefix()
      requires levels == [] ==> !hasRoot
      modifies this`os, this`levels, this`hasRoot
      ensures State() == W.Prefix(format, old(State()))
    {
      if levels == [] {
        hasRoot := true;
        return;
      }
      hide W.Lead;
      Separate();
      var k := |levels| - 1;
      levels := levels[k := levels[k].(valueCount := levels[k].valueCount + 1)];
    }

    /** The body of the loop of WriteString: one byte as the escape table says. */
    method PutEscaped(c: byte)
      modifies this`os
      ensures os == old(os) + EscapeByte(c)
    {
      var x := EscapeLetter(c);
      if x != 0 {
        Put(BACKSLASH);
        Put(x);
        if x == LOWER_U {
          Put(ZERO);
          Put(ZERO);
          Put(HexDigit(c / 16));
          Put(HexDigit(c % 16));
        }
      } else {
        Put(c);
      }
    }

    /** WriteString: quotes, and each byte escaped where it must be. */
    method WriteString(s: seq<byte>)
      modifies this`os
      ensures os == old(os) + Quoted(s)
    {
      hide EscapeByte;
      Put(QUOTE);
      ghost var start := os;
      assert start + EscapeAll(s[..0]) == start;
      for i := 0 to |s|
        invariant os == start + EscapeAll(s[..i])
      {
        PutEscaped(s[i]);
        EscapeLast(s[..i], s[i]);
        assert s[..i + 1] == s[..i] + [s[i]];
        Associate(start, EscapeAll(s[..i]), EscapeByte(s[i]));
      }
      assert s[..|s|] == s;
      Put(QUOTE);
      Associate(old(os), [QUOTE], EscapeAll(s));
      Associate(old(os), [QUOTE] + EscapeAll(s), [QUOTE]);
    }

    /** A scalar or a name. */
    method Scalar(x: Event)
      requires W.Accepts(State(), x)
      requires x.Null? || x.Bool? || x.Double? || x.String? || x.Key? || IsInteger(x)
      modifies this`os, this`levels, this`hasRoot
      ensures State() == W.Handle(format, old(State()), x)
    {
      Prefix();
      match x {
        case Null => PutAll(NULL_WORD);
        case Bool(b) => PutAll(Word(b));
        case Int(i) => var text := Itoa.I32toa(i); PutAll(text);
        case Uint(u) => var text := Itoa.U32toa(u); PutAll(text);
        case Int64(i) => var text := Itoa.I64toa(i); PutAll(text);
        case Uint64(u) => var text := Itoa.U64toa(u); PutAll(text);
        case Double(bits) => PutAll(format.dtoa(bits));
        case String(s) => WriteString(s);
        case Key(s) => WriteString(s);
      }
      hide W.Prefix, IntegerText, Digits, Quoted;
    }

    /** An integer event whose value fits its type. */
    static predicate IsInteger(x: Event) {
      match x
      case Int(i) => IsInt(i)
      case Uint(u) => IsUint(u)
      case Int64(i) => IsInt64(i)
      case Uint64(u) => IsUint64(u)
      case _ => false
    }

    method Start(inArray: bool)
      requires W.Accepts(State(), if inArray then StartArray else StartObject)
      modifies this`os, this`levels, this`hasRoot
      ensures State() == W.Handle(format, old(State()), if inArray then StartArray else StartObject)
    {
      Prefix();
      levels := levels + [W.Level(inArray, 0)];
      Put(if inArray then LBRACKET else LCURLY);
      hide W.Prefix;
    }

    /** EndArray and EndObject: the count they are given is not used. */
    method End(inArray: bool, count: nat)
      requires W.Accepts(State(), if inArray then EndArray(count) else EndObject(count))
      modifies this`os, this`levels
      ensures State() == W.Handle(format, old(State()), if inArray then EndArray(count) else EndObject(count))
    {
      var k := |levels| - 1;
      var empty := levels[k].valueCount == 0;
      levels := levels[..k];
      if !empty {
        BreakLine();
      }
      Put(if inArray then RBRACKET else RCURLY);
    }

    /** One event of any kind. */
    method On(x: Event)
      requires W.Accepts(State(), x)
      requires x.Int? || x.Uint? || x.Int64? || x.Uint64? ==> IsInteger(x)
      modifies this`os, this`levels, this`hasRoot
      ensures State() == W.Handle(format, old(State()), x)
    {
      match x {
        case StartObject => Start(false);
        case StartArray => Start(true);
        case EndObject(n) => End(false, n);
        case EndArray(n) => End(true, n);
        case Null | Bool(_) | Int(_) | Uint(_) | Int64(_) | Uint64(_) | Double(_) | String(_) | Key(_) => Scalar(x);
      }
      hide W.Handle;
    }
  }

  /** Accept with a writer as the handler: the events of the tree, in order. */
  method AcceptWriter(v: Value, w: Writer)
    requires IsCanonical(v) && W.ValueDue(w.State())
    modifies w`os, w`levels, w`hasRoot
    ensures W.Write(w.format, old(w.State()), Accept(v)) == W.Text(w.State())
    ensures w.os == old(w.os) + (W.Lead(w.format, old(w.levels)) + Print(w.format, v, |old(w.levels)|))
    ensures w.levels == W.Advance(old(w.levels), 1)
  {
    ghost var f, s0 := w.format, w.State();
    var events := Accept(v);
    W.AcceptPuts(f, s0, v);
    AcceptIntegers(v);
    hide W.Handle, W.Accepts, Writer.IsInteger, Accept, IsCanonical;
    for i := 0 to |events|
      invariant W.Write(f, w.State(), events[i..]) == W.Write(f, s0, events)
    {
      assert events[i..][1..] == events[i + 1..];
      w.On(events[i]);
    }
    assert events[|events|..] == [];
  }

  /** Accept delivers integers that fit their types. */
  predicate Plainly(xs: seq<Event>) {
    forall i :: 0 <= i < |xs| && (xs[i].Int? || xs[i].Uint? || xs[i].Int64? || xs[i].Uint64?) ==> Writer.IsInteger(xs[i])
  }

  lemma {:induction false} AcceptIntegers(v: Value)
    requires IsCanonical(v)
    ensures Plainly(Accept(v))
    decreases v, 1
  {
    match v {
      case NumberValue(n) =>
        var i :| -TWO63 <= i < TWO64 && n == Canonical(i);
        NumberEventValue(i);
      case ArrayValue(elements) => ElementIntegers(elements);
      case ObjectValue(members) => MemberIntegers(members);
      case _ =>
    }
    hide NumberEvent;
  }

  lemma {:induction false} ElementIntegers(elements: seq<Value>)
    requires AreCanonical(elements)
    ensures Plainly(AcceptElements(elements))
    decreases elements, 0
  {
    if elements != [] {
      AcceptIntegers(elements[0]);
      ElementIntegers(elements[1..]);
    }
    hide Writer.IsInteger;
  }

  lemma {:induction false} MemberIntegers(members: seq<Member>)
    requires MembersCanonical(members)
    ensures Plainly(AcceptMembers(members))
    decreases members, 0
  {
    if members != [] {
      AcceptIntegers(members[0].value);
      MemberIntegers(members[1..]);
    }
    hide Writer.IsInteger;
  }

  /** A document: its root, and the stack of its handler. */
  class Document {
    var root: Value
    var stack: seq<Value>

    constructor ()
      ensures root == NullValue && stack == []
    {
      root, stack := NullValue, [];
    }

    /** One event of the handler; the pops and the top are in range. */
    method On(x: Event)
      requires D.Accepts(stack, x)
      modifies this`stack
      ensures stack == D.Handle(old(stack), x)
    {
      match x {
        case Null => stack := stack + [NullValue];
        case Bool(b) => stack := stack + [BoolValue(b)];
        case Int(i) => stack := stack + [NumberValue(FromInt(i))];
        case Uint(u) => stack := stack + [NumberValue(FromUint(u))];
        case Int64(i) => stack := stack + [NumberValue(FromInt64(i))];
        case Uint64(u) => stack := stack + [NumberValue(FromUint64(u))];
        case Double(bits) => stack := stack + [DoubleValue(bits)];
        case String(s) => stack := stack + [StringValue(s)];
        case Key(s) => stack := stack + [StringValue(s)];
        case StartObject => stack := stack + [ObjectValue([])];
        case StartArray => stack := stack + [ArrayValue([])];
        case EndObject(n) =>
          var run := Pop(2 * n);
          SetTop(ObjectValue(D.Members(run)));
        case EndArray(n) =>
          var run := Pop(n);
          SetTop(ArrayValue(run));
      }
    }

    method Pop(n: nat) returns (run: seq<Value>)
      requires n <= |stack|
      modifies this`stack
      ensures run == old(stack)[|old(stack)| - n..] && stack == old(stack)[..|old(stack)| - n]
    {
      var k := |stack| - n;
      run, stack := stack[k..], stack[..k];
    }

    method SetTop(v: Value)
      requires stack != []
      modifies this`stack
      ensures stack == old(stack)[..|old(stack)| - 1] + [v]
    {
      stack := stack[..|stack| - 1] + [v];
    }

    /** Delivers a list of events. */
    method OnAll(xs: seq<Event>)
      requires D.Build(stack, xs).Stack?
      modifies this`stack
      ensures D.Build(old(stack), xs) == D.Stack(stack)
    {
      hide D.Handle, D.Accepts;
      for i := 0 to |xs|
        invariant D.Build(stack, xs[i..]) == D.Build(old(stack), xs)
      {
        assert xs[i..][1..] == xs[i + 1..];
        On(xs[i]);
      }
      assert xs[|xs|..] == [];
    }

    /**
     * ParseStream: on success the one value that the events have left on the stack becomes the root; on failure the
     * root stays null.  The handler never refuses, so its events are applied behind the parse in their order.
     */
    method ParseStream(text: Text, validate: bool, stop: bool, double: (Text, nat) -> DoubleResult) returns (ok: bool)
      requires |text| + 1 < SIZE_LIMIT
      modifies this
      ensures ok <==> Grammar.Parse(RoundTrip.Reading(text, validate, stop, double)).Ok()
      ensures stack == []
      ensures if ok then D.Build([], Grammar.Parse(RoundTrip.Reading(text, validate, stop, double)).events) == D.Stack([root]) else root == NullValue
    {
      root, stack := NullValue, [];
      var e := RoundTrip.Reading(text, validate, stop, double);
      var reader := new GenericReader.Reader(e);
      reader.Parse();
      DocumentParse.ParseLeavesOneRoot(e);
      hide D.Build, Grammar.Parse;
      OnAll(reader.events);
      ok := reader.error == NoError;
      if ok {
        root := stack[0];
      }
      stack := [];
    }
  }

  /** The deep-copy constructor: a container goes through Accept into a fresh document, anything else is copied as it is. */
  method DeepCopy(v: Value) returns (copy: Value)
    requires IsCanonical(v)
    ensures copy == v
  {
    match v {
      case ObjectValue(_) => copy := CopyContainer(v);
      case ArrayValue(_) => copy := CopyContainer(v);
      case _ => copy := v;
    }
  }

  /** Accept into a fresh document, whose one value is the copy. */
  method CopyContainer(v: Value) returns (copy: Value)
    requires IsCanonical(v)
    ensures copy == v
  {
    D.AcceptRebuilds([], v);
    hide D.Build, Accept, IsCanonical;
    var d := new Document();
    d.OnAll(Accept(v));
    var run := d.Pop(1);
    copy := run[0];
  }

  /** The document's text, parsed into another document, gives the same root. */
  method WriteAndParse(v: Value, format: Format, validate: bool, stop: bool, double: (Text, nat) -> DoubleResult) returns (ok: bool, copy: Value)
    requires IsTree(v) && IsFormat(format) && ReadableTree(validate, v) && |Print(format, v, 0)| + 1 < SIZE_LIMIT
    ensures ok && copy == v
  {
    RoundTrip.WriteReadSame(format, v, validate, stop, double);
    hide D.Build, Accept, IsTree, IsCanonical, Grammar.Parse, ReadableTree, W.Write, Print, IsFormat;
    TreeIsCanonical(v);
    var w := new Writer(format);
    AcceptWriter(v, w);
    assert [] + ([] + Print(format, v, 0)) == Print(format, v, 0);
    var d := new Document();
    ok := d.ParseStream(w.os, validate, stop, double);
    copy := d.root;
  }
}
