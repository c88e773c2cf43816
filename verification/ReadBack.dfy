/** Parsing the text of a tree gives the events of the tree back. */
module ReadBack {
  import opened Stream
  import opened Sequences
  import opened Events
  import opened Grammar
  import opened Dom
  import opened Printing
  import Utf8

  /** The event that the reader delivers where Accept delivered `x`: a number comes back in the narrowest type of its sign. */
  function Retype(x: Event): Event {
    match x
    case Int(i) => IntegerEvent(i < 0, Abs(i))
    case Uint(u) => IntegerEvent(false, u)
    case Int64(i) => IntegerEvent(i < 0, Abs(i))
    case Uint64(u) => IntegerEvent(false, u)
    case _ => x
  }

  function Abs(i: int): nat { if i < 0 then -i else i }

  function RetypeAll(xs: seq<Event>): seq<Event> {
    seq(|xs|, i requires 0 <= i < |xs| => Retype(xs[i]))
  }

  lemma RetypeAppend(xs: seq<Event>, ys: seq<Event>)
    ensures RetypeAll(xs + ys) == RetypeAll(xs) + RetypeAll(ys)
  {
  }

  lemma RetypeOne(x: Event)
    ensures RetypeAll([x]) == [Retype(x)]
  {
  }

  /** The events of a container: only what is between the brackets changes. */
  lemma RetypeBrackets(start: Event, body: seq<Event>, end: Event)
    requires Retype(start) == start && Retype(end) == end
    ensures RetypeAll([start] + body + [end]) == [start] + RetypeAll(body) + [end]
  {
    hide RetypeAll;
    RetypeOne(start);
    RetypeOne(end);
    RetypeAppend([start], body);
    RetypeAppend([start] + body, [end]);
  }

  // ---------- Numbers ----------

  /** A byte that cannot continue a number. */
  predicate EndsNumber(c: byte) { !IsDigit(c) && !StartsFloat(c) }

  lemma {:induction false} DigitsEndAt(t: Text, p: nat, s: seq<byte>)
    requires At(t, p, s) && (forall i :: 0 <= i < |s| ==> IsDigit(s[i])) && !IsDigit(Peek(t, p + |s|))
    ensures DigitsEnd(t, p) == p + |s|
    decreases |s|
  {
    if s != [] {
      AtByte(t, p, s, 0);
      assert s == s[..1] + s[1..];
      AtSplit(t, p, s[..1], s[1..]);
      DigitsEndAt(t, p + 1, s[1..]);
    }
  }

  lemma {:induction false} ReadNumber(e: Env, p: nat, i: int)
    requires -TWO63 <= i < TWO64
    requires At(e.text, p, IntegerText(i)) && EndsNumber(Peek(e.text, p + |IntegerText(i)|))
    ensures ScanNumber(e, p) == Scalar(p + |IntegerText(i)|, IntegerEvent(i < 0, Abs(i)))
    ensures Peek(e.text, p) == MINUS || IsDigit(Peek(e.text, p))
  {
    hide Digits, Decimal, DigitsEnd, At, Peek;
    var t := e.text;
    var digits := Digits(Abs(i));
    AtByte(t, p, IntegerText(i), 0);
    var q := if i < 0 then p + 1 else p;
    if i < 0 {
      AtSplit(t, p, [MINUS], digits);
    }
    ReadDigits(t, q, Abs(i));
  }

  /** The digits of a number, where nothing behind them continues it. */
  lemma {:induction false} ReadDigits(t: Text, q: nat, n: nat)
    requires At(t, q, Digits(n)) && EndsNumber(Peek(t, q + |Digits(n)|))
    ensures IsDigit(Peek(t, q)) && q + |Digits(n)| <= |t| && Decimal(t[q..q + |Digits(n)|]) == n
    ensures if n == 0 then Peek(t, q) == ZERO && |Digits(n)| == 1
            else Peek(t, q) != ZERO && DigitsEnd(t, q) == q + |Digits(n)|
  {
    hide DigitsEnd, Decimal, Peek;
    AtByte(t, q, Digits(n), 0);
    DigitsDecimal(n);
    if n > 0 {
      DigitsEndAt(t, q, Digits(n));
    }
  }

  // ---------- Strings ----------

  /** What a string must satisfy to be read back: any bytes, or valid UTF-8 when the reader validates. */
  predicate Readable(validate: bool, s: seq<byte>) { validate ==> Utf8.WellFormed(s) }

  lemma EscapeLast(s: seq<byte>, c: byte)
    ensures EscapeAll(s + [c]) == EscapeAll(s) + EscapeByte(c)
  {
    assert (s + [c])[..|s|] == s;
    hide EscapeByte;
  }

  lemma EscapeSplitLast(a: seq<byte>, r: seq<byte>, c: byte)
    requires EscapeAll(a + r) == EscapeAll(a) + EscapeAll(r)
    ensures EscapeAll(a + (r + [c])) == EscapeAll(a) + EscapeAll(r + [c])
  {
    hide EscapeByte, EscapeAll;
    EscapeLast(a + r, c);
    EscapeLast(r, c);
    Associate(a, r, [c]);
    Associate(EscapeAll(a), EscapeAll(r), EscapeByte(c));
  }

  lemma {:induction false} EscapeSplit(a: seq<byte>, b: seq<byte>)
    ensures EscapeAll(a + b) == EscapeAll(a) + EscapeAll(b)
    decreases |b|
  {
    if b == [] {
      assert a + b == a;
      assert EscapeAll(b) == [];
    } else {
      var k := |b| - 1;
      assert b == b[..k] + [b[k]];
      EscapeSplit(a, b[..k]);
      EscapeSplitLast(a, b[..k], b[k]);
    }
    hide EscapeByte, EscapeAll;
  }

  /** Control characters come back from \u00XX. */
  lemma ReadControl(t: Text, p: nat, c: byte)
    requires c < 0x20 && At(t, p, [ZERO, ZERO, HexDigit(c / 16), HexDigit(c % 16)])
    ensures ScanUnicode(t, p) == Escape(p + 4, c)
  {
    var s := [ZERO, ZERO, HexDigit(c / 16), HexDigit(c % 16)];
    AtByte(t, p, s, 0);
    AtByte(t, p, s, 1);
    AtByte(t, p, s, 2);
    AtByte(t, p, s, 3);
    assert HexValue(HexDigit(c / 16)) == c / 16 && HexValue(HexDigit(c % 16)) == c % 16;
    assert c == c / 16 * 16 + c % 16;
  }

  /** One ASCII byte, in whatever form the writer gave it. */
  lemma ReadEscaped(t: Text, validate: bool, p: nat, c: byte, acc: seq<byte>)
    requires At(t, p, EscapeByte(c)) && (validate ==> c < 0x80)
    ensures ScanString(t, validate, p, acc) == ScanString(t, validate, p + |EscapeByte(c)|, acc + [c])
  {
    var s, x := EscapeByte(c), EscapeLetter(c);
    AtByte(t, p, s, 0);
    if x == 0 {
      assert t[p..p + 1] == [c];
    } else {
      AtByte(t, p, s, 1);
      if x == LOWER_U {
        assert s == [BACKSLASH, x] + [ZERO, ZERO, HexDigit(c / 16), HexDigit(c % 16)];
        AtSplit(t, p, [BACKSLASH, x], [ZERO, ZERO, HexDigit(c / 16), HexDigit(c % 16)]);
        ReadControl(t, p + 2, c);
        assert Utf8.Encode(c) == [c];
      } else {
        assert Unescape(x) == c;
      }
    }
  }

  /** The bytes of a multi-byte character are written as they are. */
  lemma {:induction false} PlainBytes(s: seq<byte>)
    requires forall i :: 0 <= i < |s| ==> s[i] >= 0x80
    ensures EscapeAll(s) == s
  {
    hide EscapeByte;
    if s != [] {
      var k := |s| - 1;
      var r := s[..k];
      PlainBytes(r);
      PlainByte(s[k]);
      assert EscapeAll(s) == r + [s[k]];
    }
  }

  lemma PlainByte(c: byte)
    requires c >= 0x80
    ensures EscapeByte(c) == [c]
  {
  }

  /** A multi-byte character of a validated string. */
  lemma ReadCharacter(t: Text, p: nat, s: Text, i: nat, acc: seq<byte>)
    requires i < |s| && s[i] >= 0x80 && Utf8.CharLen(s, i) != 0 && At(t, p, s[i..i + Utf8.CharLen(s, i)])
    ensures var n := Utf8.CharLen(s, i); ScanString(t, true, p, acc) == ScanString(t, true, p + n, acc + s[i..i + n])
  {
    var n := Utf8.CharLen(s, i);
    SameCharacter(t, p, s, i);
    AtByte(t, p, s[i..i + n], 0);
    hide Utf8.CharLen;
  }

  lemma SameCharacter(t: Text, p: nat, s: Text, i: nat)
    requires i < |s| && s[i] >= 0x80 && Utf8.CharLen(s, i) != 0 && At(t, p, s[i..i + Utf8.CharLen(s, i)])
    ensures Utf8.CharLen(t, p) == Utf8.CharLen(s, i)
  {
    var n := Utf8.CharLen(s, i);
    var w := s[i..i + n];
    AtByte(t, p, w, 0);
    AtByte(t, p, w, 1);
    if n >= 3 { AtByte(t, p, w, 2); }
    if n >= 4 { AtByte(t, p, w, 3); }
  }

  lemma ContinuationBytes(s: Text, i: nat)
    requires i < |s| && s[i] >= 0x80 && Utf8.CharLen(s, i) != 0
    ensures forall k :: i <= k < i + Utf8.CharLen(s, i) ==> s[k] >= 0x80
  {
    var n := Utf8.CharLen(s, i);
    assert Peek(s, i + 1) == s[i + 1];
    if n >= 3 { assert Peek(s, i + 2) == s[i + 2]; }
    if n >= 4 { assert Peek(s, i + 3) == s[i + 3]; }
  }

  /** How many bytes the reader takes from byte `i` of a string in one turn. */
  function Turn(validate: bool, s: Text, i: nat): (n: nat)
    requires i < |s| && (validate ==> Utf8.CharLen(s, i) != 0)
    ensures 0 < n <= |s| - i
  {
    if validate && s[i] >= 0x80 then Utf8.CharLen(s, i) else 1
  }

  /** One turn of the reader's loop. */
  lemma {:induction false} ReadTurn(t: Text, validate: bool, p: nat, s: Text, i: nat)
    requires i < |s| && (validate ==> Utf8.CharLen(s, i) != 0)
    requires At(t, p, EscapeAll(s[i..i + Turn(validate, s, i)]))
    ensures var n := Turn(validate, s, i);
            ScanString(t, validate, p, s[..i]) == ScanString(t, validate, p + |EscapeAll(s[i..i + n])|, s[..i + n])
  {
    hide ScanString, EscapeByte, EscapeAll, Utf8.CharLen;
    var n := Turn(validate, s, i);
    var head := s[i..i + n];
    assert s[..i] + head == s[..i + n];
    if validate && s[i] >= 0x80 {
      ContinuationBytes(s, i);
      PlainBytes(head);
      ReadCharacter(t, p, s, i, s[..i]);
    } else {
      assert head == [s[i]];
      EscapeOne(s[i]);
      ReadEscaped(t, validate, p, s[i], s[..i]);
    }
  }

  /** The text of a string from byte `i` on, split behind the next `n` bytes. */
  lemma {:induction false} RestSplits(t: Text, p: nat, s: Text, i: nat, n: nat)
    requires i + n <= |s| && At(t, p, EscapeAll(s[i..]) + [QUOTE])
    ensures At(t, p, EscapeAll(s[i..i + n]))
    ensures At(t, p + |EscapeAll(s[i..i + n])|, EscapeAll(s[i + n..]) + [QUOTE])
    ensures |EscapeAll(s[i..])| == |EscapeAll(s[i..i + n])| + |EscapeAll(s[i + n..])|
  {
    hide EscapeAll, At;
    var head, rest := s[i..i + n], s[i + n..];
    assert s[i..] == head + rest;
    EscapeSplit(head, rest);
    Associate(EscapeAll(head), EscapeAll(rest), [QUOTE]);
    AtSplit(t, p, EscapeAll(head), EscapeAll(rest) + [QUOTE]);
  }

  lemma ReadEnd(t: Text, validate: bool, p: nat, s: seq<byte>)
    requires At(t, p, EscapeAll([]) + [QUOTE])
    ensures ScanString(t, validate, p, s) == Str(p + |EscapeAll([])| + 1, s)
  {
    assert EscapeAll([]) + [QUOTE] == [QUOTE];
    AtByte(t, p, [QUOTE], 0);
  }

  /** The rest of a string from byte `i` on. */
  lemma {:induction false} ReadRest(t: Text, validate: bool, p: nat, s: Text, i: nat)
    requires i <= |s| && At(t, p, EscapeAll(s[i..]) + [QUOTE]) && (validate ==> Utf8.WellFormedFrom(s, i))
    ensures ScanString(t, validate, p, s[..i]) == Str(p + |EscapeAll(s[i..])| + 1, s)
    decreases |s| - i
  {
    hide ScanString, EscapeAll, At, Utf8.CharLen;
    if i == |s| {
      assert s[i..] == [] && s[..i] == s;
      ReadEnd(t, validate, p, s);
    } else {
      var n := Turn(validate, s, i);
      RestSplits(t, p, s, i, n);
      ReadTurn(t, validate, p, s, i);
      if s[i] < 0x80 { AsciiLength(s, i); }
      ReadRest(t, validate, p + |EscapeAll(s[i..i + n])|, s, i + n);
    }
  }

  lemma AsciiLength(s: Text, i: nat)
    requires i < |s| && s[i] < 0x80
    ensures Utf8.CharLen(s, i) == 1
  {
  }

  lemma EscapeOne(c: byte)
    ensures EscapeAll([c]) == EscapeByte(c)
  {
    assert [c][..0] == [];
    assert [] + EscapeByte(c) == EscapeByte(c);
  }

  /** A whole string, embedded NUL bytes included. */
  lemma {:induction false} ReadString(t: Text, validate: bool, p: nat, s: seq<byte>)
    requires At(t, p, Quoted(s)) && Readable(validate, s)
    ensures Peek(t, p) == QUOTE && ScanString(t, validate, p + 1, []) == Str(p + |Quoted(s)|, s)
  {
    assert Quoted(s) == [QUOTE] + (EscapeAll(s) + [QUOTE]);
    AtSplit(t, p, [QUOTE], EscapeAll(s) + [QUOTE]);
    AtByte(t, p, [QUOTE], 0);
    assert s[0..] == s && s[..0] == [];
    ReadRest(t, validate, p + 1, s, 0);
    hide ScanString, EscapeAll;
  }

  // ---------- Trees ----------

  /** Strings a reader with this flag gives back: all of them, or the valid ones when it validates. */
  ghost predicate ReadableTree(validate: bool, v: Value)
    decreases v, 1
  {
    match v
    case StringValue(s) => Readable(validate, s)
    case ArrayValue(elements) => ReadableAll(validate, elements)
    case ObjectValue(members) => ReadableMembers(validate, members)
    case _ => true
  }

  ghost predicate ReadableAll(validate: bool, elements: seq<Value>)
    decreases elements, 0
  {
    elements == [] || (ReadableTree(validate, elements[0]) && ReadableAll(validate, elements[1..]))
  }

  ghost predicate ReadableMembers(validate: bool, members: seq<Member>)
    decreases members, 0
  {
    members == [] || (Readable(validate, members[0].name) && ReadableTree(validate, members[0].value) && ReadableMembers(validate, members[1..]))
  }

  /** Parsing at `p` delivers `xs` behind `events` and ends at `q`. */
  predicate Reads(e: Env, p: nat, events: seq<Event>, xs: seq<Event>, q: nat) {
    ParseValue(e, p, events) == Outcome(q, events + xs, NoError)
  }

  /** The first byte of a printed value is not whitespace, a closing bracket, a comma or the end. */
  lemma PrintFirst(f: Format, v: Value, depth: nat)
    requires IsTree(v)
    ensures var s := Print(f, v, depth);
            s != [] && !IsSpace(s[0]) && s[0] != RBRACKET && s[0] != 0
  {
    hide PrintElements, PrintMembers, NewLine, EscapeAll, IntegerText, Canonical, Digits, Closing;
    if v.NumberValue? {
      var i :| -TWO63 <= i < TWO64 && v.number == Canonical(i);
      NumberText(f, i);
    }
  }

  /** The text and the event of a number. */
  lemma NumberText(f: Format, i: int)
    requires -TWO63 <= i < TWO64
    ensures ScalarText(f, NumberEvent(Canonical(i))) == IntegerText(i)
    ensures Retype(NumberEvent(Canonical(i))) == IntegerEvent(i < 0, Abs(i))
    ensures IntegerText(i) != [] && (IntegerText(i)[0] == MINUS || IsDigit(IntegerText(i)[0]))
  {
    NumberEventValue(i);
    hide Digits, Canonical, NumberEvent;
  }

  /** Any tree, at any place: the parser delivers its events, retyped, and stops behind its text. */
  lemma {:induction false} ReadTree(e: Env, f: Format, p: nat, events: seq<Event>, v: Value, depth: nat)
    requires Plain(e) && IsFormat(f) && IsTree(v) && ReadableTree(e.validateEncoding, v)
    requires At(e.text, p, Print(f, v, depth)) && EndsNumber(Peek(e.text, p + |Print(f, v, depth)|))
    ensures Reads(e, p, events, RetypeAll(Accept(v)), p + |Print(f, v, depth)|)
    decreases v, 2
  {
    hide Print, Accept, At, EndsNumber;
    match v {
      case ArrayValue(elements) =>
        ReadArray(e, f, p, events, elements, depth);
      case ObjectValue(members) =>
        ReadObject(e, f, p, events, members, depth);
      case _ =>
        ReadLeaf(e, f, p, events, v, depth);
    }
  }

  lemma {:induction false} ReadLeaf(e: Env, f: Format, p: nat, events: seq<Event>, v: Value, depth: nat)
    requires Plain(e) && IsTree(v) && ReadableTree(e.validateEncoding, v) && !v.ArrayValue? && !v.ObjectValue?
    requires At(e.text, p, Print(f, v, depth)) && EndsNumber(Peek(e.text, p + |Print(f, v, depth)|))
    ensures Reads(e, p, events, RetypeAll(Accept(v)), p + |Print(f, v, depth)|)
  {
    hide ScanScalar, Reads, At, Digits, EscapeAll, EndsNumber;
    var x, q := Accept(v)[0], p + |Print(f, v, depth)|;
    assert RetypeAll(Accept(v)) == [Retype(x)];
    match v {
      case StringValue(s) =>
        ScanStringLeaf(e, p, s);
      case NumberValue(n) =>
        hide Canonical, IntegerEvent, IntegerText, Retype, NumberEvent;
        var i :| -TWO63 <= i < TWO64 && n == Canonical(i);
        NumberText(f, i);
        ScanNumberLeaf(e, p, i);
      case NullValue =>
        ScanWordLeaf(e, p, NULL_WORD);
      case BoolValue(b) =>
        ScanWordLeaf(e, p, Word(b));
    }
    LeafReads(e, p, events, Retype(x), q);
  }

  lemma ScanStringLeaf(e: Env, p: nat, s: seq<byte>)
    requires At(e.text, p, Quoted(s)) && Readable(e.validateEncoding, s)
    ensures ScanScalar(e, p) == Scalar(p + |Quoted(s)|, String(s))
    ensures Peek(e.text, p) != LCURLY && Peek(e.text, p) != LBRACKET
  {
    ReadString(e.text, e.validateEncoding, p, s);
    hide ScanString, Quoted, At;
  }

  lemma ScanNumberLeaf(e: Env, p: nat, i: int)
    requires -TWO63 <= i < TWO64
    requires At(e.text, p, IntegerText(i)) && EndsNumber(Peek(e.text, p + |IntegerText(i)|))
    ensures ScanScalar(e, p) == Scalar(p + |IntegerText(i)|, IntegerEvent(i < 0, Abs(i)))
    ensures Peek(e.text, p) != LCURLY && Peek(e.text, p) != LBRACKET
  {
    ReadNumber(e, p, i);
    hide ScanNumber, IntegerText, At, EndsNumber;
  }

  lemma ScanWordLeaf(e: Env, p: nat, w: seq<byte>)
    requires At(e.text, p, w) && (w == NULL_WORD || w == TRUE_WORD || w == FALSE_WORD)
    ensures ScanScalar(e, p) == Scalar(p + |w|, if w == NULL_WORD then Null else Bool(w == TRUE_WORD))
    ensures Peek(e.text, p) != LCURLY && Peek(e.text, p) != LBRACKET
  {
    AtByte(e.text, p, w, 0);
    hide At;
  }

  lemma LeafReads(e: Env, p: nat, events: seq<Event>, x: Event, q: nat)
    requires Plain(e) && ScanScalar(e, p) == Scalar(q, x)
    requires Peek(e.text, p) != LCURLY && Peek(e.text, p) != LBRACKET
    ensures Reads(e, p, events, [x], q)
  {
    hide ScanScalar;
  }

  /** Whitespace between tokens. */
  lemma {:induction false} SkipLayout(t: Text, p: nat, w: seq<byte>)
    requires At(t, p, w) && (forall i :: 0 <= i < |w| ==> IsSpace(w[i])) && !IsSpace(Peek(t, p + |w|))
    ensures SkipSpace(t, p) == p + |w|
  {
    SkipOver(t, p, w);
  }

  /** The layout and the bracket behind the contents of a container. */
  function Closing(f: Format, depth: nat, bracket: byte): (s: seq<byte>)
    ensures s != []
  {
    NewLine(f, depth) + [bracket]
  }

  lemma {:induction false} ReadClosing(t: Text, f: Format, p: nat, depth: nat, bracket: byte)
    requires IsFormat(f) && At(t, p, Closing(f, depth, bracket)) && (bracket == RBRACKET || bracket == RCURLY)
    ensures SkipSpace(t, p) == p + |NewLine(f, depth)| && Peek(t, SkipSpace(t, p)) == bracket
    ensures EndsNumber(Peek(t, p))
  {
    AtSplit(t, p, NewLine(f, depth), [bracket]);
    AtByte(t, p + |NewLine(f, depth)|, [bracket], 0);
    SkipLayout(t, p, NewLine(f, depth));
    AtByte(t, p, Closing(f, depth, bracket), 0);
  }

  /** The byte behind a value inside a container: a comma, or the layout of the closing bracket. */
  lemma {:induction false} ReadComma(t: Text, p: nat, s: seq<byte>)
    requires At(t, p, [COMMA] + s)
    ensures Peek(t, p) == COMMA && SkipSpace(t, p) == p && EndsNumber(Peek(t, p)) && At(t, p + 1, s)
  {
    AtSplit(t, p, [COMMA], s);
    AtByte(t, p, [COMMA], 0);
  }

  /** The layout in front of a value: where the value starts and what comes behind it. */
  lemma {:induction false} LaidOut(t: Text, f: Format, p: nat, v: Value, depth: nat, behind: seq<byte>)
    requires IsFormat(f) && IsTree(v) && behind != [] && EndsNumber(behind[0])
    requires At(t, p, NewLine(f, depth) + Print(f, v, depth) + behind)
    ensures SkipSpace(t, p) == p + |NewLine(f, depth)| && Peek(t, SkipSpace(t, p)) != RBRACKET
    ensures var q := SkipSpace(t, p);
            var r := q + |Print(f, v, depth)|;
            At(t, q, Print(f, v, depth)) && EndsNumber(Peek(t, r)) && At(t, r, behind)
  {
    hide At, Print, EndsNumber;
    var n, s := NewLine(f, depth), Print(f, v, depth);
    AtSplit(t, p, n + s, behind);
    AtSplit(t, p, n, s);
    PrintFirst(f, v, depth);
    AtByte(t, p + |n|, s, 0);
    SkipLayout(t, p, n);
    AtByte(t, p + |n| + |s|, behind, 0);
  }

  /** The layout in front of a value, and the value. */
  lemma {:induction false} ReadLaidOut(e: Env, f: Format, p: nat, events: seq<Event>, v: Value, depth: nat, behind: seq<byte>)
    requires Plain(e) && IsFormat(f) && IsTree(v) && ReadableTree(e.validateEncoding, v)
    requires behind != [] && EndsNumber(behind[0])
    requires At(e.text, p, NewLine(f, depth) + Print(f, v, depth) + behind)
    ensures SkipSpace(e.text, p) == p + |NewLine(f, depth)| && Peek(e.text, SkipSpace(e.text, p)) != RBRACKET
    ensures var q := SkipSpace(e.text, p);
            var r := q + |Print(f, v, depth)|;
            Reads(e, q, events, RetypeAll(Accept(v)), r) && At(e.text, r, behind)
    decreases v, 3
  {
    hide At, Print, EndsNumber;
    LaidOut(e.text, f, p, v, depth, behind);
    ReadTree(e, f, SkipSpace(e.text, p), events, v, depth);
  }

  /** The first element is parsed, and the text behind it comes next. */
  lemma {:induction false} FirstElement(e: Env, f: Format, p: nat, events: seq<Event>, elements: seq<Value>, depth: nat)
    returns (r: nat, events': seq<Event>)
    requires Plain(e) && IsFormat(f) && elements != [] && AreTrees(elements) && ReadableAll(e.validateEncoding, elements) && depth > 0
    requires At(e.text, p, PrintElements(f, elements, depth) + Closing(f, depth - 1, RBRACKET))
    ensures r == p + |NewLine(f, depth)| + |Print(f, elements[0], depth)|
    ensures ParseValue(e, SkipSpace(e.text, p), events) == Outcome(r, events', NoError)
    ensures At(e.text, r, ElementsBehind(f, elements, depth)) && Peek(e.text, SkipSpace(e.text, p)) != RBRACKET
    ensures events + RetypeAll(AcceptElements(elements)) == events' + RetypeAll(AcceptElements(elements[1..]))
    ensures elements[1..] == [] ==> events + RetypeAll(AcceptElements(elements)) == events'
    decreases elements, 3
  {
    hide *;
    var v, q := elements[0], SkipSpace(e.text, p);
    r := p + |NewLine(f, depth)| + |Print(f, v, depth)|;
    events' := events + RetypeAll(Accept(v));
    ElementsCons(e.validateEncoding, elements);
    FirstBehind(f, elements, depth);
    ReadLaidOut(e, f, p, events, v, depth, ElementsBehind(f, elements, depth));
    ReadsIs(e, q, events, RetypeAll(Accept(v)), r);
    ElementsEvents(events, elements);
  }

  /** The last element, and the bracket that closes the array. */
  lemma {:induction false} ReadLastElement(e: Env, f: Format, p: nat, events: seq<Event>, elements: seq<Value>, depth: nat, n: nat)
    requires Plain(e) && IsFormat(f) && |elements| == 1 && AreTrees(elements) && ReadableAll(e.validateEncoding, elements)
    requires n + 1 < SIZE_LIMIT && depth > 0
    requires At(e.text, p, PrintElements(f, elements, depth) + Closing(f, depth - 1, RBRACKET))
    ensures Peek(e.text, SkipSpace(e.text, p)) != RBRACKET
    ensures ParseElements(e, SkipSpace(e.text, p), events, n)
         == Outcome(p + |PrintElements(f, elements, depth)| + |Closing(f, depth - 1, RBRACKET)|,
                    events + RetypeAll(AcceptElements(elements)) + [EndArray(n + 1)], NoError)
    decreases elements, 4
  {
    hide *;
    var r, events' := FirstElement(e, f, p, events, elements, depth);
    assert elements[1..] == [];
    ElementsBehindIs(f, elements, depth);
    ElementsLength(f, elements, depth);
    ClosingLength(f, depth - 1, RBRACKET);
    ReadClosing(e.text, f, r, depth - 1, RBRACKET);
    LastElement(e, SkipSpace(e.text, p), events, n, r, events');
  }

  /** The first of several, the comma, and the others. */
  lemma {:induction false} ReadMoreElements(e: Env, f: Format, p: nat, events: seq<Event>, elements: seq<Value>, depth: nat, n: nat)
    requires Plain(e) && IsFormat(f) && |elements| > 1 && AreTrees(elements) && ReadableAll(e.validateEncoding, elements)
    requires n + |elements| < SIZE_LIMIT && depth > 0
    requires At(e.text, p, PrintElements(f, elements, depth) + Closing(f, depth - 1, RBRACKET))
    ensures Peek(e.text, SkipSpace(e.text, p)) != RBRACKET
    ensures ParseElements(e, SkipSpace(e.text, p), events, n)
         == Outcome(p + |PrintElements(f, elements, depth)| + |Closing(f, depth - 1, RBRACKET)|,
                    events + RetypeAll(AcceptElements(elements)) + [EndArray(n + |elements|)], NoError)
    decreases elements, 4
  {
    hide *;
    var rest := elements[1..];
    var r, events' := FirstElement(e, f, p, events, elements, depth);
    MoreElements(f, elements, depth);
    ElementsCons(e.validateEncoding, elements);
    ReadComma(e.text, r, PrintElements(f, rest, depth) + Closing(f, depth - 1, RBRACKET));
    NextElement(e, SkipSpace(e.text, p), events, n, r, events');
    assert n + 1 + |rest| == n + |elements|;
    ReadElements(e, f, r + 1, events', rest, depth, n + 1);
  }

  lemma {:induction false} ReadElements(e: Env, f: Format, p: nat, events: seq<Event>, elements: seq<Value>, depth: nat, n: nat)
    requires Plain(e) && IsFormat(f) && elements != [] && AreTrees(elements) && ReadableAll(e.validateEncoding, elements)
    requires n + |elements| < SIZE_LIMIT && depth > 0
    requires At(e.text, p, PrintElements(f, elements, depth) + Closing(f, depth - 1, RBRACKET))
    ensures Peek(e.text, SkipSpace(e.text, p)) != RBRACKET
    ensures ParseElements(e, SkipSpace(e.text, p), events, n)
         == Outcome(p + |PrintElements(f, elements, depth)| + |Closing(f, depth - 1, RBRACKET)|,
                    events + RetypeAll(AcceptElements(elements)) + [EndArray(n + |elements|)], NoError)
    decreases elements, 5
  {
    hide *;
    if |elements| == 1 {
      ReadLastElement(e, f, p, events, elements, depth, n);
    } else {
      ReadMoreElements(e, f, p, events, elements, depth, n);
    }
  }

  lemma ElementsCons(validate: bool, elements: seq<Value>)
    requires elements != [] && AreTrees(elements) && ReadableAll(validate, elements)
    ensures IsTree(elements[0]) && ReadableTree(validate, elements[0]) && AreTrees(elements[1..]) && ReadableAll(validate, elements[1..])
  {
  }

  lemma ReadsIs(e: Env, p: nat, events: seq<Event>, xs: seq<Event>, q: nat)
    requires Reads(e, p, events, xs, q)
    ensures ParseValue(e, p, events) == Outcome(q, events + xs, NoError)
  {
  }

  /** The events of the first element, and those of the rest. */
  lemma ElementsEvents(events: seq<Event>, elements: seq<Value>)
    requires elements != []
    ensures var v, rest := elements[0], elements[1..];
            var events' := events + RetypeAll(Accept(v));
            && events + RetypeAll(AcceptElements(elements)) == events' + RetypeAll(AcceptElements(rest))
            && (rest == [] ==> events + RetypeAll(AcceptElements(elements)) == events')
  {
    var v, rest := elements[0], elements[1..];
    RetypeAppend(Accept(v), AcceptElements(rest));
    hide RetypeAll, Accept;
    Associate(events, RetypeAll(Accept(v)), RetypeAll(AcceptElements(rest)));
    if rest == [] {
      EmptyBody();
    }
  }

  lemma ElementsLength(f: Format, elements: seq<Value>, depth: nat)
    requires elements != []
    ensures |PrintElements(f, elements, depth)| == |NewLine(f, depth)| + |Print(f, elements[0], depth)|
                                                   + if elements[1..] == [] then 0 else 1 + |PrintElements(f, elements[1..], depth)|
  {
  }

  /** Behind the first of several elements: a comma and the others. */
  lemma MoreElements(f: Format, elements: seq<Value>, depth: nat)
    requires |elements| > 1 && depth > 0
    ensures var rest := elements[1..];
            && |PrintElements(f, elements, depth)|
               == |NewLine(f, depth)| + |Print(f, elements[0], depth)| + 1 + |PrintElements(f, rest, depth)|
            && ElementsBehind(f, elements, depth) == [COMMA] + (PrintElements(f, rest, depth) + Closing(f, depth - 1, RBRACKET))
  {
    hide *;
    ElementsLength(f, elements, depth);
    ElementsBehindIs(f, elements, depth);
    assert |elements[1..]| > 0;
  }

  lemma ElementsBehindIs(f: Format, elements: seq<Value>, depth: nat)
    requires elements != [] && depth > 0
    ensures var close := Closing(f, depth - 1, RBRACKET);
            ElementsBehind(f, elements, depth) == if elements[1..] == [] then close else [COMMA] + (PrintElements(f, elements[1..], depth) + close)
  {
  }

  /** A comma behind an element: the parser goes on with the next one. */
  lemma NextElement(e: Env, q: nat, events: seq<Event>, n: nat, r: nat, events': seq<Event>)
    requires ParseValue(e, q, events) == Outcome(r, events', NoError) && n + 1 < SIZE_LIMIT
    requires SkipSpace(e.text, r) == r && Peek(e.text, r) == COMMA
    ensures ParseElements(e, q, events, n) == ParseElements(e, SkipSpace(e.text, r + 1), events', n + 1)
  {
    hide ParseValue, SkipSpace, ParseName, ParseElements;
    ElementUnfold(e, q, events, n);
  }

  /** A closing bracket behind an element. */
  lemma LastElement(e: Env, q: nat, events: seq<Event>, n: nat, r: nat, events': seq<Event>)
    requires ParseValue(e, q, events) == Outcome(r, events', NoError) && n + 1 < SIZE_LIMIT && Plain(e)
    requires Peek(e.text, SkipSpace(e.text, r)) == RBRACKET
    ensures ParseElements(e, q, events, n) == Outcome(SkipSpace(e.text, r) + 1, events' + [EndArray(n + 1)], NoError)
  {
    hide ParseValue, SkipSpace, ParseName, ParseElements;
    ElementUnfold(e, q, events, n);
  }

  /** What the text of an array has behind its first element. */
  function ElementsBehind(f: Format, elements: seq<Value>, depth: nat): seq<byte>
    requires elements != [] && depth > 0
  {
    var close := Closing(f, depth - 1, RBRACKET);
    if elements[1..] == [] then close else [COMMA] + (PrintElements(f, elements[1..], depth) + close)
  }

  lemma {:induction false} FirstBehind(f: Format, elements: seq<Value>, depth: nat)
    requires elements != [] && depth > 0
    ensures var behind := ElementsBehind(f, elements, depth);
            && PrintElements(f, elements, depth) + Closing(f, depth - 1, RBRACKET)
               == NewLine(f, depth) + Print(f, elements[0], depth) + behind
            && behind != [] && EndsNumber(behind[0])
  {
    hide Print, Repeat;
    var a, close := NewLine(f, depth) + Print(f, elements[0], depth), Closing(f, depth - 1, RBRACKET);
    var rest := elements[1..];
    if rest == [] {
      assert a + [] == a;
    } else {
      assert a + ([COMMA] + PrintElements(f, rest, depth)) + close == a + ([COMMA] + (PrintElements(f, rest, depth) + close));
    }
  }

  lemma ClosingLength(f: Format, depth: nat, bracket: byte)
    ensures |Closing(f, depth, bracket)| == |NewLine(f, depth)| + 1
  {
  }

  lemma {:induction false} ReadEmptyArray(e: Env, f: Format, p: nat, events: seq<Event>, depth: nat)
    requires Plain(e) && At(e.text, p, Print(f, ArrayValue([]), depth))
    ensures Reads(e, p, events, RetypeAll(Accept(ArrayValue([]))), p + |Print(f, ArrayValue([]), depth)|)
  {
    hide At, SkipSpace, NewLine, ParseElements;
    assert RetypeAll([StartArray, EndArray(0)]) == [StartArray, EndArray(0)];
    assert Accept(ArrayValue([])) == [StartArray, EndArray(0)];
    AtByte(e.text, p, [LBRACKET, RBRACKET], 0);
    AtByte(e.text, p, [LBRACKET, RBRACKET], 1);
    EmptySkip(e.text, p + 1);
    assert events + [StartArray] + [EndArray(0)] == events + [StartArray, EndArray(0)];
  }

  lemma ArrayEvents(events: seq<Event>, elements: seq<Value>)
    ensures events + RetypeAll(Accept(ArrayValue(elements)))
         == events + [StartArray] + RetypeAll(AcceptElements(elements)) + [EndArray(|elements|)]
  {
    hide AcceptElements, RetypeAll;
    RetypeBrackets(StartArray, AcceptElements(elements), EndArray(|elements|));
    Rebracket(events, [StartArray], RetypeAll(AcceptElements(elements)), [EndArray(|elements|)]);
  }

  lemma Rebracket(events: seq<Event>, start: seq<Event>, body: seq<Event>, end: seq<Event>)
    ensures events + (start + body + end) == events + start + body + end
  {
  }

  lemma ArrayText(f: Format, elements: seq<Value>, depth: nat)
    requires elements != []
    ensures Print(f, ArrayValue(elements), depth) == [LBRACKET] + (PrintElements(f, elements, depth + 1) + Closing(f, depth, RBRACKET))
  {
    hide PrintElements, Closing, NewLine;
    BracketText(f, depth, LBRACKET, PrintElements(f, elements, depth + 1), RBRACKET);
  }

  /** The bracket that opens an array, where its first element comes next. */
  lemma OpenArray(e: Env, p: nat, events: seq<Event>)
    requires Plain(e) && Peek(e.text, p) == LBRACKET && Peek(e.text, SkipSpace(e.text, p + 1)) != RBRACKET
    ensures ParseValue(e, p, events) == ParseElements(e, SkipSpace(e.text, p + 1), events + [StartArray], 0)
  {
    hide SkipSpace, ParseElements;
  }

  lemma {:induction false} ReadArray(e: Env, f: Format, p: nat, events: seq<Event>, elements: seq<Value>, depth: nat)
    requires Plain(e) && IsFormat(f) && AreTrees(elements) && ReadableAll(e.validateEncoding, elements) && |elements| < SIZE_LIMIT
    requires At(e.text, p, Print(f, ArrayValue(elements), depth))
    ensures Reads(e, p, events, RetypeAll(Accept(ArrayValue(elements))), p + |Print(f, ArrayValue(elements), depth)|)
    decreases elements, 6
  {
    hide At, SkipSpace, ParseElements, ParseValue, Accept, AcceptElements, PrintElements, Print, Closing, RetypeAll, Peek;
    if elements == [] {
      ReadEmptyArray(e, f, p, events, depth);
    } else {
      var text := PrintElements(f, elements, depth + 1) + Closing(f, depth, RBRACKET);
      ArrayText(f, elements, depth);
      AtSplit(e.text, p, [LBRACKET], text);
      AtByte(e.text, p, [LBRACKET], 0);
      ReadElements(e, f, p + 1, events + [StartArray], elements, depth + 1, 0);
      OpenArray(e, p, events);
      ArrayEvents(events, elements);
    }
  }

  lemma BracketText(f: Format, depth: nat, open: byte, text: seq<byte>, bracket: byte)
    ensures [open] + text + NewLine(f, depth) + [bracket] == [open] + (text + Closing(f, depth, bracket))
  {
  }

  lemma EmptySkip(t: Text, p: nat)
    requires Peek(t, p) == RBRACKET || Peek(t, p) == RCURLY
    ensures SkipSpace(t, p) == p
  {
  }

  lemma EmptyBody()
    ensures AcceptElements([]) == [] && AcceptMembers([]) == [] && RetypeAll([]) == []
  {
  }

  // ---------- Objects ----------

  /** What the text of an object has behind its first member. */
  function MembersBehind(f: Format, members: seq<Member>, depth: nat): seq<byte>
    requires members != [] && depth > 0
  {
    var close := Closing(f, depth - 1, RCURLY);
    if members[1..] == [] then close else [COMMA] + (PrintMembers(f, members[1..], depth) + close)
  }

  lemma {:induction false} MemberBehind(f: Format, members: seq<Member>, depth: nat)
    requires members != [] && depth > 0
    ensures var behind := MembersBehind(f, members, depth);
            && PrintMembers(f, members, depth) + Closing(f, depth - 1, RCURLY)
               == NewLine(f, depth) + Quoted(members[0].name) + Colon(f) + Print(f, members[0].value, depth) + behind
            && behind != [] && EndsNumber(behind[0])
  {
    hide Print, Repeat, Quoted;
    var a, close := NewLine(f, depth) + Quoted(members[0].name) + Colon(f) + Print(f, members[0].value, depth), Closing(f, depth - 1, RCURLY);
    var rest := members[1..];
    if rest == [] {
      assert a + [] == a;
    } else {
      assert a + ([COMMA] + PrintMembers(f, rest, depth)) + close == a + ([COMMA] + (PrintMembers(f, rest, depth) + close));
    }
  }

  /** The colon between a name and its value, with the blank that the indented form puts behind it. */
  lemma {:induction false} ReadColon(t: Text, f: Format, p: nat, c: byte)
    requires At(t, p, Colon(f)) && Peek(t, p + |Colon(f)|) == c && !IsSpace(c)
    ensures SkipSpace(t, p) == p && Peek(t, p) == COLON && SkipSpace(t, p + 1) == p + |Colon(f)|
  {
    AtByte(t, p, Colon(f), 0);
    if f.Pretty? {
      AtByte(t, p, Colon(f), 1);
    }
  }

  /** A name, a colon and a value have been parsed, up to `r`. */
  predicate MemberParsed(e: Env, q: nat, events: seq<Event>, r: nat, events': seq<Event>) {
    var k := ParseName(e, q, events);
    k.Ok() && ParseValue(e, k.pos, k.events) == Outcome(r, events', NoError)
  }

  /** The layout in front of a member, its name, and the colon; `c` is the first byte of the value. */
  lemma {:induction false} ReadName(e: Env, f: Format, p: nat, events: seq<Event>, s: seq<byte>, depth: nat, c: byte)
    requires Plain(e) && IsFormat(f) && Readable(e.validateEncoding, s) && !IsSpace(c)
    requires var k := p + |NewLine(f, depth)| + |Quoted(s)|;
             && At(e.text, p, NewLine(f, depth)) && At(e.text, p + |NewLine(f, depth)|, Quoted(s)) && At(e.text, k, Colon(f))
             && Peek(e.text, k + |Colon(f)|) == c
    ensures ParseName(e, SkipSpace(e.text, p), events)
         == Outcome(p + |NewLine(f, depth)| + |Quoted(s)| + |Colon(f)|, events + [Key(s)], NoError)
  {
    hide At, Quoted, NewLine, Colon, SkipSpace, ScanString, Peek;
    var n := NewLine(f, depth);
    ReadString(e.text, e.validateEncoding, p + |n|, s);
    QuoteIsNoSpace();
    SkipLayout(e.text, p, n);
    ReadColon(e.text, f, p + |n| + |Quoted(s)|, c);
  }

  /** The parts of a member's text. */
  lemma {:induction false} MemberLaidOut(t: Text, f: Format, p: nat, m: Member, depth: nat, behind: seq<byte>)
    requires IsFormat(f) && IsTree(m.value) && behind != [] && EndsNumber(behind[0])
    requires At(t, p, NewLine(f, depth) + Quoted(m.name) + Colon(f) + Print(f, m.value, depth) + behind)
    ensures var k := p + |NewLine(f, depth)| + |Quoted(m.name)|;
            var q := k + |Colon(f)|;
            var s := Print(f, m.value, depth);
            && At(t, p, NewLine(f, depth)) && At(t, p + |NewLine(f, depth)|, Quoted(m.name)) && At(t, k, Colon(f)) && At(t, q, s)
            && s != [] && Peek(t, q) == s[0] && !IsSpace(s[0]) && EndsNumber(Peek(t, q + |s|)) && At(t, q + |s|, behind)
  {
    hide *;
    var n, name, colon, s := NewLine(f, depth), Quoted(m.name), Colon(f), Print(f, m.value, depth);
    var k := p + |n| + |name| + |colon|;
    SplitMember(t, p, n, name, colon, s, behind);
    PrintFirst(f, m.value, depth);
    AtByte(t, k, s, 0);
    AtByte(t, k + |s|, behind, 0);
  }

  /** The layout in front of a member, its name, and its value. */
  lemma {:induction false} ReadMember(e: Env, f: Format, p: nat, events: seq<Event>, m: Member, depth: nat, behind: seq<byte>)
    requires Plain(e) && IsFormat(f) && IsTree(m.value) && Readable(e.validateEncoding, m.name) && ReadableTree(e.validateEncoding, m.value)
    requires behind != [] && EndsNumber(behind[0])
    requires At(e.text, p, NewLine(f, depth) + Quoted(m.name) + Colon(f) + Print(f, m.value, depth) + behind)
    ensures var q := SkipSpace(e.text, p);
            var r := p + |NewLine(f, depth)| + |Quoted(m.name)| + |Colon(f)| + |Print(f, m.value, depth)|;
            && At(e.text, r, behind)
            && MemberParsed(e, q, events, r, events + [Key(m.name)] + RetypeAll(Accept(m.value)))
    decreases m, 3
  {
    hide *;
    var s := Print(f, m.value, depth);
    var k := p + |NewLine(f, depth)| + |Quoted(m.name)| + |Colon(f)|;
    MemberLaidOut(e.text, f, p, m, depth, behind);
    ReadName(e, f, p, events, m.name, depth, s[0]);
    ReadTree(e, f, k, events + [Key(m.name)], m.value, depth);
    MemberIs(e, SkipSpace(e.text, p), events, k, m.name, k + |s|, RetypeAll(Accept(m.value)));
  }

  lemma MemberIs(e: Env, q: nat, events: seq<Event>, k: nat, name: seq<byte>, r: nat, xs: seq<Event>)
    requires ParseName(e, q, events) == Outcome(k, events + [Key(name)], NoError)
    requires Reads(e, k, events + [Key(name)], xs, r)
    ensures MemberParsed(e, q, events, r, events + [Key(name)] + xs)
  {
    hide ParseName, ParseValue;
  }

  lemma QuoteIsNoSpace()
    ensures !IsSpace(QUOTE)
  {
  }

  lemma SplitMember(t: Text, p: nat, n: seq<byte>, name: seq<byte>, colon: seq<byte>, s: seq<byte>, behind: seq<byte>)
    requires At(t, p, n + name + colon + s + behind)
    ensures At(t, p, n) && At(t, p + |n|, name) && At(t, p + |n| + |name|, colon)
    ensures At(t, p + |n| + |name| + |colon|, s) && At(t, p + |n| + |name| + |colon| + |s|, behind)
  {
    hide At;
    AtSplit(t, p, n + name + colon + s, behind);
    AtSplit(t, p, n + name + colon, s);
    AtSplit(t, p, n + name, colon);
    AtSplit(t, p, n, name);
  }

  /** The first member is parsed, and the text behind it comes next. */
  lemma {:induction false} FirstMember(e: Env, f: Format, p: nat, events: seq<Event>, members: seq<Member>, depth: nat)
    returns (r: nat, events': seq<Event>)
    requires Plain(e) && IsFormat(f) && members != [] && AreMembers(members) && ReadableMembers(e.validateEncoding, members) && depth > 0
    requires At(e.text, p, PrintMembers(f, members, depth) + Closing(f, depth - 1, RCURLY))
    ensures r == p + |NewLine(f, depth)| + |Quoted(members[0].name)| + |Colon(f)| + |Print(f, members[0].value, depth)|
    ensures MemberParsed(e, SkipSpace(e.text, p), events, r, events')
    ensures At(e.text, r, MembersBehind(f, members, depth)) && Peek(e.text, SkipSpace(e.text, p)) == QUOTE
    ensures events + RetypeAll(AcceptMembers(members)) == events' + RetypeAll(AcceptMembers(members[1..]))
    ensures members[1..] == [] ==> events + RetypeAll(AcceptMembers(members)) == events'
    decreases members, 3
  {
    hide *;
    var m := members[0];
    r := p + |NewLine(f, depth)| + |Quoted(m.name)| + |Colon(f)| + |Print(f, m.value, depth)|;
    events' := events + [Key(m.name)] + RetypeAll(Accept(m.value));
    MembersCons(e.validateEncoding, members);
    MemberBehind(f, members, depth);
    ReadMember(e, f, p, events, m, depth, MembersBehind(f, members, depth));
    MemberStarts(e, SkipSpace(e.text, p), events, r, events');
    MembersEvents(events, members);
  }

  /** The last member, and the bracket that closes the object. */
  lemma {:induction false} ReadLastMember(e: Env, f: Format, p: nat, events: seq<Event>, members: seq<Member>, depth: nat, n: nat)
    requires Plain(e) && IsFormat(f) && |members| == 1 && AreMembers(members) && ReadableMembers(e.validateEncoding, members)
    requires n + 1 < SIZE_LIMIT && depth > 0
    requires At(e.text, p, PrintMembers(f, members, depth) + Closing(f, depth - 1, RCURLY))
    ensures ParseMembers(e, SkipSpace(e.text, p), events, n)
         == Outcome(p + |PrintMembers(f, members, depth)| + |Closing(f, depth - 1, RCURLY)|,
                    events + RetypeAll(AcceptMembers(members)) + [EndObject(n + 1)], NoError)
    ensures Peek(e.text, SkipSpace(e.text, p)) == QUOTE
    decreases members, 4
  {
    hide *;
    var r, events' := FirstMember(e, f, p, events, members, depth);
    assert members[1..] == [];
    MembersBehindIs(f, members, depth);
    MembersLength(f, members, depth);
    ClosingLength(f, depth - 1, RCURLY);
    ReadClosing(e.text, f, r, depth - 1, RCURLY);
    LastMember(e, SkipSpace(e.text, p), events, n, r, events');
  }

  /** The first of several, the comma, and the others. */
  lemma {:induction false} ReadMoreMembers(e: Env, f: Format, p: nat, events: seq<Event>, members: seq<Member>, depth: nat, n: nat)
    requires Plain(e) && IsFormat(f) && |members| > 1 && AreMembers(members) && ReadableMembers(e.validateEncoding, members)
    requires n + |members| < SIZE_LIMIT && depth > 0
    requires At(e.text, p, PrintMembers(f, members, depth) + Closing(f, depth - 1, RCURLY))
    ensures Peek(e.text, SkipSpace(e.text, p)) == QUOTE
    ensures ParseMembers(e, SkipSpace(e.text, p), events, n)
         == Outcome(p + |PrintMembers(f, members, depth)| + |Closing(f, depth - 1, RCURLY)|,
                    events + RetypeAll(AcceptMembers(members)) + [EndObject(n + |members|)], NoError)
    decreases members, 4
  {
    hide *;
    var rest := members[1..];
    var r, events' := FirstMember(e, f, p, events, members, depth);
    MoreMembers(f, members, depth);
    MembersCons(e.validateEncoding, members);
    ReadComma(e.text, r, PrintMembers(f, rest, depth) + Closing(f, depth - 1, RCURLY));
    NextMember(e, SkipSpace(e.text, p), events, n, r, events');
    assert n + 1 + |rest| == n + |members|;
    ReadMembers(e, f, r + 1, events', rest, depth, n + 1);
  }

  lemma {:induction false} ReadMembers(e: Env, f: Format, p: nat, events: seq<Event>, members: seq<Member>, depth: nat, n: nat)
    requires Plain(e) && IsFormat(f) && members != [] && AreMembers(members) && ReadableMembers(e.validateEncoding, members)
    requires n + |members| < SIZE_LIMIT && depth > 0
    requires At(e.text, p, PrintMembers(f, members, depth) + Closing(f, depth - 1, RCURLY))
    ensures Peek(e.text, SkipSpace(e.text, p)) == QUOTE
    ensures ParseMembers(e, SkipSpace(e.text, p), events, n)
         == Outcome(p + |PrintMembers(f, members, depth)| + |Closing(f, depth - 1, RCURLY)|,
                    events + RetypeAll(AcceptMembers(members)) + [EndObject(n + |members|)], NoError)
    decreases members, 5
  {
    hide *;
    if |members| == 1 {
      ReadLastMember(e, f, p, events, members, depth, n);
    } else {
      ReadMoreMembers(e, f, p, events, members, depth, n);
    }
  }

  lemma MembersCons(validate: bool, members: seq<Member>)
    requires members != [] && AreMembers(members) && ReadableMembers(validate, members)
    ensures var m, rest := members[0], members[1..];
            && IsTree(m.value) && Readable(validate, m.name) && ReadableTree(validate, m.value)
            && AreMembers(rest) && ReadableMembers(validate, rest)
  {
  }

  /** The events of the first member, and those of the rest. */
  lemma MembersEvents(events: seq<Event>, members: seq<Member>)
    requires members != []
    ensures var m, rest := members[0], members[1..];
            var events' := events + [Key(m.name)] + RetypeAll(Accept(m.value));
            && events + RetypeAll(AcceptMembers(members)) == events' + RetypeAll(AcceptMembers(rest))
            && (rest == [] ==> events + RetypeAll(AcceptMembers(members)) == events')
  {
    var m, rest := members[0], members[1..];
    RetypeMember(m, rest);
    hide RetypeAll, Accept;
    Associate(events, [Key(m.name)], RetypeAll(Accept(m.value)));
    Associate(events, [Key(m.name)] + RetypeAll(Accept(m.value)), RetypeAll(AcceptMembers(rest)));
    if rest == [] {
      EmptyBody();
    }
  }

  lemma MembersLength(f: Format, members: seq<Member>, depth: nat)
    requires members != []
    ensures |PrintMembers(f, members, depth)| == |NewLine(f, depth)| + |Quoted(members[0].name)| + |Colon(f)| + |Print(f, members[0].value, depth)|
                                                 + if members[1..] == [] then 0 else 1 + |PrintMembers(f, members[1..], depth)|
  {
  }

  /** Behind the first of several members: a comma and the others. */
  lemma MoreMembers(f: Format, members: seq<Member>, depth: nat)
    requires |members| > 1 && depth > 0
    ensures var m, rest := members[0], members[1..];
            && |PrintMembers(f, members, depth)|
               == |NewLine(f, depth)| + |Quoted(m.name)| + |Colon(f)| + |Print(f, m.value, depth)| + 1 + |PrintMembers(f, rest, depth)|
            && MembersBehind(f, members, depth) == [COMMA] + (PrintMembers(f, rest, depth) + Closing(f, depth - 1, RCURLY))
  {
    hide *;
    MembersLength(f, members, depth);
    MembersBehindIs(f, members, depth);
    assert |members[1..]| > 0;
  }

  lemma MemberStarts(e: Env, q: nat, events: seq<Event>, r: nat, events': seq<Event>)
    requires MemberParsed(e, q, events, r, events')
    ensures Peek(e.text, q) == QUOTE
  {
    hide ParseValue;
  }

  lemma RetypeMember(m: Member, rest: seq<Member>)
    ensures var head := [Key(m.name)] + Accept(m.value);
            && RetypeAll(head) == [Key(m.name)] + RetypeAll(Accept(m.value))
            && RetypeAll(head + AcceptMembers(rest)) == RetypeAll(head) + RetypeAll(AcceptMembers(rest))
  {
    RetypeAppend([Key(m.name)], Accept(m.value));
    RetypeAppend([Key(m.name)] + Accept(m.value), AcceptMembers(rest));
    assert RetypeAll([Key(m.name)]) == [Key(m.name)];
    hide Accept, AcceptMembers;
  }

  lemma MembersBehindIs(f: Format, members: seq<Member>, depth: nat)
    requires members != [] && depth > 0
    ensures var close := Closing(f, depth - 1, RCURLY);
            MembersBehind(f, members, depth) == if members[1..] == [] then close else [COMMA] + (PrintMembers(f, members[1..], depth) + close)
  {
  }

  lemma NextMember(e: Env, q: nat, events: seq<Event>, n: nat, r: nat, events': seq<Event>)
    requires MemberParsed(e, q, events, r, events') && n + 1 < SIZE_LIMIT
    requires SkipSpace(e.text, r) == r && Peek(e.text, r) == COMMA
    ensures ParseMembers(e, q, events, n) == ParseMembers(e, SkipSpace(e.text, r + 1), events', n + 1)
  {
    hide ParseValue, SkipSpace, ParseName, ParseMembers;
    MemberUnfold(e, q, events, n);
  }

  lemma LastMember(e: Env, q: nat, events: seq<Event>, n: nat, r: nat, events': seq<Event>)
    requires MemberParsed(e, q, events, r, events') && n + 1 < SIZE_LIMIT && Plain(e)
    requires Peek(e.text, SkipSpace(e.text, r)) == RCURLY
    ensures ParseMembers(e, q, events, n) == Outcome(SkipSpace(e.text, r) + 1, events' + [EndObject(n + 1)], NoError)
  {
    hide ParseValue, SkipSpace, ParseName, ParseMembers;
    MemberUnfold(e, q, events, n);
  }

  lemma {:induction false} ReadEmptyObject(e: Env, f: Format, p: nat, events: seq<Event>, depth: nat)
    requires Plain(e) && At(e.text, p, Print(f, ObjectValue([]), depth))
    ensures Reads(e, p, events, RetypeAll(Accept(ObjectValue([]))), p + |Print(f, ObjectValue([]), depth)|)
  {
    hide At, SkipSpace, NewLine, ParseMembers;
    assert RetypeAll([StartObject, EndObject(0)]) == [StartObject, EndObject(0)];
    assert Accept(ObjectValue([])) == [StartObject, EndObject(0)];
    AtByte(e.text, p, [LCURLY, RCURLY], 0);
    AtByte(e.text, p, [LCURLY, RCURLY], 1);
    EmptySkip(e.text, p + 1);
    assert events + [StartObject] + [EndObject(0)] == events + [StartObject, EndObject(0)];
  }

  /** The events of an object with its members' events in the middle. */
  lemma ObjectEvents(events: seq<Event>, members: seq<Member>)
    ensures events + RetypeAll(Accept(ObjectValue(members)))
         == events + [StartObject] + RetypeAll(AcceptMembers(members)) + [EndObject(|members|)]
  {
    hide AcceptMembers, RetypeAll;
    RetypeBrackets(StartObject, AcceptMembers(members), EndObject(|members|));
    Rebracket(events, [StartObject], RetypeAll(AcceptMembers(members)), [EndObject(|members|)]);
  }

  lemma ObjectText(f: Format, members: seq<Member>, depth: nat)
    requires members != []
    ensures Print(f, ObjectValue(members), depth) == [LCURLY] + (PrintMembers(f, members, depth + 1) + Closing(f, depth, RCURLY))
  {
    hide PrintMembers, Closing, NewLine;
    BracketText(f, depth, LCURLY, PrintMembers(f, members, depth + 1), RCURLY);
  }

  /** The bracket that opens an object, where its first name comes next. */
  lemma OpenObject(e: Env, p: nat, events: seq<Event>)
    requires Plain(e) && Peek(e.text, p) == LCURLY && Peek(e.text, SkipSpace(e.text, p + 1)) == QUOTE
    ensures ParseValue(e, p, events) == ParseMembers(e, SkipSpace(e.text, p + 1), events + [StartObject], 0)
  {
    hide SkipSpace, ParseMembers;
  }

  lemma {:induction false} ReadObject(e: Env, f: Format, p: nat, events: seq<Event>, members: seq<Member>, depth: nat)
    requires Plain(e) && IsFormat(f) && AreMembers(members) && ReadableMembers(e.validateEncoding, members) && |members| < SIZE_LIMIT
    requires At(e.text, p, Print(f, ObjectValue(members), depth))
    ensures Reads(e, p, events, RetypeAll(Accept(ObjectValue(members))), p + |Print(f, ObjectValue(members), depth)|)
    decreases members, 6
  {
    hide At, SkipSpace, ParseMembers, ParseValue, Accept, AcceptMembers, PrintMembers, Print, Closing, RetypeAll, Peek;
    if members == [] {
      ReadEmptyObject(e, f, p, events, depth);
    } else {
      var text := PrintMembers(f, members, depth + 1) + Closing(f, depth, RCURLY);
      ObjectText(f, members, depth);
      AtSplit(e.text, p, [LCURLY], text);
      AtByte(e.text, p, [LCURLY], 0);
      ReadMembers(e, f, p + 1, events + [StartObject], members, depth + 1, 0);
      OpenObject(e, p, events);
      ObjectEvents(events, members);
    }
  }
}
