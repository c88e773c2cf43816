/** What a validating reader refuses of a text that the writer has made: the strings that are not well-formed UTF-8. */
module Rereading {
  import opened Stream
  import opened Sequences
  import opened Events
  import opened Grammar
  import opened Dom
  import opened Printing
  import opened ReadBack
  import Utf8

  // ---------- Strings ----------

  /** The next byte of a quoted string is beyond ASCII exactly where the string's next byte is, and then it is that byte. */
  lemma NextByte(t: Text, p: nat, s: Text, i: nat)
    requires i <= |s| && At(t, p, EscapeAll(s[i..]) + [QUOTE])
    ensures Peek(t, p) >= 0x80 ==> i < |s| && s[i] == Peek(t, p)
    ensures i < |s| && s[i] >= 0x80 ==> Peek(t, p) == s[i] && At(t, p + 1, EscapeAll(s[i + 1..]) + [QUOTE])
  {
    hide At, EscapeAll, EscapeByte;
    AtByte(t, p, EscapeAll(s[i..]) + [QUOTE], 0);
    if i == |s| {
      assert s[i..] == [];
      NothingEscaped();
    } else {
      RestSplits(t, p, s, i, 1);
      assert s[i..i + 1] == [s[i]];
      EscapeOne(s[i]);
      AtByte(t, p, EscapeByte(s[i]), 0);
      FirstEscaped(s[i]);
    }
  }

  lemma NothingEscaped()
    ensures EscapeAll([]) + [QUOTE] == [QUOTE]
  {
  }

  lemma FirstEscaped(c: byte)
    ensures c >= 0x80 ==> EscapeByte(c) == [c]
    ensures c < 0x80 ==> EscapeByte(c)[0] < 0x80
  {
  }

  /** A UTF8-char in the text is one in the string. */
  lemma CharBack(t: Text, p: nat, s: Text, i: nat)
    requires i < |s| && s[i] >= 0x80 && At(t, p, EscapeAll(s[i..]) + [QUOTE]) && Utf8.CharLen(t, p) != 0
    ensures Utf8.CharLen(s, i) != 0
  {
    hide At, EscapeAll, Utf8.CharLen;
    NextByte(t, p, s, i);
    Utf8.LengthIs(t, p);
    NextByte(t, p + 1, s, i + 1);
    if Utf8.More(s[i]) >= 2 {
      NextByte(t, p + 2, s, i + 2);
      if Utf8.More(s[i]) == 3 {
        NextByte(t, p + 3, s, i + 3);
      }
    }
    Utf8.LengthIs(s, i);
  }

  /** The rest of a string from byte `i` on, which is not well formed. */
  lemma {:induction false} RefuseRest(t: Text, p: nat, s: Text, i: nat)
    requires i <= |s| && At(t, p, EscapeAll(s[i..]) + [QUOTE]) && !Utf8.WellFormedFrom(s, i)
    ensures ScanString(t, true, p, s[..i]).StrError?
    decreases |s| - i
  {
    hide ScanString, EscapeAll, At, Utf8.CharLen;
    if Utf8.CharLen(s, i) == 0 {
      if Utf8.CharLen(t, p) != 0 {
        if s[i] < 0x80 { AsciiLength(s, i); }
        CharBack(t, p, s, i);
      }
      if s[i] < 0x80 { AsciiLength(s, i); }
      NextByte(t, p, s, i);
      NoCharacter(t, p, s[..i]);
    } else {
      var n := Turn(true, s, i);
      RestSplits(t, p, s, i, n);
      ReadTurn(t, true, p, s, i);
      if s[i] < 0x80 { AsciiLength(s, i); }
      RefuseRest(t, p + |EscapeAll(s[i..i + n])|, s, i + n);
    }
  }

  lemma NoCharacter(t: Text, p: nat, acc: seq<byte>)
    requires Peek(t, p) >= 0x80 && Utf8.CharLen(t, p) == 0
    ensures ScanString(t, true, p, acc) == StrError(StringInvalidEncoding)
  {
    hide Utf8.CharLen;
  }

  /** A whole string. */
  lemma {:induction false} RefuseString(t: Text, p: nat, s: seq<byte>)
    requires At(t, p, Quoted(s)) && !Utf8.WellFormed(s)
    ensures Peek(t, p) == QUOTE && ScanString(t, true, p + 1, []).StrError?
  {
    hide ScanString, EscapeAll, At;
    Associate([QUOTE], EscapeAll(s), [QUOTE]);
    AtSplit(t, p, [QUOTE], EscapeAll(s) + [QUOTE]);
    AtByte(t, p, [QUOTE], 0);
    assert s[0..] == s && s[..0] == [];
    RefuseRest(t, p + 1, s, 0);
  }

  // ---------- Trees ----------

  /** A tree with such a string in it, at any place. */
  lemma {:induction false} RefuseTree(e: Env, f: Format, p: nat, events: seq<Event>, v: Value, depth: nat)
    requires Plain(e) && e.validateEncoding && IsFormat(f) && IsTree(v) && !ReadableTree(true, v)
    requires At(e.text, p, Print(f, v, depth))
    ensures !ParseValue(e, p, events).Ok()
    decreases v, 2
  {
    hide Print, At, ParseValue;
    match v {
      case ArrayValue(elements) => RefuseArray(e, f, p, events, elements, depth);
      case ObjectValue(members) => RefuseObject(e, f, p, events, members, depth);
      case StringValue(s) =>
        PrintsString(f, s, depth);
        RefuseString(e.text, p, s);
        RefuseLeaf(e, p, events);
      case _ =>
    }
  }

  lemma PrintsString(f: Format, s: seq<byte>, depth: nat)
    ensures Print(f, StringValue(s), depth) == Quoted(s)
  {
  }

  lemma RefuseLeaf(e: Env, p: nat, events: seq<Event>)
    requires e.validateEncoding && Peek(e.text, p) == QUOTE && ScanString(e.text, true, p + 1, []).StrError?
    ensures !ParseValue(e, p, events).Ok()
  {
    hide ScanString;
  }

  lemma {:induction false} RefuseArray(e: Env, f: Format, p: nat, events: seq<Event>, elements: seq<Value>, depth: nat)
    requires Plain(e) && e.validateEncoding && IsFormat(f) && AreTrees(elements) && !ReadableAll(true, elements) && |elements| < SIZE_LIMIT
    requires At(e.text, p, Print(f, ArrayValue(elements), depth))
    ensures !ParseValue(e, p, events).Ok()
    decreases elements, 6
  {
    hide At, SkipSpace, ParseElements, ParseValue, PrintElements, Print, Closing, Peek;
    var text := PrintElements(f, elements, depth + 1) + Closing(f, depth, RBRACKET);
    ArrayText(f, elements, depth);
    AtSplit(e.text, p, [LBRACKET], text);
    AtByte(e.text, p, [LBRACKET], 0);
    RefuseElements(e, f, p + 1, events + [StartArray], elements, depth + 1, 0);
    OpenArray(e, p, events);
  }

  /** The elements from any place on: those that are readable are read, and the first other one is refused. */
  lemma {:induction false} RefuseElements(e: Env, f: Format, p: nat, events: seq<Event>, elements: seq<Value>, depth: nat, n: nat)
    requires Plain(e) && e.validateEncoding && IsFormat(f) && elements != [] && AreTrees(elements) && !ReadableAll(true, elements)
    requires n + |elements| < SIZE_LIMIT && depth > 0
    requires At(e.text, p, PrintElements(f, elements, depth) + Closing(f, depth - 1, RBRACKET))
    ensures Peek(e.text, SkipSpace(e.text, p)) != RBRACKET
    ensures !ParseElements(e, SkipSpace(e.text, p), events, n).Ok()
    decreases elements, 5
  {
    hide *;
    var v, rest, behind, q := elements[0], elements[1..], ElementsBehind(f, elements, depth), SkipSpace(e.text, p);
    UnreadableElements(elements);
    FirstBehind(f, elements, depth);
    LaidOut(e.text, f, p, v, depth, behind);
    if ReadableTree(true, v) {
      var r := q + |Print(f, v, depth)|;
      ReadLaidOut(e, f, p, events, v, depth, behind);
      ReadsIs(e, q, events, RetypeAll(Accept(v)), r);
      ElementsBehindIs(f, elements, depth);
      ReadComma(e.text, r, PrintElements(f, rest, depth) + Closing(f, depth - 1, RBRACKET));
      NextElement(e, q, events, n, r, events + RetypeAll(Accept(v)));
      RefuseElements(e, f, r + 1, events + RetypeAll(Accept(v)), rest, depth, n + 1);
    } else {
      RefuseTree(e, f, q, events, v, depth);
      RefusedElement(e, q, events, n);
    }
  }

  lemma UnreadableElements(elements: seq<Value>)
    requires elements != [] && AreTrees(elements) && !ReadableAll(true, elements)
    ensures IsTree(elements[0]) && AreTrees(elements[1..])
    ensures ReadableTree(true, elements[0]) ==> elements[1..] != [] && !ReadableAll(true, elements[1..])
  {
  }

  lemma RefusedElement(e: Env, q: nat, events: seq<Event>, n: nat)
    requires !ParseValue(e, q, events).Ok()
    ensures !ParseElements(e, q, events, n).Ok()
  {
    hide ParseValue, ParseElements;
    ElementUnfold(e, q, events, n);
  }

  lemma {:induction false} RefuseObject(e: Env, f: Format, p: nat, events: seq<Event>, members: seq<Member>, depth: nat)
    requires Plain(e) && e.validateEncoding && IsFormat(f) && AreMembers(members) && !ReadableMembers(true, members) && |members| < SIZE_LIMIT
    requires At(e.text, p, Print(f, ObjectValue(members), depth))
    ensures !ParseValue(e, p, events).Ok()
    decreases members, 6
  {
    hide At, SkipSpace, ParseMembers, ParseValue, PrintMembers, Print, Closing, Peek;
    var text := PrintMembers(f, members, depth + 1) + Closing(f, depth, RCURLY);
    ObjectText(f, members, depth);
    AtSplit(e.text, p, [LCURLY], text);
    AtByte(e.text, p, [LCURLY], 0);
    RefuseMembers(e, f, p + 1, events + [StartObject], members, depth + 1, 0);
    OpenObject(e, p, events);
  }

  /** The members from any place on. */
  lemma {:induction false} RefuseMembers(e: Env, f: Format, p: nat, events: seq<Event>, members: seq<Member>, depth: nat, n: nat)
    requires Plain(e) && e.validateEncoding && IsFormat(f) && members != [] && AreMembers(members) && !ReadableMembers(true, members)
    requires n + |members| < SIZE_LIMIT && depth > 0
    requires At(e.text, p, PrintMembers(f, members, depth) + Closing(f, depth - 1, RCURLY))
    ensures Peek(e.text, SkipSpace(e.text, p)) == QUOTE
    ensures !ParseMembers(e, SkipSpace(e.text, p), events, n).Ok()
    decreases members, 5
  {
    hide *;
    var m, rest, behind, q := members[0], members[1..], MembersBehind(f, members, depth), SkipSpace(e.text, p);
    UnreadableMembers(members);
    MemberBehind(f, members, depth);
    NameStarts(e.text, f, p, m, depth, behind);
    if !Readable(true, m.name) {
      NameRefused(e, f, p, events, m, depth, behind, n);
    } else if !ReadableTree(true, m.value) {
      ValueRefused(e, f, p, events, m, depth, behind, n);
    } else {
      var r := p + |NewLine(f, depth)| + |Quoted(m.name)| + |Colon(f)| + |Print(f, m.value, depth)|;
      var events' := events + [Key(m.name)] + RetypeAll(Accept(m.value));
      ReadMember(e, f, p, events, m, depth, behind);
      MembersBehindIs(f, members, depth);
      ReadComma(e.text, r, PrintMembers(f, rest, depth) + Closing(f, depth - 1, RCURLY));
      NextMember(e, q, events, n, r, events');
      RefuseMembers(e, f, r + 1, events', rest, depth, n + 1);
    }
  }

  lemma UnreadableMembers(members: seq<Member>)
    requires members != [] && AreMembers(members) && !ReadableMembers(true, members)
    ensures IsTree(members[0].value) && AreMembers(members[1..])
    ensures Readable(true, members[0].name) && ReadableTree(true, members[0].value)
            ==> members[1..] != [] && !ReadableMembers(true, members[1..])
  {
  }

  lemma NameStarts(t: Text, f: Format, p: nat, m: Member, depth: nat, behind: seq<byte>)
    requires IsFormat(f) && IsTree(m.value) && behind != [] && EndsNumber(behind[0])
    requires At(t, p, NewLine(f, depth) + Quoted(m.name) + Colon(f) + Print(f, m.value, depth) + behind)
    ensures SkipSpace(t, p) == p + |NewLine(f, depth)| && Peek(t, SkipSpace(t, p)) == QUOTE
  {
    hide At, Print, EndsNumber, EscapeAll;
    MemberLaidOut(t, f, p, m, depth, behind);
    AtByte(t, p + |NewLine(f, depth)|, Quoted(m.name), 0);
    SkipLayout(t, p, NewLine(f, depth));
  }

  lemma NameRefused(e: Env, f: Format, p: nat, events: seq<Event>, m: Member, depth: nat, behind: seq<byte>, n: nat)
    requires Plain(e) && e.validateEncoding && IsFormat(f) && IsTree(m.value) && behind != [] && EndsNumber(behind[0]) && !Readable(true, m.name)
    requires At(e.text, p, NewLine(f, depth) + Quoted(m.name) + Colon(f) + Print(f, m.value, depth) + behind)
    ensures !ParseMembers(e, SkipSpace(e.text, p), events, n).Ok()
  {
    hide *;
    NameStarts(e.text, f, p, m, depth, behind);
    MemberLaidOut(e.text, f, p, m, depth, behind);
    NotReadable(m.name);
    RefuseString(e.text, p + |NewLine(f, depth)|, m.name);
    RefusedName(e, SkipSpace(e.text, p), events, n);
  }

  lemma NotReadable(s: seq<byte>)
    ensures Readable(true, s) == Utf8.WellFormed(s)
  {
  }

  lemma RefusedName(e: Env, q: nat, events: seq<Event>, n: nat)
    requires e.validateEncoding && Peek(e.text, q) == QUOTE && ScanString(e.text, true, q + 1, []).StrError?
    ensures !ParseMembers(e, q, events, n).Ok()
  {
    hide ScanString, SkipSpace, ParseValue, ParseMembers;
    MemberUnfold(e, q, events, n);
  }

  lemma {:induction false} ValueRefused(e: Env, f: Format, p: nat, events: seq<Event>, m: Member, depth: nat, behind: seq<byte>, n: nat)
    requires Plain(e) && e.validateEncoding && IsFormat(f) && IsTree(m.value) && behind != [] && EndsNumber(behind[0])
    requires Readable(true, m.name) && !ReadableTree(true, m.value)
    requires At(e.text, p, NewLine(f, depth) + Quoted(m.name) + Colon(f) + Print(f, m.value, depth) + behind)
    ensures !ParseMembers(e, SkipSpace(e.text, p), events, n).Ok()
    decreases m, 3
  {
    hide *;
    var q := SkipSpace(e.text, p);
    var k := p + |NewLine(f, depth)| + |Quoted(m.name)| + |Colon(f)|;
    MemberLaidOut(e.text, f, p, m, depth, behind);
    ReadName(e, f, p, events, m.name, depth, Print(f, m.value, depth)[0]);
    RefuseTree(e, f, k, events + [Key(m.name)], m.value, depth);
    RefusedMember(e, q, events, n, k, events + [Key(m.name)]);
  }

  lemma RefusedMember(e: Env, q: nat, events: seq<Event>, n: nat, k: nat, events': seq<Event>)
    requires ParseName(e, q, events) == Outcome(k, events', NoError) && !ParseValue(e, k, events').Ok()
    ensures !ParseMembers(e, q, events, n).Ok()
  {
    hide ParseValue, ParseMembers, ParseName;
    MemberUnfold(e, q, events, n);
  }

  /** A whole text. */
  lemma TextRefused(e: Env, f: Format, v: Value)
    requires Plain(e) && e.validateEncoding && IsFormat(f) && IsTree(v) && !ReadableTree(true, v) && e.text == Print(f, v, 0)
    ensures !Parse(e).Ok()
  {
    hide Print, ParseValue, ReadableTree, IsTree;
    PrintFirst(f, v, 0);
    assert e.text[0..] == e.text && At(e.text, 0, e.text);
    assert Peek(e.text, 0) == e.text[0];
    RefuseTree(e, f, 0, [], v, 0);
  }

  // ---------- What a validating reader lets through ----------

  /** No escape from `p` on is a low surrogate outside a pair. */
  predicate NoLoneLow(t: Text, p: nat)
    decreases Left(t, p)
  {
    var c := Peek(t, p);
    if c == BACKSLASH then
      var x := Peek(t, p + 1);
      if Unescape(x) != 0 then NoLoneLow(t, p + 2)
      else if x != LOWER_U then true
      else match ScanUnicode(t, p + 2)
           case EscapeError(_) => true
           case Escape(next, cp) => !(0xDC00 <= cp <= 0xDFFF) && NoLoneLow(t, next)
    else if c == QUOTE || c < 0x20 then true
    else if Utf8.CharLen(t, p) == 0 then true
    else NoLoneLow(t, p + Utf8.CharLen(t, p))
  }

  /** A string that a validating reader has accepted is well formed exactly when it came from no such escape. */
  lemma {:induction false} ScannedWellFormed(t: Text, p: nat, acc: seq<byte>)
    requires ScanString(t, true, p, acc).Str?
    ensures var s := ScanString(t, true, p, acc).s;
            |acc| <= |s| && s[..|acc|] == acc && (Utf8.WellFormedFrom(s, |acc|) <==> NoLoneLow(t, p))
    decreases Left(t, p)
  {
    hide Utf8.CharLen, Utf8.Encode, Utf8.WellFormedFrom, ScanUnicode, ScanString, NoLoneLow, Unescape;
    var s, c := ScanString(t, true, p, acc).s, Peek(t, p);
    if c == QUOTE {
      AtQuote(t, p, acc);
    } else if c != BACKSLASH {
      var n := Utf8.CharLen(t, p);
      AtCharacter(t, p, acc);
      ScannedWellFormed(t, p + n, acc + t[p..p + n]);
      OneMore(s, acc, t[p..p + n]);
      CopiedLength(t, p, s, |acc|);
      WellFormedNext(s, |acc|);
    } else if Unescape(Peek(t, p + 1)) != 0 {
      var x := Unescape(Peek(t, p + 1));
      AtEscape(t, p, acc);
      ScannedWellFormed(t, p + 2, acc + [x]);
      OneMore(s, acc, [x]);
      AtByte(s, |acc|, [x], 0);
      AsciiLength(s, |acc|);
      WellFormedNext(s, |acc|);
    } else {
      var u := ScanUnicode(t, p + 2);
      AtUnicode(t, p, acc);
      ScannedWellFormed(t, u.next, acc + Utf8.Encode(u.cp));
      OneMore(s, acc, Utf8.Encode(u.cp));
      EscapeLength(t, p + 2, s, |acc|);
      WellFormedNext(s, |acc|);
    }
  }

  lemma AtQuote(t: Text, p: nat, acc: seq<byte>)
    requires Peek(t, p) == QUOTE
    ensures ScanString(t, true, p, acc) == Str(p + 1, acc) && NoLoneLow(t, p) && Utf8.WellFormedFrom(acc, |acc|)
    ensures acc[..|acc|] == acc
  {
  }

  lemma AtCharacter(t: Text, p: nat, acc: seq<byte>)
    requires ScanString(t, true, p, acc).Str? && Peek(t, p) != QUOTE && Peek(t, p) != BACKSLASH
    ensures var n := Utf8.CharLen(t, p);
            && n != 0 && p < |t| && p + n <= |t| && NoLoneLow(t, p) == NoLoneLow(t, p + n)
            && ScanString(t, true, p, acc) == ScanString(t, true, p + n, acc + t[p..p + n])
  {
    hide Utf8.CharLen;
  }

  lemma AtEscape(t: Text, p: nat, acc: seq<byte>)
    requires Peek(t, p) == BACKSLASH && Unescape(Peek(t, p + 1)) != 0
    ensures p < |t| && NoLoneLow(t, p) == NoLoneLow(t, p + 2) && Unescape(Peek(t, p + 1)) < 0x80
    ensures ScanString(t, true, p, acc) == ScanString(t, true, p + 2, acc + [Unescape(Peek(t, p + 1))])
  {
    hide Utf8.CharLen;
  }

  lemma AtUnicode(t: Text, p: nat, acc: seq<byte>)
    requires ScanString(t, true, p, acc).Str? && Peek(t, p) == BACKSLASH && Unescape(Peek(t, p + 1)) == 0
    ensures p < |t| && ScanUnicode(t, p + 2).Escape?
    ensures var u := ScanUnicode(t, p + 2);
            && (NoLoneLow(t, p) <==> !(0xDC00 <= u.cp <= 0xDFFF) && NoLoneLow(t, u.next))
            && ScanString(t, true, p, acc) == ScanString(t, true, u.next, acc + Utf8.Encode(u.cp))
  {
    hide Utf8.CharLen, ScanUnicode, Utf8.Encode, Unescape;
  }

  lemma WellFormedNext(s: Text, i: nat)
    requires i < |s|
    ensures Utf8.CharLen(s, i) == 0 ==> !Utf8.WellFormedFrom(s, i)
    ensures var n := Utf8.CharLen(s, i);
            n != 0 && i + n <= |s| ==> Utf8.WellFormedFrom(s, i) == Utf8.WellFormedFrom(s, i + n)
  {
    hide Utf8.CharLen;
  }

  lemma OneMore(s: seq<byte>, acc: seq<byte>, x: seq<byte>)
    requires |acc| + |x| <= |s| && s[..|acc| + |x|] == acc + x
    ensures s[..|acc|] == acc && At(s, |acc|, x)
  {
    assert s[..|acc| + |x|][..|acc|] == acc && s[..|acc| + |x|][|acc|..] == x;
  }

  lemma CopiedLength(t: Text, p: nat, s: Text, i: nat)
    requires Utf8.CharLen(t, p) != 0 && p < |t| && p + Utf8.CharLen(t, p) <= |t| && At(s, i, t[p..p + Utf8.CharLen(t, p)])
    ensures Utf8.CharLen(s, i) == Utf8.CharLen(t, p)
  {
    hide Utf8.CharLen;
    if t[p] < 0x80 {
      AsciiLength(t, p);
      AtByte(s, i, t[p..p + 1], 0);
      AsciiLength(s, i);
    } else {
      SameCharacter(s, i, t, p);
    }
  }

  /** An escape puts one UTF8-char, unless it is a lone surrogate, which puts none. */
  lemma EscapeLength(t: Text, p: nat, s: Text, i: nat)
    requires ScanUnicode(t, p).Escape? && At(s, i, Utf8.Encode(ScanUnicode(t, p).cp))
    ensures var cp := ScanUnicode(t, p).cp;
            Utf8.CharLen(s, i) == if 0xDC00 <= cp <= 0xDFFF then 0 else |Utf8.Encode(cp)|
  {
    hide Utf8.CharLen;
    var cp := ScanUnicode(t, p).cp;
    NoLoneHigh(t, p);
    if 0xDC00 <= cp <= 0xDFFF {
      LoneLength(s, i, cp);
    } else {
      Utf8.EncodeIsChar(cp, s, i);
    }
  }

  lemma NoLoneHigh(t: Text, p: nat)
    requires ScanUnicode(t, p).Escape?
    ensures !(0xD800 <= ScanUnicode(t, p).cp <= 0xDBFF)
  {
  }

  lemma LoneLength(s: Text, i: nat, cp: nat)
    requires 0xDC00 <= cp <= 0xDFFF && At(s, i, Utf8.Encode(cp))
    ensures Utf8.CharLen(s, i) == 0
  {
    hide At;
    AtByte(s, i, Utf8.Encode(cp), 0);
    AtByte(s, i, Utf8.Encode(cp), 1);
    assert cp / 4096 == 13 && 48 <= cp / 64 % 64 < 64;
  }

  /** The text "\uDC00": a validating reader accepts it, and the string it makes of it is not well formed. */
  lemma LoneLowExample()
    ensures var t := [QUOTE, BACKSLASH, LOWER_U, 0x44, 0x43, 0x30, 0x30, QUOTE];
            && ScanString(t, true, 1, []) == Str(8, [0xED, 0xB0, 0x80])
            && !Utf8.WellFormed([0xED, 0xB0, 0x80])
  {
    var t := [QUOTE, BACKSLASH, LOWER_U, 0x44, 0x43, 0x30, 0x30, QUOTE];
    assert ScanUnicode(t, 3) == Escape(7, 0xDC00);
    assert Utf8.Encode(0xDC00) == [0xED, 0xB0, 0x80];
    assert ScanString(t, true, 7, [0xED, 0xB0, 0x80]) == Str(8, [0xED, 0xB0, 0x80]);
    assert [] + [0xED, 0xB0, 0x80] == [0xED, 0xB0, 0x80];
  }
}
