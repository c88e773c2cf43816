/**
 * The recursive-descent reading of JSON as functions of text and cursor.  Scalars are scanned by functions that the
 * two parsers share; the value, array and object functions follow the recursive parser.
 */
module Grammar {
  import opened Stream
  import opened Events
  import Utf8

  const QUOTE: byte := 0x22
  const COMMA: byte := 0x2C
  const MINUS: byte := 0x2D
  const ZERO: byte := 0x30
  const COLON: byte := 0x3A
  const LBRACKET: byte := 0x5B
  const BACKSLASH: byte := 0x5C
  const RBRACKET: byte := 0x5D
  const LOWER_U: byte := 0x75
  const LCURLY: byte := 0x7B
  const RCURLY: byte := 0x7D

  const NULL_WORD: seq<byte> := [0x6E, 0x75, 0x6C, 0x6C]
  const TRUE_WORD: seq<byte> := [0x74, 0x72, 0x75, 0x65]
  const FALSE_WORD: seq<byte> := [0x66, 0x61, 0x6C, 0x73, 0x65]

  // ---------- Strings ----------

  /** The byte that a one-character escape stands for, 0 when there is no such escape. */
  function Unescape(c: byte): byte {
    match c
    case 0x22 => 0x22
    case 0x2F => 0x2F
    case 0x5C => 0x5C
    case 0x62 => 0x08
    case 0x66 => 0x0C
    case 0x6E => 0x0A
    case 0x72 => 0x0D
    case 0x74 => 0x09
    case _ => 0
  }

  predicate IsHex(c: byte) { 0x30 <= c <= 0x39 || 0x41 <= c <= 0x46 || 0x61 <= c <= 0x66 }

  function HexValue(c: byte): (n: nat)
    requires IsHex(c)
    ensures n < 16
  {
    if c <= 0x39 then c - 0x30 else if c <= 0x46 then c - 0x41 + 10 else c - 0x61 + 10
  }

  predicate IsHex4(t: Text, p: nat) {
    IsHex(Peek(t, p)) && IsHex(Peek(t, p + 1)) && IsHex(Peek(t, p + 2)) && IsHex(Peek(t, p + 3))
  }

  function Hex4(t: Text, p: nat): (n: nat)
    requires IsHex4(t, p)
    ensures n <= 0xFFFF
  {
    ((HexValue(Peek(t, p)) * 16 + HexValue(Peek(t, p + 1))) * 16 + HexValue(Peek(t, p + 2))) * 16 + HexValue(Peek(t, p + 3))
  }

  datatype EscapeScan = Escape(next: nat, cp: nat) | EscapeError(code: ErrorCode)

  /** The escape \uXXXX, with a second one when the first is a high surrogate; `p` is behind the letter u. */
  function ScanUnicode(t: Text, p: nat): (r: EscapeScan)
    ensures r.Escape? ==> r.cp <= 0x10FFFF && p < r.next <= |t|
    ensures r.EscapeError? ==> r.code != NoError
  {
    if !IsHex4(t, p) then EscapeError(StringUnicodeEscapeInvalidHex)
    else
      var lead := Hex4(t, p);
      if !(0xD800 <= lead <= 0xDBFF) then Escape(p + 4, lead)
      else if Peek(t, p + 4) != BACKSLASH || Peek(t, p + 5) != LOWER_U then EscapeError(StringUnicodeSurrogateInvalid)
      else if !IsHex4(t, p + 6) then EscapeError(StringUnicodeEscapeInvalidHex)
      else
        var trail := Hex4(t, p + 6);
        if trail < 0xDC00 || trail > 0xDFFF then EscapeError(StringUnicodeSurrogateInvalid)
        else Escape(p + 10, (lead - 0xD800) * 1024 + (trail - 0xDC00) + 0x10000)
  }

  datatype StringScan = Str(next: nat, s: seq<byte>) | StrError(code: ErrorCode)

  /** The rest of a string whose opening quote is behind the cursor; `acc` is what has been put so far. */
  function ScanString(t: Text, validate: bool, p: nat, acc: seq<byte>): (r: StringScan)
    ensures r.Str? ==> p < r.next <= |t|
    ensures r.StrError? ==> r.code != NoError
    decreases Left(t, p)
  {
    var c := Peek(t, p);
    if c == BACKSLASH then
      var x := Peek(t, p + 1);
      if Unescape(x) != 0 then ScanString(t, validate, p + 2, acc + [Unescape(x)])
      else if x != LOWER_U then StrError(StringEscapeInvalid)
      else match ScanUnicode(t, p + 2)
           case EscapeError(code) => StrError(code)
           case Escape(next, cp) => ScanString(t, validate, next, acc + Utf8.Encode(cp))
    else if c == QUOTE then Str(p + 1, acc)
    else if c == 0 then StrError(StringMissQuotationMark)
    else if c < 0x20 then StrError(StringEscapeInvalid)
    else if !validate then ScanString(t, validate, p + 1, acc + [c])
    else
      var n := Utf8.CharLen(t, p);
      if n == 0 then StrError(StringInvalidEncoding)
      else ScanString(t, validate, p + n, acc + t[p..p + n])
  }

  /** One turn of the scanning function, case by case. */
  lemma ScanOnce(t: Text, validate: bool, p: nat, acc: seq<byte>)
    ensures Peek(t, p) != 0 ==> p < |t|
    ensures var c, x, r := Peek(t, p), Peek(t, p + 1), ScanString(t, validate, p, acc);
            && (c == BACKSLASH && Unescape(x) != 0 ==> r == ScanString(t, validate, p + 2, acc + [Unescape(x)]))
            && (c == BACKSLASH && Unescape(x) == 0 && x != LOWER_U ==> r == StrError(StringEscapeInvalid))
            && (c == BACKSLASH && Unescape(x) == 0 && x == LOWER_U ==>
                  var u := ScanUnicode(t, p + 2);
                  && (u.EscapeError? ==> r == StrError(u.code))
                  && (u.Escape? ==> r == ScanString(t, validate, u.next, acc + Utf8.Encode(u.cp))))
            && (c == QUOTE ==> r == Str(p + 1, acc))
            && (c == 0 ==> r == StrError(StringMissQuotationMark))
            && (0 < c < 0x20 ==> r == StrError(StringEscapeInvalid))
            && (c >= 0x20 && c != QUOTE && c != BACKSLASH && !validate ==> r == ScanString(t, validate, p + 1, acc + [c]))
            && (c >= 0x20 && c != QUOTE && c != BACKSLASH && validate ==>
                  var n := Utf8.CharLen(t, p);
                  && (n == 0 ==> r == StrError(StringInvalidEncoding))
                  && (n != 0 ==> p + n <= |t| && r == ScanString(t, validate, p + n, acc + t[p..p + n])))
  {
    hide Utf8.Encode, Utf8.CharLen, ScanUnicode, Unescape;
  }

  // ---------- Numbers ----------

  predicate IsDigit(c: byte) { 0x30 <= c <= 0x39 }

  predicate AllDigits(s: seq<byte>) { forall i :: 0 <= i < |s| ==> IsDigit(s[i]) }

  function DigitValue(c: byte): nat { if IsDigit(c) then c - 0x30 else 0 }

  /** Where the run of digits that starts at `p` ends. */
  function DigitsEnd(t: Text, p: nat): (q: nat)
    ensures p <= q && (q <= |t| || q == p)
    ensures !IsDigit(Peek(t, q))
    ensures forall i :: p <= i < q ==> IsDigit(Peek(t, i))
    decreases Left(t, p)
  {
    if IsDigit(Peek(t, p)) then DigitsEnd(t, p + 1) else p
  }

  /** The number that a string of decimal digits denotes. */
  function Decimal(s: seq<byte>): nat {
    if s == [] then 0 else Decimal(s[..|s| - 1]) * 10 + DigitValue(s[|s| - 1])
  }

  /** The integer event for a literal of magnitude `v`: the narrowest of the two types of its sign. */
  function IntegerEvent(minus: bool, v: nat): Event {
    var i: int := v;
    if minus then (if v <= 0x8000_0000 then Int(-i) else Int64(-i))
    else (if v <= 0xFFFF_FFFF then Uint(v) else Uint64(v))
  }

  /** The largest magnitude that is still reported as an integer. */
  function IntegerLimit(minus: bool): nat { if minus then 0x8000_0000_0000_0000 else 0xFFFF_FFFF_FFFF_FFFF }

  predicate StartsFloat(c: byte) { c == 0x2E || c == 0x65 || c == 0x45 }

  datatype ScalarScan = Scalar(next: nat, event: Event) | ScalarError(code: ErrorCode)

  function ScanDouble(e: Env, p: nat): (r: ScalarScan)
    ensures r.Scalar? ==> p < r.next
    ensures r.ScalarError? ==> r.code != NoError
  {
    match e.double(e.text, p)
    case DoubleAt(extra, bits) => Scalar(p + 1 + extra, Double(bits))
    case DoubleError(code) => ScalarError(code)
  }

  /** A number that starts at `p`. */
  function ScanNumber(e: Env, p: nat): (r: ScalarScan)
    ensures r.Scalar? ==> p < r.next && p < |e.text|
    ensures r.ScalarError? ==> r.code != NoError
  {
    var t := e.text;
    var minus := Peek(t, p) == MINUS;
    var q := if minus then p + 1 else p;
    if !IsDigit(Peek(t, q)) then ScalarError(ValueInvalid)
    else
      var r := if Peek(t, q) == ZERO then q + 1 else DigitsEnd(t, q);
      var v := Decimal(t[q..r]);
      if v > IntegerLimit(minus) || StartsFloat(Peek(t, r)) then ScanDouble(e, p)
      else Scalar(r, IntegerEvent(minus, v))
  }

  // ---------- Values ----------

  function ScanWord(t: Text, p: nat, w: seq<byte>, event: Event): (r: ScalarScan) {
    if At(t, p, w) then Scalar(p + |w|, event) else ScalarError(ValueInvalid)
  }

  /** Any value that is not an array or an object. */
  function ScanScalar(e: Env, p: nat): (r: ScalarScan)
    ensures r.Scalar? ==> p < r.next && p < |e.text|
    ensures r.ScalarError? ==> r.code != NoError
  {
    match Peek(e.text, p)
    case 0x6E => ScanWord(e.text, p, NULL_WORD, Null)
    case 0x74 => ScanWord(e.text, p, TRUE_WORD, Bool(true))
    case 0x66 => ScanWord(e.text, p, FALSE_WORD, Bool(false))
    case 0x22 =>
      (match ScanString(e.text, e.validateEncoding, p + 1, [])
       case Str(next, s) => Scalar(next, String(s))
       case StrError(code) => ScalarError(code))
    case _ => ScanNumber(e, p)
  }

  /** What has happened when a parsing function returns: the cursor, all events delivered, and the error if any. */
  datatype Outcome = Outcome(pos: nat, events: seq<Event>, error: ErrorCode) {
    predicate Ok() { error == NoError }
  }

  function Emit(e: Env, pos: nat, events: seq<Event>, x: Event): Outcome {
    Outcome(pos, events + [x], if e.handler(events + [x]) then NoError else Termination)
  }

  function ParseScalar(e: Env, p: nat, events: seq<Event>): (o: Outcome)
    ensures o.Ok() ==> p < o.pos && p < |e.text|
  {
    match ScanScalar(e, p)
    case Scalar(next, x) => Emit(e, next, events, x)
    case ScalarError(code) => Outcome(p, events, code)
  }

  function ParseValue(e: Env, p: nat, events: seq<Event>): (o: Outcome)
    ensures o.Ok() ==> p < o.pos && p < |e.text|
    decreases Left(e.text, p), 0
  {
    var c := Peek(e.text, p);
    if c == LCURLY then
      var o := Emit(e, p + 1, events, StartObject);
      var q := SkipSpace(e.text, p + 1);
      if !o.Ok() then o
      else if Peek(e.text, q) == RCURLY then Emit(e, q + 1, o.events, EndObject(0))
      else ParseMembers(e, q, o.events, 0)
    else if c == LBRACKET then
      var o := Emit(e, p + 1, events, StartArray);
      var q := SkipSpace(e.text, p + 1);
      if !o.Ok() then o
      else if Peek(e.text, q) == RBRACKET then Emit(e, q + 1, o.events, EndArray(0))
      else ParseElements(e, q, o.events, 0)
    else ParseScalar(e, p, events)
  }

  /** The rest of an array after `n` elements, from the next element to the closing bracket. */
  function ParseElements(e: Env, p: nat, events: seq<Event>, n: nat): (o: Outcome)
    ensures o.Ok() ==> p < o.pos && p < |e.text|
    decreases Left(e.text, p), 1
  {
    var o := ParseValue(e, p, events);
    if !o.Ok() then o
    else
      var q := SkipSpace(e.text, o.pos);
      if Peek(e.text, q) == COMMA then ParseElements(e, SkipSpace(e.text, q + 1), o.events, Inc(n))
      else if Peek(e.text, q) == RBRACKET then Emit(e, q + 1, o.events, EndArray(Inc(n)))
      else Outcome(q, o.events, ArrayMissCommaOrSquareBracket)
  }

  /** The rest of an object after `n` members, from the next name to the closing bracket. */
  function ParseMembers(e: Env, p: nat, events: seq<Event>, n: nat): (o: Outcome)
    ensures o.Ok() ==> p < o.pos && p < |e.text|
    decreases Left(e.text, p), 1
  {
    var k := ParseName(e, p, events);
    if !k.Ok() then k
    else
      var o := ParseValue(e, k.pos, k.events);
      var q := SkipSpace(e.text, o.pos);
      if !o.Ok() then o
      else if Peek(e.text, q) == COMMA then ParseMembers(e, SkipSpace(e.text, q + 1), o.events, Inc(n))
      else if Peek(e.text, q) == RCURLY then Emit(e, q + 1, o.events, EndObject(Inc(n)))
      else Outcome(q, o.events, ObjectMissCommaOrCurlyBracket)
  }

  /** What happens behind an element that has been parsed: the functions unfolded once. */
  function BehindElement(e: Env, o: Outcome, n: nat): Outcome {
    var q := SkipSpace(e.text, o.pos);
    if !o.Ok() then o
    else if Peek(e.text, q) == COMMA then ParseElements(e, SkipSpace(e.text, q + 1), o.events, Inc(n))
    else if Peek(e.text, q) == RBRACKET then Emit(e, q + 1, o.events, EndArray(Inc(n)))
    else Outcome(q, o.events, ArrayMissCommaOrSquareBracket)
  }

  function BehindMember(e: Env, o: Outcome, n: nat): Outcome {
    var q := SkipSpace(e.text, o.pos);
    if !o.Ok() then o
    else if Peek(e.text, q) == COMMA then ParseMembers(e, SkipSpace(e.text, q + 1), o.events, Inc(n))
    else if Peek(e.text, q) == RCURLY then Emit(e, q + 1, o.events, EndObject(Inc(n)))
    else Outcome(q, o.events, ObjectMissCommaOrCurlyBracket)
  }

  lemma ElementUnfold(e: Env, p: nat, events: seq<Event>, n: nat)
    ensures ParseElements(e, p, events, n) == BehindElement(e, ParseValue(e, p, events), n)
  {
    hide SkipSpace, ParseValue, Emit;
  }

  lemma MemberUnfold(e: Env, p: nat, events: seq<Event>, n: nat)
    ensures var k := ParseName(e, p, events);
            ParseMembers(e, p, events, n) == if !k.Ok() then k else BehindMember(e, ParseValue(e, k.pos, k.events), n)
  {
    hide SkipSpace, ParseValue, Emit, ParseName;
  }

  /** A member's name and the colon behind it, up to its value. */
  function ParseName(e: Env, p: nat, events: seq<Event>): (o: Outcome)
    ensures o.Ok() ==> p < o.pos && p < |e.text|
  {
    if Peek(e.text, p) != QUOTE then Outcome(p, events, ObjectMissName)
    else
      var k := ParseKey(e, p, events);
      var q := SkipSpace(e.text, k.pos);
      if !k.Ok() then k
      else if Peek(e.text, q) != COLON then Outcome(q, k.events, ObjectMissColon)
      else Outcome(SkipSpace(e.text, q + 1), k.events, NoError)
  }

  /** A member's name: a string, delivered as Key. */
  function ParseKey(e: Env, p: nat, events: seq<Event>): (o: Outcome)
    ensures o.Ok() ==> p < o.pos && p < |e.text|
  {
    match ScanString(e.text, e.validateEncoding, p + 1, [])
    case Str(next, s) => Emit(e, next, events, Key(s))
    case StrError(code) => Outcome(p, events, code)
  }

  /** A whole text. */
  function Parse(e: Env): Outcome {
    var p := SkipSpace(e.text, 0);
    if Peek(e.text, p) == 0 then Outcome(p, [], DocumentEmpty)
    else
      var o := ParseValue(e, p, []);
      if !o.Ok() || e.stopWhenDone then o
      else
        var q := SkipSpace(e.text, o.pos);
        if Peek(e.text, q) != 0 then Outcome(q, o.events, DocumentRootNotSingular) else Outcome(q, o.events, NoError)
  }
}
