/** The reader object: its recursive-descent parser and its iterative parser over one cursor, one stack, one error. */
module GenericReader {
  import opened Stream
  import opened Events
  import opened Grammar
  import opened Automaton
  import opened Equivalence
  import opened Nesting
  import opened Machine
  import opened Spelling
  import Utf8

  // ---------- Facts about digit runs ----------

  lemma DecimalNext(t: Text, q: nat, p: nat)
    requires q <= p < |t| && IsDigit(t[p])
    ensures Decimal(t[q..p + 1]) == Decimal(t[q..p]) * 10 + (t[p] - ZERO)
    ensures DigitValue(t[p]) == t[p] - ZERO
  {
    assert t[q..p + 1][..p - q] == t[q..p];
  }

  lemma {:induction false} DecimalGrows(t: Text, q: nat, p: nat, r: nat)
    requires q <= p <= r <= |t|
    ensures Decimal(t[q..p]) <= Decimal(t[q..r])
    decreases r - p
  {
    if p < r {
      DecimalGrows(t, q, p, r - 1);
      assert t[q..r][..r - 1 - q] == t[q..r - 1];
    }
  }

  lemma {:induction false} DigitsEndFrom(t: Text, q: nat, p: nat)
    requires q <= p && forall i :: q <= i < p ==> IsDigit(Peek(t, i))
    ensures DigitsEnd(t, q) == DigitsEnd(t, p)
    decreases p - q
  {
    if q < p {
      assert IsDigit(Peek(t, q));
      DigitsEndFrom(t, q + 1, p);
    }
  }

  lemma NotAt(t: Text, p: nat, w: seq<byte>, i: nat)
    requires i < |w| && Peek(t, p + i) != w[i]
    ensures !At(t, p, w)
  {
    if p + |w| <= |t| {
      assert t[p..p + |w|][i] == t[p + i];
    }
  }

  class Reader {
    const e: Env
    var pos: nat
    var events: seq<Event>
    var stack: seq<Frame>
    var error: ErrorCode

    constructor (e: Env)
      ensures this.e == e && pos == 0 && events == [] && stack == [] && error == NoError
    {
      this.e := e;
      pos, events, stack, error := 0, [], [], NoError;
    }

    /** The reader has done what the function says from `p` with `before` delivered; a failed parse leaves the cursor open. */
    predicate Did(o: Outcome)
      reads this
    {
      events == o.events && error == o.error && (o.Ok() ==> pos == o.pos)
    }

    method SkipWhitespace()
      modifies this`pos
      ensures pos == SkipSpace(e.text, old(pos))
      ensures OverBlanks(e.text, old(pos), pos)
    {
      while IsSpace(Peek(e.text, pos))
        invariant SkipSpace(e.text, pos) == SkipSpace(e.text, old(pos))
        invariant old(pos) <= pos && forall i :: old(pos) <= i < pos ==> IsBlank(Peek(e.text, i))
        decreases Left(e.text, pos)
      {
        pos := pos + 1;
      }
    }

    method Take() returns (c: byte)
      modifies this`pos
      ensures c == Peek(e.text, old(pos)) && pos == old(pos) + 1
    {
      c := Peek(e.text, pos);
      pos := pos + 1;
    }

    /** Calls the handler's method for `x`; a refusal ends the parse. */
    method Deliver(x: Event)
      requires error == NoError
      modifies this`events, this`error
      ensures events == old(events) + [x]
      ensures error == if e.handler(events) then NoError else Termination
    {
      events := events + [x];
      if !e.handler(events) {
        error := Termination;
      }
    }

    // ---------- Literals, strings and numbers ----------

    /** ParseNull, ParseTrue and ParseFalse: the first letter is known, the others are taken one by one. */
    method ParseLiteral(w: seq<byte>, x: Event)
      requires error == NoError && |w| > 0 && 0 !in w && Peek(e.text, pos) == w[0]
      modifies this`pos, this`events, this`error
      ensures match ScanWord(e.text, old(pos), w, x)
              case Scalar(next, x) => Did(Emit(e, next, old(events), x))
              case ScalarError(code) => error == code && events == old(events)
    {
      var first := Take();
      var i := 1;
      while i < |w|
        invariant 1 <= i <= |w| && pos == old(pos) + i
        invariant forall k :: old(pos) <= k < old(pos) + i ==> Peek(e.text, k) == w[k - old(pos)]
        invariant events == old(events) && error == NoError
      {
        var c := Take();
        if c != w[i] {
          error := ValueInvalid;
          NotAt(e.text, old(pos), w, i);
          return;
        }
        i := i + 1;
      }
      assert Peek(e.text, old(pos) + |w| - 1) == w[|w| - 1];
      forall k | old(pos) <= k < old(pos) + |w| ensures e.text[k] == w[k - old(pos)] {
        assert Peek(e.text, k) == w[k - old(pos)];
      }
      assert e.text[old(pos)..old(pos) + |w|] == w;
      Deliver(x);
    }

    /** Four hexadecimal digits. */
    method ParseHex4() returns (codepoint: nat)
      requires error == NoError
      modifies this`pos, this`error
      ensures IsHex4(e.text, old(pos)) ==> error == NoError && pos == old(pos) + 4 && codepoint == Hex4(e.text, old(pos))
      ensures !IsHex4(e.text, old(pos)) ==> error == StringUnicodeEscapeInvalidHex
      ensures error == NoError ==> SpellsAt(e.text, old(pos), codepoint)
      ensures error != NoError ==> SpellsNone(e.text, old(pos))
    {
      HexSpelled(e.text, pos);
      hide SpellsAt, SpellsNone;
      codepoint := 0;
      ghost var p := pos;
      for i := 0 to 4
        invariant error == NoError && pos == p + i
        invariant forall k :: p <= k < p + i ==> IsHex(Peek(e.text, k))
        invariant codepoint == HexPrefix(e.text, p, i)
      {
        var c := Take();
        if !IsHex(c) {
          error := StringUnicodeEscapeInvalidHex;
          return;
        }
        codepoint := codepoint * 16 + HexValue(c);
      }
      HexPrefix4(e.text, p);
    }

    /** The value of the first `i` hexadecimal digits. */
    static ghost function HexPrefix(t: Text, p: nat, i: nat): nat {
      if i == 0 then 0
      else
        var c := Peek(t, p + i - 1);
        HexPrefix(t, p, i - 1) * 16 + if IsHex(c) then HexValue(c) else 0
    }

    static lemma HexPrefix4(t: Text, p: nat)
      requires forall k :: p <= k < p + 4 ==> IsHex(Peek(t, k))
      ensures IsHex4(t, p) && HexPrefix(t, p, 4) == Hex4(t, p)
    {
      assert HexPrefix(t, p, 1) == HexValue(Peek(t, p));
      assert HexPrefix(t, p, 2) == HexPrefix(t, p, 1) * 16 + HexValue(Peek(t, p + 1));
      assert HexPrefix(t, p, 3) == HexPrefix(t, p, 2) * 16 + HexValue(Peek(t, p + 2));
    }

    /** The escape \uXXXX behind its letter u. */
    method ParseUnicode() returns (codepoint: nat)
      requires error == NoError
      modifies this`pos, this`error
      ensures match ScanUnicode(e.text, old(pos))
              case Escape(next, cp) => error == NoError && pos == next && codepoint == cp
              case EscapeError(code) => error == code
      ensures error == NoError ==> UnicodeAt(e.text, old(pos), codepoint, pos)
      ensures error == StringUnicodeEscapeInvalidHex ==> DigitsMissing(e.text, old(pos))
      ensures error == StringUnicodeSurrogateInvalid ==> LoneHigh(e.text, old(pos))
    {
      UnicodeSpelled(e.text, pos);
      hide UnicodeAt, DigitsMissing, LoneHigh, SpellsAt, SpellsNone;
      codepoint := ParseHex4();
      if error != NoError { return; }
      if 0xD800 <= codepoint <= 0xDBFF {
        var b := Take();
        if b == BACKSLASH { b := Take(); } else { b := 0; }
        if b != LOWER_U {
          error := StringUnicodeSurrogateInvalid;
          return;
        }
        var trail := ParseHex4();
        if error != NoError { return; }
        if trail < 0xDC00 || trail > 0xDFFF {
          error := StringUnicodeSurrogateInvalid;
          return;
        }
        codepoint := (codepoint - 0xD800) * 1024 + (trail - 0xDC00) + 0x10000;
      }
    }

    /** ParseStringToStream: the unescaped bytes between the quotes. */
    method ParseStringToStream() returns (os: seq<byte>)
      requires error == NoError && Peek(e.text, pos) == QUOTE
      modifies this`pos, this`error
      ensures match ScanString(e.text, e.validateEncoding, old(pos) + 1, [])
              case Str(next, s) => error == NoError && pos == next && os == s
              case StrError(code) => error == code
    {
      hide Utf8.Encode, Utf8.CharLen, ScanUnicode, ScanString, Unescape;
      ghost var t, v := e.text, e.validateEncoding;
      var quote := Take();
      os := [];
      while true
        invariant error == NoError
        invariant ScanString(t, v, pos, os) == ScanString(t, v, old(pos) + 1, [])
        decreases Left(e.text, pos)
      {
        ScanOnce(t, v, pos, os);
        var c := Peek(e.text, pos);
        if c == BACKSLASH {
          var b := Take();
          var x := Take();
          if Unescape(x) != 0 {
            os := os + [Unescape(x)];
          } else if x == LOWER_U {
            var codepoint := ParseUnicode();
            if error != NoError { return; }
            os := os + Utf8.Encode(codepoint);
          } else {
            error := StringEscapeInvalid;
            return;
          }
        } else if c == QUOTE {
          var b := Take();
          return;
        } else if c == 0 {
          error := StringMissQuotationMark;
          return;
        } else if c < 0x20 {
          error := StringEscapeInvalid;
          return;
        } else if e.validateEncoding {
          var ok, copy, next := Utf8.Validate(e.text, pos);
          if !ok {
            error := StringInvalidEncoding;
            return;
          }
          assert copy == e.text[pos..next];
          os, pos := os + copy, next;
        } else {
          var b := Take();
          os := os + [b];
        }
      }
    }

    method ParseString(isKey: bool)
      requires error == NoError && Peek(e.text, pos) == QUOTE
      modifies this`pos, this`events, this`error
      ensures Did(if isKey then ParseKey(e, old(pos), old(events)) else ParseScalar(e, old(pos), old(events)))
    {
      var s := ParseStringToStream();
      if error == NoError {
        Deliver(if isKey then Key(s) else String(s));
      }
      hide ScanString;
    }

    /** The magnitude of a number in 32 bits, up to the first digit that would not fit the type of its sign. */
    method ParseUint32(minus: bool) returns (i: uint32, use64bit: bool)
      requires 0x31 <= Peek(e.text, pos) <= 0x39
      modifies this`pos
      ensures old(pos) < pos <= |e.text| && Decimal(e.text[old(pos)..pos]) == i as int
      ensures forall k :: old(pos) <= k < pos ==> IsDigit(Peek(e.text, k))
      ensures i as int <= Limit32(minus) <= IntegerLimit(minus)
      ensures use64bit <==> IsDigit(Peek(e.text, pos))
      ensures use64bit ==> i as int * 10 + DigitValue(Peek(e.text, pos)) > Limit32(minus)
    {
      ghost var q := pos;
      var c := Take();
      i, use64bit := (c - ZERO) as uint32, false;
      FirstDigit(e.text, q);
      hide Decimal;
      var most: uint32 := if minus then 214748364 else 429496729;
      var last: byte := if minus then 0x38 else 0x35;
      while IsDigit(Peek(e.text, pos))
        invariant q < pos <= |e.text| && Decimal(e.text[q..pos]) == i as int
        invariant forall k :: q <= k < pos ==> IsDigit(Peek(e.text, k))
        invariant i as int <= Limit32(minus)
        invariant !use64bit
        decreases Left(e.text, pos)
      {
        if i >= most && (i != most || Peek(e.text, pos) > last) {
          use64bit := true;
          break;
        }
        DecimalNext(e.text, q, pos);
        c := Take();
        i := i * 10 + (c - ZERO) as uint32;
      }
    }

    static lemma FirstDigit(t: Text, q: nat)
      requires IsDigit(Peek(t, q))
      ensures q < |t| && Decimal(t[q..q + 1]) == DigitValue(t[q])
    {
      DecimalNext(t, q, q);
      assert t[q..q] == [];
    }

    /** The same in 64 bits, from where 32 bits were not enough. */
    method ParseUint64(minus: bool, i: uint32, ghost q: nat) returns (i64: uint64, useDouble: bool)
      requires q < pos <= |e.text| && Decimal(e.text[q..pos]) == i as int
      requires forall k :: q <= k < pos ==> IsDigit(Peek(e.text, k))
      requires IsDigit(Peek(e.text, pos))
      modifies this`pos
      ensures old(pos) < pos <= |e.text| && Decimal(e.text[q..pos]) == i64 as int
      ensures forall k :: q <= k < pos ==> IsDigit(Peek(e.text, k))
      ensures i64 as int <= IntegerLimit(minus)
      ensures useDouble <==> IsDigit(Peek(e.text, pos))
      ensures useDouble ==> i64 as int * 10 + DigitValue(Peek(e.text, pos)) > IntegerLimit(minus)
    {
      hide Decimal;
      i64, useDouble := i as uint64, false;
      var most: uint64 := if minus then 0x0CCC_CCCC_CCCC_CCCC else 0x1999_9999_9999_9999;
      var last: byte := if minus then 0x38 else 0x35;
      while IsDigit(Peek(e.text, pos))
        invariant old(pos) <= pos <= |e.text| && Decimal(e.text[q..pos]) == i64 as int
        invariant pos == old(pos) ==> i64 == i as uint64
        invariant forall k :: q <= k < pos ==> IsDigit(Peek(e.text, k))
        invariant i64 as int <= IntegerLimit(minus)
        invariant !useDouble
        decreases Left(e.text, pos)
      {
        if i64 >= most && (i64 != most || Peek(e.text, pos) > last) {
          useDouble := true;
          break;
        }
        DecimalNext(e.text, q, pos);
        var c := Take();
        i64 := i64 * 10 + (c - ZERO) as uint64;
      }
    }

    /** The digits from `q` on, read up to `p`: their magnitude in 32 or 64 bits, or too much for the integer types. */
    static ghost predicate Measured(t: Text, q: nat, minus: bool, p: nat, i: uint32, i64: uint64, use64bit: bool, useDouble: bool) {
      var r := if Peek(t, q) == ZERO then q + 1 else DigitsEnd(t, q);
      && q < |t| && r <= |t|
      && var v := Decimal(t[q..r]);
      && (useDouble <==> v > IntegerLimit(minus))
      && (useDouble ==> use64bit)
      && (!useDouble ==> p == r && (use64bit <==> v > Limit32(minus)) && v == if use64bit then i64 as int else i as int)
    }

    /** The largest magnitude that is kept in 32 bits. */
    static function Limit32(minus: bool): nat { if minus then 0x8000_0000 else 0xFFFF_FFFF }

    /** The digits of a number: its magnitude in 32 or 64 bits, unless it is beyond the integer types. */
    method ParseMagnitude(minus: bool) returns (i: uint32, i64: uint64, use64bit: bool, useDouble: bool)
      requires error == NoError
      modifies this`pos, this`error
      ensures error == if IsDigit(Peek(e.text, old(pos))) then NoError else ValueInvalid
      ensures error == NoError ==> Measured(e.text, old(pos), minus, pos, i, i64, use64bit, useDouble)
    {
      hide Measured, Decimal, DigitsEnd, DigitValue, IntegerLimit, Limit32;
      ghost var q, t := pos, e.text;
      i, i64, use64bit, useDouble := 0, 0, false, false;
      if Peek(e.text, pos) == ZERO {
        MeasuredZero(t, q, minus);
        var z := Take();
      } else if 0x31 <= Peek(e.text, pos) <= 0x39 {
        i, use64bit := ParseUint32(minus);
        if use64bit {
          ghost var r := pos;
          DecimalNext(t, q, r);
          i64, useDouble := ParseUint64(minus, i, q);
          DecimalGrows(t, q, r + 1, pos);
        }
        if useDouble {
          MeasuredBeyond(t, q, minus, pos, i, i64);
        } else {
          MeasuredHere(t, q, minus, pos, i, i64, use64bit);
        }
      } else {
        error := ValueInvalid;
      }
    }

    static lemma MeasuredZero(t: Text, q: nat, minus: bool)
      requires Peek(t, q) == ZERO
      ensures Measured(t, q, minus, q + 1, 0, 0, false, false)
    {
      DecimalNext(t, q, q);
      assert t[q..q] == [];
    }

    static lemma MeasuredBeyond(t: Text, q: nat, minus: bool, p: nat, i: uint32, i64: uint64)
      requires 0x31 <= Peek(t, q) <= 0x39 && q < p <= |t| && IsDigit(Peek(t, p))
      requires (forall k :: q <= k < p ==> IsDigit(Peek(t, k))) && Decimal(t[q..p]) == i64 as int
      requires i64 as int * 10 + DigitValue(Peek(t, p)) > IntegerLimit(minus)
      ensures Measured(t, q, minus, p, i, i64, true, true)
    {
      hide Decimal, DigitsEnd, DigitValue;
      Beyond(t, q, p);
    }

    static lemma MeasuredHere(t: Text, q: nat, minus: bool, p: nat, i: uint32, i64: uint64, use64bit: bool)
      requires 0x31 <= Peek(t, q) <= 0x39 && q < p <= |t| && !IsDigit(Peek(t, p))
      requires forall k :: q <= k < p ==> IsDigit(Peek(t, k))
      requires Decimal(t[q..p]) == (if use64bit then i64 as int else i as int) <= IntegerLimit(minus)
      requires use64bit <==> Decimal(t[q..p]) > Limit32(minus)
      ensures Measured(t, q, minus, p, i, i64, use64bit, false)
    {
      hide Decimal, DigitsEnd, DigitValue;
      DigitsEndFrom(t, q, p);
      EndsHere(t, p);
    }

    static lemma EndsHere(t: Text, p: nat)
      requires !IsDigit(Peek(t, p))
      ensures DigitsEnd(t, p) == p
    {
    }

    /** A digit at `p` that is already too much: so is the whole run. */
    static lemma Beyond(t: Text, q: nat, p: nat)
      requires q <= p && IsDigit(Peek(t, p)) && forall k :: q <= k < p ==> IsDigit(Peek(t, k))
      ensures p < DigitsEnd(t, q) <= |t|
      ensures Decimal(t[q..DigitsEnd(t, q)]) >= Decimal(t[q..p]) * 10 + DigitValue(Peek(t, p))
    {
      DecimalNext(t, q, p);
      DigitsEndFrom(t, q, p);
      DecimalGrows(t, q, p + 1, DigitsEnd(t, p));
    }

    /** ParseNumber: an integer in the narrowest type of its sign, or else what the floating-point part says. */
    method ParseNumber()
      requires error == NoError
      modifies this`pos, this`events, this`error
      ensures match ScanNumber(e, old(pos))
              case Scalar(next, x) => Did(Emit(e, next, old(events), x))
              case ScalarError(code) => error == code && events == old(events)
    {
      hide ScanNumber, Measured;
      var p := pos;
      var minus := Peek(e.text, pos) == MINUS;
      if minus {
        var m := Take();
      }
      ghost var q := pos;
      var i, i64, use64bit, useDouble := ParseMagnitude(minus);
      if error != NoError {
        NoNumber(e, p, q);
        return;
      }
      NumberIs(e, p, q, minus, pos, i, i64, use64bit, useDouble);
      if useDouble || StartsFloat(Peek(e.text, pos)) {
        match e.double(e.text, p) {
          case DoubleError(code) => error := code;
          case DoubleAt(extra, bits) =>
            pos := p + 1 + extra;
            Deliver(Double(bits));
        }
      } else if use64bit {
        Deliver(if minus then Int64(-(i64 as int)) else Uint64(i64 as int));
      } else {
        Deliver(if minus then Int(-(i as int)) else Uint(i as int));
      }
    }

    static lemma NoNumber(e: Env, p: nat, q: nat)
      requires q == (if Peek(e.text, p) == MINUS then p + 1 else p) && !IsDigit(Peek(e.text, q))
      ensures ScanNumber(e, p) == ScalarError(ValueInvalid)
    {
    }

    /** What is made of a number whose digits have been measured. */
    static lemma NumberIs(e: Env, p: nat, q: nat, minus: bool, pos: nat, i: uint32, i64: uint64, use64bit: bool, useDouble: bool)
      requires minus == (Peek(e.text, p) == MINUS) && q == (if minus then p + 1 else p) && IsDigit(Peek(e.text, q))
      requires Measured(e.text, q, minus, pos, i, i64, use64bit, useDouble)
      ensures var x := if use64bit then (if minus then Int64(-(i64 as int)) else Uint64(i64 as int))
                       else (if minus then Int(-(i as int)) else Uint(i as int));
              ScanNumber(e, p) == if useDouble || StartsFloat(Peek(e.text, pos)) then ScanDouble(e, p) else Scalar(pos, x)
    {
      hide Decimal, DigitsEnd, StartsFloat, ScanDouble;
    }

    // ---------- Recursive descent ----------

    /** Any value that is not a container. */
    method ParseScalarValue()
      requires error == NoError
      modifies this`pos, this`events, this`error
      ensures Did(ParseScalar(e, old(pos), old(events)))
    {
      match Peek(e.text, pos) {
        case 0x6E => ParseLiteral(NULL_WORD, Null);
        case 0x74 => ParseLiteral(TRUE_WORD, Bool(true));
        case 0x66 => ParseLiteral(FALSE_WORD, Bool(false));
        case 0x22 => ParseString(false);
        case _ => ParseNumber();
      }
      hide ScanString, ScanNumber, At;
    }

    /** ParseValue: on a container the recursive functions, which the iterative parser never lets happen. */
    method ParseValue()
      requires error == NoError
      modifies this`pos, this`events, this`error
      ensures Did(Grammar.ParseValue(e, old(pos), old(events)))
      decreases Left(e.text, pos), 1
    {
      match Peek(e.text, pos) {
        case 0x7B => ParseObject();
        case 0x5B => ParseArray();
        case _ => ParseScalarValue();
      }
      hide ParseScalar, ParseElements, ParseMembers, SkipSpace;
    }

    static lemma ArrayUnfold(e: Env, p: nat, events: seq<Event>)
      requires Peek(e.text, p) == LBRACKET
      ensures var xs, q := events + [StartArray], SkipSpace(e.text, p + 1);
              Grammar.ParseValue(e, p, events) ==
              if !e.handler(xs) then Outcome(p + 1, xs, Termination)
              else if Peek(e.text, q) == RBRACKET then Emit(e, q + 1, xs, EndArray(0))
              else ParseElements(e, q, xs, 0)
    {
      hide ParseElements, SkipSpace, Peek;
    }

    method ParseArray()
      requires error == NoError && Peek(e.text, pos) == LBRACKET
      modifies this`pos, this`events, this`error
      ensures Did(Grammar.ParseValue(e, old(pos), old(events)))
      decreases Left(e.text, pos), 0
    {
      hide OverBlanks, Grammar.ParseValue, ParseElements, SkipSpace;
      ArrayUnfold(e, pos, events);
      var b := Take();
      Deliver(StartArray);
      if error != NoError { return; }
      SkipWhitespace();
      if Peek(e.text, pos) == RBRACKET {
        b := Take();
        Deliver(EndArray(0));
        return;
      }
      var elementCount, more := 0, true;
      ghost var rest := ParseElements(e, pos, events, 0);
      assert rest == Grammar.ParseValue(e, old(pos), old(events));
      while more
        invariant if more then error == NoError && pos > old(pos) && ParseElements(e, pos, events, elementCount) == rest else Did(rest)
        decreases more, Left(e.text, pos)
      {
        elementCount, more := ParseElement(elementCount);
      }
    }

    /** One turn of the loop of ParseArray: an element, and the comma or the bracket behind it. */
    method ParseElement(count: nat) returns (elementCount: nat, more: bool)
      requires error == NoError
      modifies this`pos, this`events, this`error
      ensures var o := ParseElements(e, old(pos), old(events), count);
              if more then error == NoError && pos > old(pos) && ParseElements(e, pos, events, elementCount) == o else Did(o)
      ensures more ==> Left(e.text, pos) < Left(e.text, old(pos))
      decreases Left(e.text, pos), 2
    {
      hide OverBlanks;
      ElementUnfold(e, pos, events, count);
      hide Grammar.ParseValue, SkipSpace, ParseName, ParseElements;
      elementCount, more := count, false;
      ParseValue();
      if error != NoError { return; }
      SkipWhitespace();
      elementCount := Inc(elementCount);
      var b := Take();
      if b == COMMA {
        SkipWhitespace();
        more := true;
      } else if b == RBRACKET {
        Deliver(EndArray(elementCount));
      } else {
        error := ArrayMissCommaOrSquareBracket;
      }
    }

    static lemma ObjectUnfold(e: Env, p: nat, events: seq<Event>)
      requires Peek(e.text, p) == LCURLY
      ensures var xs, q := events + [StartObject], SkipSpace(e.text, p + 1);
              Grammar.ParseValue(e, p, events) ==
              if !e.handler(xs) then Outcome(p + 1, xs, Termination)
              else if Peek(e.text, q) == RCURLY then Emit(e, q + 1, xs, EndObject(0))
              else ParseMembers(e, q, xs, 0)
    {
      hide ParseMembers, SkipSpace, Peek;
    }

    method ParseObject()
      requires error == NoError && Peek(e.text, pos) == LCURLY
      modifies this`pos, this`events, this`error
      ensures Did(Grammar.ParseValue(e, old(pos), old(events)))
      decreases Left(e.text, pos), 0
    {
      hide OverBlanks, Grammar.ParseValue, ParseMembers, SkipSpace;
      ObjectUnfold(e, pos, events);
      var b := Take();
      Deliver(StartObject);
      if error != NoError { return; }
      SkipWhitespace();
      if Peek(e.text, pos) == RCURLY {
        b := Take();
        Deliver(EndObject(0));
        return;
      }
      var memberCount, more := 0, true;
      ghost var rest := ParseMembers(e, pos, events, 0);
      assert rest == Grammar.ParseValue(e, old(pos), old(events));
      while more
        invariant if more then error == NoError && pos > old(pos) && ParseMembers(e, pos, events, memberCount) == rest else Did(rest)
        decreases more, Left(e.text, pos)
      {
        memberCount, more := ParseMember(memberCount);
      }
    }

    /** One turn of the loop of ParseObject: a member, and the comma or the bracket behind it. */
    method ParseMember(count: nat) returns (memberCount: nat, more: bool)
      requires error == NoError
      modifies this`pos, this`events, this`error
      ensures var o := ParseMembers(e, old(pos), old(events), count);
              if more then error == NoError && pos > old(pos) && ParseMembers(e, pos, events, memberCount) == o else Did(o)
      ensures more ==> Left(e.text, pos) < Left(e.text, old(pos))
      decreases Left(e.text, pos), 2
    {
      hide OverBlanks;
      MemberUnfold(e, pos, events, count);
      hide Grammar.ParseValue, SkipSpace, ParseName, ParseMembers;
      memberCount, more := count, false;
      ParseMemberName();
      if error != NoError { return; }
      ParseValue();
      if error != NoError { return; }
      SkipWhitespace();
      memberCount := Inc(memberCount);
      var b := Take();
      if b == COMMA {
        SkipWhitespace();
        more := true;
      } else if b == RCURLY {
        Deliver(EndObject(memberCount));
      } else {
        error := ObjectMissCommaOrCurlyBracket;
      }
    }

    /** The name of a member and its colon: the head of the loop of ParseObject. */
    method ParseMemberName()
      requires error == NoError
      modifies this`pos, this`events, this`error
      ensures Did(ParseName(e, old(pos), old(events)))
    {
      hide OverBlanks;
      if Peek(e.text, pos) != QUOTE {
        error := ObjectMissName;
        return;
      }
      ParseString(true);
      if error != NoError { return; }
      SkipWhitespace();
      var b := Take();
      if b != COLON {
        error := ObjectMissColon;
        return;
      }
      SkipWhitespace();
      hide ParseKey, SkipSpace;
    }

    /** Parse: the recursive parser on a whole text. */
    method Parse()
      requires pos == 0 && events == [] && error == NoError
      modifies this`pos, this`events, this`error
      ensures Did(Grammar.Parse(e))
      ensures error == NoError <==> Automaton.IterativeParse(e).Ok()
      ensures events == Automaton.IterativeParse(e).events
    {
      ParsersAgree(e);
      hide OverBlanks, SkipSpace, Peek, Automaton.IterativeParse, Grammar.ParseValue;
      SkipWhitespace();
      if Peek(e.text, pos) == 0 {
        error := DocumentEmpty;
        return;
      }
      ParseValue();
      if error != NoError { return; }
      if !e.stopWhenDone {
        SkipWhitespace();
        if Peek(e.text, pos) != 0 {
          error := DocumentRootNotSingular;
        }
      }
    }

    // ---------- The automaton ----------

    /** The configuration of the automaton in state `s`. */
    function Now(s: State): Conf
      reads this
    {
      Conf(s, pos, events, stack, error)
    }

    /** Pops the frame of the container that closes; behind a value its count is one short. */
    method PopFrame(src: State) returns (saved: State, count: nat)
      requires stack != []
      modifies this`stack
      ensures var c := old(Now(src)); stack == Close(c).stack && count == Total(c) && saved == c.stack[|c.stack| - 1].saved
    {
      var k := |stack| - 1;
      saved, count := stack[k].saved, stack[k].count;
      stack := stack[..k];
      if src == MemberValue || src == Element {
        count := Inc(count);
      }
    }

    /** Takes the bracket, unless the handler has refused its event. */
    method TakeBracket(dst: State) returns (d: State)
      modifies this`pos
      ensures if error == NoError then d == dst && pos == old(pos) + 1 else d == Error && pos == old(pos)
    {
      if error != NoError {
        return Error;
      }
      var b := Take();
      d := dst;
    }

    /** The tokens on which the table leads to a scalar do not open a container. */
    static lemma ScalarToken(s: State, c: byte)
      ensures var dst := Predict(s, Tokenize(c)); dst == MemberValue || dst == Element || dst == SingleValue ==> c != LCURLY && c != LBRACKET
    {
    }

    /** ParseValue where the table has predicted a scalar: never a container. */
    method ParseSingle(src: State, dst: State, after: State) returns (d: State)
      requires error == NoError && dst == Predict(src, Tokenize(Peek(e.text, pos)))
      requires dst == MemberValue || dst == Element || dst == SingleValue
      modifies this`pos, this`events, this`error
      ensures Did(ParseScalar(e, old(pos), old(events))) && d == if error == NoError then after else Error
    {
      ScalarToken(src, Peek(e.text, pos));
      ParseValue();
      d := if error == NoError then after else Error;
      hide Predict, Tokenize, ParseScalar;
    }

    /** The moves that open and close containers. */
    method TransitBracket(src: State, dst: State) returns (d: State)
      requires Live(Now(src)) && dst == Predict(src, Tokenize(Peek(e.text, pos)))
      requires dst == ObjectInitial || dst == ArrayInitial || dst == ObjectFinish || dst == ArrayFinish
      modifies this`pos, this`events, this`stack, this`error
      ensures Moved(old(Now(src)), d, dst)
    {
      PredictSources(src, Tokenize(Peek(e.text, pos)));
      hide Tokenize, Predict;
      if dst == ObjectInitial || dst == ArrayInitial {
        stack := stack + [Frame(Saved(src), 0)];
        Deliver(if dst == ObjectInitial then StartObject else StartArray);
        d := TakeBracket(dst);
      } else {
        var saved, count := PopFrame(src);
        Deliver(if dst == ObjectFinish then EndObject(count) else EndArray(count));
        d := TakeBracket(if saved == Start then Finish else saved);
      }
      hide StackFits;
    }

    /** The reader has made the move from `c` to `dst` and is in state `d`. */
    predicate Moved(c: Conf, d: State, dst: State)
      requires Live(c) && dst == Predict(c.state, Tokenize(Peek(e.text, c.pos)))
      reads this
    {
      var n := Automaton.Transit(e, c, dst);
      d == n.state && events == n.events && error == n.error && (d != Error ==> pos == n.pos && stack == n.stack)
    }

    /**
     * Transit: makes the move to the predicted state `dst`.  The stack is popped and read at its top only when a frame
     * is there, and a value is parsed only where it is not a container.
     */
    method Transit(src: State, dst: State) returns (d: State)
      requires Live(Now(src)) && dst == Predict(src, Tokenize(Peek(e.text, pos)))
      modifies this`pos, this`events, this`stack, this`error
      ensures Moved(old(Now(src)), d, dst)
    {
      PredictSources(src, Tokenize(Peek(e.text, pos)));
      match dst {
        case Error =>
          d := dst;
        case ObjectInitial | ArrayInitial | ObjectFinish | ArrayFinish =>
          d := TransitBracket(src, dst);
        case MemberKey =>
          KeyToken(src, Peek(e.text, pos));
          ParseString(true);
          d := if error == NoError then dst else Error;
        case KeyValueDelimiter =>
          var b := Take();
          d := dst;
        case MemberDelimiter | ElementDelimiter =>
          var b := Take();
          var k := |stack| - 1;
          stack := stack[k := stack[k].(count := Inc(stack[k].count))];
          d := dst;
        case MemberValue | Element =>
          d := ParseSingle(src, dst, dst);
        case SingleValue =>
          d := ParseSingle(src, dst, Finish);
      }
      hide StackFits, Predict, Tokenize, ParseScalar, ParseKey;
    }

    static lemma KeyToken(s: State, c: byte)
      ensures Predict(s, Tokenize(c)) == MemberKey ==> c == QUOTE
    {
    }

    /** HandleError: a grammar error gets its code, unless an error has been set. */
    method HandleError(src: State)
      modifies this`error
      ensures error == Automaton.HandleError(src, old(error))
    {
      if error != NoError { return; }
      error := match src
        case Start => DocumentEmpty
        case Finish => DocumentRootNotSingular
        case ObjectInitial | MemberDelimiter => ObjectMissName
        case MemberKey => ObjectMissColon
        case MemberValue => ObjectMissCommaOrCurlyBracket
        case Element => ArrayMissCommaOrSquareBracket
        case _ => UnspecificSyntaxError;
    }

    /** IterativeParse: the automaton on a whole text. */
    method IterativeParse()
      requires pos == 0 && events == [] && stack == [] && error == NoError
      modifies this`pos, this`events, this`stack, this`error
      ensures Did(Automaton.IterativeParse(e))
      ensures error == NoError <==> Grammar.Parse(e).Ok()
      ensures events == Grammar.Parse(e).events
    {
      hide OverBlanks;
      ParsersAgree(e);
      hide Grammar.Parse, Predict, Tokenize, Step, Automaton.Transit, StackFits, Automaton.HandleError;
      var state := Start;
      SkipWhitespace();
      InitialFaithful(e);
      ghost var whole := Automaton.IterativeParse(e);
      var broken, done := false, false;
      while !broken && !done && Peek(e.text, pos) != 0
        invariant if broken then Did(whole) && error != NoError
                  else if done then Did(whole) && state == Finish
                  else Live(Now(state)) && Run(e, Now(state)) == whole
        decreases !broken && !done, Left(e.text, pos)
      {
        ghost var c := Now(state);
        var dst := Predict(state, Tokenize(Peek(e.text, pos)));
        StepUnfold(e, c);
        var d := Transit(state, dst);
        if d == Error {
          HandleError(state);
          broken := true;
        } else {
          state := d;
          if e.stopWhenDone && state == Finish {
            done := true;
          } else {
            SkipWhitespace();
          }
        }
      }
      if !broken && state != Finish {
        HandleError(state);
      }
    }
  }
}
