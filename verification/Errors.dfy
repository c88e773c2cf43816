/** What the error code of a parse says of the place where the cursor stands. */
module Errors {
  import opened Stream
  import opened Events
  import opened Grammar
  import Utf8

  /** The code of a value that cannot be parsed fits what is at the cursor and what the handler has said. */
  predicate Explains(e: Env, o: Outcome) {
    var b := Peek(e.text, o.pos);
    match o.error
    case NoError => true
    case ObjectMissName => b != 0x22
    case ObjectMissColon => b != 0x3A
    case ObjectMissCommaOrCurlyBracket => b != 0x2C && b != 0x7D
    case ArrayMissCommaOrSquareBracket => b != 0x2C && b != 0x5D
    case Termination => o.events != [] && !e.handler(o.events)
    case DocumentEmpty | DocumentRootNotSingular | UnspecificSyntaxError => false
    case code => b != 0x5B && b != 0x7B && ScanScalar(e, o.pos) == ScalarError(code)
  }

  lemma ScalarExplained(e: Env, p: nat, events: seq<Event>)
    requires Peek(e.text, p) != 0x5B && Peek(e.text, p) != 0x7B
    ensures Explains(e, ParseScalar(e, p, events))
  {
    ScalarCodes(e, p);
    hide ScanScalar;
  }

  /** The codes of scalars are the codes of values, strings and numbers. */
  lemma ScalarCodes(e: Env, p: nat)
    ensures ScanScalar(e, p).ScalarError? ==>
              ScanScalar(e, p).code == ValueInvalid || StringCode(ScanScalar(e, p).code) || NumberCode(ScanScalar(e, p).code)
  {
    hide ScanString;
    StringCodes(e.text, e.validateEncoding, p + 1, []);
  }

  predicate StringCode(c: ErrorCode) {
    || c == StringUnicodeEscapeInvalidHex || c == StringUnicodeSurrogateInvalid || c == StringEscapeInvalid
    || c == StringMissQuotationMark || c == StringInvalidEncoding
  }

  predicate NumberCode(c: ErrorCode) { c == NumberTooBig || c == NumberMissFraction || c == NumberMissExponent }

  lemma {:induction false} StringCodes(t: Text, validate: bool, p: nat, acc: seq<byte>)
    ensures ScanString(t, validate, p, acc).StrError? ==> StringCode(ScanString(t, validate, p, acc).code)
    decreases Left(t, p)
  {
    hide ScanString, ScanUnicode, Unescape, Utf8.CharLen, Utf8.Encode;
    ScanOnce(t, validate, p, acc);
    UnicodeCodes(t, p + 2);
    var c, x := Peek(t, p), Peek(t, p + 1);
    if c == BACKSLASH {
      if Unescape(x) != 0 {
        StringCodes(t, validate, p + 2, acc + [Unescape(x)]);
      } else if x == LOWER_U && ScanUnicode(t, p + 2).Escape? {
        StringCodes(t, validate, ScanUnicode(t, p + 2).next, acc + Utf8.Encode(ScanUnicode(t, p + 2).cp));
      }
    } else if c >= 0x20 && c != QUOTE {
      if !validate {
        StringCodes(t, validate, p + 1, acc + [c]);
      } else if Utf8.CharLen(t, p) > 0 {
        StringCodes(t, validate, p + Utf8.CharLen(t, p), acc + t[p..p + Utf8.CharLen(t, p)]);
      }
    }
  }

  lemma UnicodeCodes(t: Text, p: nat)
    ensures ScanUnicode(t, p).EscapeError? ==> StringCode(ScanUnicode(t, p).code)
  {
  }

  lemma NameExplained(e: Env, p: nat, events: seq<Event>)
    ensures Explains(e, ParseName(e, p, events))
  {
    if Peek(e.text, p) == QUOTE {
      StringCodes(e.text, e.validateEncoding, p + 1, []);
      assert ScanScalar(e, p) == match ScanString(e.text, e.validateEncoding, p + 1, [])
                                 case Str(next, s) => Scalar(next, String(s))
                                 case StrError(code) => ScalarError(code);
    }
    hide ScanString, ScanScalar, SkipSpace;
  }

  lemma EmitExplained(e: Env, p: nat, events: seq<Event>, x: Event)
    ensures Explains(e, Emit(e, p, events, x))
  {
  }

  lemma DelimiterExplained(e: Env, q: nat, events: seq<Event>)
    ensures Peek(e.text, q) != COMMA && Peek(e.text, q) != RBRACKET ==> Explains(e, Outcome(q, events, ArrayMissCommaOrSquareBracket))
    ensures Peek(e.text, q) != COMMA && Peek(e.text, q) != RCURLY ==> Explains(e, Outcome(q, events, ObjectMissCommaOrCurlyBracket))
  {
  }

  lemma {:induction false} ValueExplained(e: Env, p: nat, events: seq<Event>)
    ensures Explains(e, ParseValue(e, p, events))
    decreases Left(e.text, p), 1
  {
    hide Explains, ParseElements, ParseMembers, ParseScalar, SkipSpace;
    var c := Peek(e.text, p);
    var q := SkipSpace(e.text, p + 1);
    if c == LCURLY {
      EmitExplained(e, p + 1, events, StartObject);
      EmitExplained(e, q + 1, events + [StartObject], EndObject(0));
      MembersExplained(e, q, events + [StartObject], 0);
    } else if c == LBRACKET {
      EmitExplained(e, p + 1, events, StartArray);
      EmitExplained(e, q + 1, events + [StartArray], EndArray(0));
      ElementsExplained(e, q, events + [StartArray], 0);
    } else {
      ScalarExplained(e, p, events);
    }
  }

  lemma {:induction false} ElementsExplained(e: Env, p: nat, events: seq<Event>, n: nat)
    ensures Explains(e, ParseElements(e, p, events, n))
    decreases Left(e.text, p), 2
  {
    hide ParseElements, ParseValue, SkipSpace, Emit, Explains;
    var o := ParseValue(e, p, events);
    var q := SkipSpace(e.text, o.pos);
    ElementUnfold(e, p, events, n);
    ValueExplained(e, p, events);
    EmitExplained(e, q + 1, o.events, EndArray(Inc(n)));
    DelimiterExplained(e, q, o.events);
    if o.Ok() && Peek(e.text, q) == COMMA {
      ElementsExplained(e, SkipSpace(e.text, q + 1), o.events, Inc(n));
    }
  }

  lemma {:induction false} MembersExplained(e: Env, p: nat, events: seq<Event>, n: nat)
    ensures Explains(e, ParseMembers(e, p, events, n))
    decreases Left(e.text, p), 2
  {
    hide ParseMembers, ParseValue, SkipSpace, Emit, ParseName, Explains;
    var k := ParseName(e, p, events);
    MemberUnfold(e, p, events, n);
    NameExplained(e, p, events);
    if k.Ok() {
      var o := ParseValue(e, k.pos, k.events);
      var q := SkipSpace(e.text, o.pos);
      ValueExplained(e, k.pos, k.events);
      EmitExplained(e, q + 1, o.events, EndObject(Inc(n)));
      DelimiterExplained(e, q, o.events);
      if o.Ok() && Peek(e.text, q) == COMMA {
        MembersExplained(e, SkipSpace(e.text, q + 1), o.events, Inc(n));
      }
    }
  }

  /**
   * Every code of the recursive parser, told from the byte at its cursor, the handler's last answer, or the scalar there:
   * an empty document is one of blanks only, and a root that is not alone has something else behind it.
   */
  lemma ParseExplained(e: Env)
    ensures Parse(e).error == DocumentEmpty <==> Peek(e.text, SkipSpace(e.text, 0)) == 0
    ensures Parse(e).error == DocumentRootNotSingular ==> ParseValue(e, SkipSpace(e.text, 0), []).Ok() && Peek(e.text, Parse(e).pos) != 0
    ensures Parse(e).error != DocumentEmpty && Parse(e).error != DocumentRootNotSingular ==> Explains(e, Parse(e))
  {
    hide ParseValue, SkipSpace, ScanScalar;
    ValueExplained(e, SkipSpace(e.text, 0), []);
  }
}
