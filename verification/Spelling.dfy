/** How words, numbers and escapes are spelled, byte by byte, and what the scanner makes of them. */
module Spelling {
  import opened Stream
  import opened Events
  import opened Grammar
  import Utf8

  // ---------- Whitespace ----------

  /** The four bytes that may stand between tokens: blank, line feed, carriage return, tab. */
  predicate IsBlank(c: byte) { c == 0x20 || c == 0x0A || c == 0x0D || c == 0x09 }

  /** From `p` to `q` there are blanks, at `q` there is none. */
  predicate OverBlanks(t: Text, p: nat, q: nat) {
    p <= q && !IsBlank(Peek(t, q)) && forall i :: p <= i < q ==> IsBlank(Peek(t, i))
  }

  predicate Blanks(w: seq<byte>) { forall i :: 0 <= i < |w| ==> IsBlank(w[i]) }

  /** The whole run of blanks at a cursor is skipped, and nothing else. */
  lemma {:induction false} RunSkipped(t: Text, p: nat, w: seq<byte>)
    requires At(t, p, w) && Blanks(w)
    ensures SkipSpace(t, p) == SkipSpace(t, p + |w|)
    ensures !IsBlank(Peek(t, p + |w|)) ==> SkipSpace(t, p) == p + |w|
  {
    SkipOver(t, p, w);
  }

  // ---------- Hexadecimal digits ----------

  /** The digits 0 to 9, A to F, and 0 to 9, a to f. */
  const UPPER_HEX: seq<byte> := [0x30, 0x31, 0x32, 0x33, 0x34, 0x35, 0x36, 0x37, 0x38, 0x39, 0x41, 0x42, 0x43, 0x44, 0x45, 0x46]
  const LOWER_HEX: seq<byte> := [0x30, 0x31, 0x32, 0x33, 0x34, 0x35, 0x36, 0x37, 0x38, 0x39, 0x61, 0x62, 0x63, 0x64, 0x65, 0x66]

  /** `c` is the digit of value `d`, in either case. */
  predicate IsDigitOf(c: byte, d: nat) { d < 16 && (c == UPPER_HEX[d] || c == LOWER_HEX[d]) }

  /** The four bytes at `p` spell `n`, each in either case. */
  predicate SpellsAt(t: Text, p: nat, n: nat) {
    && n <= 0xFFFF
    && IsDigitOf(Peek(t, p), n / 4096) && IsDigitOf(Peek(t, p + 1), n / 256 % 16)
    && IsDigitOf(Peek(t, p + 2), n / 16 % 16) && IsDigitOf(Peek(t, p + 3), n % 16)
  }

  /** There is no number that the four bytes at `p` spell. */
  ghost predicate SpellsNone(t: Text, p: nat) { forall n: nat :: !SpellsAt(t, p, n) }

  /** Each of the 22 digits has its value, and no other byte is one. */
  lemma HexDigits(c: byte, d: nat)
    ensures IsDigitOf(c, d) <==> IsHex(c) && HexValue(c) == d
    ensures IsHex(c) <==> c in UPPER_HEX || c in LOWER_HEX
  {
    if IsHex(c) {
      var v := HexValue(c);
      assert c == UPPER_HEX[v] || c == LOWER_HEX[v];
    }
  }

  lemma FourDigits(n: nat, a: nat, b: nat, c: nat, d: nat)
    requires a < 16 && b < 16 && c < 16 && d < 16
    ensures n == ((a * 16 + b) * 16 + c) * 16 + d <==> n <= 0xFFFF && n / 4096 == a && n / 256 % 16 == b && n / 16 % 16 == c && n % 16 == d
  {
    var x := n / 16;
    var y := x / 16;
    assert n / 256 == y && n / 4096 == y / 16;
    assert n == x * 16 + n % 16 && x == y * 16 + x % 16 && y == y / 16 * 16 + y % 16;
  }

  lemma HexAt(t: Text, p: nat, n: nat)
    ensures SpellsAt(t, p, n) <==> IsHex4(t, p) && Hex4(t, p) == n
  {
    hide IsDigitOf, IsHex, HexValue, Peek;
    HexDigits(Peek(t, p), n / 4096);
    HexDigits(Peek(t, p + 1), n / 256 % 16);
    HexDigits(Peek(t, p + 2), n / 16 % 16);
    HexDigits(Peek(t, p + 3), n % 16);
    if IsHex4(t, p) {
      FourDigits(n, HexValue(Peek(t, p)), HexValue(Peek(t, p + 1)), HexValue(Peek(t, p + 2)), HexValue(Peek(t, p + 3)));
    }
  }

  /** Four bytes are four digits exactly when they spell a number, and then just one. */
  lemma HexSpelled(t: Text, p: nat)
    ensures IsHex4(t, p) ==> SpellsAt(t, p, Hex4(t, p)) && forall n: nat :: SpellsAt(t, p, n) ==> n == Hex4(t, p)
    ensures !IsHex4(t, p) <==> SpellsNone(t, p)
  {
    hide SpellsAt, IsHex4, Hex4;
    forall n: nat ensures SpellsAt(t, p, n) <==> IsHex4(t, p) && Hex4(t, p) == n {
      HexAt(t, p, n);
    }
  }

  // ---------- Unicode escapes ----------

  /** A code point from the escape whose digits start at `p`, and from a second one when the first is a high surrogate. */
  predicate UnicodeAt(t: Text, p: nat, cp: nat, next: nat) {
    if cp <= 0xFFFF then
      SpellsAt(t, p, cp) && !(0xD800 <= cp <= 0xDBFF) && next == p + 4
    else
      && cp <= 0x10FFFF && next == p + 10
      && SpellsAt(t, p, 0xD800 + (cp - 0x10000) / 1024) && Peek(t, p + 4) == 0x5C && Peek(t, p + 5) == 0x75
      && SpellsAt(t, p + 6, 0xDC00 + (cp - 0x10000) % 1024)
  }

  /** The digits at `p` spell a high surrogate, a number from D800 to DBFF. */
  ghost predicate HighAt(t: Text, p: nat) { exists n: nat :: SpellsAt(t, p, n) && 0xD800 <= n <= 0xDBFF }

  /** The digits at `p` spell a number that is no low surrogate, one from DC00 to DFFF. */
  ghost predicate NotLowAt(t: Text, p: nat) { exists n: nat :: SpellsAt(t, p, n) && !(0xDC00 <= n <= 0xDFFF) }

  /** A high surrogate with nothing behind it that makes a pair. */
  ghost predicate LoneHigh(t: Text, p: nat) {
    HighAt(t, p) && (Peek(t, p + 4) != 0x5C || Peek(t, p + 5) != 0x75 || NotLowAt(t, p + 6))
  }

  /** No digits, or none in a second escape that has to be there. */
  ghost predicate DigitsMissing(t: Text, p: nat) {
    || SpellsNone(t, p)
    || (HighAt(t, p) && Peek(t, p + 4) == 0x5C && Peek(t, p + 5) == 0x75 && SpellsNone(t, p + 6))
  }

  /** What an escape is scanned as, by what is spelled there. */
  lemma UnicodeSpelled(t: Text, p: nat)
    ensures match ScanUnicode(t, p)
            case Escape(next, cp) => UnicodeAt(t, p, cp, next)
            case EscapeError(code) =>
              (code == StringUnicodeEscapeInvalidHex && DigitsMissing(t, p)) || (code == StringUnicodeSurrogateInvalid && LoneHigh(t, p))
  {
    hide SpellsAt, SpellsNone, IsHex4, Hex4, Peek;
    HexSpelled(t, p);
    HexSpelled(t, p + 6);
    if IsHex4(t, p) && IsHex4(t, p + 6) && 0xD800 <= Hex4(t, p) <= 0xDBFF && 0xDC00 <= Hex4(t, p + 6) <= 0xDFFF {
      Surrogates(Hex4(t, p), Hex4(t, p + 6));
    }
  }

  lemma Surrogates(lead: nat, trail: nat)
    requires 0xD800 <= lead <= 0xDBFF && 0xDC00 <= trail <= 0xDFFF
    ensures var cp := (lead - 0xD800) * 1024 + (trail - 0xDC00) + 0x10000;
            0xFFFF < cp <= 0x10FFFF && 0xD800 + (cp - 0x10000) / 1024 == lead && 0xDC00 + (cp - 0x10000) % 1024 == trail
  {
  }

  lemma SurrogatesBack(cp: nat)
    requires 0xFFFF < cp <= 0x10FFFF
    ensures var lead, trail := 0xD800 + (cp - 0x10000) / 1024, 0xDC00 + (cp - 0x10000) % 1024;
            0xD800 <= lead <= 0xDBFF && 0xDC00 <= trail <= 0xDFFF && (lead - 0xD800) * 1024 + (trail - 0xDC00) + 0x10000 == cp
  {
  }

  /** An escape in the text, its digits in any mix of cases, puts the character it spells. */
  lemma ReadSpelled(t: Text, validate: bool, p: nat, cp: nat, next: nat, acc: seq<byte>)
    requires Peek(t, p) == 0x5C && Peek(t, p + 1) == 0x75 && UnicodeAt(t, p + 2, cp, next)
    ensures ScanString(t, validate, p, acc) == ScanString(t, validate, next, acc + Utf8.Encode(cp))
  {
    hide SpellsAt, IsHex4, Hex4, Utf8.Encode, Utf8.CharLen;
    HexSpelled(t, p + 2);
    if cp > 0xFFFF {
      HexSpelled(t, p + 8);
      SurrogatesBack(cp);
    }
    assert ScanUnicode(t, p + 2) == Escape(next, cp);
    hide ScanUnicode;
  }

  // ---------- One-character escapes ----------

  /** The letters behind a backslash and the bytes they stand for. */
  const ESCAPE_LETTERS: seq<byte> := [0x22, 0x5C, 0x2F, 0x62, 0x66, 0x6E, 0x72, 0x74]
  const ESCAPED_BYTES: seq<byte> := [0x22, 0x5C, 0x2F, 0x08, 0x0C, 0x0A, 0x0D, 0x09]

  lemma ReadLetter(t: Text, validate: bool, p: nat, i: nat, acc: seq<byte>)
    requires i < 8 && Peek(t, p) == 0x5C && Peek(t, p + 1) == ESCAPE_LETTERS[i]
    ensures ScanString(t, validate, p, acc) == ScanString(t, validate, p + 2, acc + [ESCAPED_BYTES[i]])
  {
    hide ScanUnicode, Utf8.Encode, Utf8.CharLen;
    assert Unescape(ESCAPE_LETTERS[i]) == ESCAPED_BYTES[i];
  }

  lemma NoLetter(t: Text, validate: bool, p: nat, acc: seq<byte>)
    requires Peek(t, p) == 0x5C && Peek(t, p + 1) !in ESCAPE_LETTERS && Peek(t, p + 1) != 0x75
    ensures ScanString(t, validate, p, acc) == StrError(StringEscapeInvalid)
  {
    hide ScanUnicode, Utf8.Encode, Utf8.CharLen;
    assert forall i :: 0 <= i < 8 ==> Peek(t, p + 1) != ESCAPE_LETTERS[i];
  }

  // ---------- Words ----------

  /** The words null, true and false. */
  lemma WordsSpelled(e: Env, p: nat)
    ensures ScanScalar(e, p) == Scalar(p + 4, Null) <==> At(e.text, p, [0x6E, 0x75, 0x6C, 0x6C])
    ensures ScanScalar(e, p) == Scalar(p + 4, Bool(true)) <==> At(e.text, p, [0x74, 0x72, 0x75, 0x65])
    ensures ScanScalar(e, p) == Scalar(p + 5, Bool(false)) <==> At(e.text, p, [0x66, 0x61, 0x6C, 0x73, 0x65])
    ensures Peek(e.text, p) == 0x6E && !At(e.text, p, [0x6E, 0x75, 0x6C, 0x6C]) ==> ScanScalar(e, p) == ScalarError(ValueInvalid)
    ensures Peek(e.text, p) == 0x74 && !At(e.text, p, [0x74, 0x72, 0x75, 0x65]) ==> ScanScalar(e, p) == ScalarError(ValueInvalid)
    ensures Peek(e.text, p) == 0x66 && !At(e.text, p, [0x66, 0x61, 0x6C, 0x73, 0x65]) ==> ScanScalar(e, p) == ScalarError(ValueInvalid)
  {
    hide ScanString, ScanNumber;
    FirstOfWord(e.text, p, [0x6E, 0x75, 0x6C, 0x6C]);
    FirstOfWord(e.text, p, [0x74, 0x72, 0x75, 0x65]);
    FirstOfWord(e.text, p, [0x66, 0x61, 0x6C, 0x73, 0x65]);
    NumberIsNoWord(e, p);
    hide At;
  }

  lemma FirstOfWord(t: Text, p: nat, w: seq<byte>)
    requires w != []
    ensures At(t, p, w) ==> Peek(t, p) == w[0]
  {
    if At(t, p, w) {
      AtByte(t, p, w, 0);
    }
  }

  lemma NumberIsNoWord(e: Env, p: nat)
    ensures ScanNumber(e, p).Scalar? ==> !ScanNumber(e, p).event.Null? && !ScanNumber(e, p).event.Bool?
  {
    hide Decimal, DigitsEnd;
  }

  // ---------- Numbers ----------

  predicate DigitAt(t: Text, p: nat) { 0x30 <= Peek(t, p) <= 0x39 }

  /** The digits of a number stand from `q` to `r`: one zero, or a run that does not start with one. */
  predicate DigitsStand(t: Text, q: nat, r: nat) {
    && q < r <= |t| && (forall k :: q <= k < r ==> DigitAt(t, k))
    && if Peek(t, q) == 0x30 then r == q + 1 else !DigitAt(t, r)
  }

  /** A point or an exponent follows, or the number is beyond the 64-bit integers. */
  predicate IsFraction(minus: bool, v: nat, c: byte) {
    c == 0x2E || c == 0x65 || c == 0x45 || v > (if minus then 0x8000_0000_0000_0000 else 0xFFFF_FFFF_FFFF_FFFF)
  }

  /** A number by its digits: an integer in the narrowest type of its sign, unless it is no 64-bit integer. */
  lemma NumberSpelled(e: Env, p: nat, q: nat, r: nat, v: nat)
    requires q == (if Peek(e.text, p) == 0x2D then p + 1 else p) && DigitsStand(e.text, q, r) && v == Decimal(e.text[q..r])
    ensures IsFraction(q != p, v, Peek(e.text, r)) ==>
              ScanNumber(e, p) == match e.double(e.text, p)
                                  case DoubleAt(extra, bits) => Scalar(p + extra + 1, Double(bits))
                                  case DoubleError(code) => ScalarError(code)
    ensures !IsFraction(q != p, v, Peek(e.text, r)) && q == p ==>
              ScanNumber(e, p) == Scalar(r, if v <= 0xFFFF_FFFF then Uint(v) else Uint64(v))
    ensures !IsFraction(q != p, v, Peek(e.text, r)) && q != p ==>
              ScanNumber(e, p) == Scalar(r, if v <= 0x8000_0000 then Int(-(v as int)) else Int64(-(v as int)))
  {
    hide Decimal;
    assert DigitAt(e.text, q);
    if Peek(e.text, q) != 0x30 {
      RunEnds(e.text, q, r);
    }
    hide DigitsEnd;
  }

  lemma {:induction false} RunEnds(t: Text, q: nat, r: nat)
    requires q <= r && (forall k :: q <= k < r ==> DigitAt(t, k)) && !DigitAt(t, r)
    ensures DigitsEnd(t, q) == r
    decreases r - q
  {
    if q < r {
      assert DigitAt(t, q);
      RunEnds(t, q + 1, r);
    }
  }

  /** Where no digit follows the sign there is no number. */
  lemma NoDigits(e: Env, p: nat)
    requires !DigitAt(e.text, if Peek(e.text, p) == 0x2D then p + 1 else p)
    ensures ScanNumber(e, p) == ScalarError(ValueInvalid)
  {
  }
}
