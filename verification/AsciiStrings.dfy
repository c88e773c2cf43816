/** WriteString with an ASCII target: every character beyond ASCII leaves as \uXXXX, and the reader brings it back. */
module AsciiStrings {
  import opened Stream
  import opened Sequences
  import opened Events
  import opened Grammar
  import opened Printing
  import Utf8
  import ReadBack

  /** \u and four hexadecimal digits. */
  function HexEscape(n: nat): seq<byte>
    requires n <= 0xFFFF
  {
    [BACKSLASH, LOWER_U, HexDigit(n / 4096), HexDigit(n / 256 % 16), HexDigit(n / 16 % 16), HexDigit(n % 16)]
  }

  /** One escape in the basic plane, a surrogate pair beyond it. */
  function UnicodeEscape(cp: nat): (s: seq<byte>)
    requires Utf8.IsScalar(cp)
    ensures |s| > 0
  {
    if cp <= 0xFFFF then HexEscape(cp)
    else var s := cp - 0x10000; HexEscape(s / 1024 + 0xD800) + HexEscape(s % 1024 + 0xDC00)
  }

  /** What is written for the character at `i`. */
  function EscapeCharacter(s: Text, i: nat): (w: seq<byte>)
    requires i < |s| && Utf8.CharLen(s, i) != 0
    ensures |w| > 0
  {
    if s[i] < 0x80 then EscapeByte(s[i])
    else
      Utf8.CharIsEncoded(s, i);
      UnicodeEscape(Utf8.CodePoint(s, i, Utf8.CharLen(s, i)))
  }

  /** The text of a well-formed string from byte `i` on, without the quotes. */
  function AsciiText(s: Text, i: nat): seq<byte>
    requires i <= |s| && Utf8.WellFormedFrom(s, i)
    decreases |s| - i
  {
    if i == |s| then [] else EscapeCharacter(s, i) + AsciiText(s, i + Utf8.CharLen(s, i))
  }

  function AsciiQuoted(s: Text): seq<byte>
    requires Utf8.WellFormed(s)
  {
    [QUOTE] + AsciiText(s, 0) + [QUOTE]
  }

  /** The body of the loop: one character from the source string to the output. */
  method PutCharacter(s: Text, i: nat, os: seq<byte>) returns (ok: bool, longer: seq<byte>, next: nat)
    requires i < |s|
    ensures ok <==> Utf8.CharLen(s, i) != 0
    ensures ok ==> longer == os + EscapeCharacter(s, i) && next == i + Utf8.CharLen(s, i)
  {
    hide Utf8.CharLen, Utf8.CodePoint;
    longer := os;
    if s[i] < 0x80 {
      ReadBack.AsciiLength(s, i);
      ok, longer, next := true, longer + EscapeByte(s[i]), i + 1;
    } else {
      var cp: nat;
      ok, cp, next := Utf8.Decode(s, i);
      if ok {
        Utf8.CharIsEncoded(s, i);
        if cp <= 0xD7FF || 0xE000 <= cp <= 0xFFFF {
          longer := PutHex(longer, cp);
        } else {
          var v := cp - 0x10000;
          longer := PutHex(longer, v / 1024 + 0xD800);
          longer := PutHex(longer, v % 1024 + 0xDC00);
          Associate(os, HexEscape(v / 1024 + 0xD800), HexEscape(v % 1024 + 0xDC00));
        }
        hide HexEscape;
      }
    }
  }

  /** WriteString: fails exactly on strings that are not well-formed UTF-8. */
  method WriteString(s: Text) returns (ok: bool, os: seq<byte>)
    ensures ok <==> Utf8.WellFormed(s)
    ensures ok ==> os == AsciiQuoted(s)
  {
    hide EscapeCharacter, AsciiText, Utf8.CharLen, Utf8.WellFormedFrom;
    os := [QUOTE];
    var i := 0;
    while i < |s|
      invariant i <= |s|
      invariant Utf8.WellFormedFrom(s, i) <==> Utf8.WellFormed(s)
      invariant Utf8.WellFormed(s) ==> [QUOTE] + AsciiText(s, 0) == os + AsciiText(s, i)
    {
      ghost var was := os;
      var fine: bool, next: nat;
      fine, os, next := PutCharacter(s, i, os);
      if !fine {
        NoText(s, i);
        return false, os;
      }
      TextStep(s, i, was);
      i := next;
    }
    TextEnd(s, os);
    os := os + [QUOTE];
    ok := true;
  }

  lemma NoText(s: Text, i: nat)
    requires i < |s| && Utf8.CharLen(s, i) == 0
    ensures !Utf8.WellFormedFrom(s, i)
  {
    hide Utf8.CharLen;
  }

  lemma TextEnd(s: Text, os: seq<byte>)
    ensures Utf8.WellFormedFrom(s, |s|) && os + AsciiText(s, |s|) == os
  {
  }

  lemma TextStep(s: Text, i: nat, was: seq<byte>)
    requires i < |s| && Utf8.CharLen(s, i) != 0
    ensures Utf8.WellFormedFrom(s, i) <==> Utf8.WellFormedFrom(s, i + Utf8.CharLen(s, i))
    ensures Utf8.WellFormedFrom(s, i) ==>
              was + AsciiText(s, i) == was + EscapeCharacter(s, i) + AsciiText(s, i + Utf8.CharLen(s, i))
  {
    hide EscapeCharacter, Utf8.CharLen;
    if Utf8.WellFormedFrom(s, i) {
      Associate(was, EscapeCharacter(s, i), AsciiText(s, i + Utf8.CharLen(s, i)));
    }
  }

  /** Puts \u and the digits of a number one by one. */
  method PutHex(os: seq<byte>, n: nat) returns (longer: seq<byte>)
    requires n <= 0xFFFF
    ensures longer == os + HexEscape(n)
  {
    longer := os + [BACKSLASH];
    longer := longer + [LOWER_U];
    longer := longer + [HexDigit(n / 4096)];
    longer := longer + [HexDigit(n / 256 % 16)];
    longer := longer + [HexDigit(n / 16 % 16)];
    longer := longer + [HexDigit(n % 16)];
  }

  predicate Ascii(s: seq<byte>) { forall i :: 0 <= i < |s| ==> s[i] < 0x80 }

  lemma AsciiBoth(a: seq<byte>, b: seq<byte>)
    requires Ascii(a) && Ascii(b)
    ensures Ascii(a + b)
  {
  }

  /** Everything that is written is ASCII. */
  lemma {:induction false} AsciiOnly(s: Text, i: nat)
    requires i <= |s| && Utf8.WellFormedFrom(s, i)
    ensures Ascii(AsciiText(s, i))
    decreases |s| - i
  {
    hide EscapeCharacter, Utf8.CharLen, Ascii;
    if i < |s| {
      AsciiOnly(s, i + Utf8.CharLen(s, i));
      AsciiCharacter(s, i);
      AsciiBoth(EscapeCharacter(s, i), AsciiText(s, i + Utf8.CharLen(s, i)));
    } else {
      NoneAscii();
    }
  }

  lemma NoneAscii()
    ensures Ascii([])
  {
  }

  lemma AsciiCharacter(s: Text, i: nat)
    requires i < |s| && Utf8.CharLen(s, i) != 0
    ensures Ascii(EscapeCharacter(s, i))
  {
    hide Utf8.CharLen, Utf8.CodePoint, HexEscape, EscapeByte, Ascii;
    if s[i] >= 0x80 {
      Utf8.CharIsEncoded(s, i);
      AsciiUnicode(Utf8.CodePoint(s, i, Utf8.CharLen(s, i)));
    } else {
      AsciiByte(s[i]);
    }
  }

  lemma AsciiByte(c: byte)
    requires c < 0x80
    ensures Ascii(EscapeByte(c))
  {
  }

  lemma AsciiUnicode(cp: nat)
    requires Utf8.IsScalar(cp)
    ensures Ascii(UnicodeEscape(cp))
  {
    hide HexEscape, Ascii;
    if cp <= 0xFFFF {
      AsciiEscape(cp);
    } else {
      var s := cp - 0x10000;
      AsciiEscape(s / 1024 + 0xD800);
      AsciiEscape(s % 1024 + 0xDC00);
      AsciiBoth(HexEscape(s / 1024 + 0xD800), HexEscape(s % 1024 + 0xDC00));
    }
  }

  lemma AsciiEscape(n: nat)
    requires n <= 0xFFFF
    ensures Ascii(HexEscape(n))
  {
  }

  // ---------- Reading back ----------

  lemma HexDigitValue(n: nat)
    requires n < 16
    ensures IsHex(HexDigit(n)) && HexValue(HexDigit(n)) == n
  {
  }

  lemma ReadHex(t: Text, p: nat, n: nat)
    requires n <= 0xFFFF && At(t, p, HexEscape(n))
    ensures Peek(t, p) == BACKSLASH && Peek(t, p + 1) == LOWER_U && IsHex4(t, p + 2) && Hex4(t, p + 2) == n
  {
    var s := HexEscape(n);
    AtByte(t, p, s, 0);
    AtByte(t, p, s, 1);
    AtByte(t, p, s, 2);
    AtByte(t, p, s, 3);
    AtByte(t, p, s, 4);
    AtByte(t, p, s, 5);
    HexDigitValue(n / 4096);
    HexDigitValue(n / 256 % 16);
    HexDigitValue(n / 16 % 16);
    HexDigitValue(n % 16);
    hide HexDigit, HexValue, IsHex;
    Hexadecimal(n);
  }

  lemma Hexadecimal(n: nat)
    ensures ((n / 4096 * 16 + n / 256 % 16) * 16 + n / 16 % 16) * 16 + n % 16 == n
  {
    HexStep(n);
    HexStep(n / 16);
    HexStep(n / 256);
    assert n / 16 / 16 == n / 256;
    assert n / 256 / 16 == n / 4096;
  }

  lemma HexStep(n: nat)
    ensures n == n / 16 * 16 + n % 16
  {
  }

  /** A code point of the basic plane from one escape. */
  lemma ScanBasic(t: Text, p: nat, cp: nat)
    requires IsHex4(t, p) && Hex4(t, p) == cp && Utf8.IsScalar(cp)
    ensures ScanUnicode(t, p) == Escape(p + 4, cp)
  {
    hide IsHex4, Hex4;
  }

  /** One from beyond it from a pair. */
  lemma ScanPair(t: Text, p: nat, lead: nat, trail: nat)
    requires IsHex4(t, p) && Hex4(t, p) == lead && Peek(t, p + 4) == BACKSLASH && Peek(t, p + 5) == LOWER_U
    requires IsHex4(t, p + 6) && Hex4(t, p + 6) == trail && 0xD800 <= lead <= 0xDBFF && 0xDC00 <= trail <= 0xDFFF
    ensures ScanUnicode(t, p) == Escape(p + 10, (lead - 0xD800) * 1024 + (trail - 0xDC00) + 0x10000)
  {
    hide IsHex4, Hex4;
  }

  lemma PairHalves(s: nat)
    requires s < 0x100000
    ensures s / 1024 < 1024 && s % 1024 < 1024 && s / 1024 * 1024 + s % 1024 == s
  {
  }

  /** The reader turns an escape, or a pair of them, back into its code point. */
  lemma ReadUnicode(t: Text, p: nat, cp: nat)
    requires Utf8.IsScalar(cp) && At(t, p, UnicodeEscape(cp))
    ensures Peek(t, p) == BACKSLASH && Peek(t, p + 1) == LOWER_U
    ensures ScanUnicode(t, p + 2) == Escape(p + |UnicodeEscape(cp)|, cp)
  {
    hide IsHex4, Hex4, ScanUnicode, At, Peek;
    if cp <= 0xFFFF {
      ReadHex(t, p, cp);
      ScanBasic(t, p + 2, cp);
    } else {
      var s := cp - 0x10000;
      PairHalves(s);
      var lead, trail := s / 1024 + 0xD800, s % 1024 + 0xDC00;
      AtSplit(t, p, HexEscape(lead), HexEscape(trail));
      ReadHex(t, p, lead);
      ReadHex(t, p + 6, trail);
      ScanPair(t, p + 2, lead, trail);
    }
  }

  /** One character. */
  lemma ReadCharacter(t: Text, validate: bool, p: nat, s: Text, i: nat, acc: seq<byte>)
    requires i < |s| && Utf8.CharLen(s, i) != 0 && At(t, p, EscapeCharacter(s, i))
    ensures ScanString(t, validate, p, acc)
         == ScanString(t, validate, p + |EscapeCharacter(s, i)|, acc + s[i..i + Utf8.CharLen(s, i)])
  {
    hide Utf8.CodePoint, Utf8.CharLen, At, UnicodeEscape, ScanString, EscapeByte;
    if s[i] < 0x80 {
      ReadBack.AsciiLength(s, i);
      ReadBack.ReadEscaped(t, validate, p, s[i], acc);
      assert s[i..i + 1] == [s[i]];
    } else {
      var n := Utf8.CharLen(s, i);
      Utf8.CharIsEncoded(s, i);
      var cp := Utf8.CodePoint(s, i, n);
      ReadUnicode(t, p, cp);
      ReadEscape(t, validate, p, p + |UnicodeEscape(cp)|, cp, acc);
    }
  }

  lemma ReadEscape(t: Text, validate: bool, p: nat, next: nat, cp: nat, acc: seq<byte>)
    requires Peek(t, p) == BACKSLASH && Peek(t, p + 1) == LOWER_U && ScanUnicode(t, p + 2) == Escape(next, cp)
    ensures ScanString(t, validate, p, acc) == ScanString(t, validate, next, acc + Utf8.Encode(cp))
  {
    hide ScanUnicode, Utf8.Encode, Utf8.CharLen;
  }

  lemma {:induction false} ReadRest(t: Text, validate: bool, p: nat, s: Text, i: nat)
    requires i <= |s| && Utf8.WellFormedFrom(s, i) && At(t, p, AsciiText(s, i) + [QUOTE])
    ensures ScanString(t, validate, p, s[..i]) == Str(p + |AsciiText(s, i)| + 1, s)
    decreases |s| - i
  {
    hide ScanString, EscapeCharacter, Utf8.CharLen, At;
    if i == |s| {
      assert AsciiText(s, i) + [QUOTE] == [QUOTE] && s[..i] == s;
      ReadEnd(t, validate, p, s);
    } else {
      var n := Utf8.CharLen(s, i);
      var head, rest := EscapeCharacter(s, i), AsciiText(s, i + n);
      Associate(head, rest, [QUOTE]);
      AtSplit(t, p, head, rest + [QUOTE]);
      ReadCharacter(t, validate, p, s, i, s[..i]);
      assert s[..i] + s[i..i + n] == s[..i + n];
      ReadRest(t, validate, p + |head|, s, i + n);
    }
  }

  lemma ReadEnd(t: Text, validate: bool, p: nat, s: seq<byte>)
    requires At(t, p, [QUOTE])
    ensures ScanString(t, validate, p, s) == Str(p + 1, s)
  {
    AtByte(t, p, [QUOTE], 0);
  }

  /**
   * A well-formed string, written for an ASCII target, is pure ASCII, and the reader recovers its bytes and stops
   * behind the closing quote, whether it validates or not.
   */
  lemma {:induction false} AsciiRoundTrip(t: Text, validate: bool, p: nat, s: Text)
    requires Utf8.WellFormed(s) && At(t, p, AsciiQuoted(s))
    ensures Ascii(AsciiQuoted(s))
    ensures Peek(t, p) == QUOTE && ScanString(t, validate, p + 1, []) == Str(p + |AsciiQuoted(s)|, s)
  {
    hide ScanString, AsciiText;
    AsciiOnly(s, 0);
    Associate([QUOTE], AsciiText(s, 0), [QUOTE]);
    AtSplit(t, p, [QUOTE], AsciiText(s, 0) + [QUOTE]);
    AtByte(t, p, [QUOTE], 0);
    assert s[..0] == [];
    ReadRest(t, validate, p + 1, s, 0);
  }
}
