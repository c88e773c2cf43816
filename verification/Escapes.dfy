/** What the writers put for a byte, a character and a word, spelled byte by byte. */
module Escapes {
  import opened Stream
  import opened Events
  import opened Grammar
  import opened Dom
  import opened Printing
  import opened Spelling
  import opened AsciiStrings
  import Utf8

  /** One byte of a string: a letter behind a backslash, two upper-case digits behind \u00, or the byte itself. */
  lemma EscapeSpelled(c: byte)
    ensures forall i :: 0 <= i < 8 && i != 2 && c == ESCAPED_BYTES[i] ==> EscapeByte(c) == [0x5C, ESCAPE_LETTERS[i]]
    ensures c < 0x20 && c !in ESCAPED_BYTES ==> EscapeByte(c) == [0x5C, 0x75, 0x30, 0x30, UPPER_HEX[c / 16], UPPER_HEX[c % 16]]
    ensures c >= 0x20 && c != 0x22 && c != 0x5C ==> EscapeByte(c) == [c]
  {
    assert ESCAPED_BYTES[3] == 0x08 && ESCAPED_BYTES[4] == 0x0C && ESCAPED_BYTES[5] == 0x0A && ESCAPED_BYTES[6] == 0x0D && ESCAPED_BYTES[7] == 0x09;
    UpperDigit(c / 16);
    UpperDigit(c % 16);
  }

  lemma UpperDigit(n: nat)
    requires n < 16
    ensures HexDigit(n) == UPPER_HEX[n]
  {
  }

  /** A backslash, the letter u and the four upper-case digits of `n`. */
  function FourUpper(n: nat): seq<byte>
    requires n <= 0xFFFF
  {
    [0x5C, 0x75, UPPER_HEX[n / 4096], UPPER_HEX[n / 256 % 16], UPPER_HEX[n / 16 % 16], UPPER_HEX[n % 16]]
  }

  /** The escape of a scalar value, or the escapes of its two surrogates. */
  lemma UnicodeSpelledUpper(cp: nat)
    requires Utf8.IsScalar(cp)
    ensures cp <= 0xFFFF ==> UnicodeEscape(cp) == FourUpper(cp)
    ensures 0xFFFF < cp <= 0x10FFFF ==>
              UnicodeEscape(cp) == FourUpper(0xD800 + (cp - 0x10000) / 1024) + FourUpper(0xDC00 + (cp - 0x10000) % 1024)
  {
    hide HexEscape, FourUpper;
    if cp <= 0xFFFF {
      HexUpper(cp);
    } else {
      HexUpper(0xD800 + (cp - 0x10000) / 1024);
      HexUpper(0xDC00 + (cp - 0x10000) % 1024);
    }
  }

  /** One character for an ASCII target: a byte as above, anything else as \u escapes. */
  lemma CharacterSpelled(s: Text, i: nat)
    requires i < |s| && Utf8.CharLen(s, i) != 0
    ensures s[i] < 0x80 ==> EscapeCharacter(s, i) == EscapeByte(s[i])
    ensures s[i] >= 0x80 ==> Utf8.IsScalar(Utf8.CodePoint(s, i, Utf8.CharLen(s, i)))
    ensures s[i] >= 0x80 ==> EscapeCharacter(s, i) == UnicodeEscape(Utf8.CodePoint(s, i, Utf8.CharLen(s, i)))
  {
    hide UnicodeEscape, EscapeByte, Utf8.CharLen, Utf8.CodePoint, Utf8.Encode;
    Utf8.CharIsEncoded(s, i);
  }

  lemma HexUpper(n: nat)
    requires n <= 0xFFFF
    ensures HexEscape(n) == FourUpper(n)
  {
    hide HexDigit;
    UpperDigit(n / 4096);
    UpperDigit(n / 256 % 16);
    UpperDigit(n / 16 % 16);
    UpperDigit(n % 16);
  }

  /** The words null, true and false, and the empty containers. */
  lemma WordsPut(f: Format, depth: nat)
    ensures Print(f, NullValue, depth) == ScalarText(f, Null) == [0x6E, 0x75, 0x6C, 0x6C]
    ensures Print(f, BoolValue(true), depth) == ScalarText(f, Bool(true)) == [0x74, 0x72, 0x75, 0x65]
    ensures Print(f, BoolValue(false), depth) == ScalarText(f, Bool(false)) == [0x66, 0x61, 0x6C, 0x73, 0x65]
    ensures Print(f, ArrayValue([]), depth) == [0x5B, 0x5D] && Print(f, ObjectValue([]), depth) == [0x7B, 0x7D]
  {
  }
}
