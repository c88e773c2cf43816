/**
 * The UTF-8 codec: encoding, table-driven decoding, and validation that copies without decoding.
 * The reference is the grammar of section 4 of RFC 3629.
 */
module Utf8 {
  import opened Stream

  // ---------- The grammar of RFC 3629, section 4 ----------

  predicate Tail(c: byte) { 0x80 <= c <= 0xBF }

  /** The number of bytes of the UTF8-char that starts at `p`, or 0 when none does. */
  function CharLen(t: Text, p: nat): (n: nat)
    ensures n <= 4 && (n > 1 ==> p + n <= |t|)
  {
    var c0, c1, c2, c3 := Peek(t, p), Peek(t, p + 1), Peek(t, p + 2), Peek(t, p + 3);
    if c0 <= 0x7F then 1
    else if 0xC2 <= c0 <= 0xDF && Tail(c1) then 2
    else if c0 == 0xE0 && 0xA0 <= c1 <= 0xBF && Tail(c2) then 3
    else if 0xE1 <= c0 <= 0xEC && Tail(c1) && Tail(c2) then 3
    else if c0 == 0xED && 0x80 <= c1 <= 0x9F && Tail(c2) then 3
    else if 0xEE <= c0 <= 0xEF && Tail(c1) && Tail(c2) then 3
    else if c0 == 0xF0 && 0x90 <= c1 <= 0xBF && Tail(c2) && Tail(c3) then 4
    else if 0xF1 <= c0 <= 0xF3 && Tail(c1) && Tail(c2) && Tail(c3) then 4
    else if c0 == 0xF4 && 0x80 <= c1 <= 0x8F && Tail(c2) && Tail(c3) then 4
    else 0
  }

  /** The code point that the bits of the `n`-byte sequence at `p` spell (table of section 3). */
  function CodePoint(t: Text, p: nat, n: nat): nat {
    var c0, c1, c2, c3 := Peek(t, p), Peek(t, p + 1), Peek(t, p + 2), Peek(t, p + 3);
    if n == 2 then c0 % 32 * 64 + c1 % 64
    else if n == 3 then c0 % 16 * 4096 + c1 % 64 * 64 + c2 % 64
    else if n == 4 then c0 % 8 * 262144 + c1 % 64 * 4096 + c2 % 64 * 64 + c3 % 64
    else c0
  }

  predicate WellFormedFrom(t: Text, p: nat)
    decreases Left(t, p)
  {
    p == |t| || (p < |t| && var n := CharLen(t, p); n != 0 && p + n <= |t| && WellFormedFrom(t, p + n))
  }

  /** A UTF8-octets string: a concatenation of UTF8-chars. */
  predicate WellFormed(t: Text) { WellFormedFrom(t, 0) }

  predicate IsScalar(cp: int) { 0 <= cp <= 0xD7FF || 0xE000 <= cp <= 0x10FFFF }

  // ---------- Encode ----------

  /**
   * The bytes Encode puts for a code point.  Each `|` of the program joins disjoint bits and each `&` masks
   * low bits, so they are written as sums and remainders.
   */
  function Encode(cp: nat): (s: seq<byte>)
    requires cp <= 0x10FFFF
    ensures 1 <= |s| <= 4
  {
    if cp <= 0x7F then [cp]
    else if cp <= 0x7FF then [0xC0 + cp / 64, 0x80 + cp % 64]
    else if cp <= 0xFFFF then [0xE0 + cp / 4096, 0x80 + cp / 64 % 64, 0x80 + cp % 64]
    else [0xF0 + cp / 262144, 0x80 + cp / 4096 % 64, 0x80 + cp / 64 % 64, 0x80 + cp % 64]
  }

  // ---------- Decode and Validate ----------

  /** The class of a byte: the 256-entry table, read as ranges. */
  function GetRange(c: byte): bv8 {
    if c < 0x80 then 0
    else if c < 0x90 then 0x10
    else if c < 0xA0 then 0x40
    else if c < 0xC0 then 0x20
    else if c < 0xC2 then 8
    else if c < 0xE0 then 2
    else if c == 0xE0 then 10
    else if c == 0xED then 4
    else if c < 0xF0 then 3
    else if c == 0xF0 then 11
    else if c < 0xF4 then 6
    else if c == 0xF4 then 5
    else 8
  }

  /** The test of macro TRANS. */
  predicate InClass(c: byte, mask: bv8) { GetRange(c) & mask != 0 }

  lemma Classes(c: byte)
    ensures InClass(c, 0x70) <==> Tail(c)
    ensures InClass(c, 0x50) <==> 0x80 <= c <= 0x9F
    ensures InClass(c, 0x10) <==> 0x80 <= c <= 0x8F
    ensures InClass(c, 0x20) <==> 0xA0 <= c <= 0xBF
    ensures InClass(c, 0x60) <==> 0x90 <= c <= 0xBF
  {
    assert 0x10 as bv8 & 0x70 != 0 && 0x40 as bv8 & 0x70 != 0 && 0x20 as bv8 & 0x70 != 0;
  }

  /** How many continuation bytes a lead byte asks for; none for a byte that does not lead. */
  function More(c: byte): nat {
    if 0xC2 <= c <= 0xDF then 1 else if 0xE0 <= c <= 0xEF then 2 else if 0xF0 <= c <= 0xF4 then 3 else 0
  }

  /** Which first continuation byte a lead byte allows. */
  predicate First(c: byte, c1: byte) {
    && Tail(c1)
    && (c == 0xE0 ==> c1 >= 0xA0) && (c == 0xED ==> c1 <= 0x9F) && (c == 0xF0 ==> c1 >= 0x90) && (c == 0xF4 ==> c1 <= 0x8F)
  }

  /** The grammar, read off the lead byte. */
  lemma LengthIs(t: Text, p: nat)
    requires Peek(t, p) >= 0x80
    ensures var c, c1, c2, c3 := Peek(t, p), Peek(t, p + 1), Peek(t, p + 2), Peek(t, p + 3);
            var fine := First(c, c1) && (More(c) >= 2 ==> Tail(c2)) && (More(c) == 3 ==> Tail(c3));
            CharLen(t, p) == if More(c) > 0 && fine then More(c) + 1 else 0
  {
  }

  /** What the class of a lead byte says about the bytes behind it, and which of its bits it leaves. */
  lemma ClassIs(c: byte, c1: byte)
    requires c >= 0x80
    ensures GetRange(c) == 2 ==> More(c) == 1 && (First(c, c1) <==> InClass(c1, 0x70)) && c % 64 == c % 32
    ensures GetRange(c) == 3 ==> More(c) == 2 && (First(c, c1) <==> InClass(c1, 0x70)) && c % 32 == c % 16
    ensures GetRange(c) == 4 ==> More(c) == 2 && (First(c, c1) <==> InClass(c1, 0x50))
    ensures GetRange(c) == 5 ==> More(c) == 3 && (First(c, c1) <==> InClass(c1, 0x10))
    ensures GetRange(c) == 6 ==> More(c) == 3 && (First(c, c1) <==> InClass(c1, 0x70)) && c % 4 == c % 8
    ensures GetRange(c) == 10 ==> More(c) == 2 && (First(c, c1) <==> InClass(c1, 0x20)) && c % 16 == 0
    ensures GetRange(c) == 11 ==> More(c) == 3 && (First(c, c1) <==> InClass(c1, 0x60)) && c % 8 == 0
    ensures More(c) > 0 ==> GetRange(c) in {2, 3, 4, 5, 6, 10, 11}
  {
    Classes(c1);
    hide InClass;
  }

  /**
   * Decodes the sequence at `p` and returns the cursor behind what was taken.  A failing sequence is taken in full too.
   */
  method Decode(t: Text, p: nat) returns (ok: bool, cp: nat, q: nat)
    ensures ok <==> CharLen(t, p) != 0
    ensures ok ==> q == p + CharLen(t, p) && cp == CodePoint(t, p, q - p)
    ensures p < q <= p + 4
  {
    hide CharLen, InClass, GetRange, First, More, Tail;
    var c := Peek(t, p);
    q := p + 1;
    if c < 0x80 {
      OneByte(t, p);
      return true, c, q;
    }
    ClassIs(c, Peek(t, p + 1));
    LengthIs(t, p);
    match GetRange(c) {
      case 2 => ok, cp, q := DecodeTail(t, q, c % 64, 1, 0x70);
      case 3 => ok, cp, q := DecodeTail(t, q, c % 32, 2, 0x70);
      case 4 => ok, cp, q := DecodeTail(t, q, c % 16, 2, 0x50);
      case 5 => ok, cp, q := DecodeTail(t, q, c % 8, 3, 0x10);
      case 6 => ok, cp, q := DecodeTail(t, q, c % 4, 3, 0x70);
      case 10 => ok, cp, q := DecodeTail(t, q, 0, 2, 0x20);
      case 11 => ok, cp, q := DecodeTail(t, q, 0, 3, 0x60);
      case _ => ok, cp := false, 0;
    }
  }

  lemma OneByte(t: Text, p: nat)
    requires Peek(t, p) < 0x80
    ensures CharLen(t, p) == 1
  {
  }

  /**
   * The `more` continuation bytes at `q`: the first goes with `mask`, every later one with 0x70.  All are taken, and
   * six bits of each are shifted in, whatever the tests say.
   */
  method DecodeTail(t: Text, q: nat, cp0: nat, more: nat, mask: bv8) returns (ok: bool, cp: nat, next: nat)
    requires 1 <= more <= 3
    ensures next == q + more
    ensures ok <==> InClass(Peek(t, q), mask) && (more >= 2 ==> Tail(Peek(t, q + 1))) && (more == 3 ==> Tail(Peek(t, q + 2)))
    ensures var c1, c2, c3 := Peek(t, q), Peek(t, q + 1), Peek(t, q + 2);
            cp == if more == 1 then cp0 * 64 + c1 % 64
                  else if more == 2 then cp0 * 4096 + c1 % 64 * 64 + c2 % 64
                  else cp0 * 262144 + c1 % 64 * 4096 + c2 % 64 * 64 + c3 % 64
  {
    var c := Peek(t, q);
    cp, ok, next := cp0 * 64 + c % 64, InClass(c, mask), q + 1;
    if more >= 2 {
      c, next := Peek(t, next), next + 1;
      cp, ok := cp * 64 + c % 64, ok && InClass(c, 0x70);
      Classes(c);
    }
    if more == 3 {
      c, next := Peek(t, next), next + 1;
      cp, ok := cp * 64 + c % 64, ok && InClass(c, 0x70);
      Classes(c);
    }
    hide InClass;
  }

  /** Copies one sequence to the output without decoding it. */
  method Validate(t: Text, p: nat) returns (ok: bool, out: seq<byte>, q: nat)
    ensures ok <==> CharLen(t, p) != 0
    ensures ok ==> q == p + CharLen(t, p)
    ensures p < q <= p + 4
    ensures |out| == q - p && forall i :: 0 <= i < |out| ==> out[i] == Peek(t, p + i)
  {
    var c := Peek(t, p);
    out, q := [c], p + 1;
    if c < 0x80 {
      return true, out, q;
    }
    var more, mask: bv8;
    match GetRange(c) {
      case 2 => more, mask := 1, 0x70;
      case 3 => more, mask := 2, 0x70;
      case 4 => more, mask := 2, 0x50;
      case 5 => more, mask := 3, 0x10;
      case 6 => more, mask := 3, 0x70;
      case 10 => more, mask := 2, 0x20;
      case 11 => more, mask := 3, 0x60;
      case _ => return false, out, q;
    }
    c, q := Peek(t, q), q + 1;
    out, ok := out + [c], InClass(c, mask);
    Classes(c);
    if more >= 2 {
      c, q := Peek(t, q), q + 1;
      out, ok := out + [c], ok && InClass(c, 0x70);
      Classes(c);
    }
    if more == 3 {
      c, q := Peek(t, q), q + 1;
      out, ok := out + [c], ok && InClass(c, 0x70);
      Classes(c);
    }
  }

  // ---------- Encode and Decode are inverse ----------

  lemma Encode2(cp: nat)
    requires 0x7F < cp <= 0x7FF
    ensures var a, b := 0xC0 + cp / 64, 0x80 + cp % 64;
            0xC2 <= a <= 0xDF && 0x80 <= b <= 0xBF && a % 32 * 64 + b % 64 == cp
  {
  }

  lemma Encode3(cp: nat)
    requires 0x7FF < cp <= 0xFFFF && IsScalar(cp)
    ensures var a, b, c := 0xE0 + cp / 4096, 0x80 + cp / 64 % 64, 0x80 + cp % 64;
            0xE0 <= a <= 0xEF && 0x80 <= b <= 0xBF && 0x80 <= c <= 0xBF && (a == 0xE0 ==> b >= 0xA0) && (a == 0xED ==> b <= 0x9F)
            && a % 16 * 4096 + b % 64 * 64 + c % 64 == cp
  {
    assert cp == cp / 64 * 64 + cp % 64;
    assert cp / 64 == cp / 4096 * 64 + cp / 64 % 64;
  }

  lemma Encode4(cp: nat)
    requires 0xFFFF < cp <= 0x10FFFF
    ensures var a, b, c, d := 0xF0 + cp / 262144, 0x80 + cp / 4096 % 64, 0x80 + cp / 64 % 64, 0x80 + cp % 64;
            0xF0 <= a <= 0xF4 && 0x80 <= b <= 0xBF && 0x80 <= c <= 0xBF && 0x80 <= d <= 0xBF
            && (a == 0xF0 ==> b >= 0x90) && (a == 0xF4 ==> b <= 0x8F)
            && a % 8 * 262144 + b % 64 * 4096 + c % 64 * 64 + d % 64 == cp
  {
    var w, x, y, z := Bits4(cp);
    Low6(x);
    Low6(y);
    Low6(z);
    assert (0xF0 + w) % 8 == w;
  }

  /** The four bit groups of a code point beyond 0xFFFF. */
  lemma Bits4(cp: nat) returns (w: int, x: int, y: int, z: int)
    requires cp <= 0x10FFFF
    ensures w == cp / 262144 && x == cp / 4096 % 64 && y == cp / 64 % 64 && z == cp % 64
    ensures 0 <= w <= 4 && 0 <= x < 64 && 0 <= y < 64 && 0 <= z < 64
    ensures cp == w * 262144 + x * 4096 + y * 64 + z
  {
    var p, q := cp / 64, cp / 4096;
    w, x, y, z := cp / 262144, q % 64, p % 64, cp % 64;
    assert q == p / 64 && w == q / 64;
    assert cp == p * 64 + z;
    assert p == q * 64 + y;
    assert q == w * 64 + x;
  }

  lemma Low6(x: int)
    requires 0 <= x < 64
    ensures (0x80 + x) % 64 == x
  {
  }

  lemma Spells1(t: Text, p: nat)
    requires Peek(t, p) < 0x80
    ensures CharLen(t, p) == 1 && CodePoint(t, p, 1) == Peek(t, p)
  {
  }

  lemma Spells2(t: Text, p: nat)
    requires 0xC2 <= Peek(t, p) <= 0xDF && Tail(Peek(t, p + 1))
    ensures CharLen(t, p) == 2 && CodePoint(t, p, 2) == Peek(t, p) % 32 * 64 + Peek(t, p + 1) % 64
  {
    LengthIs(t, p);
    hide CharLen;
  }

  lemma Spells3(t: Text, p: nat)
    requires 0xE0 <= Peek(t, p) <= 0xEF && First(Peek(t, p), Peek(t, p + 1)) && Tail(Peek(t, p + 2))
    ensures CharLen(t, p) == 3
    ensures CodePoint(t, p, 3) == Peek(t, p) % 16 * 4096 + Peek(t, p + 1) % 64 * 64 + Peek(t, p + 2) % 64
  {
    LengthIs(t, p);
    hide CharLen;
  }

  lemma Spells4(t: Text, p: nat)
    requires 0xF0 <= Peek(t, p) <= 0xF4 && First(Peek(t, p), Peek(t, p + 1)) && Tail(Peek(t, p + 2)) && Tail(Peek(t, p + 3))
    ensures CharLen(t, p) == 4
    ensures CodePoint(t, p, 4)
         == Peek(t, p) % 8 * 262144 + Peek(t, p + 1) % 64 * 4096 + Peek(t, p + 2) % 64 * 64 + Peek(t, p + 3) % 64
  {
    LengthIs(t, p);
    hide CharLen;
  }

  /** What the length of a UTF8-char says about its bytes. */
  lemma CharBytes(t: Text, p: nat)
    requires CharLen(t, p) != 0
    ensures CharLen(t, p) <= 4
    ensures CharLen(t, p) == 1 ==> Peek(t, p) < 0x80
    ensures CharLen(t, p) == 2 ==> 0xC2 <= Peek(t, p) <= 0xDF && Tail(Peek(t, p + 1))
    ensures CharLen(t, p) == 3 ==> 0xE0 <= Peek(t, p) <= 0xEF && First(Peek(t, p), Peek(t, p + 1)) && Tail(Peek(t, p + 2))
    ensures CharLen(t, p) == 4
            ==> 0xF0 <= Peek(t, p) <= 0xF4 && First(Peek(t, p), Peek(t, p + 1)) && Tail(Peek(t, p + 2)) && Tail(Peek(t, p + 3))
  {
    if Peek(t, p) < 0x80 {
      OneByte(t, p);
    } else {
      LengthIs(t, p);
    }
    hide CharLen, First, Tail;
  }

  /** One character: what Encode writes is a UTF8-char of exactly its length that spells the code point. */
  lemma EncodeIsChar(cp: nat, t: Text, p: nat)
    requires IsScalar(cp) && At(t, p, Encode(cp))
    ensures CharLen(t, p) == |Encode(cp)|
    ensures CodePoint(t, p, |Encode(cp)|) == cp
  {
    hide CharLen, CodePoint, At;
    var s := Encode(cp);
    AtByte(t, p, s, 0);
    if cp <= 0x7F {
      Spells1(t, p);
    } else if cp <= 0x7FF {
      AtByte(t, p, s, 1);
      Encode2(cp);
      Spells2(t, p);
    } else if cp <= 0xFFFF {
      AtByte(t, p, s, 1);
      AtByte(t, p, s, 2);
      Encode3(cp);
      Spells3(t, p);
    } else {
      AtByte(t, p, s, 1);
      AtByte(t, p, s, 2);
      AtByte(t, p, s, 3);
      Encode4(cp);
      Spells4(t, p);
    }
  }

  lemma Join2(a: int, b: int)
    requires 0xC2 <= a <= 0xDF && 0x80 <= b <= 0xBF
    ensures var cp := a % 32 * 64 + b % 64; 0x7F < cp <= 0x7FF && 0xC0 + cp / 64 == a && 0x80 + cp % 64 == b
  {
  }

  lemma Join3(a: int, b: int, c: int)
    requires 0xE0 <= a <= 0xEF && 0x80 <= b <= 0xBF && 0x80 <= c <= 0xBF && (a == 0xE0 ==> b >= 0xA0) && (a == 0xED ==> b <= 0x9F)
    ensures var cp := a % 16 * 4096 + b % 64 * 64 + c % 64;
            0x7FF < cp <= 0xFFFF && IsScalar(cp) && 0xE0 + cp / 4096 == a && 0x80 + cp / 64 % 64 == b && 0x80 + cp % 64 == c
  {
    assert a % 16 == a - 0xE0;
    Low6(b - 0x80);
    Low6(c - 0x80);
    Digits64(0, a - 0xE0, b - 0x80, c - 0x80);
  }

  lemma Join4(a: int, b: int, c: int, d: int)
    requires 0xF0 <= a <= 0xF4 && 0x80 <= b <= 0xBF && 0x80 <= c <= 0xBF && 0x80 <= d <= 0xBF
    requires (a == 0xF0 ==> b >= 0x90) && (a == 0xF4 ==> b <= 0x8F)
    ensures var cp := a % 8 * 262144 + b % 64 * 4096 + c % 64 * 64 + d % 64;
            0xFFFF < cp <= 0x10FFFF && 0xF0 + cp / 262144 == a && 0x80 + cp / 4096 % 64 == b
            && 0x80 + cp / 64 % 64 == c && 0x80 + cp % 64 == d
  {
    assert a % 8 == a - 0xF0;
    Low6(b - 0x80);
    Low6(c - 0x80);
    Low6(d - 0x80);
    Digits64(a - 0xF0, b - 0x80, c - 0x80, d - 0x80);
  }

  lemma Digits64(w: int, x: int, y: int, z: int)
    requires 0 <= w <= 4 && 0 <= x < 64 && 0 <= y < 64 && 0 <= z < 64
    ensures var cp := w * 262144 + x * 4096 + y * 64 + z;
            cp / 262144 == w && cp / 4096 % 64 == x && cp / 64 % 64 == y && cp % 64 == z
  {
    var cp := w * 262144 + x * 4096 + y * 64 + z;
    assert cp / 64 == w * 4096 + x * 64 + y;
    assert cp / 4096 == w * 64 + x;
  }

  lemma EncodeJoin2(a: byte, b: byte)
    requires 0xC2 <= a <= 0xDF && 0x80 <= b <= 0xBF
    ensures var cp: nat := a % 32 * 64 + b % 64; cp <= 0x10FFFF && IsScalar(cp) && Encode(cp) == [a, b]
  {
    Join2(a, b);
  }

  lemma EncodeJoin3(a: byte, b: byte, c: byte)
    requires 0xE0 <= a <= 0xEF && 0x80 <= b <= 0xBF && 0x80 <= c <= 0xBF && (a == 0xE0 ==> b >= 0xA0) && (a == 0xED ==> b <= 0x9F)
    ensures var cp: nat := a % 16 * 4096 + b % 64 * 64 + c % 64; cp <= 0x10FFFF && IsScalar(cp) && Encode(cp) == [a, b, c]
  {
    Join3(a, b, c);
  }

  lemma EncodeJoin4(a: byte, b: byte, c: byte, d: byte)
    requires 0xF0 <= a <= 0xF4 && 0x80 <= b <= 0xBF && 0x80 <= c <= 0xBF && 0x80 <= d <= 0xBF
    requires (a == 0xF0 ==> b >= 0x90) && (a == 0xF4 ==> b <= 0x8F)
    ensures var cp: nat := a % 8 * 262144 + b % 64 * 4096 + c % 64 * 64 + d % 64; cp <= 0x10FFFF && IsScalar(cp) && Encode(cp) == [a, b, c, d]
  {
    Join4(a, b, c, d);
  }

  /** Conversely a UTF8-char spells a scalar value, and Encode writes exactly its bytes for it. */
  lemma CharIsEncoded(t: Text, p: nat)
    requires CharLen(t, p) != 0 && p + CharLen(t, p) <= |t|
    ensures IsScalar(CodePoint(t, p, CharLen(t, p)))
    ensures t[p..p + CharLen(t, p)] == Encode(CodePoint(t, p, CharLen(t, p)))
  {
    hide CharLen, CodePoint, Encode;
    var n := CharLen(t, p);
    var s := t[p..p + n];
    CharBytes(t, p);
    if n == 1 {
      assert s == [t[p]];
      Spells1(t, p);
      EncodeAscii(t[p]);
    } else if n == 2 {
      assert s == [t[p], t[p + 1]];
      Spells2(t, p);
      EncodeJoin2(t[p], t[p + 1]);
    } else if n == 3 {
      assert s == [t[p], t[p + 1], t[p + 2]];
      Spells3(t, p);
      EncodeJoin3(t[p], t[p + 1], t[p + 2]);
    } else {
      assert s == [t[p], t[p + 1], t[p + 2], t[p + 3]];
      Spells4(t, p);
      EncodeJoin4(t[p], t[p + 1], t[p + 2], t[p + 3]);
    }
  }

  lemma EncodeAscii(c: byte)
    requires c < 0x80
    ensures IsScalar(c) && Encode(c) == [c]
  {
  }

  predicate AllScalar(cps: seq<nat>) { forall i :: 0 <= i < |cps| ==> IsScalar(cps[i]) }

  function EncodeAll(cps: seq<nat>): seq<byte>
    requires AllScalar(cps)
  {
    if cps == [] then [] else Encode(cps[0]) + EncodeAll(cps[1..])
  }

  datatype Decoded = Valid(cps: seq<nat>) | Invalid

  /** Decode applied again and again from `p` to the end of the text. */
  function DecodeFrom(t: Text, p: nat): (d: Decoded)
    decreases Left(t, p)
  {
    if p == |t| then Valid([])
    else if p > |t| || CharLen(t, p) == 0 then Invalid
    else
      var n := CharLen(t, p);
      match DecodeFrom(t, p + n)
      case Invalid => Invalid
      case Valid(cps) => Valid([CodePoint(t, p, n)] + cps)
  }

  /** What has been decoded, in front of what the rest gives. */
  function InFront(cps: seq<nat>, d: Decoded): Decoded {
    match d
    case Invalid => Invalid
    case Valid(rest) => Valid(cps + rest)
  }

  lemma OneInFront(t: Text, p: nat, cps: seq<nat>)
    requires p < |t|
    ensures CharLen(t, p) == 0 ==> InFront(cps, DecodeFrom(t, p)) == Invalid
    ensures var n := CharLen(t, p);
            n != 0 ==> InFront(cps, DecodeFrom(t, p)) == InFront(cps + [CodePoint(t, p, n)], DecodeFrom(t, p + n))
  {
    hide CharLen, CodePoint;
    var n := CharLen(t, p);
    match DecodeFrom(t, p + n) {
      case Invalid =>
      case Valid(rest) => assert cps + ([CodePoint(t, p, n)] + rest) == cps + [CodePoint(t, p, n)] + rest;
    }
  }

  lemma NoneInFront(t: Text, p: nat, cps: seq<nat>)
    ensures InFront([], DecodeFrom(t, p)) == DecodeFrom(t, p)
    ensures p >= |t| ==> InFront(cps, DecodeFrom(t, p)) == if p == |t| then Valid(cps) else Invalid
  {
    hide CharLen, CodePoint;
    if DecodeFrom(t, p).Valid? {
      assert [] + DecodeFrom(t, p).cps == DecodeFrom(t, p).cps;
    }
    assert cps + [] == cps;
  }

  /** Repeated Decode, as a loop over the method. */
  method DecodeAll(t: Text) returns (d: Decoded)
    ensures d == DecodeFrom(t, 0)
    ensures d.Valid? <==> WellFormed(t)
    ensures d.Valid? ==> AllScalar(d.cps) && EncodeAll(d.cps) == t
  {
    hide CharLen, CodePoint, EncodeAll, DecodeFrom, InFront, AllScalar, WellFormedFrom;
    DecodeAccepts(t, 0);
    assert t[0..] == t;
    var p, cps := 0, [];
    NoneInFront(t, 0, []);
    while p < |t|
      invariant DecodeFrom(t, 0) == InFront(cps, DecodeFrom(t, p))
      decreases |t| - p
    {
      var ok, cp, q := Decode(t, p);
      OneInFront(t, p, cps);
      if !ok {
        return Invalid;
      }
      cps, p := cps + [cp], q;
    }
    NoneInFront(t, p, cps);
    if p > |t| {
      return Invalid;
    }
    d := Valid(cps);
  }

  /** Repeated Decode accepts exactly the strings of RFC 3629, and re-encoding gives the same bytes back. */
  lemma {:induction false} DecodeAccepts(t: Text, p: nat)
    requires p <= |t|
    ensures DecodeFrom(t, p).Valid? <==> WellFormedFrom(t, p)
    ensures DecodeFrom(t, p).Valid? ==> AllScalar(DecodeFrom(t, p).cps) && EncodeAll(DecodeFrom(t, p).cps) == t[p..]
    decreases Left(t, p)
  {
    hide CharLen, CodePoint, IsScalar, Encode;
    var n := CharLen(t, p);
    if p < |t| && n != 0 {
      DecodeAccepts(t, p + n);
      var cp := CodePoint(t, p, n);
      if DecodeFrom(t, p + n).Valid? {
        CharIsEncoded(t, p);
        assert DecodeFrom(t, p).cps[1..] == DecodeFrom(t, p + n).cps;
        assert t[p..] == t[p..p + n] + t[p + n..];
      }
    }
  }

  /** Repeated Decode inverts Encode on every sequence of scalar values. */
  lemma {:induction false} DecodeEncode(t: Text, p: nat, cps: seq<nat>)
    requires AllScalar(cps) && p <= |t| && t[p..] == EncodeAll(cps)
    ensures DecodeFrom(t, p) == Valid(cps)
    decreases |cps|
  {
    hide Encode, CharLen, CodePoint, At;
    if cps != [] {
      var s := Encode(cps[0]);
      AtFront(t, p, s, EncodeAll(cps[1..]));
      EncodeIsChar(cps[0], t, p);
      DecodeEncode(t, p + |s|, cps[1..]);
      assert [cps[0]] + cps[1..] == cps;
    }
  }

  lemma AtFront(t: Text, p: nat, s: seq<byte>, rest: seq<byte>)
    requires p <= |t| && t[p..] == s + rest
    ensures At(t, p, s) && p + |s| <= |t| && t[p + |s|..] == rest
  {
    assert t[p..][..|s|] == s && t[p..][|s|..] == rest;
    assert t[p..p + |s|] == t[p..][..|s|] && t[p + |s|..] == t[p..][|s|..];
  }

  /** A string is well formed exactly when it is the encoding of some sequence of scalar values. */
  lemma WellFormedIffEncoded(t: Text)
    ensures WellFormed(t) <==> exists cps: seq<nat> :: AllScalar(cps) && EncodeAll(cps) == t
  {
    DecodeAccepts(t, 0);
    assert t[0..] == t;
    if cps: seq<nat> :| AllScalar(cps) && EncodeAll(cps) == t {
      DecodeEncode(t, 0, cps);
    }
  }
}
