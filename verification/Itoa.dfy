/** Integer to decimal text, two digits at a time through a table. */
module Itoa {
  import opened Stream
  import opened Grammar
  import opened Dom
  import opened Printing
  import opened Powers
  import opened Sequences

  /** The table of the digit pairs 00, 01, ..., 99: entry 2n is the tens digit of n, entry 2n + 1 the units digit. */
  function Lut(i: nat): byte
    requires i < 200
  {
    var n := i / 2;
    if i % 2 == 0 then ZERO + n / 10 else ZERO + n % 10
  }

  /** The last `k` digits of a number, with leading zeros. */
  function Pad(k: nat, n: nat): (s: seq<byte>)
    ensures |s| == k
  {
    if k == 0 then [] else Pad(k - 1, n / 10) + [ZERO + n % 10]
  }

  /** A number cut in front of its last `k` digits. */
  lemma {:induction false} DigitsPad(k: nat, a: nat, b: nat)
    requires a > 0 && b < Pow(10, k)
    ensures Digits(a * Pow(10, k) + b) == Digits(a) + Pad(k, b)
  {
    hide Digits, Pad, Pow;
    if k == 0 {
      NoPad(b);
      assert Pow(10, 0) == 1 by { TenPowers(); }
      assert Digits(a) + [] == Digits(a);
    } else {
      var m := a * Pow(10, k - 1) + b / 10;
      CutLast(a, b, k);
      DigitsPad(k - 1, a, b / 10);
      DigitsPush(m, b % 10);
      PadNext(k, b);
      Associate(Digits(a), Pad(k - 1, b / 10), [ZERO + b % 10]);
    }
  }

  lemma NoPad(b: nat)
    ensures Pad(0, b) == []
  {
  }

  lemma PadNext(k: nat, b: nat)
    requires k > 0
    ensures Pad(k, b) == Pad(k - 1, b / 10) + [ZERO + b % 10]
  {
  }

  lemma CutLast(a: nat, b: nat, k: nat)
    requires a > 0 && k > 0 && b < Pow(10, k)
    ensures a * Pow(10, k) + b == (a * Pow(10, k - 1) + b / 10) * 10 + b % 10
    ensures a * Pow(10, k - 1) + b / 10 > 0 && b / 10 < Pow(10, k - 1)
  {
    TenTimes(a, k);
    TenTimes(1, k);
    hide Pow;
    assert b == b / 10 * 10 + b % 10;
  }

  lemma TenTimes(a: nat, k: nat)
    requires a > 0 && k > 0
    ensures a * Pow(10, k) == 10 * (a * Pow(10, k - 1)) && a * Pow(10, k - 1) >= 1
  {
    var p := Pow(10, k - 1);
    assert a * (10 * p) == 10 * (a * p);
    assert a * p >= 1 * p;
  }

  lemma PowersOfTen()
    ensures Pow(10, 2) == 100 && Pow(10, 4) == 1_0000 && Pow(10, 8) == 1_0000_0000 && Pow(10, 16) == 1_0000_0000_0000_0000
  {
    TenPowers();
    PowAdd(10, 8, 8);
  }

  /** Padded digits cut in front of the last `k`. */
  lemma {:induction false} PadSplit(j: nat, k: nat, a: nat, b: nat)
    requires b < Pow(10, k)
    ensures Pad(j + k, a * Pow(10, k) + b) == Pad(j, a) + Pad(k, b)
  {
    if k == 0 {
      assert Pad(j, a) + [] == Pad(j, a);
    } else {
      var n := a * Pow(10, k) + b;
      var p := Pow(10, k - 1);
      assert a * Pow(10, k) == 10 * (a * p) by { assert a * (10 * p) == 10 * (a * p); }
      assert n / 10 == a * p + b / 10 && n % 10 == b % 10;
      PadSplit(j, k - 1, a, b / 10);
      assert Pad(j, a) + Pad(k - 1, b / 10) + [ZERO + b % 10] == Pad(j, a) + (Pad(k - 1, b / 10) + [ZERO + b % 10]);
    }
  }

  /** Two table entries are two digits. */
  lemma Pad2(n: nat)
    requires n < 100
    ensures Pad(2, n) == [Lut(2 * n), Lut(2 * n + 1)]
  {
    assert Pad(1, n / 10) == Pad(0, n / 10 / 10) + [ZERO + n / 10 % 10];
    assert n / 10 % 10 == n / 10;
  }

  /** Four digits with leading zeros: always all four table entries. */
  function Four(v: nat): seq<byte>
    requires v < 10000
  {
    var d1, d2 := v / 100 * 2, v % 100 * 2;
    [Lut(d1), Lut(d1 + 1), Lut(d2), Lut(d2 + 1)]
  }

  lemma Pad4(v: nat)
    requires v < 10000
    ensures Pad(4, v) == Four(v)
  {
    hide Pad, Lut, Pow;
    PowersOfTen();
    PadSplit(2, 2, v / 100, v % 100);
    assert v == v / 100 * 100 + v % 100;
    Pad2(v / 100);
    Pad2(v % 100);
  }

  lemma Pad8(v: nat)
    requires v < 1_0000_0000
    ensures Pad(8, v) == Four(v / 10000) + Four(v % 10000)
  {
    hide Pad, Four, Pow;
    PowersOfTen();
    PadSplit(4, 4, v / 10000, v % 10000);
    assert v == v / 10000 * 10000 + v % 10000;
    Pad4(v / 10000);
    Pad4(v % 10000);
  }

  /** A number of exactly `k` digits needs no padding. */
  lemma {:induction false} DigitsIsPad(k: nat, v: nat)
    requires k > 0 && v < Pow(10, k) && (k > 1 ==> v >= Pow(10, k - 1))
    ensures Digits(v) == Pad(k, v)
  {
    if k == 1 {
      assert Pow(10, 1) == 10 * Pow(10, 0);
      assert Pad(0, v / 10) == [];
    } else {
      assert v >= 10;
      assert k > 2 ==> Pow(10, k - 1) == 10 * Pow(10, k - 2);
      DigitsIsPad(k - 1, v / 10);
    }
  }

  /** The last `k` of `n` padded digits. */
  lemma {:induction false} PadSuffix(n: nat, k: nat, v: nat)
    requires k <= n
    ensures Pad(n, v)[n - k..] == Pad(k, v)
  {
    if k > 0 {
      PadSuffix(n - 1, k - 1, v / 10);
      assert Pad(n, v)[n - k..] == Pad(n - 1, v / 10)[n - k..] + [ZERO + v % 10];
    }
  }

  /** How many digits are left of `n` when leading zeros are dropped. */
  lemma Suppressed(n: nat, k: nat, v: nat)
    requires 0 < k <= n && v < Pow(10, k) && (k > 1 ==> v >= Pow(10, k - 1))
    ensures Digits(v) == Pad(n, v)[n - k..]
  {
    DigitsIsPad(k, v);
    PadSuffix(n, k, v);
  }

  /** Up to four digits without leading zeros: the branches on the size of the value. */
  method PutShort(v: nat) returns (buffer: seq<byte>)
    requires v < 10000
    ensures buffer == Digits(v)
  {
    var d1, d2 := v / 100 * 2, v % 100 * 2;
    buffer := [];
    if v >= 1000 { buffer := buffer + [Lut(d1)]; }
    if v >= 100 { buffer := buffer + [Lut(d1 + 1)]; }
    if v >= 10 { buffer := buffer + [Lut(d2)]; }
    buffer := buffer + [Lut(d2 + 1)];
    var k := if v >= 1000 then 4 else if v >= 100 then 3 else if v >= 10 then 2 else 1;
    assert buffer == Four(v)[4 - k..];
    hide Lut, Digits;
    PowersOfTen();
    Pad4(v);
    Suppressed(4, k, v);
  }

  lemma Digits8(v: nat)
    requires 10000 <= v < 1_0000_0000
    ensures Digits(v) == Digits(v / 10000) + Four(v % 10000)
  {
    PowersOfTen();
    Pad4(v % 10000);
    DigitsPad(4, v / 10000, v % 10000);
    assert v == v / 10000 * 10000 + v % 10000;
  }

  lemma DigitsAbove8(v: nat)
    requires 1_0000_0000 <= v
    ensures Digits(v) == Digits(v / 1_0000_0000) + (Four(v % 1_0000_0000 / 10000) + Four(v % 1_0000_0000 % 10000))
  {
    PowersOfTen();
    Pad8(v % 1_0000_0000);
    DigitsPad(8, v / 1_0000_0000, v % 1_0000_0000);
    assert v == v / 1_0000_0000 * 1_0000_0000 + v % 1_0000_0000;
  }

  lemma Digits2(v: nat)
    requires 10 <= v < 100
    ensures Digits(v) == [Lut(v * 2), Lut(v * 2 + 1)]
  {
    PowersOfTen();
    assert Pow(10, 1) == 10;
    DigitsIsPad(2, v);
    Pad2(v);
  }

  lemma Length10(v: nat)
    requires v < 100_0000_0000
    ensures |Digits(v)| <= 10
  {
    PowersOfTen();
    assert Pow(10, 10) == 10 * Pow(10, 9) && Pow(10, 9) == 10 * Pow(10, 8);
    DigitsLength(v, 10);
  }

  lemma Length20(v: nat)
    requires v < TWO64
    ensures |Digits(v)| <= 20
  {
    PowersOfTen();
    assert Pow(10, 20) == 10 * Pow(10, 19) && Pow(10, 19) == 10 * Pow(10, 18) && Pow(10, 18) == 10 * Pow(10, 17) && Pow(10, 17) == 10 * Pow(10, 16);
    DigitsLength(v, 20);
  }

  /** Eight digits, all of them. */
  method PutEight(v: nat) returns (buffer: seq<byte>)
    requires v < 1_0000_0000
    ensures buffer == Four(v / 10000) + Four(v % 10000)
  {
    var b, c := v / 10000, v % 10000;
    var d1, d2, d3, d4 := b / 100 * 2, b % 100 * 2, c / 100 * 2, c % 100 * 2;
    buffer := [Lut(d1), Lut(d1 + 1), Lut(d2), Lut(d2 + 1)];
    buffer := buffer + [Lut(d3), Lut(d3 + 1), Lut(d4), Lut(d4 + 1)];
  }

  /** Below 10^8, where the two functions share their branches. */
  method PutBelow8(value: nat) returns (buffer: seq<byte>)
    requires value < 1_0000_0000
    ensures buffer == Digits(value)
  {
    if value < 10000 {
      buffer := PutShort(value);
    } else {
      // bbbbcccc
      var b, c := value / 10000, value % 10000;
      var d3, d4 := c / 100 * 2, c % 100 * 2;
      buffer := PutShort(b);
      buffer := buffer + [Lut(d3), Lut(d3 + 1), Lut(d4), Lut(d4 + 1)];
      Digits8(value);
    }
  }

  /** u32toa. */
  method U32toa(value: nat) returns (buffer: seq<byte>)
    requires IsUint(value)
    ensures buffer == Digits(value) && |buffer| <= 10
  {
    Length10(value);
    if value < 1_0000_0000 {
      buffer := PutBelow8(value);
    } else {
      // aabbbbcccc
      var a, rest := value / 1_0000_0000, value % 1_0000_0000;
      if a >= 10 {
        buffer := [Lut(a * 2), Lut(a * 2 + 1)];
        Digits2(a);
      } else {
        buffer := [ZERO + a];
      }
      var low := PutEight(rest);
      buffer := buffer + low;
      DigitsAbove8(value);
    }
    hide Four, Lut;
  }

  /** i32toa: the magnitude is the two's complement of the bits, so the least value needs no wider type. */
  method I32toa(value: int) returns (buffer: seq<byte>)
    requires IsInt(value)
    ensures buffer == IntegerText(value) && |buffer| <= 11
  {
    var u := if value < 0 then value + TWO32 else value;
    buffer := [];
    if value < 0 {
      buffer := [MINUS];
      u := (TWO32 - 1 - u + 1) % TWO32;
    }
    var digits := U32toa(u);
    buffer := buffer + digits;
  }

  /** What is put of `all` up to place `i` when the first `s` places are suppressed. */
  ghost function Shown(all: seq<byte>, s: nat, i: nat): seq<byte>
    requires i <= |all|
  {
    if i <= s then [] else all[s..i]
  }

  /** A digit that is put only when the value is large enough for its place. */
  method PutIf(buffer: seq<byte>, large: bool, c: byte, ghost all: seq<byte>, ghost s: nat, ghost i: nat) returns (longer: seq<byte>)
    requires i < |all| && buffer == Shown(all, s, i) && all[i] == c && (large <==> s <= i)
    ensures longer == Shown(all, s, i + 1)
  {
    longer := buffer;
    if large {
      longer := longer + [c];
    }
  }

  /** The number of digits that the first half of a number below 10^16 shows. */
  predicate Shows(value: nat, k: nat) {
    && 0 < k <= 8
    && (value >= 1000_0000_0000_0000 <==> k >= 8) && (value >= 100_0000_0000_0000 <==> k >= 7)
    && (value >= 10_0000_0000_0000 <==> k >= 6) && (value >= 1_0000_0000_0000 <==> k >= 5)
    && (value >= 1000_0000_0000 <==> k >= 4) && (value >= 100_0000_0000 <==> k >= 3)
    && (value >= 10_0000_0000 <==> k >= 2) && value >= 1_0000_0000
  }

  /** Four pairs of digits, the leading zeros suppressed by the size of the value. */
  method PutLeading(value: nat, d1: nat, d2: nat, d3: nat, d4: nat, ghost all: seq<byte>, ghost k: nat) returns (buffer: seq<byte>)
    requires Shows(value, k) && d1 < 199 && d2 < 199 && d3 < 199 && d4 < 199 && |all| == 8
    requires all[0] == Lut(d1) && all[1] == Lut(d1 + 1) && all[2] == Lut(d2) && all[3] == Lut(d2 + 1)
    requires all[4] == Lut(d3) && all[5] == Lut(d3 + 1) && all[6] == Lut(d4) && all[7] == Lut(d4 + 1)
    ensures buffer == all[8 - k..]
  {
    hide Lut;
    buffer := [];
    buffer := PutIf(buffer, value >= 1000_0000_0000_0000, Lut(d1), all, 8 - k, 0);
    buffer := PutIf(buffer, value >= 100_0000_0000_0000, Lut(d1 + 1), all, 8 - k, 1);
    buffer := PutIf(buffer, value >= 10_0000_0000_0000, Lut(d2), all, 8 - k, 2);
    buffer := PutIf(buffer, value >= 1_0000_0000_0000, Lut(d2 + 1), all, 8 - k, 3);
    buffer := PutIf(buffer, value >= 1000_0000_0000, Lut(d3), all, 8 - k, 4);
    buffer := PutIf(buffer, value >= 100_0000_0000, Lut(d3 + 1), all, 8 - k, 5);
    buffer := PutIf(buffer, value >= 10_0000_0000, Lut(d4), all, 8 - k, 6);
    buffer := PutIf(buffer, value >= 1_0000_0000, Lut(d4 + 1), all, 8 - k, 7);
  }

  lemma FourAt(v: nat)
    requires v < 10000
    ensures var d1, d2 := v / 100 * 2, v % 100 * 2;
            && d1 < 199 && d2 < 199 && |Four(v)| == 4
            && Four(v)[0] == Lut(d1) && Four(v)[1] == Lut(d1 + 1) && Four(v)[2] == Lut(d2) && Four(v)[3] == Lut(d2 + 1)
  {
    hide Lut;
  }

  lemma HalfDigits(v: nat, k: nat)
    requires v < 1_0000_0000 && 0 < k <= 8 && v < Pow(10, k) && (k > 1 ==> v >= Pow(10, k - 1))
    ensures Digits(v) == (Four(v / 10000) + Four(v % 10000))[8 - k..]
  {
    hide Digits, Four, Pow;
    Pad8(v);
    Suppressed(8, k, v);
  }

  /** The first half of a number below 10^16: up to eight digits without leading zeros. */
  method PutHalf(value: nat, b0: nat, c0: nat, ghost k: nat) returns (buffer: seq<byte>)
    requires Shows(value, k) && b0 < 10000 && c0 < 10000
    ensures buffer == (Four(b0) + Four(c0))[8 - k..]
  {
    var d1, d2, d3, d4 := b0 / 100 * 2, b0 % 100 * 2, c0 / 100 * 2, c0 % 100 * 2;
    FourAt(b0);
    FourAt(c0);
    hide Lut, Four, Shows;
    buffer := PutLeading(value, d1, d2, d3, d4, Four(b0) + Four(c0), k);
  }

  /** The branch below 10^16: up to eight digits without leading zeros, then eight more. */
  method PutBelow16(value: nat) returns (buffer: seq<byte>)
    requires 1_0000_0000 <= value < 1_0000_0000_0000_0000
    ensures buffer == Digits(value)
  {
    hide Digits, Four, Shows, Pow;
    var v0, v1 := value / 1_0000_0000, value % 1_0000_0000;
    ghost var k := Length8(value);
    ShowsBounds(value, k);
    buffer := PutHalf(value, v0 / 10000, v0 % 10000, k);
    HalfDigits(v0, k);
    var low := PutEight(v1);
    buffer := buffer + low;
    DigitsAbove8(value);
  }

  lemma ShowsBounds(value: nat, k: nat)
    requires Shows(value, k)
    ensures 0 < k <= 8
  {
  }

  lemma Length8(value: nat) returns (k: nat)
    requires 1_0000_0000 <= value < 1_0000_0000_0000_0000
    ensures Shows(value, k)
    ensures var v0 := value / 1_0000_0000; v0 < Pow(10, k) && (k > 1 ==> v0 >= Pow(10, k - 1))
  {
    TenPowers();
    k := if value >= 1000_0000_0000_0000 then 8 else if value >= 100_0000_0000_0000 then 7
         else if value >= 10_0000_0000_0000 then 6 else if value >= 1_0000_0000_0000 then 5
         else if value >= 1000_0000_0000 then 4 else if value >= 100_0000_0000 then 3
         else if value >= 10_0000_0000 then 2 else 1;
    hide Pow;
  }

  /** u64toa. */
  method U64toa(value: nat) returns (buffer: seq<byte>)
    requires IsUint64(value)
    ensures buffer == Digits(value) && |buffer| <= 20
  {
    Length20(value);
    if value < 1_0000_0000 {
      buffer := PutBelow8(value);
    } else if value < 1_0000_0000_0000_0000 {
      buffer := PutBelow16(value);
    } else {
      var a, rest := value / 1_0000_0000_0000_0000, value % 1_0000_0000_0000_0000;
      if a < 10 {
        buffer := [ZERO + a];
      } else if a < 100 {
        buffer := [Lut(a * 2), Lut(a * 2 + 1)];
        Digits2(a);
      } else if a < 1000 {
        buffer := [ZERO + a / 100];
        buffer := buffer + [Lut(a % 100 * 2), Lut(a % 100 * 2 + 1)];
        Digits34(a);
      } else {
        buffer := [Lut(a / 100 * 2), Lut(a / 100 * 2 + 1)];
        buffer := buffer + [Lut(a % 100 * 2), Lut(a % 100 * 2 + 1)];
        Digits34(a);
      }
      var high := PutEight(rest / 1_0000_0000);
      var low := PutEight(rest % 1_0000_0000);
      DigitsAbove16(value, buffer);
      buffer := buffer + high;
      buffer := buffer + low;
    }
    hide Four, Lut;
  }

  lemma Digits34(v: nat)
    requires 100 <= v < 10000
    ensures Digits(v) == (if v < 1000 then [ZERO + v / 100] else [Lut(v / 100 * 2), Lut(v / 100 * 2 + 1)]) + [Lut(v % 100 * 2), Lut(v % 100 * 2 + 1)]
  {
    hide Pad, Lut, Pow;
    PowersOfTen();
    DigitsPad(2, v / 100, v % 100);
    assert v == v / 100 * 100 + v % 100;
    Pad2(v % 100);
    if v >= 1000 { Digits2(v / 100); }
  }

  lemma DigitsAbove16(v: nat, a: seq<byte>)
    requires v >= 1_0000_0000_0000_0000 && a == Digits(v / 1_0000_0000_0000_0000)
    ensures var rest := v % 1_0000_0000_0000_0000;
            var x, y := rest / 1_0000_0000, rest % 1_0000_0000;
            Digits(v) == a + (Four(x / 10000) + Four(x % 10000)) + (Four(y / 10000) + Four(y % 10000))
  {
    var h := v / 1_0000_0000;
    var rest := v % 1_0000_0000_0000_0000;
    assert h / 1_0000_0000 == v / 1_0000_0000_0000_0000;
    assert h % 1_0000_0000 == rest / 1_0000_0000;
    assert v % 1_0000_0000 == rest % 1_0000_0000;
    hide Four, Digits;
    DigitsAbove8(v);
    DigitsAbove8(h);
  }

  /** i64toa. */
  method I64toa(value: int) returns (buffer: seq<byte>)
    requires IsInt64(value)
    ensures buffer == IntegerText(value) && |buffer| <= 21
  {
    var u := if value < 0 then value + TWO64 else value;
    buffer := [];
    if value < 0 {
      buffer := [MINUS];
      u := (TWO64 - 1 - u + 1) % TWO64;
    }
    var digits := U64toa(u);
    buffer := buffer + digits;
  }
}
