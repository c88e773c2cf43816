/** The exact test whether a decimal number is within half a unit in the last place of a binary one. */
module HalfUlp {
  import opened Powers
  import opened Words
  import opened BigNumbers

  // ---------- Real powers ----------

  ghost function RealPow(b: real, e: int): (p: real)
    requires b > 0.0
    ensures p > 0.0
    decreases if e < 0 then -e else e
  {
    if e == 0 then 1.0 else if e > 0 then b * RealPow(b, e - 1) else RealPow(b, e + 1) / b
  }

  lemma {:induction false} RealPowNext(b: real, e: int)
    requires b > 0.0
    ensures RealPow(b, e + 1) == b * RealPow(b, e)
  {
    if e < 0 {
      DivideBack(RealPow(b, e + 1), b);
    }
  }

  lemma DivideBack(x: real, b: real)
    requires b > 0.0
    ensures b * (x / b) == x
  {
  }

  lemma {:induction false} RealPowAdd(b: real, m: int, n: int)
    requires b > 0.0
    ensures RealPow(b, m + n) == RealPow(b, m) * RealPow(b, n)
    decreases if n < 0 then -n else n
  {
    hide RealPow;
    if n > 0 {
      RealPowAdd(b, m, n - 1);
      NextFactor(b, m, n - 1);
    } else if n < 0 {
      RealPowAdd(b, m, n + 1);
      NextFactor(b, m, n);
    } else {
      RealPowZero(b);
    }
  }

  lemma RealPowZero(b: real)
    requires b > 0.0
    ensures RealPow(b, 0) == 1.0
  {
  }

  /** One more factor on both sides. */
  lemma NextFactor(b: real, m: int, n: int)
    requires b > 0.0
    ensures RealPow(b, m + n + 1) == RealPow(b, m) * RealPow(b, n + 1) <==> RealPow(b, m + n) == RealPow(b, m) * RealPow(b, n)
  {
    hide RealPow;
    RealPowNext(b, m + n);
    RealPowNext(b, n);
    var x, y := RealPow(b, m + n), RealPow(b, m) * RealPow(b, n);
    RealRegroup(RealPow(b, m), b, RealPow(b, n));
    assert x == b * x / b && y == b * y / b;
  }

  lemma RealRegroup(x: real, y: real, z: real)
    ensures x * (y * z) == y * (x * z)
    ensures x * (y * z) == x * y * z
  {
  }

  lemma {:induction false} RealPowNat(b: nat, e: nat)
    requires b > 0
    ensures RealPow(b as real, e) == Pow(b, e) as real
  {
    if e > 0 {
      RealPowNat(b, e - 1);
      Cast(b, Pow(b, e - 1));
    }
  }

  lemma Cast(x: nat, y: nat)
    ensures (x * y) as real == x as real * y as real
  {
  }

  lemma {:induction false} RealPowTen(e: int)
    ensures RealPow(10.0, e) == RealPow(5.0, e) * RealPow(2.0, e)
    decreases if e < 0 then -e else e
  {
    if e > 0 {
      RealPowTen(e - 1);
      RealInterchange(5.0, 2.0, RealPow(5.0, e - 1), RealPow(2.0, e - 1));
    } else if e < 0 {
      RealPowTen(e + 1);
      RealPowNext(10.0, e);
      RealPowNext(5.0, e);
      RealPowNext(2.0, e);
      RealInterchange(5.0, 2.0, RealPow(5.0, e), RealPow(2.0, e));
    }
  }

  lemma RealInterchange(a: real, b: real, c: real, d: real)
    ensures (a * b) * (c * d) == (a * c) * (b * d)
  {
    assert (a * b) * (c * d) == a * (b * (c * d));
    RealRegroup(b, c, d);
    assert (a * c) * (b * d) == a * (c * (b * d));
  }

  // ---------- What is compared ----------

  ghost function Abs(x: real): real { if x < 0.0 then -x else x }

  ghost function Sign(x: real): int { if x < 0.0 then -1 else if x == 0.0 then 0 else 1 }

  /** |d * 10^dExp - b| - half a unit in the last place of b, where b = bInt * 2^bExp. */
  ghost function Excess(d: nat, dExp: int, bInt: nat, bExp: int): real {
    Abs(d as real * RealPow(10.0, dExp) - bInt as real * RealPow(2.0, bExp)) - RealPow(2.0, bExp - 1)
  }

  /** The exponents of the three scaled numbers, as the function adjusts them. */
  datatype Scales = Scales(d2: nat, d5: nat, b2: nat, b5: nat, h2: nat, h5: nat)

  function Min3(a: int, b: int, c: int): int {
    var m := if a > b then b else a;
    if m > c then c else m
  }

  method Adjust(bExp: int, dExp: int) returns (s: Scales)
    ensures s == ScalesOf(bExp, dExp)
  {
    var hExp := bExp - 1;
    var d2, d5, b2, b5, h2, h5 := 0, 0, 0, 0, 0, 0;
    if dExp >= 0 {
      d2 := d2 + dExp;
      d5 := d5 + dExp;
    } else {
      b2 := b2 - dExp;
      b5 := b5 - dExp;
      h2 := h2 - dExp;
      h5 := h5 - dExp;
    }
    if bExp >= 0 {
      b2 := b2 + bExp;
    } else {
      d2 := d2 - bExp;
      h2 := h2 - bExp;
    }
    if hExp >= 0 {
      h2 := h2 + hExp;
    } else {
      d2 := d2 - hExp;
      b2 := b2 - hExp;
    }
    var common := Min3(d2, b2, h2);
    s := Scales(d2 - common, d5, b2 - common, b5, h2 - common, h5);
  }

  /** The same exponents in closed form: the half unit is always the smaller binary side. */
  function ScalesOf(bExp: int, dExp: int): (s: Scales)
    ensures s.d2 == 0 || s.h2 == 0
    ensures s.b2 == s.h2 + 1 && s.b2 - bExp == s.d2 - dExp && s.h2 - (bExp - 1) == s.d2 - dExp
    ensures s.b5 == s.d5 - dExp == s.h5
  {
    var up := if bExp - 1 > dExp then bExp - 1 - dExp else 0;
    var five := if dExp < 0 then -dExp else 0;
    Scales(dExp - (bExp - 1) + up, dExp + five, up + 1, five, up, five)
  }

  /** One number after scaling. */
  function Scaled(v: nat, e5: nat, e2: nat): nat { v * Pow(5, e5) * Pow(2, e2) }

  /** The scaled number fits, and is not moved by whole words unless it is a single word. */
  predicate Shiftable(v: nat, e5: nat, e2: nat) {
    && Scaled(v, e5, e2) < Radix(CAPACITY - 1)
    && (e2 % 64 == 0 && e2 > 0 ==> v * Pow(5, e5) < BASE)
  }

  /** The normal form of a number. */
  function WordsOf(n: nat): seq<word> {
    if n < BASE then [n] else [n % BASE] + WordsOf(n / BASE)
  }

  lemma {:induction false} WordsOfIsNormal(n: nat)
    ensures IsNormal(WordsOf(n)) && Val(WordsOf(n)) == n
  {
    if n < BASE {
      ValOne(n);
    } else {
      hide Val, Radix;
      WordsOfIsNormal(n / BASE);
      ValOne(n % BASE);
      ValAppend([n % BASE], WordsOf(n / BASE));
      RadixOne();
    }
  }

  lemma RadixOne()
    ensures Radix(1) == BASE
  {
    RadixNext(0);
  }

  lemma WordsAre(d: seq<word>)
    requires IsNormal(d)
    ensures d == WordsOf(Val(d))
  {
    WordsOfIsNormal(Val(d));
    Injective(d, WordsOf(Val(d)));
  }

  // ---------- One common factor ----------

  lemma Grouped(x: real, p: real, q: real, f: real, g: real)
    ensures x * (p * f) * (q * g) == x * (p * q) * (f * g)
  {
    RealInterchange(p, f, q, g);
    assert x * (p * f) * (q * g) == x * ((p * f) * (q * g));
    assert x * (p * q) * (f * g) == x * ((p * q) * (f * g));
  }

  lemma ScaledReal(v: nat, e5: nat, e2: nat)
    ensures Scaled(v, e5, e2) as real == v as real * RealPow(5.0, e5) * RealPow(2.0, e2)
  {
    hide RealPow, Pow;
    RealPowNat(5, e5);
    RealPowNat(2, e2);
    Cast(v * Pow(5, e5), Pow(2, e2));
    Cast(v, Pow(5, e5));
  }

  /** A number with a decimal exponent, scaled. */
  lemma DecimalFactor(v: nat, base: int, e5: nat, e2: nat, t: int, s: int)
    requires e5 == base + t && e2 == base + s
    ensures Scaled(v, e5, e2) as real == v as real * RealPow(10.0, base) * (RealPow(5.0, t) * RealPow(2.0, s))
  {
    hide RealPow, Scaled;
    ScaledReal(v, e5, e2);
    RealPowAdd(5.0, base, t);
    RealPowAdd(2.0, base, s);
    RealPowTen(base);
    Grouped(v as real, RealPow(5.0, base), RealPow(2.0, base), RealPow(5.0, t), RealPow(2.0, s));
  }

  /** A number with a binary exponent, scaled by the same factor. */
  lemma BinaryFactor(v: nat, base: int, t: nat, e2: nat, s: int)
    requires e2 == base + s
    ensures Scaled(v, t, e2) as real == v as real * RealPow(2.0, base) * (RealPow(5.0, t) * RealPow(2.0, s))
  {
    hide RealPow, Scaled;
    ScaledReal(v, t, e2);
    RealPowAdd(2.0, base, s);
    BinaryGrouped(v as real, RealPow(2.0, base), RealPow(5.0, t), RealPow(2.0, s));
  }

  lemma BinaryGrouped(x: real, q: real, f: real, g: real)
    ensures x * f * (q * g) == x * q * (f * g)
  {
    assert x * f * (q * g) == x * (f * (q * g));
    RealRegroup(f, q, g);
    assert x * q * (f * g) == x * (q * (f * g));
  }

  /** The scaled integers compare as the numbers do. */
  lemma SameSign(d: nat, dExp: int, bInt: nat, bExp: int, x: nat, y: nat, h: nat)
    requires var s := ScalesOf(bExp, dExp);
             x == Scaled(d, s.d5, s.d2) && y == Scaled(bInt, s.b5, s.b2) && h == Scaled(1, s.h5, s.h2)
    ensures Sign(Excess(d, dExp, bInt, bExp)) == Sign((Gap(x, y) - h) as real)
  {
    hide RealPow, Scaled;
    var s := ScalesOf(bExp, dExp);
    var t, u := s.b5, s.d2 - dExp;
    var factor := RealPow(5.0, t) * RealPow(2.0, u);
    DecimalFactor(d, dExp, s.d5, s.d2, t, u);
    BinaryFactor(bInt, bExp, t, s.b2, u);
    BinaryFactor(1, bExp - 1, t, s.h2, u);
    SignScaled(d as real * RealPow(10.0, dExp), bInt as real * RealPow(2.0, bExp), RealPow(2.0, bExp - 1), factor, x, y, h);
  }

  lemma SignScaled(a: real, b: real, half: real, factor: real, x: nat, y: nat, h: nat)
    requires factor > 0.0
    requires x as real == a * factor && y as real == b * factor && h as real == 1.0 * half * factor
    ensures Sign(Abs(a - b) - half) == Sign((Gap(x, y) - h) as real)
  {
    assert (a - b) * factor == (x - y) as real;
    var e := Abs(a - b) - half;
    assert e * factor == (Gap(x, y) - h) as real by {
      assert a < b ==> (a - b) * factor < 0.0;
      assert a > b ==> (a - b) * factor > 0.0;
    }
    assert e > 0.0 ==> e * factor > 0.0;
    assert e < 0.0 ==> e * factor < 0.0;
  }

  // ---------- The function ----------

  /** MultiplyPow5 and the shift behind it, where the shift is exact. */
  method MultiplyAndShift(x: BigInteger, e5: nat, e2: nat)
    requires x.Valid() && Shiftable(x.Value(), e5, e2)
    modifies x, x.digits
    ensures x.Valid() && x.Value() == Scaled(old(x.Value()), e5, e2)
  {
    hide Pow, Radix, Val;
    FactorFits(x.Value(), e5, e2);
    x.MultiplyPow5(e5);
    ghost var words := x.digits[..x.count];
    ShiftFits(words, e2);
    if e2 % 64 == 0 && e2 > 0 {
      RadixOne();
      LengthBelow(words, 1);
    }
    x.ShiftLeft(e2);
  }

  lemma FactorFits(v: nat, e5: nat, e2: nat)
    requires Scaled(v, e5, e2) < Radix(CAPACITY - 1)
    ensures v * Pow(5, e5) < Radix(CAPACITY)
  {
    hide Pow, Radix;
    Powers.Scale(1, Pow(2, e2), v * Pow(5, e5));
    BigInteger.RadixMore();
  }

  lemma ShiftFits(d: seq<word>, e2: nat)
    requires IsNormal(d) && Val(d) * Pow(2, e2) < Radix(CAPACITY - 1)
    ensures Val(d) != 0 ==> |d| + e2 / 64 < CAPACITY
  {
    hide Pow, Radix, Val;
    if Val(d) != 0 {
      var n, o := |d| - 1, e2 / 64;
      AtLeastTop(d);
      PowShift(e2);
      PowAddRadix(n, o);
      AtLeastProduct(Val(d), Radix(n), Radix(o), Pow(2, e2 % 64));
      RadixOrder(n + o, CAPACITY - 1);
    }
  }

  lemma AtLeastProduct(v: nat, rn: nat, ro: nat, p: nat)
    requires v >= rn && p > 0
    ensures v * (ro * p) >= ro * rn
  {
    Powers.Scale(1, p, ro);
    Powers.Scale(rn, v, ro * p);
    Powers.Scale(ro, ro * p, rn);
  }

  lemma AtLeastTop(d: seq<word>)
    requires IsNormal(d) && Val(d) != 0
    ensures Val(d) >= Radix(|d| - 1)
  {
    if |d| > 1 {
      ValAtLeast(d);
    }
  }

  lemma PowAddRadix(m: nat, n: nat)
    ensures Radix(m + n) == Radix(n) * Radix(m)
  {
    PowAdd(BASE, m, n);
  }

  /** What the subtraction misses: nothing, unless an all-ones word of the smaller number meets a borrow. */
  ghost function MissedBetween(x: nat, y: nat): nat {
    var a, b := WordsOf(x), WordsOf(y);
    if x < y then Missed(b, a, |b|) else Missed(a, b, |a|)
  }

  lemma MissedBelow(a: seq<word>, b: seq<word>)
    requires IsNormal(a) && IsNormal(b) && Val(b) < Val(a)
    ensures Missed(a, b, |a|) == 0 <==> !BorrowLost(a, b)
  {
    hide Val, Radix;
    BigInteger.NoLonger(a, b);
    var o := BigInteger.SubtractUpTo(a, b, |a|);
  }

  lemma MissedIsLost(x: nat, y: nat)
    requires x != y
    ensures MissedBetween(x, y) == 0 <==> if x < y then !BorrowLost(WordsOf(y), WordsOf(x)) else !BorrowLost(WordsOf(x), WordsOf(y))
  {
    hide Missed, BorrowLost;
    WordsOfIsNormal(x);
    WordsOfIsNormal(y);
    if x < y { MissedBelow(WordsOf(y), WordsOf(x)); } else { MissedBelow(WordsOf(x), WordsOf(y)); }
  }

  /** A gap that is `missed` too large is still on the same side of `h`. */
  predicate SameSide(gap: nat, missed: nat, h: nat) { missed == 0 || gap > h || gap + missed < h }

  /**
   * The sign of |d * 10^dExp - b| - half a unit in the last place of b, if and only if a missed borrow does not move
   * the difference to the other side.  The two sides must differ and no number may need an inexact shift.
   */
  method CheckWithinHalfULP(bInt: word, bExp: int, d: BigInteger, dExp: int) returns (r: int)
    requires d.Valid()
    requires var s := ScalesOf(bExp, dExp);
             && Shiftable(d.Value(), s.d5, s.d2) && Shiftable(bInt, s.b5, s.b2) && Shiftable(1, s.h5, s.h2)
             && Scaled(d.Value(), s.d5, s.d2) != Scaled(bInt, s.b5, s.b2)
    ensures var s := ScalesOf(bExp, dExp);
            var x, y, h := Scaled(d.Value(), s.d5, s.d2), Scaled(bInt, s.b5, s.b2), Scaled(1, s.h5, s.h2);
            && r == Sign((Gap(x, y) + MissedBetween(x, y) - h) as real)
            && (r == Sign(Excess(d.Value(), dExp, bInt, bExp)) <==> SameSide(Gap(x, y), MissedBetween(x, y), h))
  {
    hide Scaled, Val, Radix, Excess, Sign, ScalesOf, Shiftable, MissedBetween, IsNormal, Gap, SameSide;
    var s := Adjust(bExp, dExp);
    var dS := NewCopy(d, s.d5, s.d2);
    var bS := NewScaled(bInt, s.b5, s.b2);
    var hS := NewScaled(1, s.h5, s.h2);
    r := CompareGap(dS, bS, hS);
    SameSign(d.Value(), dExp, bInt, bExp, dS.Value(), bS.Value(), hS.Value());
    SignIs(Gap(dS.Value(), bS.Value()), MissedBetween(dS.Value(), bS.Value()), hS.Value(), r);
  }

  function Gap(x: nat, y: nat): nat { if x < y then y - x else x - y }

  /** The last three statements: the difference, and how it compares with the half unit. */
  method CompareGap(x: BigInteger, y: BigInteger, h: BigInteger) returns (r: int)
    requires x.Valid() && y.Valid() && h.Valid() && x.Value() != y.Value()
    ensures var gap := Gap(x.Value(), y.Value()) + MissedBetween(x.Value(), y.Value());
            r == if gap < h.Value() then -1 else if gap == h.Value() then 0 else 1
  {
    hide Val, Radix, BorrowLost, WordsOf, Missed;
    var delta := new BigInteger.FromWord(0);
    var swapped := x.Difference(y, delta);
    WordsAre(x.digits[..x.count]);
    WordsAre(y.digits[..y.count]);
    r := delta.Compare(h);
  }

  method NewScaled(u: word, e5: nat, e2: nat) returns (x: BigInteger)
    requires Shiftable(u, e5, e2)
    ensures fresh(x) && fresh(x.digits) && x.Valid() && x.Value() == Scaled(u, e5, e2)
  {
    hide Shiftable, Scaled;
    x := new BigInteger.FromWord(u);
    MultiplyAndShift(x, e5, e2);
  }

  method NewCopy(d: BigInteger, e5: nat, e2: nat) returns (x: BigInteger)
    requires d.Valid() && Shiftable(d.Value(), e5, e2)
    ensures fresh(x) && fresh(x.digits) && x.Valid() && x.Value() == Scaled(d.Value(), e5, e2)
  {
    hide Shiftable, Scaled;
    x := new BigInteger.Copy(d);
    MultiplyAndShift(x, e5, e2);
  }

  lemma SignIs(gap: nat, missed: nat, h: nat, r: int)
    requires r == if gap + missed < h then -1 else if gap + missed == h then 0 else 1
    ensures r == Sign((gap + missed - h) as real)
    ensures r == Sign((gap - h) as real) <==> SameSide(gap, missed, h)
  {
  }
}
