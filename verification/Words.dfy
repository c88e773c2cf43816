/** 64-bit words and little-endian sequences of them. */
module Words {
  import opened Powers

  const BASE: int := 0x1_0000_0000_0000_0000
  const HALF: int := 0x1_0000_0000

  type word = x: int | 0 <= x < BASE

  /** What a 64-bit register keeps of a result. */
  function Wrap(x: int): word { x % BASE }

  function Radix(n: nat): (p: nat)
    ensures p > 0
  {
    Pow(BASE, n)
  }

  /** The number that a sequence of words denotes, least significant word first. */
  function Val(d: seq<word>): nat {
    if d == [] then 0 else Val(d[..|d| - 1]) + d[|d| - 1] * Radix(|d| - 1)
  }

  lemma ValPush(d: seq<word>, x: word)
    ensures Val(d + [x]) == Val(d) + x * Radix(|d|)
  {
    assert (d + [x])[..|d|] == d;
  }

  lemma ValPrefix(d: seq<word>, i: nat)
    requires i < |d|
    ensures Val(d[..i + 1]) == Val(d[..i]) + d[i] * Radix(i)
  {
    assert d[..i + 1] == d[..i] + [d[i]];
    ValPush(d[..i], d[i]);
  }

  lemma ValOne(x: word)
    ensures Val([x]) == x
  {
    assert [x][..0] == [];
    assert Radix(0) == 1;
  }

  lemma RadixNext(n: nat)
    ensures Radix(n + 1) == BASE * Radix(n)
  {
  }

  lemma {:induction false} ValBelow(d: seq<word>)
    ensures Val(d) < Radix(|d|)
  {
    if d != [] {
      var n := |d| - 1;
      ValBelow(d[..n]);
      RadixNext(n);
      Scale(d[n], BASE - 1, Radix(n));
    }
  }

  /** No leading zero word; zero is a single zero word. */
  predicate IsNormal(d: seq<word>) { |d| > 0 && (|d| > 1 ==> d[|d| - 1] != 0) }

  lemma ValAtLeast(d: seq<word>)
    requires IsNormal(d) && |d| > 1
    ensures Val(d) >= Radix(|d| - 1)
  {
    Scale(1, d[|d| - 1], Radix(|d| - 1));
  }

  /** A number below a power of the base has no more words than its exponent. */
  lemma LengthBelow(d: seq<word>, n: nat)
    requires IsNormal(d) && Val(d) < Radix(n) && n > 0
    ensures |d| <= n
  {
    if |d| > n {
      ValAtLeast(d);
      PowMonotone(BASE, n, |d| - 1);
    }
  }

  /** The most significant word that differs decides. */
  lemma {:induction false} TopDecides(a: seq<word>, b: seq<word>, i: nat)
    requires |a| == |b| && i < |a| && a[i] < b[i] && a[i + 1..] == b[i + 1..]
    ensures Val(a) < Val(b)
    decreases |a|
  {
    hide Radix, Val;
    var n := |a| - 1;
    if i == n {
      HighestDecides(a, b);
    } else {
      SameAbove(a, b, i);
      TopDecides(a[..n], b[..n], i);
      SameHighest(a, b);
    }
  }

  lemma HighestDecides(a: seq<word>, b: seq<word>)
    requires |a| == |b| > 0 && a[|a| - 1] < b[|a| - 1]
    ensures Val(a) < Val(b)
  {
    hide Radix, Val;
    var n := |a| - 1;
    ValLast(a);
    ValLast(b);
    ValBelow(a[..n]);
    HigherDigit(Val(a[..n]), Val(b[..n]), a[n], b[n], Radix(n));
  }

  lemma HigherDigit(v: nat, w: nat, x: nat, y: nat, r: nat)
    requires v < r && x < y
    ensures v + x * r < w + y * r
  {
    Scale(x + 1, y, r);
    assert (x + 1) * r == x * r + r;
  }

  lemma SameHighest(a: seq<word>, b: seq<word>)
    requires |a| == |b| > 0 && a[|a| - 1] == b[|a| - 1]
    ensures Val(a) - Val(a[..|a| - 1]) == Val(b) - Val(b[..|a| - 1])
  {
    hide Radix, Val;
    ValLast(a);
    ValLast(b);
  }

  lemma ValLast(d: seq<word>)
    requires d != []
    ensures var n := |d| - 1; Val(d) == Val(d[..n]) + d[n] * Radix(n)
  {
  }

  lemma SameAbove(a: seq<word>, b: seq<word>, i: nat)
    requires |a| == |b| && i + 1 < |a| && a[i + 1..] == b[i + 1..]
    ensures var n := |a| - 1; a[n] == b[n] && a[..n][i + 1..] == b[..n][i + 1..]
  {
    var n := |a| - 1;
    assert a[i + 1..][n - i - 1] == a[n] && b[i + 1..][n - i - 1] == b[n];
    assert a[..n][i + 1..] == a[i + 1..][..n - i - 1];
    assert b[..n][i + 1..] == b[i + 1..][..n - i - 1];
  }

  lemma ShorterIsSmaller(a: seq<word>, b: seq<word>)
    requires IsNormal(b) && 0 < |a| < |b|
    ensures Val(a) < Val(b)
  {
    ValBelow(a);
    PowMonotone(BASE, |a|, |b| - 1);
    ValAtLeast(b);
  }

  lemma {:induction false} SameLengthInjective(a: seq<word>, b: seq<word>)
    requires |a| == |b| && Val(a) == Val(b)
    ensures a == b
  {
    if a != [] {
      var n := |a| - 1;
      if a[n] < b[n] {
        TopDecides(a, b, n);
      } else if b[n] < a[n] {
        TopDecides(b, a, n);
      } else {
        SameLengthInjective(a[..n], b[..n]);
        assert a == a[..n] + [a[n]] == b;
      }
    }
  }

  /** A number has one normal form. */
  lemma Injective(a: seq<word>, b: seq<word>)
    requires IsNormal(a) && IsNormal(b) && Val(a) == Val(b)
    ensures a == b
  {
    if |a| < |b| {
      ShorterIsSmaller(a, b);
    } else if |b| < |a| {
      ShorterIsSmaller(b, a);
    } else {
      SameLengthInjective(a, b);
    }
  }

  lemma {:induction false} ValAppend(a: seq<word>, b: seq<word>)
    ensures Val(a + b) == Val(a) + Radix(|a|) * Val(b)
  {
    if b == [] {
      assert a + b == a;
    } else {
      var n := |b| - 1;
      ValAppend(a, b[..n]);
      assert a + b == (a + b[..n]) + [b[n]];
      ValPush(a + b[..n], b[n]);
      PowAdd(BASE, |a|, n);
      Spread(Radix(|a|), Val(b[..n]), b[n], Radix(n));
    }
  }

  lemma Spread(r: int, v: int, x: int, p: int)
    ensures r * (v + x * p) == r * v + x * (r * p)
  {
  }

  function Zeros(n: nat): (s: seq<word>)
    ensures |s| == n
  {
    seq(n, i => 0)
  }

  lemma {:induction false} ValZeros(n: nat)
    ensures Val(Zeros(n)) == 0
  {
    if n > 0 {
      assert Zeros(n)[..n - 1] == Zeros(n - 1);
      ValZeros(n - 1);
    }
  }

  // ---------- Products of words ----------

  lemma Halves(a1: nat, a0: nat, b1: nat, b0: nat)
    ensures (a1 * HALF + a0) * (b1 * HALF + b0) == a1 * b1 * BASE + (a0 * b1 + a1 * b0) * HALF + a0 * b0
  {
    var x, y := a1 * HALF, b1 * HALF;
    assert (x + a0) * (y + b0) == x * y + a0 * y + x * b0 + a0 * b0;
    assert x * y == a1 * b1 * BASE by {
      Interchange(a1, HALF, b1, HALF);
    }
    assert a0 * y == a0 * b1 * HALF by { Regroup(a0, b1, HALF); }
    assert x * b0 == a1 * b0 * HALF by { Regroup(a1, HALF, b0); Regroup(a1, b0, HALF); }
  }

  lemma ProductBelow(a: nat, b: nat, m: nat)
    requires a < m && b < m
    ensures 0 <= a * b <= (m - 1) * (m - 1)
  {
    Scale(a, m - 1, b);
    Scale(b, m - 1, m - 1);
  }

  /** The four products of halves: none overflows, and they make up the product. */
  lemma HalfProducts(a: word, b: word)
    ensures var a0, a1, b0, b1 := a % HALF, a / HALF, b % HALF, b / HALF;
            && 0 <= a0 * b0 <= (HALF - 1) * (HALF - 1) && 0 <= a0 * b1 <= (HALF - 1) * (HALF - 1)
            && 0 <= a1 * b0 <= (HALF - 1) * (HALF - 1) && 0 <= a1 * b1 <= (HALF - 1) * (HALF - 1)
            && a1 * b1 * BASE + (a0 * b1 + a1 * b0) * HALF + a0 * b0 == a * b
    ensures 0 <= a * b <= (BASE - 1) * (BASE - 1)
  {
    HalfOf(a);
    HalfOf(b);
    ProductBelow(a % HALF, b % HALF, HALF);
    ProductBelow(a % HALF, b / HALF, HALF);
    ProductBelow(a / HALF, b % HALF, HALF);
    ProductBelow(a / HALF, b / HALF, HALF);
    ProductBelow(a, b, BASE);
    Halves(a / HALF, a % HALF, b / HALF, b % HALF);
  }

  lemma HalfOf(x: word)
    ensures x / HALF < HALF && x % HALF < HALF && x == x / HALF * HALF + x % HALF
  {
  }

  /** A word moved up by half a word. */
  lemma HalfUp(x: word)
    ensures Wrap(x * HALF) == x % HALF * HALF
    ensures x * HALF == x / HALF * BASE + x % HALF * HALF
  {
  }

  /** Puts four products of halves together, with the carries put in by hand. */
  method Join(x0: word, y: word, x2: word, z: word) returns (lo: word, hi: word)
    requires x0 <= (HALF - 1) * (HALF - 1) && y <= (HALF - 1) * (HALF - 1)
    requires x2 <= (HALF - 1) * (HALF - 1) && z <= (HALF - 1) * (HALF - 1)
    ensures hi * BASE + lo == z * BASE + (y + x2) * HALF + x0
  {
    var x1: word, x3: word := y + x0 / HALF, z;
    x1 := Wrap(x1 + x2);
    if x1 < x2 {
      x3 := x3 + HALF;
    }
    HalfUp(x1);
    lo := Wrap(x1 * HALF) + x0 % HALF;
    hi := x3 + x1 / HALF;
  }

  /** The branch for compilers without a 128-bit product. */
  method MulAddPortable(a: word, b: word, k: word) returns (lo: word, hi: word)
    ensures hi * BASE + lo == a * b + k
  {
    var a0, a1, b0, b1 := a % HALF, a / HALF, b % HALF, b / HALF;
    HalfProducts(a, b);
    lo, hi := Join(a0 * b0, a0 * b1, a1 * b0, a1 * b1);
    AddLow(lo, hi, k, a * b);
    lo := Wrap(lo + k);
    if lo < k {
      hi := hi + 1;
    }
  }

  lemma AddLow(lo: word, hi: word, k: word, p: nat)
    requires hi * BASE + lo == p && p <= (BASE - 1) * (BASE - 1)
    ensures Wrap(lo + k) < k <==> lo + k >= BASE
    ensures lo + k >= BASE ==> hi + 1 < BASE && (hi + 1) * BASE + Wrap(lo + k) == p + k
    ensures lo + k < BASE ==> hi * BASE + Wrap(lo + k) == p + k
  {
  }

  /** The branch with a 128-bit product. */
  method MulAdd(a: word, b: word, k: word) returns (lo: word, hi: word)
    ensures hi * BASE + lo == a * b + k
  {
    ProductBelow(a, b, BASE);
    var p := a * b;
    p := p + k;
    hi := p / BASE;
    lo := Wrap(p);
  }

  /** One word times a 32-bit factor plus a 32-bit carry, as operator*=(uint32_t) forms it. */
  method MulHalf(x: word, u: nat, k: nat) returns (lo: word, hi: nat)
    requires u < HALF && k < HALF
    ensures hi < HALF && hi * BASE + lo == x * u + k
  {
    var c, d := x / HALF, x % HALF;
    ProductBelow(u, c, HALF);
    ProductBelow(u, d, HALF);
    Halves(c, d, 0, u);
    assert 0 * c == 0 == 0 * d;
    lo, hi := JoinHalf(u * c, u * d, k);
  }

  method JoinHalf(uc: word, ud: word, k: nat) returns (lo: word, hi: nat)
    requires uc <= (HALF - 1) * (HALF - 1) && ud <= (HALF - 1) * (HALF - 1) && k < HALF
    ensures hi < HALF && hi * BASE + lo == uc * HALF + ud + k
  {
    var p0: word := ud + k;
    var p1: word := uc + p0 / HALF;
    HalfUp(p1);
    lo := p0 % HALF + Wrap(p1 * HALF);
    hi := p1 / HALF;
  }
}
