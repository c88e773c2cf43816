/** Floating numbers with a 64-bit significand: f * 2^e. */
module DiyFloat {
  import opened Powers
  import opened Words

  datatype DiyFp = DiyFp(f: word, e: int)

  const TOP: int := 0x8000_0000_0000_0000
  const HIDDEN: int := 0x10_0000_0000_0000

  /** The product of two significands divided by 2^64, halves rounded up. */
  function Rounded(p: nat): nat { (p + TOP) / BASE }

  /** The branch with a 128-bit product: look at the top bit of the low word. */
  method Multiply(x: DiyFp, y: DiyFp) returns (r: DiyFp)
    ensures r.f == Rounded(x.f * y.f) && r.e == x.e + y.e + 64
  {
    ProductBelow(x.f, y.f, BASE);
    var p := x.f * y.f;
    var h: word, l := p / BASE, Wrap(p);
    if l >= TOP {
      h := h + 1;
    }
    r := DiyFp(h, x.e + y.e + 64);
  }

  /** The portable branch: it never forms the low word, only the bits that can carry into the high one. */
  method MultiplyPortable(x: DiyFp, y: DiyFp) returns (r: DiyFp)
    ensures r.f == Rounded(x.f * y.f) && r.e == x.e + y.e + 64
  {
    var a, b, c, d := x.f / HALF, x.f % HALF, y.f / HALF, y.f % HALF;
    HalfProducts(x.f, y.f);
    var f := RoundProducts(a * c, b * c, a * d, b * d);
    r := DiyFp(f, x.e + y.e + 64);
  }

  method RoundProducts(ac: word, bc: word, ad: word, bd: word) returns (f: word)
    requires ac <= (HALF - 1) * (HALF - 1) && bc <= (HALF - 1) * (HALF - 1)
    requires ad <= (HALF - 1) * (HALF - 1) && bd <= (HALF - 1) * (HALF - 1)
    requires ac * BASE + (bc + ad) * HALF + bd <= (BASE - 1) * (BASE - 1)
    ensures f == Rounded(ac * BASE + (bc + ad) * HALF + bd)
  {
    var tmp: word := bd / HALF + ad % HALF + bc % HALF;
    tmp := tmp + 0x8000_0000;
    f := ac + ad / HALF + bc / HALF + tmp / HALF;
  }

  /** The loop of Normalize: the same number, with the top bit set. */
  method Normalize(x: DiyFp) returns (r: DiyFp)
    requires x.f != 0
    ensures r.e <= x.e && r.f == x.f * Pow(2, x.e - r.e)
    ensures r.f >= TOP
  {
    r := x;
    while r.f < TOP
      invariant r.f > 0 && r.e <= x.e && r.f == x.f * Pow(2, x.e - r.e)
      decreases TOP - r.f
    {
      Doubled(x.f, x.e - r.e);
      r := DiyFp(r.f * 2, r.e - 1);
    }
  }

  lemma Doubled(f: nat, k: nat)
    ensures f * Pow(2, k) * 2 == f * Pow(2, k + 1)
  {
    Regroup(f, Pow(2, k), 2);
  }

  /** A significand of at most 54 bits moves up until all 64 bits are in use. */
  method NormalizeBoundary(x: DiyFp) returns (r: DiyFp)
    requires 0 < x.f < 4 * HIDDEN
    ensures r.e <= x.e && r.f == x.f * Pow(2, x.e - r.e)
    ensures r.f >= TOP
  {
    r := x;
    while r.f < 2 * HIDDEN
      invariant 0 < r.f < 4 * HIDDEN && r.e <= x.e && r.f == x.f * Pow(2, x.e - r.e)
      decreases 2 * HIDDEN - r.f
    {
      Doubled(x.f, x.e - r.e);
      r := DiyFp(r.f * 2, r.e - 1);
    }
    PowAdd(2, x.e - r.e, 10);
    Regroup(x.f, Pow(2, x.e - r.e), Pow(2, 10));
    TwoPowers();
    r := DiyFp(r.f * 1024, r.e - 10);
  }

  /** Rounding half up: the result is the nearest multiple of the unit, the upper one when two are equally near. */
  lemma RoundedIsNearest(p: nat)
    ensures 2 * (Rounded(p) * BASE - p) <= BASE
    ensures 2 * (p - Rounded(p) * BASE) < BASE
  {
  }
}
