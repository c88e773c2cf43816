/** Decimal digits of a scaled number, as few as a given error allows. */
module DigitGenerator {
  import opened Stream
  import opened Grammar
  import opened Machine
  import opened Powers

  const POW10: seq<uint32> := [1, 10, 100, 1000, 10000, 100000, 1000000, 10000000, 100000000, 1000000000]

  lemma TableIsPow10(k: nat)
    requires k <= 9
    ensures POW10[k] as int == Pow(10, k)
  {
    TenPowers();
  }

  /** The number of decimal digits of a number below 10^9. */
  function CountDecimalDigit32(n: uint32): (k: nat)
    ensures 1 <= k <= 9
    ensures n < 1000000000 ==> (n as int) < Pow(10, k)
    ensures n > 0 ==> Pow(10, k - 1) <= n as int
  {
    var k :=
      if n < 10 then 1
      else if n < 100 then 2
      else if n < 1000 then 3
      else if n < 10000 then 4
      else if n < 100000 then 5
      else if n < 1000000 then 6
      else if n < 10000000 then 7
      else if n < 100000000 then 8
      else 9;
    TenPowers();
    hide Pow;
    k
  }

  // ---------- What the digits must show ----------

  function Scaled(d: nat, unit: nat): nat { d * unit }

  function Gap(a: int, b: int): nat { if a < b then b - a else a - b }

  /** d units lie between f - delta and f. */
  predicate Between(d: nat, unit: nat, f: nat, delta: nat) { f - delta <= Scaled(d, unit) <= f }

  /** d units are as near to f - w as any number of units between f - delta and f. */
  ghost predicate NearestOf(d: nat, unit: nat, f: nat, delta: nat, w: nat) {
    forall c: nat :: Between(c, unit, f, delta) ==> Gap(Scaled(d, unit), f - w) <= Gap(Scaled(c, unit), f - w)
  }

  /** d * 10^e10 lies between (f - delta) / one and f / one. */
  predicate InInterval(d: nat, e10: int, f: nat, delta: nat, one: nat) {
    if e10 >= 0 then Between(d, Pow(10, e10) * one, f, delta)
    else Between(d, one, f * Pow(10, -e10), delta * Pow(10, -e10))
  }

  /** No multiple of 10^e10 in that interval is nearer to (f - w) / one than d * 10^e10. */
  ghost predicate Nearest(d: nat, e10: int, f: nat, delta: nat, one: nat, w: nat) {
    if e10 >= 0 then NearestOf(d, Pow(10, e10) * one, f, delta, w)
    else NearestOf(d, one, f * Pow(10, -e10), delta * Pow(10, -e10), w * Pow(10, -e10))
  }

  /** What is left of f in front of its last j integer digits. */
  function IntegerRest(f: nat, one: nat, j: nat): nat
    requires one > 0
  {
    f % (Pow(10, j) * one)
  }

  /** What is left of f behind j fraction digits is within the error bound, which grows tenfold with each digit. */
  predicate Ends(f: nat, one: nat, delta: nat, j: nat)
    requires one > 0
  {
    if j == 0 then f % one <= delta else f * Pow(10, j) % one < delta * Pow(10, j)
  }

  /** At none of these places the integer digits may end. */
  ghost predicate Searched(f: nat, one: nat, delta: nat, low: nat, n: nat)
    requires one > 0
  {
    forall j: nat :: low <= j < n ==> IntegerRest(f, one, j) > delta
  }

  /** 10^e10 is the first place, from the highest of n integer digits down, where the digits may end. */
  ghost predicate FirstPlace(f: nat, one: nat, delta: nat, n: nat, e10: int)
    requires one > 0
  {
    if e10 >= 0 then
      e10 < n && IntegerRest(f, one, e10) <= delta && Ends(f, one, delta, 0) && Searched(f, one, delta, e10 + 1, n)
    else
      Ends(f, one, delta, -e10) && Searched(f, one, delta, 0, n) && forall j: nat :: j < -e10 ==> !Ends(f, one, delta, j)
  }

  // ---------- How many digits there are ----------

  /** The digits may end in the integer part or by the ninth fraction digit, so that the table of ten powers is not left. */
  ghost predicate InTable(f: nat, one: nat, delta: nat)
    requires one > 0
  {
    exists j: nat :: j <= 9 && Ends(f, one, delta, j)
  }

  /** The index into the table, where there is one, is at most 9 exactly then. */
  lemma TableIndex(f: nat, one: nat, delta: nat, n: nat, e10: int)
    requires one > 0 && FirstPlace(f, one, delta, n, e10)
    ensures -e10 <= 9 <==> InTable(f, one, delta)
  {
    hide Ends, IntegerRest;
  }

  /** What a caller can check beforehand: an error bound of one unit in the j-th fraction digit. */
  lemma EndsBy(f: nat, one: nat, delta: nat, j: nat)
    requires one > 0 && one <= delta * Pow(10, j)
    ensures Ends(f, one, delta, j)
  {
    hide Pow;
    if j == 0 { assert Pow(10, 0) == 1 by { TenPowers(); } }
  }

  /** It is so when the error bound is at least one unit in the ninth fraction digit. */
  lemma TableGuard(f: nat, one: nat, delta: nat)
    requires one > 0 && one <= delta * Pow(10, 9)
    ensures InTable(f, one, delta)
  {
    hide Ends, Pow;
    EndsBy(f, one, delta, 9);
  }

  /** Nineteen fraction digits are enough for any error bound. */
  lemma EndsByNineteen(f: nat, s: nat, delta: nat)
    requires 32 <= s <= 60 && delta >= 1
    ensures Ends(f, Pow(2, s), delta, 19)
  {
    hide Pow, Ends;
    OneBounds(s);
    TenPowers();
    Scale(1, delta, Pow(10, 19));
    EndsBy(f, Pow(2, s), delta, 19);
  }

  /**
   * The table is too short for an input like this one: scale 2^60, an error bound of 1024, and one third behind the
   * point.  What is left behind j digits is (2^60 - 10^j) / 3.
   */
  lemma TableTooShort()
    ensures var one := Pow(2, 60);
            var f := 4 * one + (one - 1) / 3;
            f < 0x1_0000_0000_0000_0000 && f / one == 4 && !InTable(f, one, 1024)
  {
    hide Pow, Ends;
    TwoPowers();
    var one := 0x1000_0000_0000_0000;
    var f := 4 * one + (one - 1) / 3;
    if InTable(f, one, 1024) {
      var j: nat :| j <= 9 && Ends(f, one, 1024, j);
      ThirdGoesOn(j);
    }
  }

  lemma ThirdGoesOn(j: nat)
    requires j <= 9
    ensures var one := 0x1000_0000_0000_0000; !Ends(4 * one + (one - 1) / 3, one, 1024, j)
  {
    hide Pow;
    var one := 0x1000_0000_0000_0000;
    if j > 0 {
      var k := PowerOfTen(j);
      Thirds(one, (one - 1) / 3, Pow(10, j), k);
    }
  }

  /** A power of ten is one more than a multiple of three. */
  lemma PowerOfTen(j: nat) returns (k: nat)
    requires 0 < j <= 9
    ensures Pow(10, j) == 3 * k + 1 <= 1000000000
  {
    TenPowers();
    hide Pow;
    k := (Pow(10, j) - 1) / 3;
  }

  lemma Thirds(one: nat, third: nat, p: nat, k: nat)
    requires one == 3 * third + 1 && p == 3 * k + 1 && 1024 * p + k <= third
    ensures 1024 * p <= (4 * one + third) * p % one
  {
    assert (4 * one + third) * p == (4 * p + k) * one + (third - k) by {
      assert third * p == 3 * (third * k) + third;
      assert k * one == 3 * (third * k) + k by { Regroup(3, third, k); }
      assert (4 * one + third) * p == 4 * (one * p) + third * p by { Regroup(4, one, p); }
      assert (4 * p + k) * one == 4 * (one * p) + k * one by { Regroup(4, p, one); }
    }
    Remainder((4 * one + third) * p, 4 * p + k, one, third - k);
  }

  lemma Remainder(f: nat, d: nat, unit: nat, rest: nat)
    requires f == d * unit + rest && rest < unit
    ensures f % unit == rest && f / unit == d
  {
    if f / unit < d { Scale(f / unit + 1, d, unit); }
    if f / unit > d { Scale(d + 1, f / unit, unit); }
  }

  /** c * 10^e lies above (f - delta) / one and not above f / one. */
  predicate Above(c: nat, e: int, f: nat, delta: nat, one: nat) {
    if e >= 0 then f - delta < Scaled(c, Pow(10, e) * one) <= f
    else f * Pow(10, -e) - delta * Pow(10, -e) < Scaled(c, one) <= f * Pow(10, -e)
  }

  /** The digits are as few as can be: no number that ends at a higher place lies in the interval above its lower end. */
  lemma Shortest(f: nat, one: nat, delta: nat, n: nat, e10: int, e: int, c: nat)
    requires one > 0 && f / one < Pow(10, n) && delta < f && FirstPlace(f, one, delta, n, e10) && e > e10
    ensures !Above(c, e, f, delta, one)
  {
    hide Pow, Scaled, Above, Ends, IntegerRest;
    if e >= n {
      TooHigh(f, one, delta, n, e, c);
    } else if e >= 0 {
      NoneAtInteger(f, one, delta, e, c);
    } else {
      NoneAtFraction(f, one, delta, -e, c);
    }
  }

  lemma NoneAtInteger(f: nat, one: nat, delta: nat, e: nat, c: nat)
    requires one > 0 && IntegerRest(f, one, e) > delta
    ensures !Above(c, e, f, delta, one)
  {
    hide Pow, Scaled;
    NoneAbove(f, Pow(10, e) * one, delta, c);
  }

  lemma NoneAtFraction(f: nat, one: nat, delta: nat, j: nat, c: nat)
    requires one > 0 && j > 0 && !Ends(f, one, delta, j)
    ensures !Above(c, -(j as int), f, delta, one)
  {
    hide Pow, Scaled;
    NoneAbove(f * Pow(10, j), one, delta * Pow(10, j), c);
  }

  lemma NoneAbove(f: nat, unit: nat, delta: nat, c: nat)
    requires unit > 0 && f % unit >= delta
    ensures !(f - delta < Scaled(c, unit) <= f)
  {
    var d := f / unit;
    assert f == d * unit + f % unit;
    if c > d {
      Scale(d + 1, c, unit);
    } else {
      Scale(c, d, unit);
    }
  }

  lemma TooHigh(f: nat, one: nat, delta: nat, n: nat, e: nat, c: nat)
    requires one > 0 && f / one < Pow(10, n) && delta < f && e >= n
    ensures !Above(c, e, f, delta, one)
  {
    hide Pow;
    if c > 0 {
      DivMod(f, one);
      Scale(f / one + 1, Pow(10, n), one);
      PowMonotone(10, n, e);
      Scale(Pow(10, n), Pow(10, e), one);
      Scale(1, c, Pow(10, e) * one);
    }
  }

  lemma DivMod(f: nat, one: nat)
    requires one > 0
    ensures f == f / one * one + f % one
  {
  }

  lemma OneBounds(s: nat)
    requires 32 <= s <= 60
    ensures 0x1_0000_0000 <= Pow(2, s) <= 0x1000_0000_0000_0000
  {
    hide Pow;
    PowMonotone(2, 32, s);
    PowMonotone(2, s, 60);
    TwoPowers();
  }

  // ---------- Digits in the buffer ----------

  lemma DecimalDown(s: seq<byte>, t: seq<byte>, c: nat)
    requires s != [] && |t| == |s| && t[..|s| - 1] == s[..|s| - 1]
    requires IsDigit(s[|s| - 1]) && IsDigit(t[|s| - 1]) && t[|s| - 1] == s[|s| - 1] - c
    ensures Decimal(t) == Decimal(s) - c
  {
  }

  lemma DecimalUp(s: seq<byte>, d: byte)
    requires IsDigit(d)
    ensures Decimal(s + [d]) == Decimal(s) * 10 + (d - ZERO)
  {
    assert (s + [d])[..|s|] == s;
  }

  lemma {:induction false} DecimalPositive(s: seq<byte>)
    requires AllDigits(s) && s != [] && s[0] != ZERO
    ensures Decimal(s) > 0
  {
    if |s| > 1 {
      DecimalPositive(s[..|s| - 1]);
    }
  }

  lemma LastDigit(s: seq<byte>)
    requires s != [] && IsDigit(s[|s| - 1])
    ensures Decimal(s) >= s[|s| - 1] - ZERO
  {
  }

  /** A digit behind the others; a zero in front of all is not put. */
  method PutDigit(buffer: array<byte>, len: nat, d: nat) returns (next: nat)
    requires len < buffer.Length && d < 10 && AllDigits(buffer[..len]) && (d != 0 || len != 0)
    modifies buffer
    ensures next == len + 1 && buffer[..next] == old(buffer[..len]) + [ZERO + d] && AllDigits(buffer[..next])
    ensures Decimal(buffer[..next]) == old(Decimal(buffer[..len])) * 10 + d
  {
    hide Decimal;
    ghost var was := buffer[..len];
    DecimalUp(was, ZERO + d);
    next := len;
    if d != 0 || len != 0 {
      buffer[next] := ZERO + d;
      next := next + 1;
    }
    assert buffer[..next] == was + [ZERO + d];
  }

  // ---------- Rounding the last digit ----------

  /** What is left of f when t units have been taken off its digits. */
  function After(rest: nat, unit: nat, t: nat): nat { rest + t * unit }

  /** Taking `taken` units off brings what is left as near to w as any number of units within delta. */
  ghost predicate Closest(w: nat, rest: nat, unit: nat, delta: nat, taken: nat) {
    forall t: nat :: After(rest, unit, t) <= delta ==> Gap(After(rest, unit, taken), w) <= Gap(After(rest, unit, t), w)
  }

  ghost predicate ClosestSoFar(w: nat, rest: nat, unit: nat, taken: nat) {
    forall t: nat :: t <= taken ==> Gap(After(rest, unit, taken), w) <= Gap(After(rest, unit, t), w)
  }

  lemma OneMore(rest: nat, unit: nat, t: nat)
    ensures After(rest, unit, t + 1) == After(rest, unit, t) + unit
  {
  }

  lemma MoreLater(rest: nat, unit: nat, t: nat, u: nat)
    requires t <= u
    ensures After(rest, unit, t) <= After(rest, unit, u)
  {
    Scale(t, u, unit);
  }

  /** The loop goes on only to something nearer. */
  lemma StillClosest(w: nat, rest: nat, unit: nat, taken: nat)
    requires ClosestSoFar(w, rest, unit, taken)
    requires var r := After(rest, unit, taken); r < w && unit > 0 && (r + unit < w || w - r > r + unit - w)
    ensures ClosestSoFar(w, rest, unit, taken + 1)
  {
    OneMore(rest, unit, taken);
    hide After;
  }

  /** It stops where the next is no nearer, and those behind are farther still. */
  lemma ClosestAtEnd(w: nat, rest: nat, unit: nat, delta: nat, taken: nat)
    requires ClosestSoFar(w, rest, unit, taken) && unit > 0
    requires var r := After(rest, unit, taken);
             r <= delta && (r < w && delta - r >= unit ==> r + unit >= w && w - r <= r + unit - w)
    ensures Closest(w, rest, unit, delta, taken)
  {
    OneMore(rest, unit, taken);
    forall t: nat | After(rest, unit, t) <= delta
      ensures Gap(After(rest, unit, taken), w) <= Gap(After(rest, unit, t), w)
    {
      if t > taken {
        MoreLater(rest, unit, taken + 1, t);
      }
    }
    hide After;
  }

  /**
   * Takes units off the last digit while that brings it nearer to `wpw` and stays within `delta`.  The digit is large
   * enough for every number of units that `delta` allows, so it never falls below '0'.
   */
  method GrisuRound(buffer: array<byte>, len: nat, delta: uint64, rest0: uint64, tenKappa: uint64, wpw: uint64)
    returns (ghost taken: nat)
    requires 0 < len <= buffer.Length && AllDigits(buffer[..len])
    requires tenKappa > 0 && rest0 <= delta
    requires delta as int < rest0 as int + (buffer[len - 1] - ZERO + 1) * tenKappa as int
    modifies buffer
    ensures AllDigits(buffer[..len]) && buffer[..len - 1] == old(buffer[..len - 1])
    ensures buffer[len - 1] == old(buffer[len - 1]) - taken
    ensures After(rest0 as nat, tenKappa as nat, taken) <= delta as nat
    ensures Closest(wpw as nat, rest0 as nat, tenKappa as nat, delta as nat, taken)
  {
    hide ClosestSoFar, Closest;
    var rest := rest0;
    taken := 0;
    ghost var top: nat := buffer[len - 1] - ZERO;
    Start(wpw as nat, rest as nat, tenKappa as nat);
    while rest < wpw && delta - rest >= tenKappa
          && (rest + tenKappa < wpw || wpw - rest > rest + tenKappa - wpw)
      invariant rest0 <= rest <= delta && rest as nat == After(rest0 as nat, tenKappa as nat, taken)
      invariant ClosestSoFar(wpw as nat, rest0 as nat, tenKappa as nat, taken)
      invariant taken <= top && buffer[len - 1] == ZERO + top - taken
      invariant forall i :: 0 <= i < len - 1 ==> buffer[i] == old(buffer[i])
      decreases delta - rest
    {
      Room(delta as int - rest0 as int, taken, top, tenKappa as int);
      StillClosest(wpw as nat, rest0 as nat, tenKappa as nat, taken);
      OneMore(rest0 as nat, tenKappa as nat, taken);
      buffer[len - 1] := buffer[len - 1] - 1;
      rest := rest + tenKappa;
      taken := taken + 1;
    }
    ClosestAtEnd(wpw as nat, rest0 as nat, tenKappa as nat, delta as nat, taken);
    assert forall i :: 0 <= i < len - 1 ==> buffer[i] == old(buffer[..len])[i];
    assert buffer[..len - 1] == old(buffer[..len - 1]);
  }

  lemma Start(w: nat, rest: nat, unit: nat)
    ensures ClosestSoFar(w, rest, unit, 0) && After(rest, unit, 0) == rest
  {
  }

  lemma Room(room: int, taken: nat, top: nat, unit: nat)
    requires unit > 0 && room < (top + 1) * unit && room - taken * unit >= unit && taken <= top
    ensures taken < top
    ensures (taken + 1) * unit == taken * unit + unit
  {
    assert (top + 1) * unit == top * unit + unit;
    assert (taken + 1) * unit == taken * unit + unit;
  }

  /** Digits of f in units of `unit`, with so much left that the last digit has room for what delta allows. */
  ghost predicate MayEnd(d: seq<byte>, f: nat, unit: nat, delta: nat, rest: nat) {
    && d != [] && AllDigits(d) && d[0] != ZERO
    && f == Scaled(Decimal(d), unit) + rest && rest < unit && rest <= delta
    && var last := d[|d| - 1] - ZERO;
    && delta <= rest + last * unit
    && (|d| == 1 ==> delta < rest + last * unit)
  }

  /** Units taken off what is left are units taken off the digits. */
  lemma RoundedDown(f: nat, d: nat, unit: nat, delta: nat, rest: nat, taken: nat, w: nat)
    requires f == Scaled(d, unit) + rest && rest < unit && taken <= d
    requires After(rest, unit, taken) <= delta && Closest(w, rest, unit, delta, taken)
    ensures Between(d - taken, unit, f, delta) && NearestOf(d - taken, unit, f, delta, w)
  {
    hide After, Scaled;
    AfterScaled(f, d, unit, rest, taken);
    forall c: nat | Between(c, unit, f, delta)
      ensures Gap(Scaled(d - taken, unit), f - w) <= Gap(Scaled(c, unit), f - w)
    {
      if c > d {
        TooMany(f, d, unit, rest, c);
      } else {
        AfterScaled(f, d, unit, rest, d - c);
        assert After(rest, unit, d - c) <= delta;
      }
    }
  }

  lemma AfterScaled(f: nat, d: nat, unit: nat, rest: nat, t: nat)
    requires f == Scaled(d, unit) + rest && t <= d
    ensures Scaled(d - t, unit) == f - After(rest, unit, t)
  {
    assert (d - t) * unit == d * unit - t * unit;
  }

  lemma TooMany(f: nat, d: nat, unit: nat, rest: nat, c: nat)
    requires f == Scaled(d, unit) + rest && rest < unit && c > d
    ensures Scaled(c, unit) > f
  {
    Scale(d + 1, c, unit);
    assert (d + 1) * unit == d * unit + unit;
  }

  /** Rounding keeps the digits in the interval and, within it, brings them as near to what guides it as can be. */
  method Round(buffer: array<byte>, len: nat, delta: uint64, rest: uint64, unit: uint64, wpw: uint64, ghost f: nat)
    requires len <= buffer.Length && MayEnd(buffer[..len], f, unit as nat, delta as nat, rest as nat)
    modifies buffer
    ensures len > 0 && AllDigits(buffer[..len]) && buffer[0] != ZERO
    ensures Between(Decimal(buffer[..len]), unit as nat, f, delta as nat)
    ensures NearestOf(Decimal(buffer[..len]), unit as nat, f, delta as nat, wpw as nat)
  {
    hide Decimal, Closest, Between, NearestOf, Scaled;
    ghost var was := buffer[..len];
    ghost var top: nat := was[len - 1] - ZERO;
    assert (top + 1) * unit as nat == top * unit as nat + unit as nat;
    ghost var taken := GrisuRound(buffer, len, delta, rest, unit, wpw);
    TakenFits(rest as nat, unit as nat, delta as nat, top, taken, len);
    LastDigit(was);
    DecimalDown(was, buffer[..len], taken);
    RoundedDown(f, Decimal(was), unit as nat, delta as nat, rest as nat, taken, wpw as nat);
    if len > 1 { assert buffer[0] == buffer[..len - 1][0] == was[..len - 1][0]; }
  }

  lemma TakenFits(rest: nat, unit: nat, delta: nat, top: nat, taken: nat, len: nat)
    requires unit > 0 && After(rest, unit, taken) <= delta <= rest + top * unit
    requires len == 1 ==> delta < rest + top * unit
    ensures taken <= top && (len == 1 ==> taken < top)
  {
    if taken > top { StrictScale(top, taken, unit); }
    if taken == top { assert taken * unit == top * unit; }
  }

  // ---------- The integer part ----------

  function RestOf(p1: nat, p2: nat, one: nat): nat { p1 * one + p2 }

  function Unit(kappa: nat, one: nat): nat { Pow(10, kappa) * one }

  /** The digits so far, with `p1` of the integer part and `p2` of the fraction left. */
  ghost predicate Holds(d: seq<byte>, f: nat, one: nat, kappa: nat, p1: nat, p2: nat) {
    && AllDigits(d) && p2 < one && p1 < Pow(10, kappa)
    && f == Scaled(Decimal(d), Unit(kappa, one)) + RestOf(p1, p2, one)
  }

  /** The first loop at its head: what is left is too much to end here. */
  ghost predicate IntegerState(d: seq<byte>, f: nat, one: nat, delta: nat, n: nat, kappa: nat, p1: nat, p2: nat) {
    && kappa <= n <= 9 && |d| == n - kappa && (d != [] ==> d[0] != ZERO)
    && (d == [] ==> kappa > 0 && Pow(10, kappa - 1) <= p1)
    && Holds(d, f, one, kappa, p1, p2) && delta < RestOf(p1, p2, one) && Searched(f, one, delta, kappa, n)
  }

  /** The first loop behind a digit: what is left is compared with the error bound next. */
  ghost predicate IntegerTurn(d: seq<byte>, f: nat, one: nat, delta: nat, n: nat, kappa: nat, p1: nat, p2: nat) {
    && kappa < n <= 9 && |d| == n - kappa && d[0] != ZERO
    && Holds(d, f, one, kappa, p1, p2) && Searched(f, one, delta, kappa + 1, n)
    && IsDigit(d[|d| - 1]) && delta < RestOf(p1, p2, one) + Scaled(d[|d| - 1] - ZERO, Unit(kappa, one))
  }

  /** The digits so far, with `p2` left behind m fraction digits, too much to end here. */
  ghost predicate FractionState(d: seq<byte>, f: nat, one: nat, delta0: nat, n: nat, m: nat, p2: nat, delta: nat) {
    && n > 0 && |d| == n + m && AllDigits(d) && d[0] != ZERO && one > 0 && Searched(f, one, delta0, 0, n)
    && f * Pow(10, m) == Scaled(Decimal(d), one) + p2 && p2 < one
    && delta == delta0 * Pow(10, m) && 1 <= delta <= p2
    && forall j: nat :: j <= m ==> !Ends(f, one, delta0, j)
  }

  /** The quotient and the remainder by a power of ten. */
  method DivideDigit(p1: uint32, kappa: nat) returns (d: uint32, q: uint32)
    requires 1 <= kappa <= 9 && (p1 as nat) < Pow(10, kappa)
    ensures d < 10 && (q as nat) < Pow(10, kappa - 1) && p1 as nat == d as nat * Pow(10, kappa - 1) + q as nat
    ensures Pow(10, kappa - 1) <= p1 as nat ==> d > 0
  {
    hide Pow;
    TableIsPow10(kappa - 1);
    PowNext(kappa);
    var unit := POW10[kappa - 1];
    OneDigit(p1 as nat, unit as nat);
    d, q := p1 / unit, p1 % unit;
  }

  lemma OneDigit(p1: nat, unit: nat)
    requires unit > 0 && p1 < 10 * unit
    ensures p1 / unit < 10 && p1 % unit < unit
    ensures p1 >= unit ==> p1 / unit > 0
    ensures p1 == p1 / unit * unit + p1 % unit
  {
    var q := p1 / unit;
    assert q == 0 ==> q * unit == 0;
    if q >= 10 { Scale(10, q, unit); }
  }

  lemma PowNext(k: nat)
    requires k > 0
    ensures Pow(10, k) == 10 * Pow(10, k - 1)
  {
  }

  /** One more digit, taken from what was left. */
  lemma DigitTaken(d: nat, kappa: nat, p1: nat, p2: nat, digit: nat, q: nat, one: nat)
    requires kappa > 0 && p1 == digit * Pow(10, kappa - 1) + q
    ensures RestOf(p1, p2, one) == RestOf(q, p2, one) + Scaled(digit, Unit(kappa - 1, one))
    ensures Scaled(d, Unit(kappa, one)) + RestOf(p1, p2, one) == Scaled(d * 10 + digit, Unit(kappa - 1, one)) + RestOf(q, p2, one)
  {
    var u := Pow(10, kappa - 1);
    PowNext(kappa);
    hide Pow;
    assert (digit * u + q) * one == digit * (u * one) + q * one by { Regroup(digit, u, one); }
    assert d * (10 * u * one) == d * 10 * (u * one) by { Regroup(10, u, one); Regroup(d, 10, u * one); }
    assert (d * 10 + digit) * (u * one) == d * 10 * (u * one) + digit * (u * one);
  }

  /** One round of the first loop up to its test: the next digit of the integer part. */
  method IntegerDigit(buffer: array<byte>, len: nat, p1: uint32, kappa: nat, ghost f: nat, ghost one: nat, ghost delta: nat, ghost n: nat, ghost p2: nat)
    returns (next: nat, q: uint32)
    requires len < buffer.Length && kappa > 0 && IntegerState(buffer[..len], f, one, delta, n, kappa, p1 as nat, p2)
    modifies buffer
    ensures next == len + 1 && IntegerTurn(buffer[..next], f, one, delta, n, kappa - 1, q as nat, p2)
  {
    hide Pow, Decimal, Searched, Scaled, Unit, RestOf;
    ghost var was := buffer[..len];
    var d, r := DivideDigit(p1, kappa);
    q := r;
    DigitTaken(Decimal(was), kappa, p1 as nat, p2, d as nat, q as nat, one);
    next := PutDigit(buffer, len, d as nat);
  }

  /** What is left is a remainder of f, and no more than f. */
  lemma HoldsRest(d: seq<byte>, f: nat, one: nat, kappa: nat, p1: nat, p2: nat)
    requires Holds(d, f, one, kappa, p1, p2)
    ensures p1 * one <= RestOf(p1, p2, one) <= f && RestOf(p1, p2, one) < Unit(kappa, one)
    ensures IntegerRest(f, one, kappa) == RestOf(p1, p2, one)
  {
    hide Pow, Decimal;
    assert p1 * one + one <= Pow(10, kappa) * one by { Scale(p1 + 1, Pow(10, kappa), one); }
    Remainder(f, Decimal(d), Unit(kappa, one), RestOf(p1, p2, one));
  }

  lemma SearchedMore(f: nat, one: nat, delta: nat, kappa: nat, n: nat)
    requires one > 0 && Searched(f, one, delta, kappa + 1, n) && IntegerRest(f, one, kappa) > delta
    ensures Searched(f, one, delta, kappa, n)
  {
    hide IntegerRest;
  }

  /** The digits cannot end here. */
  lemma IntegerGoesOn(d: seq<byte>, f: nat, one: nat, delta: nat, n: nat, kappa: nat, p1: nat, p2: nat)
    requires IntegerTurn(d, f, one, delta, n, kappa, p1, p2) && delta < RestOf(p1, p2, one)
    ensures IntegerState(d, f, one, delta, n, kappa, p1, p2)
  {
    hide Holds, Searched, RestOf, Unit, Pow, IntegerRest;
    HoldsRest(d, f, one, kappa, p1, p2);
    HoldsParts(d, f, one, kappa, p1, p2);
    SearchedMore(f, one, delta, kappa, n);
  }

  lemma HoldsParts(d: seq<byte>, f: nat, one: nat, kappa: nat, p1: nat, p2: nat)
    requires Holds(d, f, one, kappa, p1, p2)
    ensures AllDigits(d) && one > 0 && p2 < one && p1 < Pow(10, kappa)
    ensures f == Scaled(Decimal(d), Unit(kappa, one)) + RestOf(p1, p2, one)
  {
    hide Pow, Decimal, Scaled, Unit, RestOf;
  }

  /** Or they can. */
  lemma IntegerEnds(d: seq<byte>, f: nat, one: nat, delta: nat, n: nat, kappa: nat, p1: nat, p2: nat)
    requires IntegerTurn(d, f, one, delta, n, kappa, p1, p2) && RestOf(p1, p2, one) <= delta && one > 0 && f % one == p2
    ensures MayEnd(d, f, Unit(kappa, one), delta, RestOf(p1, p2, one)) && FirstPlace(f, one, delta, n, kappa)
  {
    HoldsParts(d, f, one, kappa, p1, p2);
    HoldsRest(d, f, one, kappa, p1, p2);
    hide Pow, Decimal, Searched, Holds, Unit, IntegerRest;
    assert p2 <= RestOf(p1, p2, one);
  }

  lemma IntegerStarts(f: nat, one: nat, delta: nat, n: nat, p1: nat, p2: nat)
    requires f == p1 * one + p2 && p2 < one && delta < f && 1 <= n <= 9 && Pow(10, n - 1) <= p1 < Pow(10, n)
    ensures IntegerState([], f, one, delta, n, n, p1, p2)
  {
    hide Pow, Unit;
    assert Scaled(Decimal([]), Unit(n, one)) == 0;
  }

  /** Behind the last integer digit only the fraction is left. */
  lemma IntegerDone(d: seq<byte>, f: nat, one: nat, delta: nat, n: nat, p1: nat, p2: nat)
    requires IntegerState(d, f, one, delta, n, 0, p1, p2) && delta >= 1 && f % one == p2
    ensures FractionState(d, f, one, delta, n, 0, p2, delta)
  {
    HoldsParts(d, f, one, 0, p1, p2);
    hide Decimal, Searched, Holds;
    assert Pow(10, 0) == 1;
  }

  /** The rounding where the integer digits end. */
  method RoundInteger(buffer: array<byte>, len: nat, kappa: nat, delta: uint64, tmp: uint64, one: uint64, wpw: uint64, f: uint64, ghost n: nat, ghost p1: nat, ghost p2: nat)
    requires len <= buffer.Length && IntegerTurn(buffer[..len], f as nat, one as nat, delta as nat, n, kappa, p1, p2)
    requires tmp as nat == RestOf(p1, p2, one as nat) && tmp <= delta && one > 0 && f as nat % one as nat == p2
    modifies buffer
    ensures 0 < len && len == n - kappa && AllDigits(buffer[..len]) && buffer[0] != ZERO
    ensures InInterval(Decimal(buffer[..len]), kappa, f as nat, delta as nat, one as nat)
    ensures Nearest(Decimal(buffer[..len]), kappa, f as nat, delta as nat, one as nat, wpw as nat)
    ensures FirstPlace(f as nat, one as nat, delta as nat, n, kappa)
  {
    hide *;
    TurnParts(buffer[..len], f as nat, one as nat, delta as nat, n, kappa, p1, p2);
    IntegerEnds(buffer[..len], f as nat, one as nat, delta as nat, n, kappa, p1, p2);
    UnitFits(buffer[..len], f as nat, Unit(kappa, one as nat), delta as nat, tmp as nat);
    var tenKappa := TenKappa(kappa, one, f);
    Round(buffer, len, delta, tmp, tenKappa, wpw, f as nat);
    Shown(Decimal(buffer[..len]), kappa, f as nat, delta as nat, one as nat, wpw as nat);
  }

  /** The power of ten in units of `one`. */
  method TenKappa(kappa: nat, one: uint64, ghost f: uint64) returns (unit: uint64)
    requires kappa <= 8 && Unit(kappa, one as nat) <= f as nat
    ensures unit as nat == Unit(kappa, one as nat)
  {
    hide Pow;
    TableIsPow10(kappa);
    unit := POW10[kappa] as uint64 * one;
  }

  lemma TurnParts(d: seq<byte>, f: nat, one: nat, delta: nat, n: nat, kappa: nat, p1: nat, p2: nat)
    requires IntegerTurn(d, f, one, delta, n, kappa, p1, p2)
    ensures kappa < n <= 9 && |d| == n - kappa && p1 * one <= RestOf(p1, p2, one) <= f && RestOf(p1, p2, one) == p1 * one + p2
  {
    HoldsRest(d, f, one, kappa, p1, p2);
  }

  /** What is left, in one number. */
  method Sum(p1: uint32, p2: uint64, one: uint64, ghost f: uint64) returns (tmp: uint64)
    requires RestOf(p1 as nat, p2 as nat, one as nat) <= f as nat
    ensures tmp as nat == RestOf(p1 as nat, p2 as nat, one as nat)
  {
    assert p1 as nat * one as nat <= RestOf(p1 as nat, p2 as nat, one as nat);
    tmp := p1 as uint64 * one + p2;
  }

  /** A digit's unit is no larger than the number. */
  lemma UnitFits(d: seq<byte>, f: nat, unit: nat, delta: nat, rest: nat)
    requires MayEnd(d, f, unit, delta, rest)
    ensures 0 < unit <= f
  {
    hide Decimal;
    DecimalPositive(d);
    Scale(1, Decimal(d), unit);
  }

  /** The first loop: digits of the integer part, until what is left is within `delta`. */
  method IntegerPart(f: uint64, p10: uint32, p2: uint64, one: uint64, delta: uint64, wpw: uint64, buffer: array<byte>)
    returns (done: bool, len: nat, kappa: nat)
    requires f as nat == p10 as nat * one as nat + p2 as nat && 0 < p10 < 1000000000 && p2 < one
    requires 1 <= delta < f && buffer.Length >= CountDecimalDigit32(p10)
    modifies buffer
    ensures var n := CountDecimalDigit32(p10);
            && (done ==> kappa < n && len == n - kappa && AllDigits(buffer[..len]) && buffer[0] != ZERO)
            && (done ==> InInterval(Decimal(buffer[..len]), kappa, f as nat, delta as nat, one as nat))
            && (done ==> Nearest(Decimal(buffer[..len]), kappa, f as nat, delta as nat, one as nat, wpw as nat))
            && (done ==> FirstPlace(f as nat, one as nat, delta as nat, n, kappa))
            && (!done ==> len == n && FractionState(buffer[..len], f as nat, one as nat, delta as nat, n, 0, p2 as nat, delta as nat))
  {
    hide *;
    var p1 := p10;
    kappa := CountDecimalDigit32(p1);
    len := 0;
    ghost var n, f', one', delta', p2' := kappa, f as nat, one as nat, delta as nat, p2 as nat;
    assert buffer[..0] == [];
    Remainder(f', p1 as nat, one', p2');
    IntegerStarts(f', one', delta', n, p1 as nat, p2');
    while kappa > 0
      invariant 0 <= kappa <= n && len == n - kappa
      invariant IntegerState(buffer[..len], f', one', delta', n, kappa, p1 as nat, p2')
    {
      len, p1 := IntegerDigit(buffer, len, p1, kappa, f', one', delta', n, p2');
      kappa := kappa - 1;
      TurnParts(buffer[..len], f', one', delta', n, kappa, p1 as nat, p2');
      var tmp := Sum(p1, p2, one, f);
      if tmp <= delta {
        RoundInteger(buffer, len, kappa, delta, tmp, one, wpw, f, n, p1 as nat, p2');
        return true, len, kappa;
      }
      IntegerGoesOn(buffer[..len], f', one', delta', n, kappa, p1 as nat, p2');
    }
    IntegerDone(buffer[..len], f', one', delta', n, p1 as nat, p2');
    done := false;
  }

  lemma Shown(d: nat, kappa: nat, f: nat, delta: nat, one: nat, w: nat)
    requires Between(d, Unit(kappa, one), f, delta) && NearestOf(d, Unit(kappa, one), f, delta, w)
    ensures InInterval(d, kappa, f, delta, one) && Nearest(d, kappa, f, delta, one, w)
  {
    hide Between, NearestOf, Pow;
  }

  // ---------- The fraction ----------

  lemma FractionDigit(f: nat, m: nat, d: nat, p2: nat, one: nat, x: nat, y: nat)
    requires f * Pow(10, m) == Scaled(d, one) + p2 && p2 < one && p2 * 10 == x * one + y
    ensures x < 10
    ensures f * Pow(10, m + 1) == Scaled(d * 10 + x, one) + y
  {
    if x >= 10 { Scale(10, x, one); }
    assert f * Pow(10, m + 1) == f * Pow(10, m) * 10 by { Regroup(f, Pow(10, m), 10); }
    assert (d * 10 + x) * one == d * one * 10 + x * one;
  }

  /** The quotient and the remainder that a shift and a mask give. */
  method Split(n: uint64, one: uint64) returns (d: uint64, rest: uint64)
    requires one > 0
    ensures n as nat == d as nat * one as nat + rest as nat && rest < one
  {
    d, rest := n / one, n % one;
  }

  /** One round of the second loop up to its test: the next digit of the fraction. */
  method FractionStep(buffer: array<byte>, len: nat, p2: uint64, one: uint64, delta: uint64, ghost f: nat, ghost delta0: nat, ghost n: nat, ghost m: nat)
    returns (next: nat, rest: uint64)
    requires len < buffer.Length && one <= 0x1000_0000_0000_0000
    requires len == n + m && FractionState(buffer[..len], f, one as nat, delta0, n, m, p2 as nat, delta as nat)
    modifies buffer
    ensures next == len + 1 && AllDigits(buffer[..next]) && buffer[0] != ZERO
    ensures f * Pow(10, m + 1) == Scaled(Decimal(buffer[..next]), one as nat) + rest as nat && rest < one
    ensures p2 as nat * 10 == (buffer[len] - ZERO) * one as nat + rest as nat
  {
    hide Pow, Decimal, Scaled, Ends;
    ghost var was := buffer[..len];
    var d, r := Split(p2 * 10, one);
    rest := r;
    FractionDigit(f, m, Decimal(was), p2 as nat, one as nat, d as nat, rest as nat);
    next := PutDigit(buffer, len, d as nat);
    assert buffer[0] == buffer[..next][0] == was[0];
  }

  /** Behind one more digit the digits end, or they go on. */
  lemma FractionTurn(d: seq<byte>, f: nat, one: nat, delta0: nat, n: nat, m: nat, p2: nat, delta: nat, rest: nat)
    requires n > 0 && |d| == n + m + 1 && AllDigits(d) && d[0] != ZERO && one > 0 && Searched(f, one, delta0, 0, n)
    requires f * Pow(10, m + 1) == Scaled(Decimal(d), one) + rest && rest < one
    requires p2 * 10 == (d[|d| - 1] - ZERO) * one + rest && delta == delta0 * Pow(10, m) && 1 <= delta <= p2
    requires forall j: nat :: j <= m ==> !Ends(f, one, delta0, j)
    ensures delta * 10 == delta0 * Pow(10, m + 1)
    ensures rest < delta * 10 ==> FirstPlace(f, one, delta0, n, -(m as int) - 1) && MayEnd(d, f * Pow(10, m + 1), one, delta * 10, rest)
    ensures rest >= delta * 10 ==> FractionState(d, f, one, delta0, n, m + 1, rest, delta * 10)
  {
    hide Pow, Decimal;
    assert Pow(10, m + 1) == 10 * Pow(10, m) by { PowNext(m + 1); }
    Regroup(delta0, Pow(10, m), 10);
    Remainder(f * Pow(10, m + 1), Decimal(d), one, rest);
  }

  lemma FractionBounds(d: seq<byte>, f: nat, one: nat, delta0: nat, n: nat, m: nat, p2: nat, delta: nat, end: nat)
    requires FractionState(d, f, one, delta0, n, m, p2, delta) && Ends(f, one, delta0, end)
    ensures m < end && 1 <= delta <= p2 < one && delta == delta0 * Pow(10, m)
    ensures n > 0 && |d| == n + m && Searched(f, one, delta0, 0, n)
    ensures forall j: nat :: j <= m ==> !Ends(f, one, delta0, j)
  {
    hide Pow, Decimal, Ends;
  }

  /** What guides the rounding: the product with a power of ten from the table, or with what memory has behind it. */
  function Guide(wpw: uint64, m: nat, beyond: nat -> uint32): uint64 {
    var power := if m <= 9 then POW10[m] else beyond(m);
    ((wpw as nat * power as nat) % 0x1_0000_0000_0000_0000) as uint64
  }

  lemma GuideIs(wpw: uint64, m: nat, beyond: nat -> uint32, delta0: uint64, delta: uint64)
    requires m <= 9 && wpw <= delta0 && delta as nat == delta0 as nat * Pow(10, m)
    ensures Guide(wpw, m, beyond) as nat == wpw as nat * Pow(10, m)
  {
    hide Pow;
    TableIsPow10(m);
    Scale(wpw as nat, delta0 as nat, Pow(10, m));
  }

  /** The second loop: digits of the fraction; the error bound grows tenfold with each. */
  method FractionPart(f: uint64, p20: uint64, one: uint64, delta0: uint64, wpw: uint64, beyond: nat -> uint32, buffer: array<byte>, n: nat, ghost end: nat)
    returns (len: nat, kappa: int)
    requires one <= 0x1000_0000_0000_0000 && n + end <= buffer.Length
    requires FractionState(buffer[..n], f as nat, one as nat, delta0 as nat, n, 0, p20 as nat, delta0 as nat)
    requires Ends(f as nat, one as nat, delta0 as nat, end)
    modifies buffer
    ensures kappa < 0 && len == n - kappa <= n + end && AllDigits(buffer[..len]) && buffer[0] != ZERO
    ensures InInterval(Decimal(buffer[..len]), kappa, f as nat, delta0 as nat, one as nat)
    ensures wpw <= delta0 && -kappa <= 9 ==> Nearest(Decimal(buffer[..len]), kappa, f as nat, delta0 as nat, one as nat, wpw as nat)
    ensures FirstPlace(f as nat, one as nat, delta0 as nat, n, kappa)
  {
    hide *;
    var p2, delta := p20, delta0;
    kappa, len := 0, n;
    ghost var m: nat := 0;
    while true
      invariant m == -kappa && len == n + m
      invariant len <= buffer.Length && FractionState(buffer[..len], f as nat, one as nat, delta0 as nat, n, m, p2 as nat, delta as nat)
      decreases end - m
    {
      FractionBounds(buffer[..len], f as nat, one as nat, delta0 as nat, n, m, p2 as nat, delta as nat, end);
      ghost var before := p2;
      len, p2 := FractionStep(buffer, len, p2, one, delta, f as nat, delta0 as nat, n, m);
      FractionTurn(buffer[..len], f as nat, one as nat, delta0 as nat, n, m, before as nat, delta as nat, p2 as nat);
      delta := delta * 10;
      kappa := kappa - 1;
      m := m + 1;
      if p2 < delta {
        Round(buffer, len, delta, p2, one, Guide(wpw, -kappa, beyond), f as nat * Pow(10, m));
        ShownBelow(Decimal(buffer[..len]), m, f as nat, delta0 as nat, one as nat, Guide(wpw, m, beyond) as nat);
        if wpw <= delta0 && m <= 9 {
          GuideIs(wpw, m, beyond, delta0, delta);
          NearestBelow(Decimal(buffer[..len]), m, f as nat, delta0 as nat, one as nat, wpw as nat);
        }
        return;
      }
    }
  }

  lemma ShownBelow(d: nat, m: nat, f: nat, delta: nat, one: nat, w: nat)
    requires m > 0 && Between(d, one, f * Pow(10, m), delta * Pow(10, m))
    ensures InInterval(d, -(m as int), f, delta, one)
  {
    hide Between, Pow;
  }

  lemma NearestBelow(d: nat, m: nat, f: nat, delta: nat, one: nat, w: nat)
    requires m > 0 && NearestOf(d, one, f * Pow(10, m), delta * Pow(10, m), w * Pow(10, m))
    ensures Nearest(d, -(m as int), f, delta, one, w)
  {
    hide NearestOf, Pow;
  }

  /** Enough room for the integer digits and for so many fraction digits that they may end. */
  ghost predicate HasRoom(length: nat, f: nat, one: nat, delta: nat, n: nat)
    requires one > 0
  {
    exists j: nat :: n + j <= length && Ends(f, one, delta, j)
  }

  /** 28 characters are always enough. */
  lemma RoomFor28(f: nat, s: nat, delta: nat, n: nat)
    requires 32 <= s <= 60 && delta >= 1 && n <= 9
    ensures HasRoom(28, f, Pow(2, s), delta, n)
  {
    hide Pow, Ends;
    EndsByNineteen(f, s, delta);
    assert n + 19 <= 28;
  }

  /** The 25 characters that the writer has are enough for an error bound of one unit in the 16th fraction digit. */
  lemma RoomFor25(f: nat, s: nat, delta: nat, n: nat)
    requires n <= 9 && Pow(2, s) <= delta * Pow(10, 16)
    ensures HasRoom(25, f, Pow(2, s), delta, n)
  {
    hide Pow, Ends;
    EndsBy(f, Pow(2, s), delta, 16);
    assert n + 16 <= 25;
  }

  /**
   * Digits of f / 2^s, which stands for Mp; `wpw` is the distance of W from it.  No sum or product leaves 64 bits, and
   * the loops end at the first place where what is left is within the error bound.  The digits denote a number of the
   * interval; it is the nearest one to W that ends at this place, as long as the table of ten powers is not left.
   */
  method DigitGen(f: uint64, s: nat, delta: uint64, wpw: uint64, beyond: nat -> uint32, buffer: array<byte>, k0: int) returns (len: nat, k: int)
    requires 32 <= s <= 60 && 0 < f as nat / Pow(2, s) < 1000000000 && 1 <= delta < f
    requires HasRoom(buffer.Length, f as nat, Pow(2, s), delta as nat, CountDecimalDigit32((f as nat / Pow(2, s)) as uint32))
    modifies buffer
    ensures var n := CountDecimalDigit32((f as nat / Pow(2, s)) as uint32);
            0 < len == n - (k - k0) && FirstPlace(f as nat, Pow(2, s), delta as nat, n, k - k0)
    ensures k0 - k <= 9 <==> InTable(f as nat, Pow(2, s), delta as nat)
    ensures len <= buffer.Length && AllDigits(buffer[..len]) && buffer[0] != ZERO
    ensures InInterval(Decimal(buffer[..len]), k - k0, f as nat, delta as nat, Pow(2, s))
    ensures wpw <= delta && InTable(f as nat, Pow(2, s), delta as nat)
            ==> Nearest(Decimal(buffer[..len]), k - k0, f as nat, delta as nat, Pow(2, s), wpw as nat)
  {
    hide Pow, Decimal, InInterval, Nearest, FirstPlace, FractionState, Ends, InTable;
    OneBounds(s);
    var one := Pow(2, s) as uint64;
    DivMod(f as nat, one as nat);
    var p1, p2 := (f / one) as uint32, f % one;
    ghost var end: nat :| CountDecimalDigit32(p1) + end <= buffer.Length && Ends(f as nat, one as nat, delta as nat, end);
    var done, n, kappa := IntegerPart(f, p1, p2, one, delta, wpw, buffer);
    if done {
      len, k := n, k0 + kappa;
    } else {
      var below: int;
      len, below := FractionPart(f, p2, one, delta, wpw, beyond, buffer, n, end);
      k := k0 + below;
    }
    TableIndex(f as nat, one as nat, delta as nat, CountDecimalDigit32(p1), k - k0);
  }
}
