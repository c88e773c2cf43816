/** Unsigned integers of many words, changed in place. */
module BigNumbers {
  import opened Stream
  import opened Grammar
  import opened Powers
  import opened Words

  /** kBitCount / sizeof(Type): the division is by bytes, so there are 416 words and not 52. */
  const CAPACITY: nat := 416

  // ---------- Values of word sequences ----------

  /** One word of a product: the sum so far and the carry move up by one place. */
  lemma MulStep(v: int, w: int, u: int, p: int, x: int, k: int, lo: int, hi: int)
    requires v + k * p == w * u && hi * BASE + lo == x * u + k
    ensures v + lo * p + hi * (BASE * p) == (w + x * p) * u
  {
    assert (hi * BASE + lo) * p == hi * (BASE * p) + lo * p;
    assert (x * u + k) * p == x * p * u + k * p;
    assert (w + x * p) * u == w * u + x * p * u;
  }

  lemma SameTail(a: seq<word>, b: seq<word>, i: nat, u: int)
    requires |a| == |b| && i <= |a| && a[i..] == b[i..]
    requires Val(a[..i]) == Val(b[..i]) + u
    ensures Val(a) == Val(b) + u
  {
    ValAppend(a[..i], a[i..]);
    ValAppend(b[..i], b[i..]);
    assert a == a[..i] + a[i..] && b == b[..i] + b[i..];
  }

  lemma NormalTop(d: seq<word>)
    requires |d| > 0 && (|d| > 1 ==> Val(d) >= Radix(|d| - 1))
    ensures IsNormal(d)
  {
    if |d| > 1 && d[|d| - 1] == 0 {
      ValBelow(d[..|d| - 1]);
    }
  }

  lemma RadixOrder(m: nat, n: nat)
    requires Radix(m) < Radix(n)
    ensures m < n
  {
    if n <= m {
      PowMonotone(BASE, n, m);
    }
  }

  /** A word moved left by `s` bits, and what leaves it at the top. */
  function Moved(x: word, s: nat): word { Wrap(x * Pow(2, s)) }

  function Spilled(x: word, s: nat): nat
    requires s <= 64
  {
    x / Pow(2, 64 - s)
  }

  lemma WordSize(s: nat)
    requires s <= 64
    ensures Pow(2, s) * Pow(2, 64 - s) == BASE
  {
    PowAdd(2, s, 64 - s);
    TwoPowers();
  }

  lemma SplitWord(x: nat, p: nat, q: nat)
    requires q > 0 && p * q == BASE
    ensures x * p == x / q * BASE + (x % q) * p
    ensures 0 <= (x % q) * p <= BASE - p
    ensures Wrap(x * p) == (x % q) * p
    ensures x < BASE ==> x / q < p
  {
    var h, l := x / q, x % q;
    assert x == h * q + l;
    assert x * p == h * (q * p) + l * p;
    Scale(l, q - 1, p);
    assert (q - 1) * p == BASE - p;
    Remainder(h, l * p);
    if h >= p {
      Scale(p, h, q);
    }
  }

  lemma Remainder(h: nat, l: nat)
    requires l < BASE
    ensures (h * BASE + l) % BASE == l
  {
  }

  lemma MovedAndSpilled(x: word, s: nat)
    requires s <= 64
    ensures Spilled(x, s) * BASE + Moved(x, s) == x * Pow(2, s)
    ensures Moved(x, s) <= BASE - Pow(2, s)
    ensures Spilled(x, s) < Pow(2, s)
  {
    hide Pow;
    WordSize(s);
    SplitWord(x, Pow(2, s), Pow(2, 64 - s));
  }

  function CarryIn(d: seq<word>, s: nat, k: nat): nat
    requires s <= 64 && k <= |d|
  {
    if k == 0 then 0 else Spilled(d[k - 1], s)
  }

  lemma CarryNext(d: seq<word>, s: nat, j: nat)
    requires s <= 64 && j < |d|
    ensures CarryIn(d, s, j + 1) == Spilled(d[j], s)
  {
  }

  lemma MovedStep(d: seq<word>, w: seq<word>, s: nat, j: nat)
    requires s <= 64 && j < |d| && j < |w| && w[j] == Moved(d[j], s) + CarryIn(d, s, j)
    requires Val(w[..j]) + CarryIn(d, s, j) * Radix(j) == Val(d[..j]) * Pow(2, s)
    ensures Val(w[..j + 1]) + CarryIn(d, s, j + 1) * Radix(j + 1) == Val(d[..j + 1]) * Pow(2, s)
  {
    hide Val, Radix, Pow, Moved, Spilled, CarryIn;
    CarryNext(d, s, j);
    ValPrefix(d, j);
    ValPrefix(w, j);
    MovedAndSpilled(d[j], s);
    RadixNext(j);
    MulStep(Val(w[..j]), Val(d[..j]), Pow(2, s), Radix(j), d[j], CarryIn(d, s, j), w[j], Spilled(d[j], s));
  }

  /** Words moved left by less than a word denote the number times a power of two. */
  lemma {:induction false} MovedValue(d: seq<word>, w: seq<word>, s: nat, k: nat)
    requires s <= 64 && k <= |d| && k <= |w|
    requires forall j :: 0 <= j < k ==> w[j] == Moved(d[j], s) + CarryIn(d, s, j)
    ensures Val(w[..k]) + CarryIn(d, s, k) * Radix(k) == Val(d[..k]) * Pow(2, s)
  {
    if k > 0 {
      hide Val, Radix, Pow, Moved, CarryIn;
      MovedValue(d, w, s, k - 1);
      MovedStep(d, w, s, k - 1);
    }
  }

  lemma {:induction false} RadixIsPower(n: nat)
    ensures Radix(n) == Pow(2, 64 * n)
  {
    if n == 0 {
      assert Radix(0) == 1 == Pow(2, 0);
    } else {
      hide Pow, Radix;
      RadixIsPower(n - 1);
      RadixNext(n - 1);
      PowAdd(2, 64, 64 * (n - 1));
      TwoPowers();
    }
  }

  lemma PowShift(shift: nat)
    ensures Pow(2, shift) == Radix(shift / 64) * Pow(2, shift % 64)
  {
    RadixIsPower(shift / 64);
    PowAdd(2, 64 * (shift / 64), shift % 64);
  }

  /** A move by whole words takes only the top word along: the words below it must already be there. */
  predicate ShiftExact(memory: seq<word>, count: nat, shift: nat)
    requires count > 1 && shift % 64 == 0 ==> count + shift / 64 <= |memory|
  {
    count > 1 && shift % 64 == 0 ==> forall k :: 0 <= k < count - 1 ==> memory[shift / 64 + k] == memory[k]
  }

  /** The words behind such a move, whatever they denote. */
  function ShiftedWords(memory: seq<word>, count: nat, offset: nat): seq<word>
    requires 0 < count && count + offset <= |memory|
  {
    Zeros(offset) + (memory[offset..offset + count - 1] + [memory[count - 1]])
  }

  /** Two words moved by one: the lower one is not taken along, and the upper one is there twice. */
  lemma ShiftLostExample(memory: seq<word>)
    requires |memory| == CAPACITY && memory[0] == 5 && memory[1] == 7
    ensures ShiftedWords(memory, 2, 1) == [0, 7, 7] && !ShiftExact(memory, 2, 64)
    ensures Val([0, 7, 7]) != Val([5, 7]) * Pow(2, 64)
  {
    hide Val, Radix, Pow;
    assert Zeros(1) == [0] && memory[1..2] == [7] && [0] + ([7] + [7]) == [0, 7, 7];
    assert memory[64 / 64 + 0] != memory[0];
    TwoWords(5, 7);
    TwoWords(0, 7);
    ValPush([0, 7], 7);
    assert [0, 7] + [7] == [0, 7, 7];
    assert Radix(2) == BASE * BASE by { RadixTwo(); }
    TwoPowers();
  }

  lemma RadixTwo()
    ensures Radix(1) == BASE && Radix(2) == BASE * BASE
  {
    RadixNext(0);
    RadixNext(1);
  }

  lemma TwoWords(x: word, y: word)
    ensures Val([x, y]) == x + y * BASE
  {
    hide Val, Radix;
    ValOne(x);
    ValPush([x], y);
    RadixTwo();
    assert [x] + [y] == [x, y];
  }

  lemma WholeWords(was: seq<word>, now: seq<word>, offset: nat, memory: seq<word>)
    requires 0 < |was| && |was| + offset <= |memory| && memory[..|was|] == was
    requires now == Zeros(offset) + (memory[offset..offset + |was| - 1] + [was[|was| - 1]])
    ensures Val(now) == Val(was) * Radix(offset) <==> ShiftExact(memory, |was|, 64 * offset)
  {
    hide Val, Radix, Zeros, ShiftExact;
    var kept := memory[offset..offset + |was| - 1] + [was[|was| - 1]];
    LiftedValue(kept, offset);
    SameLifted(kept, was, Radix(offset));
    KeptIsExact(was, offset, memory);
  }

  lemma LiftedValue(d: seq<word>, offset: nat)
    ensures Val(Zeros(offset) + d) == Val(d) * Radix(offset)
  {
    hide Val, Radix, Zeros;
    ValZeros(offset);
    ValAppend(Zeros(offset), d);
  }

  lemma SameLifted(a: seq<word>, b: seq<word>, r: nat)
    requires |a| == |b| && r > 0
    ensures Val(a) * r == Val(b) * r <==> a == b
  {
    hide Val;
    if a != b {
      if Val(a) == Val(b) {
        SameLengthInjective(a, b);
      }
      Cancel(Val(a), Val(b), r);
    }
  }

  lemma KeptIsExact(was: seq<word>, offset: nat, memory: seq<word>)
    requires 0 < |was| && |was| + offset <= |memory| && memory[..|was|] == was
    ensures var n := |was| - 1;
            memory[offset..offset + n] + [was[n]] == was <==> ShiftExact(memory, |was|, 64 * offset)
  {
    var n := |was| - 1;
    var kept := memory[offset..offset + n] + [was[n]];
    assert 64 * offset / 64 == offset && 64 * offset % 64 == 0;
    assert forall k :: 0 <= k < n ==> kept[k] == memory[offset + k] && was[k] == memory[k];
    if ShiftExact(memory, |was|, 64 * offset) {
      assert forall k :: 0 <= k < n ==> kept[k] == was[k];
      assert kept == was;
    }
  }

  lemma Cancel(x: int, y: int, r: nat)
    requires r > 0 && x != y
    ensures x * r != y * r
  {
    if x < y { StrictScale(x, y, r); } else { StrictScale(y, x, r); }
  }

  // ---------- Differences ----------

  /** Some all-ones word of the smaller number meets a borrow: there the comparison that detects borrows misses it. */
  predicate BorrowLostBefore(a: seq<word>, b: seq<word>, n: nat)
    requires n <= |a|
  {
    exists i :: 0 <= i < n && i < |b| && b[i] == BASE - 1 && Val(a[..i]) < Val(b[..i])
  }

  predicate BorrowLost(a: seq<word>, b: seq<word>) { BorrowLostBefore(a, b, |a|) }

  function Low(b: seq<word>, i: nat): seq<word> { if i <= |b| then b[..i] else b }

  function WordOr0(b: seq<word>, i: nat): word { if i < |b| then b[i] else 0 }

  lemma LowNext(b: seq<word>, i: nat)
    ensures Val(Low(b, i + 1)) == Val(Low(b, i)) + WordOr0(b, i) * Radix(i)
  {
    if i < |b| {
      ValPrefix(b, i);
    } else if i == |b| {
      assert b[..i] == b;
    }
  }

  /** One word of a difference: the borrow that is passed on, and the one that is not noticed. */
  lemma SubtractWord(a: word, b: word, borrow: nat)
    requires borrow <= 1
    ensures var d := Wrap(Wrap(a - borrow) - b);
            var next := if d > a then 1 else 0;
            var missed := if borrow == 1 && b == BASE - 1 then 1 else 0;
            d + b + borrow == a + (next + missed) * BASE
  {
  }

  lemma SubtractStep(v: int, w: int, x: int, lost: int, borrow: int, r: int, d: int, b: int, a: int, next: int, missed: int)
    requires v + w == x + lost + borrow * r && d + b + borrow == a + (next + missed) * BASE
    ensures (v + d * r) + (w + b * r) == (x + a * r) + (lost + missed * (BASE * r)) + next * (BASE * r)
  {
    assert (d + b + borrow) * r == d * r + b * r + borrow * r;
    assert (a + next * BASE + missed * BASE) * r == a * r + next * (BASE * r) + missed * (BASE * r);
  }

  lemma BorrowMeansLess(x: nat, w: nat, a: word, b: word, borrow: nat, r: nat, d: word)
    requires borrow <= 1 && x < r && (borrow == 1 ==> x < w)
    requires d == Wrap(Wrap(a - borrow) - b) && d > a
    ensures x + a * r < w + b * r
  {
    SubtractWord(a, b, borrow);
    if a < b {
      Scale(a + 1, b, r);
    }
  }

  /** Word `i` of the difference as the program computes it, with a borrow passed on to it. */
  function ComputedWord(a: seq<word>, b: seq<word>, i: nat, borrow: nat): word
    requires i < |a|
  {
    Wrap(Wrap(a[i] - borrow) - WordOr0(b, i))
  }

  /** All words that it computes. */
  function Computed(a: seq<word>, b: seq<word>, n: nat): (d: seq<word>)
    requires n <= |a|
    ensures |d| == n
  {
    if n == 0 then [] else Computed(a, b, n - 1) + [ComputedWord(a, b, n - 1, BorrowInto(a, b, n - 1))]
  }

  /** The borrow that the program passes on from word `i - 1` to word `i`. */
  function BorrowInto(a: seq<word>, b: seq<word>, i: nat): (borrow: nat)
    requires i <= |a|
    ensures borrow <= 1
  {
    if i == 0 then 0
    else
      if ComputedWord(a, b, i - 1, BorrowInto(a, b, i - 1)) > a[i - 1] then 1 else 0
  }

  /** What the missed borrows below word `n` amount to. */
  function Missed(a: seq<word>, b: seq<word>, n: nat): nat
    requires n <= |a|
  {
    if n == 0 then 0
    else
      var k := n - 1;
      Missed(a, b, k) + if BorrowInto(a, b, k) == 1 && WordOr0(b, k) == BASE - 1 then BASE * Radix(k) else 0
  }

  /** Three words minus two: the true difference is one word, and the computed one has three. */
  lemma BorrowLostExample()
    ensures var a, b := [0, 0, 1], [1, BASE - 1];
            && IsNormal(a) && IsNormal(b) && BorrowLost(a, b)
            && Val(a) - Val(b) == Val([BASE - 1]) == BASE - 1
            && Computed(a, b, 3) == [BASE - 1, 0, 1]
  {
    hide Val, Radix;
    var a: seq<word>, b: seq<word> := [0, 0, 1], [1, BASE - 1];
    TwoWords(0, 0);
    ValPush([0, 0], 1);
    RadixTwo();
    TwoWords(1, BASE - 1);
    ValOne(BASE - 1);
    assert a == [0, 0] + [1];
    assert a[..1] == [0] && b[..1] == [1];
    ValOne(0);
    ValOne(1);
    hide Computed, BorrowInto;
    ComputedNext(a, b, 0);
    ComputedNext(a, b, 1);
    ComputedNext(a, b, 2);
    NothingComputed(a, b);
    assert ComputedWord(a, b, 0, 0) == BASE - 1 && ComputedWord(a, b, 1, 1) == 0 && ComputedWord(a, b, 2, 0) == 1;
    assert [] + [BASE - 1] + [0] + [1] == [BASE - 1, 0, 1];
  }

  lemma NothingComputed(a: seq<word>, b: seq<word>)
    ensures Computed(a, b, 0) == [] && BorrowInto(a, b, 0) == 0
  {
  }

  lemma ComputedNext(a: seq<word>, b: seq<word>, i: nat)
    requires i < |a|
    ensures Computed(a, b, i + 1) == Computed(a, b, i) + [ComputedWord(a, b, i, BorrowInto(a, b, i))]
    ensures BorrowInto(a, b, i + 1) == if ComputedWord(a, b, i, BorrowInto(a, b, i)) > a[i] then 1 else 0
  {
    hide ComputedWord;
  }

  // ---------- Powers of five ----------

  const POW5: seq<nat> := [5, 25, 125, 625, 3125, 15625, 78125, 390625, 1953125, 9765625, 48828125, 244140625]

  lemma SmallPow5(e: nat)
    requires 1 <= e <= 12
    ensures POW5[e - 1] == Pow(5, e) < HALF
  {
    assert Pow(5, 1) == 5 && Pow(5, 2) == 25 && Pow(5, 3) == 125 && Pow(5, 4) == 625;
    assert Pow(5, 5) == 3125 && Pow(5, 6) == 15625 && Pow(5, 7) == 78125 && Pow(5, 8) == 390625;
    assert Pow(5, 9) == 1953125 && Pow(5, 10) == 9765625 && Pow(5, 11) == 48828125 && Pow(5, 12) == 244140625;
  }

  lemma LargePow5()
    ensures Pow(5, 13) == 1220703125 < HALF
    ensures Pow(5, 27) == 0x6765C793FA10079D < BASE
  {
    assert Pow(5, 12) == 244140625;
    PowAdd(5, 13, 13);
    assert Pow(5, 27) == 5 * Pow(5, 26);
  }

  /** Taking `step` off the exponent after a multiplication by that power. */
  lemma PowerTaken(v: nat, e: nat, step: nat)
    requires step <= e
    ensures v * Pow(5, e) == (v * Pow(5, step)) * Pow(5, e - step)
    ensures v * Pow(5, step) <= v * Pow(5, e)
  {
    PowAdd(5, step, e - step);
    Regroup(v, Pow(5, step), Pow(5, e - step));
    Scale(1, Pow(5, e - step), v * Pow(5, step));
  }

  // ---------- Decimal text ----------

  lemma DecimalPush(s: seq<byte>, i: nat)
    requires i < |s| && IsDigit(s[i])
    ensures Decimal(s[..i + 1]) == Decimal(s[..i]) * 10 + (s[i] - ZERO)
  {
    assert s[..i + 1][..i] == s[..i];
  }

  lemma {:induction false} DecimalBelow(s: seq<byte>)
    requires AllDigits(s)
    ensures Decimal(s) < Pow(10, |s|)
  {
    if s != [] {
      DecimalBelow(s[..|s| - 1]);
    }
  }

  lemma {:induction false} DecimalAppend(a: seq<byte>, b: seq<byte>)
    requires AllDigits(a) && AllDigits(b)
    ensures Decimal(a + b) == Decimal(a) * Pow(10, |b|) + Decimal(b)
  {
    if b == [] {
      assert a + b == a;
    } else {
      var n := |b| - 1;
      DecimalAppend(a, b[..n]);
      assert (a + b)[..|a| + n] == a + b[..n];
      assert Decimal(a) * Pow(10, n) * 10 == Decimal(a) * Pow(10, n + 1) by {
        Regroup(Decimal(a), Pow(10, n), 10);
      }
    }
  }

  lemma DecimalPrefix(s: seq<byte>, i: nat)
    requires AllDigits(s) && i <= |s|
    ensures Decimal(s[..i]) <= Decimal(s)
  {
    hide Decimal, Pow;
    assert s == s[..i] + s[i..];
    DecimalAppend(s[..i], s[i..]);
    Scale(1, Pow(10, |s| - i), Decimal(s[..i]));
  }

  lemma NineteenDigits(n: nat)
    requires n <= 19
    ensures Pow(10, n) < BASE
  {
    PowMonotone(10, n, 19);
    TenPowers();
  }

  /** ParseUint64: at most 19 digits never overflow a word. */
  method ParseWord(s: seq<byte>) returns (r: word)
    requires AllDigits(s) && |s| <= 19
    ensures r == Decimal(s)
  {
    r := 0;
    for p := 0 to |s|
      invariant r == Decimal(s[..p])
    {
      DecimalPush(s, p);
      DecimalBelow(s[..p + 1]);
      NineteenDigits(p + 1);
      r := r * 10 + (s[p] - ZERO);
    }
    assert s[..|s|] == s;
  }

  // ---------- How much decimal text there is room for ----------

  /** The length of the last chunk: the constructor takes 19 digits at a time and then what is left. */
  function LastChunk(n: nat): (k: nat)
    requires n > 0
    ensures 1 <= k <= 19 && k <= n
  {
    if n % 19 == 0 then 19 else n % 19
  }

  /** In front of the last chunk the number is multiplied by a power of five, and one more word must be free for the shift. */
  predicate HasRoom(decimals: seq<byte>)
    requires decimals != []
  {
    var n := LastChunk(|decimals|);
    Decimal(decimals[..|decimals| - n]) * Pow(5, n) < Radix(CAPACITY - 1)
  }

  /** The word that the shift writes behind the number lies inside the memory exactly then. */
  lemma RoomIsExact(decimals: seq<byte>, d: seq<word>)
    requires decimals != [] && IsNormal(d)
    requires var n := LastChunk(|decimals|); Val(d) == Decimal(decimals[..|decimals| - n]) * Pow(5, n)
    ensures HasRoom(decimals) <==> |d| < CAPACITY
  {
    hide Decimal, Pow, Val, Radix;
    if Val(d) < Radix(CAPACITY - 1) {
      LengthBelow(d, CAPACITY - 1);
    } else if |d| < CAPACITY {
      ValBelow(d);
      RadixMonotone(|d|, CAPACITY - 1);
    }
  }

  lemma RadixMonotone(m: nat, n: nat)
    requires m <= n
    ensures Radix(m) <= Radix(n)
  {
    PowMonotone(BASE, m, n);
  }

  /** A number that leaves one word of the capacity free is one there is room for. */
  lemma SmallHasRoom(decimals: seq<byte>)
    requires decimals != [] && AllDigits(decimals) && Decimal(decimals) < Radix(CAPACITY - 1)
    ensures HasRoom(decimals)
  {
    hide Decimal, Pow, Radix;
    var n := LastChunk(|decimals|);
    var m := |decimals| - n;
    assert decimals == decimals[..m] + decimals[m..];
    DecimalAppend(decimals[..m], decimals[m..]);
    FiveBelowTen(Decimal(decimals[..m]), n);
  }

  /** A text of up to 7968 digits is one there is room for: ten to the third is less than two to the tenth. */
  lemma ManyDigitsHaveRoom(decimals: seq<byte>)
    requires AllDigits(decimals) && 0 < |decimals| <= 7968
    ensures HasRoom(decimals)
  {
    hide Decimal, Pow, HasRoom;
    DecimalBelow(decimals);
    PowMonotone(10, |decimals|, 3 * 2656);
    ThousandBelow(2656);
    BitsOfWords(415);
    SmallHasRoom(decimals);
  }

  lemma {:induction false} ThousandBelow(k: nat)
    ensures Pow(10, 3 * k) <= Pow(2, 10 * k)
  {
    if k > 0 {
      hide Pow;
      ThousandBelow(k - 1);
      TenPowers();
      TwoPowers();
      PowAdd(10, 3 * (k - 1), 3);
      PowAdd(2, 10 * (k - 1), 10);
      Scale(Pow(10, 3 * (k - 1)), Pow(2, 10 * (k - 1)), 1000);
    } else {
      assert Pow(10, 0) == 1 && Pow(2, 0) == 1;
    }
  }

  /** A number of `n` words is one of 64 times as many bits. */
  lemma {:induction false} BitsOfWords(n: nat)
    ensures Radix(n) == Pow(2, 64 * n)
  {
    hide Pow;
    TwoPowers();
    if n > 0 {
      BitsOfWords(n - 1);
      PowAdd(BASE, n - 1, 1);
      PowAdd(2, 64 * (n - 1), 64);
      PowOne(BASE);
    } else {
      PowNone();
    }
  }

  lemma PowOne(b: nat)
    ensures Pow(b, 1) == b
  {
  }

  lemma PowNone()
    ensures Pow(BASE, 0) == 1 && Pow(2, 0) == 1
  {
  }

  lemma FiveBelowTen(v: nat, n: nat)
    ensures v * Pow(10, n) == v * Pow(5, n) * Pow(2, n)
    ensures v <= v * Pow(5, n) <= v * Pow(10, n)
  {
    PowProduct(5, 2, n);
    Regroup(v, Pow(5, n), Pow(2, n));
    Scale(1, Pow(2, n), v * Pow(5, n));
    Scale(1, Pow(5, n), v);
  }

  /** Where there is room for the last chunk there was room for each before it. */
  lemma ChunkHasRoom(decimals: seq<byte>, i: nat, j: nat)
    requires AllDigits(decimals) && decimals != [] && HasRoom(decimals)
    requires i < j <= |decimals| && (j == i + 19 || j == |decimals|) && i % 19 == 0 && j - i <= 19
    ensures Decimal(decimals[..i]) * Pow(5, j - i) < Radix(CAPACITY - 1)
  {
    hide Decimal, Pow, Radix, HasRoom;
    if j == |decimals| {
      ChunkIsLast(|decimals|, i);
      RoomForLast(decimals, i);
    } else {
      ChunkBeforeLast(|decimals|, j);
      var m := |decimals| - LastChunk(|decimals|);
      PrefixGrows(decimals, i, j);
      DecimalPrefix(decimals[..m], j);
      assert decimals[..m][..j] == decimals[..j];
      FiveBelowTen(Decimal(decimals[..m]), LastChunk(|decimals|));
      RoomForLast(decimals, m);
    }
  }

  lemma RoomForLast(decimals: seq<byte>, m: nat)
    requires decimals != [] && HasRoom(decimals) && m == |decimals| - LastChunk(|decimals|)
    ensures Decimal(decimals[..m]) * Pow(5, LastChunk(|decimals|)) < Radix(CAPACITY - 1)
  {
    hide Decimal, Pow, Radix;
  }

  lemma PrefixGrows(s: seq<byte>, i: nat, j: nat)
    requires AllDigits(s) && i <= j <= |s|
    ensures Decimal(s[..i]) * Pow(5, j - i) <= Decimal(s[..j])
  {
    hide Decimal, Pow;
    assert s[..j] == s[..i] + s[i..j];
    DecimalAppend(s[..i], s[i..j]);
    FiveBelowTen(Decimal(s[..i]), j - i);
  }

  lemma ChunkIsLast(length: nat, i: nat)
    requires i < length && i % 19 == 0 && length - i <= 19
    ensures LastChunk(length) == length - i
  {
  }

  lemma ChunkBeforeLast(length: nat, j: nat)
    requires j < length && j % 19 == 0
    ensures j <= length - LastChunk(length)
  {
  }

  class BigInteger {
    const digits: array<word>
    var count: nat

    ghost predicate Valid()
      reads this, digits
    {
      digits.Length == CAPACITY && count <= CAPACITY && IsNormal(digits[..count])
    }

    ghost function Value(): nat
      requires Valid()
      reads this, digits
    {
      Val(digits[..count])
    }

    constructor FromWord(u: word)
      ensures Valid() && fresh(digits) && digits.Length == 416 && Value() == u
    {
      digits := new word[CAPACITY];
      count := 1;
      new;
      digits[0] := u;
      assert digits[..1] == [u];
      ValOne(u);
    }

    constructor Copy(rhs: BigInteger)
      requires rhs.Valid()
      ensures Valid() && fresh(digits) && Value() == rhs.Value()
    {
      digits := new word[CAPACITY];
      count := rhs.count;
      new;
      forall i | 0 <= i < count {
        digits[i] := rhs.digits[i];
      }
      assert digits[..count] == rhs.digits[..count];
    }

    /** Any decimal text that the capacity has room for. */
    constructor FromDecimal(decimals: seq<byte>)
      requires decimals != [] && AllDigits(decimals) && HasRoom(decimals)
      ensures Valid() && fresh(digits) && digits.Length == 416
      ensures Value() == Decimal(decimals)
      ensures count > 1 ==> digits[count - 1] != 0
    {
      digits := new word[CAPACITY];
      count := 1;
      new;
      digits[0] := 0;
      assert digits[..1] == [0];
      ValOne(0);
      AppendAll(decimals);
      assert count > 1 ==> digits[..count][count - 1] != 0;
    }

    /** The loop of that constructor: 19 digits at a time, then what is left. */
    method AppendAll(decimals: seq<byte>)
      requires Valid() && Value() == 0 && AllDigits(decimals) && (decimals != [] ==> HasRoom(decimals))
      modifies this, digits
      ensures Valid() && Value() == Decimal(decimals)
    {
      hide Radix, Pow, Val, Decimal, HasRoom;
      NoDecimal(decimals);
      var i := 0;
      while |decimals| - i >= 19
        invariant i <= |decimals| && i % 19 == 0 && Valid()
        invariant Value() == Decimal(decimals[..i])
      {
        Chunk(decimals, i, i + 19);
        ChunkHasRoom(decimals, i, i + 19);
        AppendDecimal64(decimals[i..i + 19]);
        i := i + 19;
      }
      assert decimals[i..] == decimals[i..|decimals|];
      assert decimals[..|decimals|] == decimals;
      if |decimals| - i > 0 {
        Chunk(decimals, i, |decimals|);
        ChunkHasRoom(decimals, i, |decimals|);
        AppendDecimal64(decimals[i..]);
      }
    }

    static lemma NoDecimal(s: seq<byte>)
      ensures Decimal(s[..0]) == 0
    {
    }

    static lemma Chunk(s: seq<byte>, i: nat, j: nat)
      requires AllDigits(s) && i <= j <= |s|
      ensures Decimal(s[..j]) == Decimal(s[..i]) * Pow(10, j - i) + Decimal(s[i..j])
      ensures Decimal(s[..j]) <= Decimal(s)
    {
      assert s[..j] == s[..i] + s[i..j];
      DecimalAppend(s[..i], s[i..j]);
      DecimalPrefix(s, j);
    }

    method Assign(u: word)
      requires Valid()
      modifies this, digits
      ensures Valid() && Value() == u
    {
      digits[0] := u;
      count := 1;
      assert digits[..1] == [u];
      ValOne(u);
    }

    method IsWord(u: word) returns (r: bool)
      requires Valid()
      ensures r <==> Value() == u
    {
      ValOne(u);
      if Value() == u {
        Injective(digits[..count], [u]);
        assert digits[..count][0] == digits[0];
      }
      r := count == 1 && digits[0] == u;
      if r {
        assert digits[..count] == [u];
      }
    }

    method Equals(rhs: BigInteger) returns (r: bool)
      requires Valid() && rhs.Valid()
      ensures r <==> Value() == rhs.Value()
    {
      r := count == rhs.count && digits[..count] == rhs.digits[..count];
      if Value() == rhs.Value() {
        Injective(digits[..count], rhs.digits[..rhs.count]);
      }
    }

    method PushBack(digit: word)
      requires digits.Length == CAPACITY && 0 < count < CAPACITY && digit != 0
      modifies this, digits
      ensures Valid() && digits[..count] == old(digits[..count]) + [digit]
    {
      digits[count] := digit;
      count := count + 1;
    }

    /** operator+=: adds a word and passes the carry on as far as it goes. */
    method AddWord(u: word)
      requires Valid() && Value() + u < Radix(CAPACITY)
      modifies this, digits
      ensures Valid() && Value() == old(Value()) + u
    {
      hide Radix, Val;
      ghost var was := digits[..count];
      var backup := digits[0];
      digits[0] := Wrap(digits[0] + u);
      ghost var now := digits[..count];
      FirstWord(was, now, u);
      var i := 0;
      while i < count - 1
        invariant count == old(count) && i < count && backup == was[i] && now == digits[..count]
        invariant Carried(was, now, i, u)
      {
        if digits[i] >= backup {
          Unchanged(was, now, i + 1, u);
          return;
        }
        ghost var before := now;
        backup := digits[i + 1];
        digits[i + 1] := Wrap(digits[i + 1] as int + 1);
        now := digits[..count];
        NextWord(was, before, now, i + 1, u);
        i := i + 1;
      }
      LastWord(was, now, u);
      if digits[count - 1] < backup {
        ValPush(now, 1);
        RadixOrder(count, CAPACITY);
        PushBack(1);
      }
    }

    /** Up to word `i` the sum is there, but for a carry that shows as a word smaller than it was. */
    static ghost predicate Carried(was: seq<word>, now: seq<word>, i: nat, u: word) {
      && i < |was| == |now| && now[i + 1..] == was[i + 1..]
      && (now[i] >= was[i] ==> Val(now[..i + 1]) == Val(was[..i + 1]) + u)
      && (now[i] < was[i] ==> Val(now[..i + 1]) + Radix(i + 1) == Val(was[..i + 1]) + u)
    }

    static lemma FirstWord(was: seq<word>, now: seq<word>, u: word)
      requires was != [] && now == was[0 := Wrap(was[0] + u)]
      ensures Carried(was, now, 0, u)
    {
      assert now[..1] == [now[0]] && was[..1] == [was[0]];
      ValOne(now[0]);
      ValOne(was[0]);
      RadixNext(0);
    }

    static lemma NextWord(was: seq<word>, before: seq<word>, now: seq<word>, i: nat, u: word)
      requires 0 < i < |was| && Carried(was, before, i - 1, u) && before[i - 1] < was[i - 1] && now == before[i := Wrap(was[i] as int + 1)]
      ensures Carried(was, now, i, u)
    {
      hide Val, Radix;
      assert now[..i] == before[..i];
      assert now[i + 1..] == before[i..][1..] == was[i..][1..];
      assert before[i] == before[i..][0] == was[i];
      ValPrefix(now, i);
      ValPrefix(was, i);
      RadixNext(i);
      Increment(was[i], Radix(i));
    }

    static lemma Increment(x: word, r: nat)
      ensures Wrap(x as int + 1) >= x ==> Wrap(x as int + 1) * r == x * r + r
      ensures Wrap(x as int + 1) < x ==> x * r + r == BASE * r && Wrap(x as int + 1) == 0
    {
    }

    static lemma Unchanged(was: seq<word>, now: seq<word>, i: nat, u: word)
      requires IsNormal(was) && 0 < i < |was| && Carried(was, now, i - 1, u) && now[i - 1] >= was[i - 1]
      ensures IsNormal(now) && Val(now) == Val(was) + u
    {
      SameTail(now, was, i, u);
      assert now[|was| - 1] == now[i..][|was| - 1 - i] == was[|was| - 1];
    }

    static lemma LastWord(was: seq<word>, now: seq<word>, u: word)
      requires IsNormal(was) && Carried(was, now, |was| - 1, u)
      ensures now[|was| - 1] >= was[|was| - 1] ==> IsNormal(now) && Val(now) == Val(was) + u
      ensures now[|was| - 1] < was[|was| - 1] ==> Val(now) + Radix(|was|) == Val(was) + u
    {
      assert now[..|was|] == now && was[..|was|] == was;
    }

    /** operator*=(uint64_t). */
    method MulWord(u: word)
      requires Valid() && Value() * u < Radix(CAPACITY)
      modifies this, digits
      ensures Valid() && Value() == old(Value()) * u
    {
      hide Radix, Val;
      if u == 0 { Assign(0); return; }
      if u == 1 { return; }
      var one := IsWord(1);
      if one { Assign(u); return; }
      ghost var was := digits[..count];
      assert was[..0] == [] == digits[..count][..0];
      ValNone();
      var k: word := 0;
      var i := 0;
      while i < count
        invariant i <= count == old(count) && digits[i..count] == was[i..]
        invariant Val(digits[..count][..i]) + k * Radix(i) == Val(was[..i]) * u
      {
        ghost var before, carry := digits[..count], k;
        assert digits[i] == was[i..][0];
        var lo, hi := MulAdd(digits[i], u, k);
        digits[i], k := lo, hi;
        TimesWord(was, before, digits[..count], i, u, carry, lo, hi);
        i := i + 1;
      }
      FinishProduct(was, u, k);
    }

    static lemma ValNone()
      ensures Val([]) == 0
    {
    }

    static lemma TimesWord(was: seq<word>, before: seq<word>, now: seq<word>, i: nat, u: nat, k: nat, lo: word, hi: nat)
      requires i < |was| == |before| && before[i..] == was[i..] && now == before[i := lo]
      requires Val(before[..i]) + k * Radix(i) == Val(was[..i]) * u && hi * BASE + lo == was[i] * u + k
      ensures Val(now[..i + 1]) + hi * Radix(i + 1) == Val(was[..i + 1]) * u
      ensures now[i + 1..] == was[i + 1..]
    {
      assert now[..i] == before[..i];
      assert now[i + 1..] == before[i..][1..] == was[i..][1..];
      ValPrefix(now, i);
      ValPrefix(was, i);
      RadixNext(i);
      MulStep(Val(before[..i]), Val(was[..i]), u, Radix(i), was[i], k, lo, hi);
    }

    static lemma ProductSize(was: seq<word>, now: seq<word>, u: nat, k: nat)
      requires IsNormal(was) && |now| == |was| && u > 0
      requires Val(now) + k * Radix(|was|) == Val(was) * u
      ensures k == 0 ==> IsNormal(now)
      ensures k > 0 ==> Radix(|was|) <= Val(was) * u
    {
      Scale(1, u, Val(was));
      if k == 0 {
        if |was| > 1 { ValAtLeast(was); }
        NormalTop(now);
      } else {
        Scale(1, k, Radix(|was|));
      }
    }

    /** The last carry of a product becomes a new word. */
    method FinishProduct(ghost was: seq<word>, ghost u: nat, k: word)
      requires digits.Length == CAPACITY && count <= CAPACITY && |was| == count && IsNormal(was) && u > 0
      requires Val(digits[..count][..count]) + k * Radix(count) == Val(was[..count]) * u
      requires Val(was) * u < Radix(CAPACITY)
      modifies this, digits
      ensures Valid() && Value() == Val(was) * u
    {
      hide Radix, Val;
      ghost var now := digits[..count];
      assert now[..count] == now && was[..count] == was;
      ProductSize(was, now, u, k);
      if k > 0 {
        ValPush(now, k);
        RadixOrder(count, CAPACITY);
        PushBack(k);
      }
    }

    /** operator*=(uint32_t). */
    method MulSmall(u: nat)
      requires Valid() && u < HALF && Value() * u < Radix(CAPACITY)
      modifies this, digits
      ensures Valid() && Value() == old(Value()) * u
    {
      hide Radix, Val;
      if u == 0 { Assign(0); return; }
      if u == 1 { return; }
      var one := IsWord(1);
      if one { Assign(u); return; }
      ghost var was := digits[..count];
      assert was[..0] == [] == digits[..count][..0];
      ValNone();
      var k: nat := 0;
      var i := 0;
      while i < count
        invariant i <= count == old(count) && k < HALF && digits[i..count] == was[i..]
        invariant Val(digits[..count][..i]) + k * Radix(i) == Val(was[..i]) * u
      {
        ghost var before, carry := digits[..count], k;
        assert digits[i] == was[i..][0];
        var lo, hi := MulHalf(digits[i], u, k);
        digits[i], k := lo, hi;
        TimesWord(was, before, digits[..count], i, u, carry, lo, hi);
        i := i + 1;
      }
      FinishProduct(was, u, k);
    }

    /**
     * operator<<=: exact unless the distance is a multiple of 64 and the words below the top one
     * do not repeat at that distance; then every word but the top one keeps what the memory held.
     */
    method ShiftLeft(shift: nat)
      requires Valid()
      requires Value() != 0 && shift % 64 != 0 ==> count + shift / 64 < CAPACITY
      requires (count > 1 || Value() != 0) && shift > 0 && shift % 64 == 0 ==> 2 * count - 1 + shift / 64 <= CAPACITY
      modifies this, digits
      ensures Valid()
      ensures Value() == old(Value()) * Pow(2, shift) <==> old(ShiftExact(digits[..], count, shift))
      ensures old(Value()) != 0 && shift > 0 && shift % 64 == 0
              ==> digits[..count] == ShiftedWords(old(digits[..]), old(count), shift / 64)
    {
      hide Pow, Radix, Val, ShiftExact, ShiftedWords;
      ghost var v, n, memory := Value(), count, digits[..];
      assert digits[..count] == memory[..n];
      var zero := IsWord(0);
      if zero || shift == 0 {
        ShiftNothing(memory, n, shift);
        return;
      }
      ShiftProduct(v, shift);
      if shift % 64 == 0 {
        ShiftWords(shift / 64);
      } else {
        ShiftBits(shift / 64, shift % 64);
        UnalignedExact(memory, n, shift);
      }
    }

    static lemma ShiftProduct(v: nat, shift: nat)
      ensures v * Pow(2, shift % 64) * Radix(shift / 64) == v * Pow(2, shift)
      ensures shift % 64 == 0 ==> v * Radix(shift / 64) == v * Pow(2, shift) && 64 * (shift / 64) == shift
    {
      hide Radix, Pow;
      PowShift(shift);
      SplitPower(v, Pow(2, shift), Pow(2, shift % 64), Radix(shift / 64));
      PowNought();
    }

    static lemma SplitPower(v: nat, p: nat, low: nat, high: nat)
      requires p == high * low
      ensures v * low * high == v * p
      ensures low == 1 ==> v * high == v * p
    {
      Regroup(v, low, high);
    }

    static lemma PowNought()
      ensures Pow(2, 0) == 1
    {
    }

    static lemma UnalignedExact(memory: seq<word>, count: nat, shift: nat)
      requires shift % 64 != 0
      ensures ShiftExact(memory, count, shift)
    {
    }

    static lemma ShiftNothing(memory: seq<word>, count: nat, shift: nat)
      requires |memory| == CAPACITY && count <= CAPACITY && IsNormal(memory[..count])
      requires count > 1 && shift > 0 && shift % 64 == 0 ==> 2 * count - 1 + shift / 64 <= CAPACITY
      requires Val(memory[..count]) == 0 || shift == 0
      ensures Val(memory[..count]) == Val(memory[..count]) * Pow(2, shift)
      ensures ShiftExact(memory, count, shift)
    {
      if Val(memory[..count]) == 0 {
        ValOne(0);
        Injective(memory[..count], [0]);
      }
    }

    /** The branch with interShift == 0: memmove starts at the top word, memset clears the bottom. */
    method ShiftWords(offset: nat)
      requires Valid() && Value() != 0 && offset > 0 && 2 * count - 1 + offset <= CAPACITY
      modifies this, digits
      ensures Valid()
      ensures digits[..count] == ShiftedWords(old(digits[..]), old(count), offset)
      ensures Value() == old(Value()) * Radix(offset) <==> old(ShiftExact(digits[..], count, 64 * offset))
    {
      hide Radix, Val, Zeros;
      ghost var was, memory := digits[..count], digits[..];
      MoveTop(offset);
      ghost var mid := digits[..];
      count := count + offset;
      ClearLow(offset);
      ClearedPrefix(digits[..], mid, offset, count);
      assert digits[..count] == digits[..][..count];
      assert memory[|was| - 1] == was[|was| - 1];
      WholeWords(was, digits[..count], offset, memory);
      NotZero(was);
    }

    /** The memmove: as many words as there are, from the top word on. */
    method MoveTop(offset: nat)
      requires 0 < count && 2 * count - 1 + offset <= digits.Length
      modifies digits
      ensures digits[..][offset..offset + count] == old(digits[..])[offset..offset + count - 1] + [old(digits[count - 1])]
    {
      ghost var memory := digits[..];
      forall j | 0 <= j < count {
        digits[count - 1 + offset + j] := digits[count - 1 + j];
      }
      TopMoved(memory, digits[..], count, offset);
    }

    static lemma TopMoved(memory: seq<word>, mid: seq<word>, count: nat, offset: nat)
      requires |mid| == |memory| && 0 < count && 2 * count - 1 + offset <= |memory|
      requires forall j :: 0 <= j < count - 1 + offset ==> mid[j] == memory[j]
      requires mid[count - 1 + offset] == memory[count - 1]
      ensures mid[offset..offset + count] == memory[offset..offset + count - 1] + [memory[count - 1]]
    {
    }

    static lemma NotZero(d: seq<word>)
      requires IsNormal(d) && Val(d) != 0
      ensures d[|d| - 1] != 0
    {
      if |d| == 1 {
        ValOne(d[0]);
        assert d == [d[0]];
      }
    }

    /** The branch with interShift != 0: from the top down, each word takes bits of its lower neighbour. */
    method ShiftBits(offset: nat, inter: nat)
      requires Valid() && Value() != 0 && 0 < inter < 64 && count + offset < CAPACITY
      modifies this, digits
      ensures Valid() && Value() == old(Value()) * Pow(2, inter) * Radix(offset)
    {
      hide Radix, Val, Pow, BitsMoved, Zeros, Spilled, Moved, CarryIn;
      ghost var was := digits[..count];
      MoveBits(offset, inter);
      ghost var memory := digits[..];
      count := count + offset;
      if digits[count] != 0 {
        count := count + 1;
      }
      ClearLow(offset);
      BitsShifted(was, memory, offset, inter, count);
      ClearedPrefix(digits[..], memory, offset, count);
      assert digits[..count] == digits[..][..count];
    }

    /** The memset of the lowest words. */
    method ClearLow(offset: nat)
      requires offset <= digits.Length
      modifies digits
      ensures digits[..] == Zeros(offset) + old(digits[..])[offset..]
    {
      forall j | 0 <= j < offset {
        digits[j] := 0;
      }
    }

    static lemma ClearedPrefix(now: seq<word>, memory: seq<word>, offset: nat, count: nat)
      requires offset <= count <= |memory| && now == Zeros(offset) + memory[offset..]
      ensures |now| == |memory| && now[..count] == Zeros(offset) + memory[offset..count]
    {
    }

    static lemma BitsShifted(was: seq<word>, memory: seq<word>, offset: nat, inter: nat, count: nat)
      requires IsNormal(was) && Val(was) != 0 && inter <= 64 && |was| + offset < |memory| && BitsMoved(was, memory, offset, inter)
      requires count == |was| + offset + if memory[|was| + offset] != 0 then 1 else 0
      ensures IsNormal(Zeros(offset) + memory[offset..count])
      ensures Val(Zeros(offset) + memory[offset..count]) == Val(was) * Pow(2, inter) * Radix(offset)
    {
      hide Radix, Val, Pow, MovedWord, Zeros;
      var n := |was|;
      var w := memory[offset..offset + n + 1];
      assert forall j :: 0 <= j <= n ==> w[j] == memory[j + offset];
      ShiftedValue(was, w, inter);
      assert memory[offset..count] == if w[n] == 0 then w[..n] else w;
      Positive(Val(was), Pow(2, inter));
      Lifted(memory[offset..count], offset);
    }

    static lemma Positive(v: nat, p: nat)
      requires v > 0 && p > 0
      ensures v * p > 0
    {
    }

    method MoveBits(offset: nat, inter: nat)
      requires digits.Length == CAPACITY && 0 < count && 0 < inter < 64 && count + offset < CAPACITY
      modifies digits
      ensures BitsMoved(old(digits[..count]), digits[..], offset, inter)
    {
      hide Pow, Moved, Spilled, CarryIn, MovedWord;
      ghost var was := digits[..count];
      digits[count] := 0;
      var i := count;
      while i > 0
        invariant 0 <= i <= count
        invariant forall j :: 0 <= j < count && j <= i ==> digits[j] == was[j]
        invariant i == count ==> digits[count] == 0
        invariant forall j :: i < j <= count ==> digits[j + offset] == MovedWord(was, inter, j)
      {
        MovedWordIs(was, inter, i, digits[i], digits[i - 1]);
        var w: word := Moved(digits[i], inter) + Spilled(digits[i - 1], inter);
        digits[i + offset] := w;
        i := i - 1;
      }
      LowestMoved(was, inter);
      digits[offset] := Moved(digits[0], inter);
    }

    static predicate BitsMoved(was: seq<word>, memory: seq<word>, offset: nat, inter: nat)
      requires inter <= 64 && |was| + offset < |memory|
    {
      forall j :: 0 <= j <= |was| ==> memory[j + offset] == MovedWord(was, inter, j)
    }

    static function MovedWord(d: seq<word>, s: nat, j: nat): nat
      requires s <= 64 && j <= |d|
    {
      (if j < |d| then Moved(d[j], s) else 0) + CarryIn(d, s, j)
    }

    static lemma MovedWordIs(was: seq<word>, s: nat, i: nat, x: word, y: word)
      requires s <= 64 && 0 < i <= |was| && y == was[i - 1] && x == if i < |was| then was[i] else 0
      ensures Moved(x, s) + Spilled(y, s) < BASE
      ensures Moved(x, s) + Spilled(y, s) == MovedWord(was, s, i)
    {
      hide Pow;
      MovedAndSpilled(x, s);
      MovedAndSpilled(y, s);
      MovedZero(s);
      hide Moved, Spilled;
    }

    static lemma MovedZero(s: nat)
      ensures Moved(0, s) == 0
    {
      hide Pow;
      assert 0 * Pow(2, s) == 0;
    }

    static lemma LowestMoved(was: seq<word>, s: nat)
      requires s <= 64 && was != []
      ensures Moved(was[0], s) == MovedWord(was, s, 0)
    {
      hide Moved;
    }

    static lemma ShiftedValue(was: seq<word>, w: seq<word>, s: nat)
      requires IsNormal(was) && Val(was) != 0 && s <= 64 && |w| == |was| + 1
      requires forall j :: 0 <= j < |w| ==> w[j] == MovedWord(was, s, j)
      ensures Val(w) == Val(was) * Pow(2, s)
      ensures w[|was|] != 0 ==> IsNormal(w)
      ensures w[|was|] == 0 ==> IsNormal(w[..|was|]) && Val(w[..|was|]) == Val(w)
    {
      hide Val, Radix, Pow, Moved, Spilled;
      var n := |was|;
      MovedValue(was, w, s, n);
      assert was[..n] == was && w[..n + 1] == w;
      ValPrefix(w, n);
      Scale(1, Pow(2, s), Val(was));
      TopAtLeast(was);
      if w[n] == 0 {
        NormalTop(w[..n]);
      }
    }

    static lemma TopAtLeast(d: seq<word>)
      requires IsNormal(d)
      ensures |d| > 1 ==> Val(d) >= Radix(|d| - 1)
    {
      if |d| > 1 {
        ValAtLeast(d);
      }
    }

    static lemma Lifted(d: seq<word>, offset: nat)
      requires IsNormal(d) && Val(d) != 0
      ensures IsNormal(Zeros(offset) + d) && Val(Zeros(offset) + d) == Val(d) * Radix(offset)
    {
      NotZero(d);
      LiftedValue(d, offset);
    }

    method MultiplyPow5(exp: nat)
      requires Valid() && Value() * Pow(5, exp) < Radix(CAPACITY)
      modifies this, digits
      ensures Valid() && Value() == old(Value()) * Pow(5, exp)
    {
      hide Pow, Radix;
      if exp == 0 {
        assert Pow(5, 0) == 1 by { PowZero(); }
        return;
      }
      LargePow5();
      var e := exp;
      while e >= 27
        invariant Valid() && Value() * Pow(5, e) == old(Value()) * Pow(5, exp)
      {
        PowerTaken(Value(), e, 27);
        MulWord(0x6765C793FA10079D);
        e := e - 27;
      }
      while e >= 13
        invariant e < 27 && Valid() && Value() * Pow(5, e) == old(Value()) * Pow(5, exp)
      {
        PowerTaken(Value(), e, 13);
        MulSmall(1220703125);
        e := e - 13;
      }
      PowZero();
      if e > 0 {
        SmallPow5(e);
        MulSmall(POW5[e - 1]);
      }
    }

    static lemma PowZero()
      ensures Pow(5, 0) == 1
    {
    }

    /** this = this * 10^n + the n digits of `s`. */
    method AppendDecimal64(s: seq<byte>)
      requires Valid() && s != [] && |s| <= 19 && AllDigits(s)
      requires Value() * Pow(5, |s|) < Radix(CAPACITY - 1)
      modifies this, digits
      ensures Valid() && Value() == old(Value()) * Pow(10, |s|) + Decimal(s)
    {
      hide Pow, Radix, Val;
      var u := ParseWord(s);
      var zero := IsWord(0);
      if zero {
        Assign(u);
      } else {
        var exp := |s|;
        FiveBelowTen(Value(), exp);
        ProductFits(Value() * Pow(5, exp), exp, u);
        MultiplyPow5(exp);
        LengthBelow(digits[..count], CAPACITY - 1);
        ShiftLeft(exp);
        AddWord(u);
      }
    }

    /** With one word free, up to 19 bits more and another word fit. */
    static lemma ProductFits(v: nat, n: nat, u: word)
      requires v < Radix(CAPACITY - 1) && n <= 19
      ensures v < Radix(CAPACITY) && v * Pow(2, n) + u < Radix(CAPACITY)
    {
      hide Radix, Pow;
      RadixNext(CAPACITY - 1);
      PowMonotone(2, n, 32);
      TwoPowers();
      Scale(Pow(2, n), HALF, v);
      Scale(v + 1, Radix(CAPACITY - 1), HALF);
      TwoRadix();
    }

    static lemma TwoRadix()
      ensures Radix(CAPACITY - 1) >= BASE
    {
      RadixMonotone(1, CAPACITY - 1);
      RadixTwo();
    }

    static lemma RadixMore()
      ensures Radix(CAPACITY - 1) < Radix(CAPACITY)
    {
      RadixNext(CAPACITY - 1);
    }

    /** The sign of the difference of the two numbers. */
    method Compare(rhs: BigInteger) returns (r: int)
      requires Valid() && rhs.Valid()
      ensures r == if Value() < rhs.Value() then -1 else if Value() == rhs.Value() then 0 else 1
    {
      hide Radix, Val;
      ghost var a, b := digits[..count], rhs.digits[..rhs.count];
      if count != rhs.count {
        if count < rhs.count { ShorterIsSmaller(a, b); } else { ShorterIsSmaller(b, a); }
        return if count < rhs.count then -1 else 1;
      }
      var i := count;
      while i > 0
        invariant 0 <= i <= count && a[i..] == b[i..]
      {
        i := i - 1;
        if digits[i] != rhs.digits[i] {
          if a[i] < b[i] { TopDecides(a, b, i); } else { TopDecides(b, a, i); }
          return if digits[i] < rhs.digits[i] then -1 else 1;
        }
        assert a[i..] == [a[i]] + a[i + 1..] && b[i..] == [b[i]] + b[i + 1..];
      }
      assert a == a[0..] && b == b[0..];
      return 0;
    }

    /** The absolute difference and what was missed of it: nothing, unless an all-ones word of the smaller number meets a borrow. */
    method Difference(rhs: BigInteger, out: BigInteger) returns (swapped: bool)
      requires Valid() && rhs.Valid() && out.Valid() && Value() != rhs.Value()
      requires out != this && out != rhs && out.digits != digits && out.digits != rhs.digits
      modifies out, out.digits
      ensures out.Valid() && swapped == (Value() < rhs.Value())
      ensures var (a, b) := if swapped then (rhs.digits[..rhs.count], digits[..count]) else (digits[..count], rhs.digits[..rhs.count]);
              out.Value() == Val(a) - Val(b) + Missed(a, b, |a|) && (Missed(a, b, |a|) == 0 <==> !BorrowLost(a, b))
    {
      var cmp := Compare(rhs);
      if cmp < 0 {
        rhs.Subtract(this, out);
        swapped := true;
      } else {
        Subtract(rhs, out);
        swapped := false;
      }
    }

    /** The borrow loop of Difference, for a larger number and a smaller one. */
    method Subtract(b: BigInteger, out: BigInteger)
      requires Valid() && b.Valid() && out.Valid() && b.Value() < Value()
      requires out != this && out != b && out.digits != digits && out.digits != b.digits
      modifies out, out.digits
      ensures var x, y := digits[..count], b.digits[..b.count];
              out.Valid() && out.Value() == Val(x) - Val(y) + Missed(x, y, |x|) && (Missed(x, y, |x|) == 0 <==> !BorrowLost(x, y))
      ensures var x, y := digits[..count], b.digits[..b.count];
              && out.count <= |x| && out.digits[..out.count] == Computed(x, y, |x|)[..out.count]
              && forall k :: out.count <= k < |x| ==> Computed(x, y, |x|)[k] == 0
    {
      hide Radix, Val, Subtracted, Topped, Missed, Computed, ComputedWord, BorrowInto;
      ghost var x, y := digits[..count], b.digits[..b.count];
      NoLonger(x, y);
      ghost var o: seq<word> := [];
      var borrow: word := 0;
      StartSubtract(x, y, out.count);
      var i := 0;
      while i < count
        invariant i <= count && out.digits.Length == CAPACITY && borrow <= 1 && |o| == i && o == out.digits[..i]
        invariant Subtracted(x, y, o, borrow) && Topped(o, out.count) && o == Computed(x, y, i)
      {
        var d := Wrap(digits[i] as int - borrow);
        if i < b.count {
          d := Wrap(d as int - b.digits[i]);
        }
        WordIs(x, y, i, borrow, d);
        SubtractAt(x, y, o, borrow, d);
        PushTopped(o, out.count, d);
        borrow := if d > digits[i] then 1 else 0;
        out.digits[i] := d;
        if d != 0 {
          out.count := i + 1;
        }
        o := o + [d];
        i := i + 1;
      }
      EndSubtract(x, y, o, borrow);
      ToppedNormal(o, out.count);
      assert out.digits[..out.count] == o[..out.count];
    }

    /** The words so far are the difference so far, with the borrows that were missed added and the last one owed. */
    static ghost predicate Subtracted(x: seq<word>, y: seq<word>, o: seq<word>, borrow: nat) {
      var i := |o|;
      && i <= |x| && borrow == BorrowInto(x, y, i)
      && Val(o) + Val(Low(y, i)) == Val(x[..i]) + Missed(x, y, i) + borrow * Radix(i)
      && (borrow == 1 ==> Val(x[..i]) < Val(Low(y, i)))
      && (Missed(x, y, i) == 0 <==> !BorrowLostBefore(x, y, i))
    }

    static lemma BorrowIs(x: seq<word>, y: seq<word>, o: seq<word>, borrow: nat)
      requires Subtracted(x, y, o, borrow)
      ensures |o| <= |x| && borrow == BorrowInto(x, y, |o|)
    {
      hide Val, Radix, Missed, BorrowInto;
    }

    /** The count that Difference keeps: behind the last word that is not zero, if there is one. */
    static predicate Topped(o: seq<word>, count: nat)
    {
      (exists k :: 0 <= k < |o| && o[k] != 0) ==>
        0 < count <= |o| && o[count - 1] != 0 && forall k :: count <= k < |o| ==> o[k] == 0
    }

    static lemma NoLonger(x: seq<word>, y: seq<word>)
      requires IsNormal(x) && IsNormal(y) && Val(y) < Val(x)
      ensures |y| <= |x|
    {
      if |x| < |y| {
        ShorterIsSmaller(x, y);
      }
    }

    static lemma StartSubtract(x: seq<word>, y: seq<word>, count: nat)
      ensures Subtracted(x, y, [], 0) && Topped([], count) && Computed(x, y, 0) == []
    {
    }

    static lemma PushTopped(o: seq<word>, count: nat, d: word)
      requires Topped(o, count)
      ensures Topped(o + [d], if d != 0 then |o| + 1 else count)
    {
      var t := o + [d];
      if d == 0 && exists k :: 0 <= k < |t| && t[k] != 0 {
        var k :| 0 <= k < |t| && t[k] != 0;
        assert o[k] != 0;
      }
    }

    static lemma EndSubtract(x: seq<word>, y: seq<word>, o: seq<word>, borrow: nat)
      requires |y| <= |x| == |o| && Subtracted(x, y, o, borrow) && Val(y) < Val(x)
      ensures Val(o) == Val(x) - Val(y) + Missed(x, y, |x|)
      ensures Missed(x, y, |x|) == 0 <==> !BorrowLost(x, y)
    {
      hide Val, Missed;
      assert x[..|x|] == x && Low(y, |x|) == y;
    }

    static lemma SubtractAt(x: seq<word>, y: seq<word>, o: seq<word>, borrow: nat, d: word)
      requires |y| <= |x| && |o| < |x| && Subtracted(x, y, o, borrow)
      requires d == ComputedWord(x, y, |o|, borrow)
      ensures Subtracted(x, y, o + [d], if d > x[|o|] then 1 else 0)
      ensures borrow == BorrowInto(x, y, |o|) && Computed(x, y, |o| + 1) == Computed(x, y, |o|) + [d]
    {
      hide *;
      BorrowIs(x, y, o, borrow);
      ComputedNext(x, y, |o|);
      SubtractSum(x, y, o, borrow, d);
      SubtractLess(x, y, o, borrow, d);
      LossAt(x, y, o, borrow);
      Together(x, y, o + [d], if d > x[|o|] then 1 else 0);
    }

    static lemma Together(x: seq<word>, y: seq<word>, o: seq<word>, borrow: nat)
      requires |o| <= |x| && borrow == BorrowInto(x, y, |o|)
      requires Val(o) + Val(Low(y, |o|)) == Val(x[..|o|]) + Missed(x, y, |o|) + borrow * Radix(|o|)
      requires borrow == 1 ==> Val(x[..|o|]) < Val(Low(y, |o|))
      requires Missed(x, y, |o|) == 0 <==> !BorrowLostBefore(x, y, |o|)
      ensures Subtracted(x, y, o, borrow)
    {
      hide Radix, Val, Low, BorrowLostBefore, Missed, BorrowInto;
    }

    /** Whether a borrow is missed at word `i`. */
    static function MissedAt(y: seq<word>, i: nat, borrow: nat): nat {
      if borrow == 1 && WordOr0(y, i) == BASE - 1 then 1 else 0
    }

    /** The sum of Subtracted, one word further. */
    static lemma SubtractSum(x: seq<word>, y: seq<word>, o: seq<word>, borrow: nat, d: word)
      requires |y| <= |x| && |o| < |x| && Subtracted(x, y, o, borrow) && d == ComputedWord(x, y, |o|, borrow)
      ensures Val(o + [d]) + Val(Low(y, |o| + 1))
           == Val(x[..|o| + 1]) + Missed(x, y, |o| + 1) + (if d > x[|o|] then 1 else 0) * Radix(|o| + 1)
    {
      hide *;
      var i := |o|;
      var next, w, missed := if d > x[i] then 1 else 0, WordOr0(y, i), MissedAt(y, i, borrow);
      SubtractedSum(x, y, o, borrow);
      ValPush(o, d);
      LowNext(y, i);
      ValPrefix(x, i);
      RadixNext(i);
      WordValue(x, y, i, borrow);
      MissedNext(x, y, i, missed);
      MissedIs(y, i, borrow);
      SubtractWord(x[i], w, borrow);
      SubtractStep(Val(o), Val(Low(y, i)), Val(x[..i]), Missed(x, y, i), borrow, Radix(i), d, w, x[i], next, missed);
    }

    static lemma SubtractedSum(x: seq<word>, y: seq<word>, o: seq<word>, borrow: nat)
      requires Subtracted(x, y, o, borrow)
      ensures |o| <= |x| && borrow == BorrowInto(x, y, |o|) && borrow <= 1
      ensures Val(o) + Val(Low(y, |o|)) == Val(x[..|o|]) + Missed(x, y, |o|) + borrow * Radix(|o|)
    {
      hide Radix, Val, Low, BorrowLostBefore, Missed, BorrowInto;
    }

    static lemma MissedIs(y: seq<word>, i: nat, borrow: nat)
      ensures MissedAt(y, i, borrow) == if borrow == 1 && WordOr0(y, i) == BASE - 1 then 1 else 0
    {
      hide WordOr0;
    }

    /** A borrow that is passed on is owed. */
    static lemma SubtractLess(x: seq<word>, y: seq<word>, o: seq<word>, borrow: nat, d: word)
      requires |y| <= |x| && |o| < |x| && Subtracted(x, y, o, borrow) && d == ComputedWord(x, y, |o|, borrow)
      ensures d > x[|o|] ==> Val(x[..|o| + 1]) < Val(Low(y, |o| + 1))
    {
      hide Radix, Val, Low, BorrowLostBefore, WordOr0, Wrap, Missed, BorrowInto, ComputedWord;
      var i := |o|;
      if d > x[i] {
        LowNext(y, i);
        ValPrefix(x, i);
        ValBelow(x[..i]);
        WordValue(x, y, i, borrow);
        BorrowMeansLess(Val(x[..i]), Val(Low(y, i)), x[i], WordOr0(y, i), borrow, Radix(i), d);
      }
    }

    static lemma MissedNext(x: seq<word>, y: seq<word>, i: nat, missed: nat)
      requires i < |x| && missed == MissedAt(y, i, BorrowInto(x, y, i))
      ensures Missed(x, y, i + 1) == Missed(x, y, i) + missed * (BASE * Radix(i))
    {
      hide Radix, BorrowInto, WordOr0;
    }

    static lemma WordValue(x: seq<word>, y: seq<word>, i: nat, borrow: nat)
      requires i < |x|
      ensures ComputedWord(x, y, i, borrow) == Wrap(Wrap(x[i] as int - borrow) - WordOr0(y, i))
    {
    }

    /** What is missed is nothing exactly when no all-ones word meets a borrow: the loop of the subtraction on paper. */
    static lemma {:induction false} SubtractUpTo(x: seq<word>, y: seq<word>, i: nat) returns (o: seq<word>)
      requires |y| <= |x| && i <= |x|
      ensures |o| == i && Subtracted(x, y, o, BorrowInto(x, y, i))
      decreases i
    {
      hide Subtracted, Missed, Computed, ComputedWord, BorrowInto;
      StartSubtract(x, y, 0);
      if i == 0 {
        o := [];
        BorrowIs(x, y, o, 0);
      } else {
        var k := i - 1;
        var p := SubtractUpTo(x, y, k);
        var d := ComputedWord(x, y, k, BorrowInto(x, y, k));
        SubtractAt(x, y, p, BorrowInto(x, y, k), d);
        o := p + [d];
        BorrowIs(x, y, o, if d > x[k] then 1 else 0);
      }
    }

    static lemma WordIs(x: seq<word>, y: seq<word>, i: nat, borrow: nat, d: word)
      requires i < |x| && borrow <= 1
      requires d == if i < |y| then Wrap(Wrap(x[i] as int - borrow) as int - y[i]) else Wrap(x[i] as int - borrow)
      ensures d == ComputedWord(x, y, i, borrow)
    {
    }

    /** A borrow is missed at word `i` exactly where an all-ones word meets one, if none was missed before. */
    static lemma LossAt(x: seq<word>, y: seq<word>, o: seq<word>, borrow: nat)
      requires |y| <= |x| && |o| < |x| && Subtracted(x, y, o, borrow)
      ensures Missed(x, y, |o| + 1) == 0 <==> !BorrowLostBefore(x, y, |o| + 1)
    {
      hide Radix, Val, Missed, BorrowInto;
      var i, r := |o|, Radix(|o|);
      var missed := MissedAt(y, i, borrow);
      MissedNext(x, y, i, missed);
      ValBelow(o);
      if missed == 1 {
        assert y[i] == BASE - 1 && Low(y, i) == y[..i];
        assert BASE * r > 0;
      } else {
        NoNewLoss(x, y, i, Missed(x, y, i), borrow, Val(o), r);
      }
    }

    static lemma NoNewLoss(x: seq<word>, y: seq<word>, i: nat, lost: nat, borrow: nat, v: nat, r: nat)
      requires |y| <= |x| && i < |x| && borrow <= 1 && v < r
      requires v + Val(Low(y, i)) == Val(x[..i]) + lost + borrow * r
      requires lost == 0 <==> !BorrowLostBefore(x, y, i)
      requires !(borrow == 1 && WordOr0(y, i) == BASE - 1)
      ensures lost == 0 <==> !BorrowLostBefore(x, y, i + 1)
    {
      hide Val;
      if i < |y| {
        assert Low(y, i) == y[..i];
      }
      if BorrowLostBefore(x, y, i) {
        var k :| 0 <= k < i && k < |y| && y[k] == BASE - 1 && Val(x[..k]) < Val(y[..k]);
        assert 0 <= k < i + 1;
      }
    }

    static lemma ToppedNormal(o: seq<word>, count: nat)
      requires Topped(o, count) && Val(o) > 0
      ensures 0 < count <= |o| && IsNormal(o[..count]) && Val(o[..count]) == Val(o)
      ensures forall k :: count <= k < |o| ==> o[k] == 0
    {
      hide Val;
      NotAllZero(o);
      assert o == o[..count] + Zeros(|o| - count);
      ValZeros(|o| - count);
      ValAppend(o[..count], Zeros(|o| - count));
      assert Radix(count) * 0 == 0;
    }

    static lemma NotAllZero(o: seq<word>)
      requires Val(o) > 0
      ensures exists k :: 0 <= k < |o| && o[k] != 0
    {
      if forall k :: 0 <= k < |o| ==> o[k] == 0 {
        assert o == Zeros(|o|);
        ValZeros(|o|);
      }
    }
  }
}
