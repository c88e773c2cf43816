/** Message frames on a byte stream: how a socket writes them and how the message centre finds them again. */
module Frames {
  import opened Stream
  import opened Sequences
  import opened RingBuffer
  import Powers

  const TWO32: int := 0x1_0000_0000

  /** What a frame carries; the payload is what the serializer of the message produced. */
  datatype Msg = Msg(id: int, uid: int, body: seq<byte>)

  predicate IsInt32(i: int) { -0x8000_0000 <= i < 0x8000_0000 }

  // ---------- 32-bit integers as bytes, least significant first ----------

  function Le32(n: nat): (s: seq<byte>)
    requires n < TWO32
    ensures |s| == 4
  {
    [n % 256, n / 256 % 256, n / 0x1_0000 % 256, n / 0x100_0000]
  }

  function FromLe32(s: seq<byte>): (n: nat)
    requires |s| == 4
    ensures n < TWO32
  {
    s[0] as int + 256 * s[1] as int + 0x1_0000 * s[2] as int + 0x100_0000 * s[3] as int
  }

  function Unsigned(i: int): (n: nat)
    requires IsInt32(i)
    ensures n < TWO32
  {
    if i < 0 then i + TWO32 else i
  }

  function Signed(n: nat): (i: int)
    requires n < TWO32
    ensures IsInt32(i)
  {
    if n < 0x8000_0000 then n else n - TWO32
  }

  lemma Le32Inverse(n: nat)
    requires n < TWO32
    ensures FromLe32(Le32(n)) == n
  {
    var a := n / 256;
    var b := a / 256;
    assert n / 0x1_0000 == b && n / 0x100_0000 == b / 256;
  }

  // ---------- Frames ----------

  /** What a socket can send and the other side accepts. */
  predicate Sendable(m: Msg) { IsInt32(m.id) && IsInt32(m.uid) && 2 <= |m.body| <= 2048 }

  /** The bytes of a frame: length, id, user, payload. */
  function Encode(m: Msg): (s: seq<byte>)
    requires IsInt32(m.id) && IsInt32(m.uid) && |m.body| < 0x8000_0000
    ensures |s| == |m.body| + 12
  {
    Le32(|m.body|) + Le32(Unsigned(m.id)) + Le32(Unsigned(m.uid)) + m.body
  }

  predicate AllSendable(ms: seq<Msg>) { forall i :: 0 <= i < |ms| ==> Sendable(ms[i]) }

  function EncodeAll(ms: seq<Msg>): seq<byte>
    requires AllSendable(ms)
  {
    if ms == [] then [] else Encode(ms[0]) + EncodeAll(ms[1..])
  }

  /** What the front of a byte string holds. */
  datatype Front = Incomplete | WrongLength | Whole(msg: Msg)

  function FrontOf(s: seq<byte>): (f: Front)
    ensures f.Whole? ==> |f.msg.body| + 12 <= |s|
  {
    if |s| <= 4 then Incomplete
    else
      var n := FromLe32(s[..4]);
      if n <= 1 || n > 2048 then WrongLength
      else if |s| < n + 12 then Incomplete
      else Whole(Msg(Signed(FromLe32(s[4..8])), Signed(FromLe32(s[8..12])), s[12..n + 12]))
  }

  datatype Parsed = Parsed(msgs: seq<Msg>, rest: seq<byte>)

  /** All whole frames at the front, whatever their ids, and what is behind them. */
  function AllFrames(s: seq<byte>): Parsed
    decreases |s|
  {
    match FrontOf(s)
    case Whole(m) => var p := AllFrames(s[|m.body| + 12..]); Parsed([m] + p.msgs, p.rest)
    case Incomplete => Parsed([], s)
    case WrongLength => Parsed([], s)
  }

  /** What one call of parse_package returns and leaves: it also stops behind a frame with an unknown id, which it drops. */
  function Package(known: int -> bool, s: seq<byte>): Parsed
    decreases |s|
  {
    match FrontOf(s)
    case Whole(m) =>
      var rest := s[|m.body| + 12..];
      if known(m.id) then var p := Package(known, rest); Parsed([m] + p.msgs, p.rest) else Parsed([], rest)
    case Incomplete => Parsed([], s)
    case WrongLength => Parsed([], s)
  }

  // ---------- Encoding and finding frames are inverse ----------

  lemma EncodedParts(m: Msg, t: seq<byte>)
    requires Sendable(m)
    ensures var s := Encode(m) + t;
            && s[..4] == Le32(|m.body|) && s[4..8] == Le32(Unsigned(m.id)) && s[8..12] == Le32(Unsigned(m.uid))
            && s[12..|m.body| + 12] == m.body && s[|m.body| + 12..] == t
  {
    hide Le32;
  }

  /** A frame in front of anything is found, with its id, its user and its payload. */
  lemma FrontOfEncoded(m: Msg, t: seq<byte>)
    requires Sendable(m)
    ensures FrontOf(Encode(m) + t) == Whole(m)
    ensures (Encode(m) + t)[|m.body| + 12..] == t
  {
    hide Le32, FromLe32, Encode;
    EncodedParts(m, t);
    Le32Inverse(|m.body|);
    Le32Inverse(Unsigned(m.id));
    Le32Inverse(Unsigned(m.uid));
  }

  lemma Le32Back(s: seq<byte>)
    requires |s| == 4
    ensures Le32(FromLe32(s)) == s
  {
    FourBytes(s[0], s[1], s[2], s[3]);
  }

  lemma FourBytes(a: nat, b: nat, c: nat, d: nat)
    requires a < 256 && b < 256 && c < 256 && d < 256
    ensures var n := a + 256 * b + 0x1_0000 * c + 0x100_0000 * d;
            n % 256 == a && n / 256 % 256 == b && n / 0x1_0000 % 256 == c && n / 0x100_0000 == d
  {
    var y := c + 256 * d;
    var x := b + 256 * y;
    var n := a + 256 * x;
    assert n / 256 == x && n / 0x1_0000 == y;
  }

  lemma SignedBack(n: nat)
    requires n < TWO32
    ensures Unsigned(Signed(n)) == n
  {
  }

  /** A frame is found exactly where its encoding stands and its payload has 2 to 2048 bytes. */
  lemma FrontIsFrame(s: seq<byte>, m: Msg)
    ensures FrontOf(s) == Whole(m) <==> Sendable(m) && 2 <= |m.body| <= 2048 && Encode(m) <= s
  {
    if Sendable(m) && Encode(m) <= s {
      assert s == Encode(m) + s[|Encode(m)|..];
      FrontOfEncoded(m, s[|Encode(m)|..]);
    }
    if FrontOf(s) == Whole(m) {
      hide Le32, FromLe32, Signed, Unsigned;
      var n := FromLe32(s[..4]);
      Le32Back(s[..4]);
      Le32Back(s[4..8]);
      Le32Back(s[8..12]);
      SignedBack(FromLe32(s[4..8]));
      SignedBack(FromLe32(s[8..12]));
      assert s[..4] + s[4..8] + s[8..12] + s[12..n + 12] == s[..n + 12];
    }
  }

  /** A length is refused exactly when no frame can start with it, whatever else arrives. */
  lemma WrongLengthIsFinal(s: seq<byte>)
    ensures FrontOf(s).WrongLength? <==> |s| > 4 && forall t: seq<byte>, m: Msg :: Sendable(m) ==> !(Encode(m) <= s + t)
  {
    hide Encode, FrontOf;
    if FrontOf(s).WrongLength? {
      LongEnough(s);
      forall t: seq<byte>, m: Msg | Sendable(m) ensures !(Encode(m) <= s + t) {
        FrontStays(s, t);
        FrontIsFrame(s + t, m);
      }
    } else if |s| > 4 {
      var t := seq(2060, i => 0 as byte);
      Completes(s, t);
      var m := FrontOf(s + t).msg;
      FrontIsFrame(s + t, m);
    }
  }

  lemma LongEnough(s: seq<byte>)
    ensures FrontOf(s).WrongLength? ==> |s| > 4
  {
  }

  /** With enough bytes behind it a length that is not refused makes a frame. */
  lemma Completes(s: seq<byte>, t: seq<byte>)
    requires |s| > 4 && !FrontOf(s).WrongLength? && |t| == 2060
    ensures FrontOf(s + t).Whole?
  {
    hide FromLe32, Signed;
    assert (s + t)[..4] == s[..4];
  }

  /** The least significant byte stands first: each byte counts 256 times as much as the one in front of it. */
  lemma ByteOrder(n: nat, i: nat)
    requires n < TWO32 && i < 4
    ensures Le32(n)[i] == n / Powers.Pow(256, i) % 256
  {
    assert Powers.Pow(256, 1) == 256 && Powers.Pow(256, 2) == 0x1_0000 && Powers.Pow(256, 3) == 256 * Powers.Pow(256, 2);
  }

  /** A proper beginning of a frame is left alone. */
  lemma FrontOfPart(m: Msg, n: nat)
    requires Sendable(m) && n < |Encode(m)|
    ensures FrontOf(Encode(m)[..n]) == Incomplete
  {
    hide Le32, FromLe32, Encode;
    EncodedParts(m, []);
    assert Encode(m) + [] == Encode(m);
    Le32Inverse(|m.body|);
    if n > 4 {
      assert Encode(m)[..n][..4] == Encode(m)[..4];
    }
  }

  lemma EncodeFirst(ms: seq<Msg>, t: seq<byte>)
    requires AllSendable(ms) && ms != []
    ensures EncodeAll(ms) + t == Encode(ms[0]) + (EncodeAll(ms[1..]) + t)
  {
    hide Encode;
  }

  lemma ConsAppend(ms: seq<Msg>, x: seq<Msg>)
    requires ms != []
    ensures ms + x == [ms[0]] + (ms[1..] + x)
  {
  }

  lemma FramesUnfold(s: seq<byte>)
    requires FrontOf(s).Whole?
    ensures var m := FrontOf(s).msg; var p := AllFrames(s[|m.body| + 12..]);
            AllFrames(s) == Parsed([m] + p.msgs, p.rest)
  {
    hide FrontOf;
  }

  lemma {:induction false} FramesOfEncoded(ms: seq<Msg>, t: seq<byte>)
    requires AllSendable(ms)
    ensures AllFrames(EncodeAll(ms) + t) == Parsed(ms + AllFrames(t).msgs, AllFrames(t).rest)
    decreases |ms|
  {
    if ms == [] {
      assert [] + t == t && [] + AllFrames(t).msgs == AllFrames(t).msgs;
    } else {
      hide FrontOf, Encode, EncodeAll, AllFrames;
      var rest := EncodeAll(ms[1..]) + t;
      FramesOfEncoded(ms[1..], t);
      FrontOfEncoded(ms[0], rest);
      EncodeFirst(ms, t);
      FramesUnfold(Encode(ms[0]) + rest);
      ConsAppend(ms, AllFrames(t).msgs);
    }
  }

  // ---------- More bytes ----------

  /** What is at the front does not change when more arrives, unless it was incomplete. */
  lemma FrontStays(s: seq<byte>, t: seq<byte>)
    ensures !FrontOf(s).Incomplete? ==> FrontOf(s + t) == FrontOf(s)
    ensures FrontOf(s).Whole? ==> var k := |FrontOf(s).msg.body| + 12; (s + t)[k..] == s[k..] + t
  {
    hide FromLe32, Signed;
    if |s| > 4 {
      assert (s + t)[..4] == s[..4];
      if FrontOf(s).Whole? {
        var n := FromLe32(s[..4]);
        assert (s + t)[4..8] == s[4..8] && (s + t)[8..12] == s[8..12] && (s + t)[12..n + 12] == s[12..n + 12];
      }
    }
  }

  lemma {:induction false} FramesAppend(s: seq<byte>, t: seq<byte>)
    ensures var p := AllFrames(s); var q := AllFrames(p.rest + t);
            AllFrames(s + t) == Parsed(p.msgs + q.msgs, q.rest)
    decreases |s|
  {
    hide FrontOf;
    FrontStays(s, t);
    match FrontOf(s) {
      case Whole(m) =>
        var rest := s[|m.body| + 12..];
        FramesAppend(rest, t);
        var p := AllFrames(rest);
        assert [m] + p.msgs + AllFrames(p.rest + t).msgs == [m] + (p.msgs + AllFrames(p.rest + t).msgs);
      case Incomplete =>
        assert [] + AllFrames(s + t).msgs == AllFrames(s + t).msgs;
      case WrongLength =>
        assert [] + AllFrames(s + t).msgs == AllFrames(s + t).msgs;
    }
  }

  // ---------- One call, and a whole session ----------

  function OnlyKnown(known: int -> bool, ms: seq<Msg>): seq<Msg> {
    if ms == [] then []
    else if known(ms[0].id) then [ms[0]] + OnlyKnown(known, ms[1..])
    else OnlyKnown(known, ms[1..])
  }

  predicate AllKnown(known: int -> bool, ms: seq<Msg>) { forall i :: 0 <= i < |ms| ==> known(ms[i].id) }

  lemma {:induction false} OnlyKnownAppend(known: int -> bool, a: seq<Msg>, b: seq<Msg>)
    ensures OnlyKnown(known, a + b) == OnlyKnown(known, a) + OnlyKnown(known, b)
    decreases |a|
  {
    if a == [] {
      assert a + b == b;
    } else {
      OnlyKnownAppend(known, a[1..], b);
      assert (a + b)[1..] == a[1..] + b;
      Associate([a[0]], OnlyKnown(known, a[1..]), OnlyKnown(known, b));
    }
  }

  /** A call takes frames in order and loses none but those with unknown ids. */
  lemma {:induction false} PackageTakes(known: int -> bool, s: seq<byte>)
    ensures var p := Package(known, s);
            && OnlyKnown(known, AllFrames(s).msgs) == p.msgs + OnlyKnown(known, AllFrames(p.rest).msgs)
            && AllFrames(s).rest == AllFrames(p.rest).rest
    decreases |s|
  {
    hide FrontOf;
    match FrontOf(s) {
      case Whole(m) =>
        var rest := s[|m.body| + 12..];
        PackageTakes(known, rest);
        TakeOne(known, m, AllFrames(rest).msgs, Package(known, rest).msgs, OnlyKnown(known, AllFrames(Package(known, rest).rest).msgs));
      case Incomplete =>
      case WrongLength =>
    }
  }

  lemma TakeOne(known: int -> bool, m: Msg, ms: seq<Msg>, taken: seq<Msg>, later: seq<Msg>)
    requires OnlyKnown(known, ms) == taken + later
    ensures OnlyKnown(known, [m] + ms) == (if known(m.id) then [m] + taken + later else taken + later)
  {
    assert ([m] + ms)[1..] == ms;
    if known(m.id) {
      Associate([m], taken, later);
    }
  }

  function Concat(chunks: seq<seq<byte>>): seq<byte> {
    if chunks == [] then [] else Concat(chunks[..|chunks| - 1]) + chunks[|chunks| - 1]
  }

  /** Chunks arrive one after the other, with a call of parse_package behind each. */
  function Session(known: int -> bool, chunks: seq<seq<byte>>): Parsed {
    if chunks == [] then Parsed([], [])
    else
      var before := Session(known, chunks[..|chunks| - 1]);
      var p := Package(known, before.rest + chunks[|chunks| - 1]);
      Parsed(before.msgs + p.msgs, p.rest)
  }

  /**
   * For every byte stream, however it is cut: what the calls have returned so far, followed by the known frames
   * that are still buffered, are the known frames of the stream, in order, each once.
   */
  lemma {:induction false} Conservation(known: int -> bool, chunks: seq<seq<byte>>)
    ensures var s := Session(known, chunks); var all := AllFrames(Concat(chunks));
            && OnlyKnown(known, all.msgs) == s.msgs + OnlyKnown(known, AllFrames(s.rest).msgs)
            && all.rest == AllFrames(s.rest).rest
    decreases |chunks|
  {
    if chunks == [] {
      assert FrontOf([]).Incomplete?;
    } else {
      hide AllFrames, Package, OnlyKnown;
      var c, before := chunks[|chunks| - 1], chunks[..|chunks| - 1];
      var s, all := Session(known, before), AllFrames(Concat(before));
      var b := AllFrames(s.rest);
      Conservation(known, before);
      FramesAppend(Concat(before), c);
      FramesAppend(s.rest, c);
      PackageTakes(known, s.rest + c);
      var q, p := AllFrames(b.rest + c), Package(known, s.rest + c);
      var later := OnlyKnown(known, AllFrames(p.rest).msgs);
      OnlyKnownAppend(known, all.msgs, q.msgs);
      OnlyKnownAppend(known, b.msgs, q.msgs);
      Regroup(s.msgs, OnlyKnown(known, b.msgs), OnlyKnown(known, q.msgs), p.msgs, later);
    }
  }

  lemma Regroup(a: seq<Msg>, b: seq<Msg>, c: seq<Msg>, d: seq<Msg>, e: seq<Msg>)
    requires b + c == d + e
    ensures a + b + c == a + d + e
  {
    Associate(a, b, c);
    Associate(a, d, e);
  }

  /** The ids of all frames but the last are known: no call stops in front of a whole frame. */
  predicate NoneCutOff(known: int -> bool, ms: seq<Msg>) { forall i :: 0 <= i < |ms| - 1 ==> known(ms[i].id) }

  lemma NoneCutOffParts(known: int -> bool, a: seq<Msg>, b: seq<Msg>)
    requires NoneCutOff(known, a + b)
    ensures NoneCutOff(known, a) && NoneCutOff(known, b)
  {
    assert forall i :: 0 <= i < |a| ==> a[i] == (a + b)[i];
    assert forall i :: 0 <= i < |b| ==> b[i] == (a + b)[|a| + i];
  }

  /** Then a call takes every whole frame there is. */
  lemma {:induction false} PackageTakesAll(known: int -> bool, s: seq<byte>)
    requires NoneCutOff(known, AllFrames(s).msgs)
    ensures Package(known, s) == Parsed(OnlyKnown(known, AllFrames(s).msgs), AllFrames(s).rest)
    decreases |s|
  {
    hide FrontOf;
    match FrontOf(s) {
      case Whole(m) =>
        var rest := s[|m.body| + 12..];
        var ms := AllFrames(rest).msgs;
        NoneCutOffParts(known, [m], ms);
        PackageTakesAll(known, rest);
        TakeOne(known, m, ms, OnlyKnown(known, ms), []);
        assert OnlyKnown(known, ms) + [] == OnlyKnown(known, ms);
        if !known(m.id) {
          assert ([m] + ms)[0] == m;
          NoFrames(rest);
        }
      case Incomplete =>
      case WrongLength =>
    }
  }

  lemma NoFrames(s: seq<byte>)
    ensures AllFrames(s).msgs == [] ==> AllFrames(s).rest == s
  {
    hide FrontOf;
  }

  /** And a session is one pass over the whole stream: nothing whole stays buffered. */
  lemma {:induction false} WholeSession(known: int -> bool, chunks: seq<seq<byte>>)
    requires NoneCutOff(known, AllFrames(Concat(chunks)).msgs)
    ensures Session(known, chunks)
         == Parsed(OnlyKnown(known, AllFrames(Concat(chunks)).msgs), AllFrames(Concat(chunks)).rest)
    decreases |chunks|
  {
    if chunks == [] {
      EmptyFront();
    } else {
      hide AllFrames, Package, NoneCutOff, OnlyKnown;
      var c, before := chunks[|chunks| - 1], chunks[..|chunks| - 1];
      var all := AllFrames(Concat(before));
      FramesAppend(Concat(before), c);
      var q := AllFrames(all.rest + c);
      NoneCutOffParts(known, all.msgs, q.msgs);
      WholeSession(known, before);
      PackageTakesAll(known, all.rest + c);
      OnlyKnownAppend(known, all.msgs, q.msgs);
    }
  }

  /** A call that stops in front of a whole frame would have ended at the same place had only the bytes before it come. */
  lemma {:induction false} CutOff(known: int -> bool, s: seq<byte>) returns (p: seq<byte>)
    requires !NoneCutOff(known, AllFrames(s).msgs)
    ensures var q := Package(known, s);
            s == p + q.rest && FrontOf(q.rest).Whole? && Package(known, p) == Parsed(q.msgs, [])
    decreases |s|
  {
    hide FrontOf, Package;
    match FrontOf(s) {
      case Whole(m) =>
        var k := |m.body| + 12;
        PackageStep(known, s, m);
        if known(m.id) {
          StillCutOff(known, m, AllFrames(s[k..]).msgs);
          var p' := CutOff(known, s[k..]);
          p := s[..k] + p';
          CutFurther(known, s, p', Package(known, s[k..]).rest);
        } else {
          p := s[..k];
          CutHere(known, s);
        }
      case Incomplete =>
      case WrongLength =>
    }
  }

  lemma CutHere(known: int -> bool, s: seq<byte>)
    requires FrontOf(s).Whole? && !known(FrontOf(s).msg.id)
    ensures var k := |FrontOf(s).msg.body| + 12;
            s == s[..k] + s[k..] && Package(known, s[..k]) == Parsed([], [])
    ensures AllFrames(s).msgs == [FrontOf(s).msg] + AllFrames(s[|FrontOf(s).msg.body| + 12..]).msgs
    ensures AllFrames(s[|FrontOf(s).msg.body| + 12..]).msgs != [] ==> FrontOf(s[|FrontOf(s).msg.body| + 12..]).Whole?
    ensures AllFrames(s[|FrontOf(s).msg.body| + 12..]).msgs == [] ==> NoneCutOff(known, AllFrames(s).msgs)
  {
    hide FrontOf;
    FrontOfHead(s);
    EmptyFront();
  }

  lemma CutFurther(known: int -> bool, s: seq<byte>, p: seq<byte>, r: seq<byte>)
    requires FrontOf(s).Whole? && known(FrontOf(s).msg.id) && s[|FrontOf(s).msg.body| + 12..] == p + r
    ensures var k := |FrontOf(s).msg.body| + 12; var q := Package(known, p);
            && s == s[..k] + p + r && Package(known, s[..k] + p) == Parsed([FrontOf(s).msg] + q.msgs, q.rest)
  {
    hide FrontOf, Package;
    var m, k := FrontOf(s).msg, |FrontOf(s).msg.body| + 12;
    FrontOfHead(s);
    FrontStays(s[..k], p);
    assert s[..k][k..] + p == p;
    PackageStep(known, s[..k] + p, m);
    assert s == s[..k] + (p + r) == s[..k] + p + r;
  }

  lemma StillCutOff(known: int -> bool, m: Msg, ms: seq<Msg>)
    requires !NoneCutOff(known, [m] + ms) && known(m.id)
    ensures !NoneCutOff(known, ms)
  {
    var i :| 0 <= i < |[m] + ms| - 1 && !known(([m] + ms)[i].id);
    assert i > 0 && ms[i - 1] == ([m] + ms)[i];
  }

  lemma FrontOfHead(s: seq<byte>)
    requires FrontOf(s).Whole?
    ensures FrontOf(s[..|FrontOf(s).msg.body| + 12]) == FrontOf(s)
  {
    hide FromLe32, Signed;
    var n := FromLe32(s[..4]);
    var t := s[..n + 12];
    assert t[..4] == s[..4] && t[4..8] == s[4..8] && t[8..12] == s[8..12] && t[12..n + 12] == s[12..n + 12];
  }

  lemma PackageShrinks(known: int -> bool, s: seq<byte>)
    requires FrontOf(s).Whole?
    ensures |Package(known, s).rest| < |s|
  {
    hide FrontOf;
    PackageNoLonger(known, s[|FrontOf(s).msg.body| + 12..]);
  }

  lemma {:induction false} PackageNoLonger(known: int -> bool, s: seq<byte>)
    ensures |Package(known, s).rest| <= |s|
    decreases |s|
  {
    hide FrontOf;
    if FrontOf(s).Whole? {
      PackageNoLonger(known, s[|FrontOf(s).msg.body| + 12..]);
    }
  }

  lemma SessionOfOne(known: int -> bool, c: seq<byte>)
    ensures Concat([c]) == c && Session(known, [c]) == Package(known, c)
  {
    var none: seq<seq<byte>> := [];
    assert [c][..0] == none && [] + c == c;
    assert [] + Package(known, c).msgs == Package(known, c).msgs;
  }

  lemma SessionOfTwo(known: int -> bool, c: seq<byte>, d: seq<byte>)
    ensures Concat([c, d]) == c + d
    ensures var p := Package(known, c); var q := Package(known, p.rest + d);
            Session(known, [c, d]) == Parsed(p.msgs + q.msgs, q.rest)
  {
    hide Package;
    SessionOfOne(known, c);
    assert [c, d][..1] == [c];
  }

  /** The two ways of cutting that show the difference: all at once, and behind the frame with the unknown id. */
  lemma UnknownShows(known: int -> bool, s: seq<byte>) returns (a: seq<seq<byte>>, b: seq<seq<byte>>)
    requires !NoneCutOff(known, AllFrames(s).msgs)
    ensures Concat(a) == s == Concat(b) && Session(known, a) != Session(known, b)
  {
    hide AllFrames, Package, FrontOf, Session, Concat;
    var p := CutOff(known, s);
    var rest := Package(known, s).rest;
    a, b := [s], [p, rest];
    SessionOfOne(known, s);
    SessionOfTwo(known, p, rest);
    assert [] + rest == rest;
    PackageShrinks(known, rest);
  }

  /** Every way of cutting the stream gives this session. */
  ghost predicate CutsDoNotMatter(known: int -> bool, s: seq<byte>) {
    forall a, b :: Concat(a) == s && Concat(b) == s ==> Session(known, a) == Session(known, b)
  }

  /** How a stream is cut does not matter exactly when no frame but the last has an unknown id. */
  lemma ChunkingIndependent(known: int -> bool, s: seq<byte>)
    ensures CutsDoNotMatter(known, s) <==> NoneCutOff(known, AllFrames(s).msgs)
  {
    hide AllFrames, NoneCutOff, Session, Concat, OnlyKnown;
    if NoneCutOff(known, AllFrames(s).msgs) {
      forall a, b | Concat(a) == s && Concat(b) == s ensures Session(known, a) == Session(known, b) {
        WholeSession(known, a);
        WholeSession(known, b);
      }
    } else {
      var a, b := UnknownShows(known, s);
    }
  }

  lemma EmptyFront()
    ensures FrontOf([]) == Incomplete
  {
  }

  /**
   * Whatever part of a stream of frames has arrived, in whatever chunks: the frames that are complete have been
   * returned, in order, and only the beginning of the next one is buffered.
   */
  lemma {:induction false} StreamParsed(known: int -> bool, ms: seq<Msg>, chunks: seq<seq<byte>>)
    requires AllSendable(ms) && AllKnown(known, ms) && Concat(chunks) <= EncodeAll(ms)
    ensures var s := Session(known, chunks); var k := |s.msgs|;
            && s.msgs <= ms && Concat(chunks) == EncodeAll(ms[..k]) + s.rest
            && if k < |ms| then s.rest < Encode(ms[k]) else s.rest == []
  {
    hide Encode, EncodeAll, AllFrames;
    var s := Concat(chunks);
    var k, t := CutPoint(ms, s);
    FramesOfEncoded(ms[..k], t);
    NothingWhole(ms, k, t);
    assert ms[..k] + [] == ms[..k];
    OnlyKnownAll(known, ms[..k]);
    WholeSession(known, chunks);
  }

  lemma {:induction false} OnlyKnownAll(known: int -> bool, ms: seq<Msg>)
    requires AllKnown(known, ms)
    ensures OnlyKnown(known, ms) == ms && NoneCutOff(known, ms)
    decreases |ms|
  {
    if ms != [] {
      OnlyKnownAll(known, ms[1..]);
    }
  }

  /** Where the part of the stream that has arrived ends. */
  lemma {:induction false} CutPoint(ms: seq<Msg>, s: seq<byte>) returns (k: nat, t: seq<byte>)
    requires AllSendable(ms) && s <= EncodeAll(ms)
    ensures k <= |ms| && s == EncodeAll(ms[..k]) + t
    ensures if k < |ms| then t < Encode(ms[k]) else t == []
    decreases |ms|
  {
    hide Encode;
    if ms == [] {
      k, t := 0, [];
    } else {
      var e := Encode(ms[0]);
      if |s| < |e| {
        k, t := 0, s;
        assert ms[..0] == [];
        assert s == EncodeAll(ms)[..|s|] == e[..|s|];
      } else {
        assert s[..|e|] == EncodeAll(ms)[..|e|] == e;
        assert EncodeAll(ms)[|e|..] == EncodeAll(ms[1..]);
        assert s[|e|..] <= EncodeAll(ms[1..]);
        var k';
        k', t := CutPoint(ms[1..], s[|e|..]);
        k := k' + 1;
        assert ms[..k][1..] == ms[1..][..k'];
        assert s == e + s[|e|..] == e + (EncodeAll(ms[1..][..k']) + t) == e + EncodeAll(ms[1..][..k']) + t;
      }
    }
  }

  lemma NothingWhole(ms: seq<Msg>, k: nat, t: seq<byte>)
    requires AllSendable(ms) && k <= |ms| && if k < |ms| then t < Encode(ms[k]) else t == []
    ensures AllFrames(t) == Parsed([], t)
  {
    hide Encode, FrontOf;
    EmptyFront();
    if k < |ms| {
      FrontOfPart(ms[k], |t|);
      assert t == Encode(ms[k])[..|t|];
    }
  }

  // ---------- The buffers ----------

  const DEF_LINE_BUFF_SIZE: nat := 256

  /** The first of a length, twice it, four times it and so on that is not below `need`. */
  function Doubled(size: nat, need: nat): (r: nat)
    requires size > 0
    ensures r >= need && r >= size
    ensures r > size ==> r % 2 == 0 && r / 2 < need && r / 2 >= size
    decreases if size < need then need - size else 0
  {
    if size >= need then size else Doubled(size * 2, need)
  }

  class LineBuffer {
    var buff: array<byte>

    constructor ()
      ensures fresh(buff) && buff.Length == 256 && forall i :: 0 <= i < buff.Length ==> buff[i] == 0
    {
      buff := new byte[DEF_LINE_BUFF_SIZE](i => 0);
    }

    /** Makes room for `need` bytes by doubling, or for more than there was; the contents stay, the new part is zero. */
    method AppendSize(need: nat)
      requires buff.Length > 0
      modifies this
      ensures fresh(buff) && buff.Length >= old(buff.Length) && buff.Length >= need
      ensures need == 0 ==> buff.Length == if old(buff.Length) < 0x8_0000 then old(buff.Length) * 2 else old(buff.Length) + 0x1000
      ensures need > 0 ==> buff.Length == Doubled(old(buff.Length), need)
      ensures buff[..old(buff.Length)] == old(buff[..])
      ensures forall i :: old(buff.Length) <= i < buff.Length ==> buff[i] == 0
    {
      var size := buff.Length;
      if need == 0 {
        size := if size >= 1024 * 512 then size + 1024 * 4 else size * 2;
      } else {
        while size < need
          invariant size >= buff.Length && Doubled(size, need) == Doubled(buff.Length, need)
        {
          size := size * 2;
        }
      }
      var newBuff := new byte[size](i => 0);
      forall i | 0 <= i < buff.Length {
        newBuff[i] := buff[i];
      }
      assert newBuff[..buff.Length] == buff[..];
      buff := newBuff;
    }

    method CleanData()
      modifies buff
      ensures forall i :: 0 <= i < buff.Length ==> buff[i] == 0
    {
      forall i | 0 <= i < buff.Length {
        buff[i] := 0;
      }
    }

    /** Copies bytes to position `at`. */
    method Put(at: nat, s: seq<byte>)
      requires at + |s| <= buff.Length
      modifies buff
      ensures buff[..] == old(buff[..at]) + s + old(buff[at + |s|..])
    {
      ghost var mem := buff[..];
      forall i | 0 <= i < |s| {
        buff[at + i] := s[i];
      }
      assert buff[..] == mem[..at] + s + mem[at + |s|..];
    }
  }

  /** A buffer that starts with `front` and is zero behind it. */
  ghost predicate Filled(line: LineBuffer, front: seq<byte>)
    reads line, line.buff
  {
    |front| <= line.buff.Length && line.buff[..] == front + Zeros(line.buff.Length - |front|)
  }

  /** A cleaned buffer with room for what comes. */
  method Prepare(line: LineBuffer, need: nat)
    requires line.buff.Length > 0 && need > 0
    modifies line, line.buff
    ensures fresh(line.buff) && line.buff.Length >= need && Filled(line, [])
  {
    line.CleanData();
    line.AppendSize(need);
    assert line.buff[..] == [] + Zeros(line.buff.Length);
  }

  /** More bytes directly behind those put so far. */
  method PutBehind(line: LineBuffer, at: nat, s: seq<byte>, ghost front: seq<byte>)
    requires Filled(line, front) && at == |front| && at + |s| <= line.buff.Length
    modifies line.buff
    ensures Filled(line, front + s)
  {
    ghost var n := line.buff.Length;
    line.Put(at, s);
    PutIs(front, s, n);
  }

  lemma PutIs(front: seq<byte>, s: seq<byte>, n: nat)
    requires |front| + |s| <= n
    ensures var mem, at := front + Zeros(n - |front|), |front|;
            mem[..at] + s + mem[at + |s|..] == front + s + Zeros(n - |front + s|)
  {
    assert Zeros(n - |front|)[|s|..] == Zeros(n - |front + s|);
  }

  /** SocketOp::write: the frame is put together in the write buffer; the result is what is handed on to be sent. */
  method Write(m: Msg, wt: LineBuffer) returns (out: seq<byte>)
    requires IsInt32(m.id) && IsInt32(m.uid) && |m.body| < 0x8000_0000 && wt.buff.Length > 0
    modifies wt, wt.buff
    ensures out == Encode(m) && fresh(wt.buff)
    ensures Filled(wt, out)
  {
    hide Le32, Filled;
    var size, id, uid := Le32(|m.body|), Le32(Unsigned(m.id)), Le32(Unsigned(m.uid));
    Prepare(wt, |m.body| + 12);
    PutBehind(wt, 0, size, []);
    PutBehind(wt, 4, id, [] + size);
    PutBehind(wt, 8, uid, [] + size + id);
    PutBehind(wt, 12, m.body, [] + size + id + uid);
    assert [] + size == size;
    assert Filled(wt, Encode(m));
    out := wt.buff[..|m.body| + 12];
    FrontOfFilled(wt, Encode(m));
  }

  lemma FrontOfFilled(line: LineBuffer, front: seq<byte>)
    requires Filled(line, front)
    ensures |front| <= line.buff.Length && line.buff[..|front|] == front
  {
  }

  /** What has been returned, in front of what is still to be parsed. */
  function Behind(ret: seq<Msg>, p: Parsed): Parsed { Parsed(ret + p.msgs, p.rest) }

  lemma NoneBehind(p: Parsed)
    ensures Behind([], p) == p
  {
  }

  lemma BehindEnd(ret: seq<Msg>, rest: seq<byte>)
    ensures Behind(ret, Parsed([], rest)) == Parsed(ret, rest)
  {
  }

  lemma BehindNext(ret: seq<Msg>, m: Msg, p: Parsed)
    ensures Behind(ret + [m], p) == Behind(ret, Parsed([m] + p.msgs, p.rest))
  {
    Associate(ret, [m], p.msgs);
  }

  /** MsgCenter::parse_package on the read buffer of a socket. */
  method ParsePackage(ring: RingBuff, line: LineBuffer, known: int -> bool) returns (ret: seq<Msg>)
    requires ring.Valid() && line.buff.Length > 0 && ring.buff != line.buff
    modifies ring`tail, ring.buff, line, line.buff
    ensures ring.Valid() && Parsed(ret, ring.Contents()) == Package(known, old(ring.Contents()))
    ensures line.buff.Length > 0 && (line.buff == old(line.buff) || fresh(line.buff))
    ensures old(ring.Clean()) ==> ring.Clean()
  {
    hide FrontOf, FromLe32, Signed, Package, Window, Blank, Behind;
    ret := [];
    ghost var all := Package(known, ring.Contents());
    NoneBehind(all);
    while true
      invariant ring.Valid() && (old(ring.Clean()) ==> ring.Clean())
      invariant line.buff.Length > 0 && line.buff != ring.buff && (line.buff == old(line.buff) || fresh(line.buff))
      invariant Behind(ret, Package(known, ring.Contents())) == all
      decreases |ring.Contents()|
    {
      ghost var s := ring.Contents();
      BehindEnd(ret, s);
      if ring.DataSize() <= 4 {
        ShortFront(s);
        PackageEnds(known, s);
        break;
      }
      var ok, bytes := ring.ReadBegin(4);
      var pkgLen := FromLe32(bytes);
      FrontIs(s);
      if pkgLen <= 1 || pkgLen > 2048 {
        PackageEnds(known, s);
        break;
      }
      if ring.DataSize() < pkgLen + 4 + 4 + 4 {
        PackageEnds(known, s);
        break;
      }
      var m := TakeFrame(ring, line, pkgLen);
      PackageStep(known, s, m);
      BehindEnd(ret, ring.Contents());
      if !known(m.id) {
        break;
      }
      BehindNext(ret, m, Package(known, ring.Contents()));
      ret := ret + [m];
    }
  }

  /** Takes a frame whose length has been looked at: header and payload go through the parse buffer. */
  method TakeFrame(ring: RingBuff, line: LineBuffer, n: nat) returns (m: Msg)
    requires ring.Valid() && line.buff.Length > 0 && ring.buff != line.buff && 0 < n && n + 12 <= |ring.Contents()|
    modifies ring`tail, ring.buff, line, line.buff
    ensures ring.Valid() && ring.buff == old(ring.buff) && ring.Contents() == old(ring.Contents())[n + 12..]
    ensures old(ring.Clean()) ==> ring.Clean()
    ensures line.buff.Length > 0 && fresh(line.buff)
    ensures Filled(line, m.body)
    ensures var s := old(ring.Contents());
            m == Msg(Signed(FromLe32(s[4..8])), Signed(FromLe32(s[8..12])), s[12..n + 12])
  {
    hide FromLe32, Signed, Window, Blank, Filled;
    ghost var s := ring.Contents();
    Pieces(s, n);
    var _ := ring.DelData(4);
    Prepare(line, n);
    var ok, bytes := ring.ReadDelBegin(4);
    var id := Signed(FromLe32(bytes));
    ok, bytes := ring.ReadDelBegin(4);
    var uid := Signed(FromLe32(bytes));
    ok, bytes := ring.ReadDelBegin(n);
    PutBehind(line, 0, bytes, []);
    FrontOfFilled(line, [] + bytes);
    m := Msg(id, uid, line.buff[..n]);
    assert m.body == [] + bytes == bytes;
  }

  lemma PackageEnds(known: int -> bool, s: seq<byte>)
    requires !FrontOf(s).Whole?
    ensures Package(known, s) == Parsed([], s)
  {
    hide FrontOf;
  }

  lemma PackageStep(known: int -> bool, s: seq<byte>, m: Msg)
    requires FrontOf(s) == Whole(m)
    ensures var rest := s[|m.body| + 12..]; var p := Package(known, rest);
            Package(known, s) == if known(m.id) then Parsed([m] + p.msgs, p.rest) else Parsed([], rest)
  {
    hide FrontOf;
  }

  lemma ShortFront(s: seq<byte>)
    requires |s| <= 4
    ensures FrontOf(s) == Incomplete
  {
  }

  lemma FrontIs(s: seq<byte>)
    requires |s| > 4
    ensures var n := FromLe32(s[..4]);
            FrontOf(s) == if n <= 1 || n > 2048 then WrongLength
                          else if |s| < n + 12 then Incomplete
                          else Whole(Msg(Signed(FromLe32(s[4..8])), Signed(FromLe32(s[8..12])), s[12..n + 12]))
  {
    hide FromLe32, Signed;
  }

  lemma Pieces(s: seq<byte>, n: nat)
    requires n + 12 <= |s|
    ensures s[4..][..4] == s[4..8] && s[4..][4..] == s[8..] && s[8..][..4] == s[8..12] && s[8..][4..] == s[12..]
    ensures s[12..][..n] == s[12..n + 12] && s[12..][n..] == s[n + 12..]
  {
  }

  /** A socket: each chunk goes into the read buffer, then parse_package runs. */
  method Receive(chunks: seq<seq<byte>>, known: int -> bool) returns (ret: seq<Msg>, ring: RingBuff)
    ensures fresh(ring) && ring.Valid() && ring.Clean()
    ensures Parsed(ret, ring.Contents()) == Session(known, chunks)
  {
    hide Package;
    ring := new RingBuff();
    var line := new LineBuffer();
    ret := [];
    for i := 0 to |chunks|
      invariant fresh(ring) && fresh(ring.buff) && fresh(line) && fresh(line.buff) && ring.Valid() && ring.Clean()
      invariant line.buff.Length > 0 && line.buff != ring.buff
      invariant Parsed(ret, ring.Contents()) == Session(known, chunks[..i])
    {
      ring.AddData(chunks[i]);
      var more := ParsePackage(ring, line, known);
      ret := ret + more;
      assert chunks[..i + 1][..i] == chunks[..i];
    }
    assert chunks[..|chunks|] == chunks;
  }
}
