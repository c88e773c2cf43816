/** Byte streams: a text with a read cursor, ended by a NUL. */
module Stream {

  type byte = b: int | 0 <= b < 256

  type Text = seq<byte>

  /** The byte under the cursor.  Every position from the end of the text on holds NUL, the terminator. */
  function Peek(t: Text, p: nat): byte {
    if p < |t| then t[p] else 0
  }

  /** How much text is left at a cursor: the termination measure of every scanner. */
  function Left(t: Text, p: nat): nat {
    if p < |t| then |t| - p else 0
  }

  predicate IsSpace(c: byte) {
    c == 0x20 || c == 0x0A || c == 0x0D || c == 0x09
  }

  /** Where SkipWhitespace leaves a cursor that starts at `p`. */
  function SkipSpace(t: Text, p: nat): (q: nat)
    ensures p <= q && Left(t, q) <= Left(t, p)
    ensures !IsSpace(Peek(t, q))
    ensures forall i :: p <= i < q ==> IsSpace(Peek(t, i))
    ensures Peek(t, p) != 0 || q == p
    decreases Left(t, p)
  {
    if IsSpace(Peek(t, p)) then SkipSpace(t, p + 1) else p
  }

  /** `t` has the bytes of `w` at position `p`. */
  predicate At(t: Text, p: nat, w: seq<byte>) {
    p + |w| <= |t| && t[p..p + |w|] == w
  }

  lemma AtByte(t: Text, p: nat, w: seq<byte>, i: nat)
    requires At(t, p, w) && i < |w|
    ensures Peek(t, p + i) == w[i]
  {
    assert t[p..p + |w|][i] == t[p + i];
  }

  lemma AtSplit(t: Text, p: nat, u: seq<byte>, v: seq<byte>)
    ensures At(t, p, u + v) <==> At(t, p, u) && At(t, p + |u|, v)
  {
    var n := |u| + |v|;
    if p + n <= |t| {
      assert t[p..p + n] == t[p..p + |u|] + t[p + |u|..p + n];
      assert (u + v)[..|u|] == u && (u + v)[|u|..] == v;
      if t[p..p + n] == u + v {
        assert t[p..p + |u|] == (u + v)[..|u|];
        assert t[p + |u|..p + n] == (u + v)[|u|..];
      }
    }
  }

  /** Skipping passes over whitespace that is known to be there. */
  lemma {:induction false} SkipOver(t: Text, p: nat, w: seq<byte>)
    requires At(t, p, w) && forall i :: 0 <= i < |w| ==> IsSpace(w[i])
    ensures SkipSpace(t, p) == SkipSpace(t, p + |w|)
    decreases |w|
  {
    if w != [] {
      AtByte(t, p, w, 0);
      assert w == w[..1] + w[1..];
      AtSplit(t, p, w[..1], w[1..]);
      SkipOver(t, p + 1, w[1..]);
    }
  }
}
