/** The untyped stack of the parser and the writer: a byte array that grows when it is full. */
module ByteStack {
  import opened Stream

  class Stack {
    var mem: array?<byte>
    var top: nat
    const initialCapacity: nat

    ghost predicate Valid()
      reads this
    {
      initialCapacity > 0 && if mem == null then top == 0 else top <= mem.Length
    }

    ghost function Contents(): seq<byte>
      requires Valid()
      reads this, mem
    {
      if mem == null then [] else mem[..top]
    }

    function GetCapacity(): nat
      reads this
    {
      if mem == null then 0 else mem.Length
    }

    static function Larger(m: nat, n: nat): nat { if m < n then n else m }

    constructor (stackCapacity: nat)
      requires stackCapacity > 0
      ensures Valid() && Contents() == [] && mem == null && initialCapacity == stackCapacity
    {
      mem, top, initialCapacity := null, 0, stackCapacity;
    }

    /** Reallocates; the bytes in use move along. */
    method Resize(newCapacity: nat)
      requires Valid() && newCapacity >= top
      modifies this`mem
      ensures Valid() && mem != null && fresh(mem) && mem.Length == newCapacity && Contents() == old(Contents())
    {
      var newMem := new byte[newCapacity];
      if mem != null {
        forall i | 0 <= i < top {
          newMem[i] := mem[i];
        }
        assert newMem[..top] == mem[..top];
      }
      mem := newMem;
    }

    /** The initial capacity at first, half as much again later, or what is needed when that is more. */
    method Expand(n: nat)
      requires Valid()
      modifies this`mem
      ensures Valid() && mem != null && fresh(mem) && Contents() == old(Contents()) && mem.Length >= top + n
      ensures mem.Length == Larger(if old(mem) == null then initialCapacity else old(GetCapacity()) + (old(GetCapacity()) + 1) / 2, top + n)
    {
      var newCapacity: nat;
      if mem == null {
        newCapacity := initialCapacity;
      } else {
        newCapacity := mem.Length;
        newCapacity := newCapacity + (newCapacity + 1) / 2;
      }
      var newSize := top + n;
      if newCapacity < newSize {
        newCapacity := newSize;
      }
      Resize(newCapacity);
    }

    /** Makes room for `n` bytes on top and answers where they start; what they hold is left open. */
    method Push(n: nat) returns (at: nat)
      requires Valid()
      modifies this`mem, this`top
      ensures Valid() && mem != null && (mem == old(mem) || fresh(mem))
      ensures mem == old(mem) <==> old(mem != null && top + n < mem.Length)
      ensures mem != old(mem) ==> mem.Length == Larger(if old(mem) == null then initialCapacity else old(GetCapacity()) + (old(GetCapacity()) + 1) / 2, top)
      ensures at == |old(Contents())| && |Contents()| == at + n && Contents()[..at] == old(Contents())
    {
      if mem == null || top + n >= mem.Length {
        Expand(n);
      }
      at := top;
      top := top + n;
    }

    /** Takes `n` bytes off; they can still be read through the result. */
    method Pop(n: nat) returns (bytes: seq<byte>)
      requires Valid() && n <= |Contents()|
      modifies this`top
      ensures Valid() && old(Contents()) == Contents() + bytes && |bytes| == n
    {
      top := top - n;
      bytes := if mem == null then [] else mem[top..top + n];
    }

    /** The topmost `n` bytes. */
    method Top(n: nat) returns (bytes: seq<byte>)
      requires Valid() && n <= |Contents()|
      ensures bytes == Contents()[|Contents()| - n..]
    {
      bytes := if mem == null then [] else mem[top - n..top];
    }

    method PutByte(c: byte)
      requires Valid()
      modifies this`mem, this`top, mem
      ensures Valid() && (mem == old(mem) || fresh(mem)) && Contents() == old(Contents()) + [c]
    {
      ghost var was := Contents();
      var at := Push(1);
      mem[at] := c;
      assert Contents() == was + [c];
    }

    method PushBytes(s: seq<byte>)
      requires Valid()
      modifies this`mem, this`top, mem
      ensures Valid() && (mem == old(mem) || fresh(mem)) && Contents() == old(Contents()) + s
    {
      ghost var was := Contents();
      assert was + [] == was;
      for i := 0 to |s|
        invariant Valid() && (mem == old(mem) || fresh(mem)) && Contents() == was + s[..i]
      {
        PutByte(s[i]);
        assert was + s[..i] + [s[i]] == was + s[..i + 1];
      }
      assert s[..|s|] == s;
    }

    /** What ParseString does with the stack: the bytes of a string go on top one by one and come off together. */
    method HoldString(s: seq<byte>) returns (bytes: seq<byte>)
      requires Valid()
      modifies this`mem, this`top, mem
      ensures Valid() && bytes == s && Contents() == old(Contents())
    {
      ghost var was := Contents();
      PushBytes(s);
      bytes := Pop(|s|);
      SameSplit(was, s, Contents(), bytes);
    }

    static lemma SameSplit(a: seq<byte>, b: seq<byte>, c: seq<byte>, d: seq<byte>)
      requires a + b == c + d && |b| == |d|
      ensures a == c && b == d
    {
      assert a == (a + b)[..|a|] && c == (c + d)[..|c|];
      assert b == (a + b)[|a|..] && d == (c + d)[|c|..];
    }

    method Clear()
      requires Valid()
      modifies this`top
      ensures Valid() && Contents() == []
    {
      top := 0;
    }

    /** Gives back what is not in use. */
    method ShrinkToFit()
      requires Valid()
      modifies this`mem, this`top
      ensures Valid() && Contents() == old(Contents()) && GetCapacity() == |Contents()|
    {
      if top == 0 {
        mem, top := null, 0;
      } else {
        Resize(top);
      }
    }
  }
}
