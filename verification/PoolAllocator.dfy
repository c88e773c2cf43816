/** The pool allocator: blocks are cut off the front chunk of a list of chunks and never given back. */
module PoolAllocator {
  import opened Stream

  const TWO32: nat := 0x1_0000_0000

  /** RAPIDJSON_ALIGN on a 64-bit size: the mask is a 32-bit constant, so it also clears the upper half. */
  function Align(x: nat): nat { (x + 3) % TWO32 / 4 * 4 }

  /** Rounding up works for sizes that fit in 32 bits with room to round, and for no others. */
  lemma AlignWorks(x: nat)
    ensures Align(x) % 4 == 0
    ensures Align(x) >= x <==> x < 0xFFFF_FFFD
    ensures x < 0xFFFF_FFFD ==> Align(x) < x + 4
  {
    if x < TWO32 - 3 {
      assert (x + 3) % TWO32 == x + 3;
    } else if x < TWO32 {
      assert (x + 3) % TWO32 == x + 3 - TWO32;
    }
  }

  /** A size rounded up to a multiple of four. */
  function Round4(n: nat): nat { (n + 3) / 4 * 4 }

  lemma AlignRounds(n: nat)
    requires n < TWO32 - 3
    ensures Align(n) == Round4(n)
  {
    assert (n + 3) % TWO32 == n + 3;
  }

  class Chunk {
    const data: array<byte>
    var size: nat
    const next: Chunk?

    constructor (capacity: nat, next: Chunk?)
      ensures fresh(data) && data.Length == capacity && size == 0 && this.next == next
    {
      data := new byte[capacity];
      size := 0;
      this.next := next;
    }
  }

  datatype Ptr = Null | At(chunk: Chunk, offset: nat)

  /** A block that a caller holds, with the size the caller knows. */
  datatype Block = Block(chunk: Chunk, offset: nat, size: nat)

  predicate Disjoint(a: Block, b: Block) {
    a.chunk != b.chunk || a.offset + a.size <= b.offset || b.offset + b.size <= a.offset
  }

  /** The chunks behind `head`, in order. */
  ghost predicate Linked(head: Chunk?, chunks: seq<Chunk>) {
    if chunks == [] then head == null
    else head == chunks[0] && Linked(chunks[0].next, chunks[1..])
  }

  ghost function TotalSize(chunks: seq<Chunk>): nat
    reads chunks
  {
    if chunks == [] then 0 else TotalSize(chunks[..|chunks| - 1]) + chunks[|chunks| - 1].size
  }

  ghost function TotalCapacity(chunks: seq<Chunk>): nat {
    if chunks == [] then 0 else TotalCapacity(chunks[..|chunks| - 1]) + chunks[|chunks| - 1].data.Length
  }

  /** A chunk in front of others adds its own bytes to both sums. */
  lemma {:induction false} TotalsOfFront(c: Chunk, rest: seq<Chunk>)
    ensures TotalCapacity([c] + rest) == c.data.Length + TotalCapacity(rest)
    ensures TotalSize([c] + rest) == c.size + TotalSize(rest)
    ensures TotalCapacity([]) == TotalSize([]) == 0
    decreases |rest|
  {
    var all := [c] + rest;
    if rest != [] {
      assert all[..|all| - 1] == [c] + rest[..|rest| - 1];
      TotalsOfFront(c, rest[..|rest| - 1]);
    } else {
      assert all[..0] == [];
    }
  }

  ghost function Bytes(b: Block): seq<byte>
    requires b.offset + b.size <= b.chunk.data.Length
    reads b.chunk.data
  {
    b.chunk.data[b.offset..b.offset + b.size]
  }

  class MemoryPoolAllocator {
    var chunkHead: Chunk?
    const chunkCapacity: nat
    ghost var chunks: seq<Chunk>
    ghost var live: set<Block>

    /** The chunks are the list behind the head, all different, and filled in multiples of four. */
    ghost predicate ChunksFit()
      reads this, chunks
    {
      && Linked(chunkHead, chunks)
      && (forall i, j :: 0 <= i < j < |chunks| ==> chunks[i] != chunks[j] && chunks[i].data != chunks[j].data)
      && forall c :: c in chunks ==> c.size <= c.data.Length && c.size % 4 == 0
    }

    /** A block lies in the used part of its chunk and starts at a multiple of four. */
    ghost predicate BlockFits(b: Block)
      reads this, chunks
    {
      b.chunk in chunks && b.offset % 4 == 0 && b.offset < b.chunk.size && b.offset + b.size <= b.chunk.size
    }

    /** Live blocks fit and do not overlap. */
    ghost predicate Valid()
      reads this, chunks
    {
      && ChunksFit()
      && (forall b :: b in live ==> BlockFits(b))
      && forall a, b :: a in live && b in live && a != b ==> Disjoint(a, b)
    }

    ghost function Memory(): set<array<byte>>
      reads this
    {
      set c: Chunk | c in chunks :: c.data
    }

    constructor (chunkSize: nat)
      ensures Valid() && chunks == [] && live == {} && chunkCapacity == chunkSize
    {
      chunkHead, chunkCapacity, chunks, live := null, chunkSize, [], {};
    }

    /** The first chunk is a buffer of the user. */
    constructor WithBuffer(first: Chunk, chunkSize: nat)
      requires first.size == 0 && first.next == null
      ensures Valid() && chunks == [first] && live == {} && chunkCapacity == chunkSize
    {
      chunkHead, chunkCapacity, chunks, live := first, chunkSize, [first], {};
    }

    method AddChunk(capacity: nat)
      requires Valid()
      modifies this`chunkHead, this`chunks
      ensures Valid() && chunkHead != null && fresh(chunkHead) && fresh(chunkHead.data)
      ensures chunks == [chunkHead] + old(chunks) && chunkHead.data.Length == capacity && chunkHead.size == 0
    {
      hide Disjoint;
      var chunk := new Chunk(capacity, chunkHead);
      assert ([chunk] + chunks)[1..] == chunks;
      chunkHead, chunks := chunk, [chunk] + chunks;
      assert forall b :: b in live ==> b.chunk in chunks[1..];
    }

    /** More bytes of the front chunk in use. */
    method Widen(increment: nat)
      requires Valid() && chunkHead != null && increment % 4 == 0 && chunkHead.size + increment <= chunkHead.data.Length
      modifies chunkHead`size
      ensures Valid() && chunkHead.size == old(chunkHead.size) + increment
    {
      hide Linked, Disjoint;
      chunkHead.size := chunkHead.size + increment;
      assert forall b :: b in live ==> BlockFits(b);
    }

    /** A block in the used part that no live block overlaps becomes live. */
    ghost method Enliven(b: Block)
      requires Valid() && BlockFits(b) && forall c :: c in live ==> Disjoint(c, b)
      modifies this`live
      ensures Valid() && live == old(live) + {b}
    {
      hide Linked, Disjoint;
      DisjointSymmetric();
      live := live + {b};
    }

    /** Cuts a block off the free part of the front chunk. */
    method Cut(size0: nat, size: nat) returns (p: Ptr)
      requires Valid() && 0 < size0 <= size && size % 4 == 0
      requires chunkHead != null && chunkHead.size + size <= chunkHead.data.Length
      modifies this`live, chunkHead`size
      ensures Valid() && p == At(chunkHead, old(chunkHead.size)) && chunkHead.size == old(chunkHead.size) + size
      ensures live == old(live) + {Block(chunkHead, old(chunkHead.size), size0)}
      ensures forall b :: b in old(live) ==> Disjoint(b, Block(chunkHead, old(chunkHead.size), size0))
    {
      hide Linked, ChunksFit;
      p := At(chunkHead, chunkHead.size);
      ghost var new_ := Block(chunkHead, chunkHead.size, size0);
      assert forall b :: b in live ==> BlockFits(b) && Disjoint(b, new_);
      HeadIsChunk();
      Widen(size);
      Enliven(new_);
    }

    /** One chunk of the pool's size with at most `used` bytes in use, or none yet. */
    ghost predicate OneChunk(used: nat)
      reads this, chunks
    {
      |chunks| <= 1 && (|chunks| == 1 ==> chunks[0].data.Length == chunkCapacity && chunks[0].size <= used)
    }

    /** Whatever was in use, a request takes `share` bytes more at most, and no second chunk while they fit. */
    twostate predicate Frugal(share: nat)
      reads this, chunks
    {
      forall used: nat :: old(OneChunk(used)) && used + share <= chunkCapacity ==> OneChunk(used + share)
    }

    lemma HeadIsFirst()
      requires Valid()
      ensures if chunks == [] then chunkHead == null else chunkHead == chunks[0]
    {
    }

    method Malloc(size0: nat) returns (p: Ptr)
      requires Valid() && size0 < TWO32 - 3
      modifies this`chunkHead, this`chunks, this`live, chunks
      ensures Valid() && Grown(old(chunks))
      ensures size0 == 0 ==> Untouched(old(chunks))
      ensures size0 > 0 ==> Served(old(chunks), Align(size0)) && p.At? && p.chunk == chunkHead && p.offset + Align(size0) == chunkHead.size
      ensures Frugal(Round4(size0))
      ensures size0 == 0 ==> p == Null && live == old(live)
      ensures size0 > 0 ==> p.At? && live == old(live) + {Block(p.chunk, p.offset, size0)}
      ensures size0 > 0 ==> forall b :: b in old(live) ==> Disjoint(b, Block(p.chunk, p.offset, size0)) && (b.chunk != p.chunk || b.offset < p.offset)
    {
      hide Linked, Disjoint;
      if size0 == 0 {
        return Null;
      }
      AlignRounds(size0);
      HeadIsFirst();
      var size := Align(size0);
      if chunkHead == null || chunkHead.size + size > chunkHead.data.Length {
        AddChunk(if chunkCapacity > size then chunkCapacity else size);
        assert chunks[1..] == old(chunks);
      }
      HeadIsChunk();
      p := Cut(size0, size);
    }

    /** Nothing has been cut off any chunk. */
    twostate predicate Untouched(was: seq<Chunk>)
      reads this, was
    {
      chunks == was && chunkHead == old(chunkHead) && forall c :: c in was ==> c.size == old(c.size)
    }

    /** There is a front chunk with this much room left. */
    ghost predicate HasRoom(need: nat)
      reads this, chunkHead
    {
      chunkHead != null && chunkHead.size + need <= chunkHead.data.Length
    }

    /** The front chunk has `need` more bytes in use. */
    twostate predicate Extended(was: seq<Chunk>, need: nat)
      reads this, was, chunkHead
    {
      && chunks == was && chunkHead != null && chunkHead == old(chunkHead) && chunkHead.size == old(chunkHead.size) + need
      && forall c :: c in was && c != chunkHead ==> c.size == old(c.size)
    }

    /**
     * A block of `need` bytes has been cut off the front chunk, or, exactly when that had no room, off a new one, which
     * is as large as the pool's chunks are unless the block is larger.
     */
    twostate predicate Served(was: seq<Chunk>, need: nat)
      reads this, was, chunkHead
    {
      && (old(HasRoom(need)) ==> Extended(was, need))
      && (!old(HasRoom(need)) ==>
            && chunkHead != null && chunks == [chunkHead] + was && fresh(chunkHead) && chunkHead.size == need
            && chunkHead.data.Length == (if need > chunkCapacity then need else chunkCapacity)
            && forall c :: c in was ==> c.size == old(c.size))
    }

    /** The chunks are those there were, or one new chunk in front of them. */
    twostate predicate Grown(was: seq<Chunk>)
      reads this
    {
      chunks == was || (chunks != [] && chunks[1..] == was && fresh(chunks[0]) && fresh(chunks[0].data))
    }

    lemma HeadIsChunk()
      requires Valid() && chunkHead != null
      ensures chunkHead in chunks && chunkHead.size % 4 == 0
    {
    }

    /** A live block gets a new size where it is; it may only grow into the part that no block uses. */
    ghost method Resize(b: Block, newSize: nat)
      requires ChunksFit() && (forall c :: c in live ==> BlockFits(c))
      requires forall x, y :: x in live && y in live && x != y ==> Disjoint(x, y)
      requires b in live && b.offset + newSize <= b.chunk.size
      requires forall c :: c in live && c != b ==> Disjoint(c, Block(b.chunk, b.offset, newSize))
      modifies this`live
      ensures Valid() && live == old(live) - {b} + {Block(b.chunk, b.offset, newSize)}
    {
      hide Linked, Disjoint;
      live := live - {b} + {Block(b.chunk, b.offset, newSize)};
      DisjointSymmetric();
      assert BlockFits(Block(b.chunk, b.offset, newSize));
    }

    static lemma DisjointSymmetric()
      ensures forall a, b :: Disjoint(a, b) <==> Disjoint(b, a)
    {
    }

    /** Behind a block that ends where the used part ends there is no other block. */
    lemma NothingBehind(b: Block, newSize: nat)
      requires Valid() && b in live && b.offset + b.size == b.chunk.size
      ensures forall c :: c in live && c != b ==> Disjoint(c, Block(b.chunk, b.offset, newSize))
    {
      hide Linked, ChunksFit;
      forall c | c in live && c != b ensures Disjoint(c, Block(b.chunk, b.offset, newSize)) {
        assert BlockFits(c) && Disjoint(c, b);
      }
    }

    /** The branch that expands the last block of the front chunk. */
    method Expand(p: Ptr, originalSize: nat, newSize: nat, increment: nat)
      requires Valid() && p.At? && Block(p.chunk, p.offset, originalSize) in live && originalSize < newSize
      requires p.chunk == chunkHead && p.offset + originalSize == chunkHead.size
      requires increment % 4 == 0 && increment >= newSize - originalSize && chunkHead.size + increment <= chunkHead.data.Length
      modifies this`live, p.chunk`size
      ensures Valid() && live == old(live) - {Block(p.chunk, p.offset, originalSize)} + {Block(p.chunk, p.offset, newSize)}
      ensures p.chunk.size == old(p.chunk.size) + increment
    {
      hide Linked, Disjoint;
      ghost var b := Block(p.chunk, p.offset, originalSize);
      NothingBehind(b, newSize);
      InBounds();
      Widen(increment);
      Resize(b, newSize);
    }

    /** Copies the old contents to a new block; the bytes of every other live block stay. */
    method Copy(p: Ptr, q: Ptr, n: nat, ghost size: nat)
      requires Valid() && p.At? && q.At? && n <= size
      requires Block(p.chunk, p.offset, n) in live && Block(q.chunk, q.offset, size) in live
      requires Disjoint(Block(p.chunk, p.offset, n), Block(q.chunk, q.offset, size))
      modifies q.chunk.data
      ensures q.chunk.data[q.offset..q.offset + n] == old(p.chunk.data[p.offset..p.offset + n])
      ensures forall b :: b in live && b != Block(q.chunk, q.offset, size) ==> Bytes(b) == old(Bytes(b))
    {
      hide Linked;
      ghost var was := p.chunk.data[p.offset..p.offset + n];
      ghost var new_ := Block(q.chunk, q.offset, size);
      assert BlockFits(new_) && BlockFits(Block(p.chunk, p.offset, n));
      forall i | 0 <= i < n {
        q.chunk.data[q.offset + i] := p.chunk.data[p.offset + i];
      }
      assert q.chunk.data[q.offset..q.offset + n] == was;
      forall b | b in live && b != new_ ensures Bytes(b) == old(Bytes(b)) {
        assert BlockFits(b) && Disjoint(b, new_);
        DataApart(b.chunk, q.chunk);
      }
    }

    lemma DataApart(c: Chunk, d: Chunk)
      requires ChunksFit() && c in chunks && d in chunks
      ensures c != d ==> c.data != d.data
    {
    }

    /** The block is the last one of the front chunk, as its size says, and there is room behind it. */
    predicate CanExpand(p: Ptr, originalSize: nat, newSize: nat)
      requires originalSize <= newSize
      reads this, chunkHead
    {
      p.At? && p.chunk == chunkHead && p.offset + originalSize == chunkHead.size
      && chunkHead.size + Align(newSize - originalSize) <= chunkHead.data.Length
    }

    /** The path of Realloc that allocates a new block and copies; the old one is not used again. */
    method MoveBlock(p: Ptr, originalSize: nat, newSize: nat) returns (q: Ptr)
      requires Valid() && originalSize < newSize < TWO32 - 3 && p.At? && Block(p.chunk, p.offset, originalSize) in live
      modifies this`chunkHead, this`chunks, this`live, chunks, Memory()
      ensures Served(old(chunks), Align(newSize)) && Frugal(Round4(newSize))
      ensures Valid() && Grown(old(chunks)) && q.At? && q != p && forall b :: b in old(live) ==> q != At(b.chunk, b.offset)
      ensures live == old(live) - {Block(p.chunk, p.offset, originalSize)} + {Block(q.chunk, q.offset, newSize)}
      ensures q.offset + originalSize <= q.chunk.data.Length
      ensures q.chunk.data[q.offset..q.offset + originalSize] == old(p.chunk.data[p.offset..p.offset + originalSize])
      ensures forall b :: b in old(live) ==> b.offset + b.size <= b.chunk.data.Length && Bytes(b) == old(Bytes(b))
    {
      hide Linked, Disjoint, ChunksFit;
      ghost var b := Block(p.chunk, p.offset, originalSize);
      InBounds();
      q := Malloc(newSize);
      ghost var new_ := Block(q.chunk, q.offset, newSize);
      InBounds();
      NotItself(new_);
      Copy(p, q, originalSize, newSize);
      Forget(b);
    }

    /** A block that is not used again. */
    ghost method Forget(b: Block)
      requires Valid()
      modifies this`live
      ensures Valid() && live == old(live) - {b}
    {
      hide Linked, Disjoint;
      live := live - {b};
    }

    static lemma NotItself(b: Block)
      ensures b.size > 0 ==> !Disjoint(b, b)
    {
    }

    /** What a reallocation takes of the chunks: nothing, the part by which the block grows, or a new block. */
    twostate predicate Reserved(was: seq<Chunk>, p: Ptr, originalSize: nat, newSize: nat)
      reads this, was, chunkHead
    {
      if (if p == Null then newSize == 0 else originalSize >= newSize) then Untouched(was)
      else if p.At? && old(CanExpand(p, originalSize, newSize)) then Extended(was, Align(newSize - originalSize))
      else Served(was, Align(newSize))
    }

    method Realloc(p: Ptr, originalSize: nat, newSize: nat) returns (q: Ptr)
      requires Valid() && newSize < TWO32 - 3
      requires p.At? ==> Block(p.chunk, p.offset, originalSize) in live
      modifies this`chunkHead, this`chunks, this`live, chunks, Memory()
      ensures Valid() && Grown(old(chunks))
      ensures p == Null && newSize == 0 ==> q == Null && live == old(live)
      ensures p == Null && newSize > 0 ==> q.At? && live == old(live) + {Block(q.chunk, q.offset, newSize)}
      ensures p.At? ==> q.At? && live == old(live) - {Block(p.chunk, p.offset, originalSize)} + {Block(q.chunk, q.offset, newSize)}
      ensures p.At? ==> var n := if originalSize < newSize then originalSize else newSize;
                q.offset + n <= q.chunk.data.Length && q.chunk.data[q.offset..q.offset + n] == old(p.chunk.data[p.offset..p.offset + n])
      ensures forall b :: b in old(live) ==> b.offset + b.size <= b.chunk.data.Length && Bytes(b) == old(Bytes(b))
      ensures q.At? && q != p ==> forall b :: b in old(live) ==> q != At(b.chunk, b.offset)
      ensures p.At? && originalSize >= newSize ==> q == p
      ensures p.At? && originalSize < newSize ==> (q == p <==> old(CanExpand(p, originalSize, newSize)))
      ensures Reserved(old(chunks), p, originalSize, newSize) && Frugal(Round4(newSize))
    {
      hide Linked, Disjoint, ChunksFit, Served, Extended, Frugal, Align, CanExpand;
      if p == Null {
        InBounds();
        q := Malloc(newSize);
        return;
      }
      ghost var b := Block(p.chunk, p.offset, originalSize);
      InBounds();
      if originalSize >= newSize {
        Shrink(b, newSize);
        return p;
      }
      q := Grow(p, originalSize, newSize);
    }

    /** A block that needs less of its bytes. */
    ghost method Shrink(b: Block, newSize: nat)
      requires Valid() && b in live && newSize <= b.size
      modifies this`live
      ensures Valid() && live == old(live) - {b} + {Block(b.chunk, b.offset, newSize)}
      ensures Untouched(chunks) && Frugal(Round4(newSize))
    {
      hide Linked, Disjoint, ChunksFit;
      InBounds();
      ShrinkDisjoint(b, newSize);
      Resize(b, newSize);
    }

    /** A larger size: in place when the block is the last one and there is room, otherwise a new block. */
    method Grow(p: Ptr, originalSize: nat, newSize: nat) returns (q: Ptr)
      requires Valid() && originalSize < newSize < TWO32 - 3 && p.At? && Block(p.chunk, p.offset, originalSize) in live
      modifies this`chunkHead, this`chunks, this`live, chunks, Memory()
      ensures Valid() && Grown(old(chunks)) && q.At?
      ensures live == old(live) - {Block(p.chunk, p.offset, originalSize)} + {Block(q.chunk, q.offset, newSize)}
      ensures q.offset + originalSize <= q.chunk.data.Length
      ensures q.chunk.data[q.offset..q.offset + originalSize] == old(p.chunk.data[p.offset..p.offset + originalSize])
      ensures forall b :: b in old(live) ==> b.offset + b.size <= b.chunk.data.Length && Bytes(b) == old(Bytes(b))
      ensures q != p ==> forall b :: b in old(live) ==> q != At(b.chunk, b.offset)
      ensures q == p <==> old(CanExpand(p, originalSize, newSize))
      ensures Reserved(old(chunks), p, originalSize, newSize) && Frugal(Round4(newSize))
    {
      hide Linked, Disjoint, ChunksFit, CanExpand, Served, Extended, Frugal, Align;
      InBounds();
      if CanExpand(p, originalSize, newSize) {
        ExpandLast(p, originalSize, newSize);
        return p;
      }
      q := MoveBlock(p, originalSize, newSize);
    }

    /** The growth in place of a block that passes the test. */
    method ExpandLast(p: Ptr, originalSize: nat, newSize: nat)
      requires Valid() && originalSize < newSize < TWO32 - 3 && p.At? && Block(p.chunk, p.offset, originalSize) in live
      requires CanExpand(p, originalSize, newSize)
      modifies this`live, p.chunk`size
      ensures Valid() && live == old(live) - {Block(p.chunk, p.offset, originalSize)} + {Block(p.chunk, p.offset, newSize)}
      ensures Extended(chunks, Align(newSize - originalSize)) && Frugal(Round4(newSize))
    {
      hide Linked, Disjoint, ChunksFit, Align;
      AlignWorks(newSize - originalSize);
      AlignRounds(newSize - originalSize);
      HeadIsFirst();
      Expand(p, originalSize, newSize, Align(newSize - originalSize));
    }

    lemma InBounds()
      requires Valid()
      ensures forall b :: b in live ==> b.chunk in chunks && b.offset + b.size <= b.chunk.size <= b.chunk.data.Length
    {
      hide Linked;
      assert forall b :: b in live ==> BlockFits(b);
    }

    static lemma ShrinkDisjoint(b: Block, n: nat)
      requires n <= b.size
      ensures forall c :: Disjoint(c, b) ==> Disjoint(c, Block(b.chunk, b.offset, n))
    {
    }

    /** Capacity: the loop over the list of chunks. */
    method Capacity() returns (n: nat)
      requires Valid()
      ensures n == TotalCapacity(chunks)
    {
      n := 0;
      var c := chunkHead;
      ghost var i := 0;
      while c != null
        invariant i <= |chunks| && Linked(c, chunks[i..]) && n == TotalCapacity(chunks[..i])
        decreases |chunks| - i
      {
        n := n + c.data.Length;
        c := c.next;
        assert chunks[..i + 1][..i] == chunks[..i] && chunks[i..][1..] == chunks[i + 1..];
        i := i + 1;
      }
      assert chunks[..i] == chunks;
    }

    /** Size: the loop over the list of chunks. */
    method Size() returns (n: nat)
      requires Valid()
      ensures n == TotalSize(chunks)
    {
      n := 0;
      var c := chunkHead;
      ghost var i := 0;
      while c != null
        invariant i <= |chunks| && Linked(c, chunks[i..]) && n == TotalSize(chunks[..i])
        decreases |chunks| - i
      {
        n := n + c.size;
        c := c.next;
        assert chunks[..i + 1][..i] == chunks[..i] && chunks[i..][1..] == chunks[i + 1..];
        i := i + 1;
      }
      assert chunks[..i] == chunks;
    }
  }
}
