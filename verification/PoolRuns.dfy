/** Any run of requests to a pool: what its callers find in their blocks is what they have put there. */
module PoolRuns {
  import opened Stream
  import opened PoolAllocator

  /** Malloc, Realloc of an earlier block, and a byte that a caller stores in one; blocks are numbered as they are asked for. */
  datatype Op = Allocate(size: nat) | Reallocate(id: nat, size: nat) | Store(id: nat, at: nat, value: byte)

  /** What a caller knows of a byte of its block. */
  datatype Cell = Unwritten | Holds(value: byte)

  function Fresh(n: nat): (cells: seq<Cell>)
    ensures |cells| == n && forall i :: 0 <= i < n ==> cells[i] == Unwritten
  {
    seq(n, i => Unwritten)
  }

  /** A request that a caller may make: a size that rounds up, a block that is there, a byte inside it. */
  predicate Proper(blocks: seq<seq<Cell>>, op: Op) {
    match op
    case Allocate(size) => size < TWO32 - 3
    case Reallocate(id, size) => id < |blocks| && size < TWO32 - 3
    case Store(id, at, _) => id < |blocks| && at < |blocks[id]|
  }

  /** The same request to blocks that are sequences of cells, each on its own. */
  function After(blocks: seq<seq<Cell>>, op: Op): seq<seq<Cell>>
    requires Proper(blocks, op)
  {
    match op
    case Allocate(size) => blocks + [Fresh(size)]
    case Reallocate(id, size) => blocks[id := Resized(blocks[id], size)]
    case Store(id, at, value) => blocks[id := blocks[id][at := Holds(value)]]
  }

  function Resized(cells: seq<Cell>, size: nat): (r: seq<Cell>)
    ensures |r| == size
  {
    if size <= |cells| then cells[..size] else cells + Fresh(size - |cells|)
  }

  /** A run, in which requests that are not proper are not made. */
  function AfterAll(ops: seq<Op>): seq<seq<Cell>> {
    if ops == [] then []
    else
      var blocks, op := AfterAll(ops[..|ops| - 1]), ops[|ops| - 1];
      if Proper(blocks, op) then After(blocks, op) else blocks
  }

  // ---------- How many chunks a run takes ----------

  /** What a request takes of a chunk at most. */
  function Share(op: Op): nat {
    match op
    case Allocate(size) => Round4(size)
    case Reallocate(_, size) => Round4(size)
    case Store(_, _, _) => 0
  }

  function Needed(ops: seq<Op>): nat { if ops == [] then 0 else Needed(ops[..|ops| - 1]) + Share(ops[|ops| - 1]) }

  lemma {:induction false} NeededGrows(ops: seq<Op>, i: nat)
    requires i <= |ops|
    ensures Needed(ops[..i]) <= Needed(ops)
    decreases |ops|
  {
    if i < |ops| {
      NeededGrows(ops[..|ops| - 1], i);
      assert ops[..|ops| - 1][..i] == ops[..i];
    } else {
      assert ops[..i] == ops;
    }
  }

  predicate Agree(bytes: seq<byte>, cells: seq<Cell>) {
    |bytes| == |cells| && forall k :: 0 <= k < |cells| && cells[k].Holds? ==> bytes[k] == cells[k].value
  }

  function BlockOf(p: Ptr, cells: seq<Cell>): Block
    requires p.At?
  {
    Block(p.chunk, p.offset, |cells|)
  }

  /** A pointer that is a live block in bounds with these bytes in it, or null for a block without bytes. */
  ghost predicate Shows(pool: MemoryPoolAllocator, p: Ptr, cells: seq<Cell>)
    reads pool, pool.chunks, pool.Memory()
  {
    if p == Null then cells == []
    else
      var b := BlockOf(p, cells);
      b in pool.live && pool.BlockFits(b) && b.offset + b.size <= b.chunk.data.Length && Agree(Bytes(b), cells)
  }

  ghost predicate AllShow(pool: MemoryPoolAllocator, ptrs: seq<Ptr>, blocks: seq<seq<Cell>>)
    reads pool, pool.chunks, pool.Memory()
  {
    |ptrs| == |blocks| && forall i :: 0 <= i < |ptrs| ==> Shows(pool, ptrs[i], blocks[i])
  }

  /** Different blocks start at different places. */
  predicate AllApart(ptrs: seq<Ptr>) {
    forall i, j :: 0 <= i < j < |ptrs| && ptrs[i].At? ==> ptrs[i] != ptrs[j]
  }

  /** Blocks that start at different places do not overlap. */
  lemma ApartIsDisjoint(pool: MemoryPoolAllocator, ptrs: seq<Ptr>, blocks: seq<seq<Cell>>, i: nat, j: nat)
    requires pool.Valid() && AllShow(pool, ptrs, blocks) && AllApart(ptrs)
    requires i < j < |ptrs| && ptrs[i].At? && ptrs[j].At?
    ensures Disjoint(BlockOf(ptrs[i], blocks[i]), BlockOf(ptrs[j], blocks[j]))
  {
    hide Disjoint, Agree, Linked;
    assert Shows(pool, ptrs[i], blocks[i]) && Shows(pool, ptrs[j], blocks[j]);
  }

  lemma StillShows(pool: MemoryPoolAllocator, p: Ptr, cells: seq<Cell>)
    requires pool.Valid()
    requires p == Null ==> cells == []
    requires p.At? ==> var b := BlockOf(p, cells);
               b in pool.live && b.offset + b.size <= b.chunk.data.Length && Agree(Bytes(b), cells)
    ensures Shows(pool, p, cells)
  {
    hide Agree, Linked, Disjoint;
  }

  lemma ShowsLive(pool: MemoryPoolAllocator, p: Ptr, cells: seq<Cell>)
    requires pool.Valid() && Shows(pool, p, cells)
    ensures p == Null ==> cells == []
    ensures p.At? ==> var b := BlockOf(p, cells);
              && b in pool.live && b.chunk in pool.chunks && b.chunk.data in pool.Memory()
              && b.offset + b.size <= b.chunk.data.Length && Agree(Bytes(b), cells)
  {
    hide Agree, Linked, Disjoint;
  }

  lemma NothingAgrees(bytes: seq<byte>)
    ensures Agree(bytes, Fresh(|bytes|))
  {
  }

  method DoAllocate(pool: MemoryPoolAllocator, ptrs: seq<Ptr>, ghost blocks: seq<seq<Cell>>, size: nat) returns (now: seq<Ptr>)
    requires pool.Valid() && AllShow(pool, ptrs, blocks) && AllApart(ptrs) && size < TWO32 - 3
    modifies pool, pool.chunks
    ensures pool.Valid() && pool.Grown(old(pool.chunks))
    ensures AllShow(pool, now, blocks + [Fresh(size)]) && AllApart(now) && pool.Frugal(Round4(size))
  {
    hide Agree, Linked, Disjoint, Shows, MemoryPoolAllocator.Frugal, MemoryPoolAllocator.Served, MemoryPoolAllocator.Untouched;
    forall i | 0 <= i < |ptrs| {
      ShowsLive(pool, ptrs[i], blocks[i]);
    }
    var p := pool.Malloc(size);
    forall i | 0 <= i < |ptrs| ensures Shows(pool, ptrs[i], blocks[i]) {
      StillShows(pool, ptrs[i], blocks[i]);
    }
    if p.At? {
      pool.InBounds();
      NothingAgrees(Bytes(BlockOf(p, Fresh(size))));
    }
    StillShows(pool, p, Fresh(size));
    now := ptrs + [p];
  }

  /** Resized cells agree with a block that kept its contents up to the smaller size. */
  lemma ResizedAgrees(was: seq<byte>, now: seq<byte>, cells: seq<Cell>, size: nat)
    requires Agree(was, cells) && |now| == size && SameFront(was, now)
    ensures Agree(now, Resized(cells, size))
  {
    var n := if |was| < size then |was| else size;
    forall k | 0 <= k < n ensures now[k] == was[k] {
      assert now[..n][k] == was[..n][k];
    }
  }

  /** What Realloc does for the bytes of one block, and for the other blocks. */
  method ReallocateBytes(pool: MemoryPoolAllocator, p: Ptr, originalSize: nat, size: nat, ghost was: seq<byte>) returns (q: Ptr)
    requires pool.Valid() && size < TWO32 - 3 && |was| == originalSize && (p == Null ==> was == [])
    requires p.At? ==> Block(p.chunk, p.offset, originalSize) in pool.live && p.offset + originalSize <= p.chunk.data.Length
    requires p.At? ==> was == p.chunk.data[p.offset..p.offset + originalSize]
    modifies pool, pool.chunks, pool.Memory()
    ensures pool.Valid() && pool.Grown(old(pool.chunks))
    ensures pool.Frugal(Round4(size))
    ensures q == Null ==> p == Null && size == 0
    ensures q.At? ==> Block(q.chunk, q.offset, size) in pool.live && q.offset + size <= q.chunk.data.Length
    ensures q.At? ==> SameFront(was, q.chunk.data[q.offset..q.offset + size])
    ensures forall b :: b in old(pool.live) && (p.At? ==> b != Block(p.chunk, p.offset, originalSize)) ==> b in pool.live
    ensures forall b :: b in old(pool.live) ==> b.offset + b.size <= b.chunk.data.Length && Bytes(b) == old(Bytes(b))
    ensures q.At? && q != p ==> forall b :: b in old(pool.live) ==> q != At(b.chunk, b.offset)
  {
    hide Bytes, SameFront, MemoryPoolAllocator.Frugal, MemoryPoolAllocator.Reserved, MemoryPoolAllocator.Valid, MemoryPoolAllocator.CanExpand, MemoryPoolAllocator.Grown, MemoryPoolAllocator.Memory;
    ghost var n := if originalSize < size then originalSize else size;
    ghost var front := if p.At? then p.chunk.data[p.offset..p.offset + n] else [];
    assert front == was[..|front|];
    q := pool.Realloc(p, originalSize, size);
    if q.At? {
      pool.InBounds();
      FrontKept(q.chunk.data, q.offset, size, was, front);
    }
  }

  predicate SameFront(was: seq<byte>, now: seq<byte>) {
    var n := if |was| < |now| then |was| else |now|;
    now[..n] == was[..n]
  }

  lemma FrontKept(data: array<byte>, offset: nat, size: nat, was: seq<byte>, front: seq<byte>)
    requires offset + size <= data.Length && |front| == (if |was| < size then |was| else size) && front == was[..|front|]
    requires data[offset..offset + |front|] == front
    ensures SameFront(was, data[offset..offset + size])
  {
  }

  /** Realloc of one block: it keeps what is known of it, and all others are as they were. */
  method ReallocateOne(pool: MemoryPoolAllocator, p: Ptr, cells: seq<Cell>, size: nat) returns (q: Ptr)
    requires pool.Valid() && Shows(pool, p, cells) && size < TWO32 - 3
    modifies pool, pool.chunks, pool.Memory()
    ensures pool.Valid() && pool.Grown(old(pool.chunks)) && Shows(pool, q, Resized(cells, size)) && pool.Frugal(Round4(size))
    ensures forall b :: b in old(pool.live) && (p.At? ==> b != BlockOf(p, cells)) ==> b in pool.live
    ensures forall b :: b in old(pool.live) ==> b.offset + b.size <= b.chunk.data.Length && Bytes(b) == old(Bytes(b))
    ensures q.At? && q != p ==> forall b :: b in old(pool.live) ==> q != At(b.chunk, b.offset)
  {
    hide Agree, Shows, Resized, Bytes, SameFront, MemoryPoolAllocator.Frugal, MemoryPoolAllocator.Valid, MemoryPoolAllocator.Grown, MemoryPoolAllocator.Memory;
    ShowsLive(pool, p, cells);
    ghost var was := if p.At? then Bytes(BlockOf(p, cells)) else [];
    BytesAgree(p, cells);
    q := ReallocateBytes(pool, p, |cells|, size, was);
    if q.At? {
      BytesAre(Block(q.chunk, q.offset, size));
      ResizedAgrees(was, q.chunk.data[q.offset..q.offset + size], cells, size);
    } else {
      NothingLeft();
    }
    StillShows(pool, q, Resized(cells, size));
  }

  lemma BytesAre(b: Block)
    requires b.offset + b.size <= b.chunk.data.Length
    ensures Bytes(b) == b.chunk.data[b.offset..b.offset + b.size]
  {
  }

  lemma BytesAgree(p: Ptr, cells: seq<Cell>)
    requires p == Null ==> cells == []
    requires p.At? ==> p.offset + |cells| <= p.chunk.data.Length && Agree(Bytes(BlockOf(p, cells)), cells)
    ensures p == Null ==> Agree([], cells)
    ensures p.At? ==> Bytes(BlockOf(p, cells)) == p.chunk.data[p.offset..p.offset + |cells|]
  {
  }

  method DoReallocate(pool: MemoryPoolAllocator, ptrs: seq<Ptr>, blocks: seq<seq<Cell>>, id: nat, size: nat) returns (now: seq<Ptr>)
    requires pool.Valid() && AllShow(pool, ptrs, blocks) && AllApart(ptrs) && id < |ptrs| && size < TWO32 - 3
    modifies pool, pool.chunks, pool.Memory()
    ensures pool.Valid() && pool.Grown(old(pool.chunks))
    ensures AllShow(pool, now, blocks[id := Resized(blocks[id], size)]) && AllApart(now) && pool.Frugal(Round4(size))
  {
    hide Agree, Linked, Disjoint, Shows, Resized, MemoryPoolAllocator.Frugal;
    forall i | 0 <= i < |ptrs| {
      ShowsLive(pool, ptrs[i], blocks[i]);
    }
    var p := ReallocateOne(pool, ptrs[id], blocks[id], size);
    forall i | 0 <= i < |ptrs| && i != id ensures Shows(pool, ptrs[i], blocks[i]) {
      StillShows(pool, ptrs[i], blocks[i]);
    }
    now := ptrs[id := p];
  }

  lemma NothingLeft()
    ensures Resized([], 0) == []
  {
  }

  lemma StoredAgrees(bytes: seq<byte>, cells: seq<Cell>, at: nat, value: byte)
    requires Agree(bytes, cells) && at < |cells|
    ensures Agree(bytes[at := value], cells[at := Holds(value)])
  {
  }

  /** A byte of one block is in no other block. */
  lemma StoreElsewhere(pool: MemoryPoolAllocator, a: Block, b: Block)
    requires pool.Valid() && a in pool.live && b in pool.live && a != b
    ensures a.chunk.data != b.chunk.data || a.offset + a.size <= b.offset || b.offset + b.size <= a.offset
  {
    hide Linked;
    assert Disjoint(a, b) && pool.BlockFits(a) && pool.BlockFits(b);
    pool.DataApart(a.chunk, b.chunk);
  }

  /** A caller stores a byte in its block. */
  method DoStore(pool: MemoryPoolAllocator, ptrs: seq<Ptr>, ghost blocks: seq<seq<Cell>>, id: nat, at: nat, value: byte)
    requires pool.Valid() && AllShow(pool, ptrs, blocks) && AllApart(ptrs) && id < |ptrs| && at < |blocks[id]|
    modifies pool.Memory()
    ensures pool.Valid() && AllShow(pool, ptrs, blocks[id := blocks[id][at := Holds(value)]])
  {
    hide Agree, Linked, Disjoint, Shows, MemoryPoolAllocator.Frugal, MemoryPoolAllocator.Served, MemoryPoolAllocator.Untouched;
    forall i | 0 <= i < |ptrs| {
      ShowsLive(pool, ptrs[i], blocks[i]);
    }
    var p := ptrs[id];
    ghost var b := BlockOf(p, blocks[id]);
    ghost var was := Bytes(b);
    forall i | 0 <= i < |ptrs| && i != id && ptrs[i].At?
      ensures var c := BlockOf(ptrs[i], blocks[i]);
              c.chunk.data != b.chunk.data || c.offset + c.size <= b.offset || b.offset + b.size <= c.offset
    {
      assert ptrs[i] != p;
      StoreElsewhere(pool, BlockOf(ptrs[i], blocks[i]), b);
    }
    p.chunk.data[p.offset + at] := value;
    assert Bytes(b) == was[at := value];
    StoredAgrees(was, blocks[id], at, value);
    forall i | 0 <= i < |ptrs| && i != id ensures Shows(pool, ptrs[i], blocks[i]) {
      if ptrs[i].At? {
        assert Bytes(BlockOf(ptrs[i], blocks[i])) == old(Bytes(BlockOf(ptrs[i], blocks[i])));
      }
      StillShows(pool, ptrs[i], blocks[i]);
    }
    StillShows(pool, p, blocks[id][at := Holds(value)]);
  }

  method Apply(pool: MemoryPoolAllocator, ptrs: seq<Ptr>, blocks: seq<seq<Cell>>, op: Op) returns (now: seq<Ptr>)
    requires pool.Valid() && AllShow(pool, ptrs, blocks) && AllApart(ptrs) && Proper(blocks, op)
    modifies pool, pool.chunks, pool.Memory()
    ensures pool.Valid() && pool.Grown(old(pool.chunks))
    ensures AllShow(pool, now, After(blocks, op)) && AllApart(now) && pool.Frugal(Share(op))
  {
    hide AllShow, AllApart, Linked, Disjoint;
    AsMany(pool, ptrs, blocks);
    match op {
      case Allocate(size) => now := DoAllocate(pool, ptrs, blocks, size);
      case Reallocate(id, size) => now := DoReallocate(pool, ptrs, blocks, id, size);
      case Store(id, at, value) => now := ptrs; DoStore(pool, ptrs, blocks, id, at, value);
    }
  }

  lemma AsMany(pool: MemoryPoolAllocator, ptrs: seq<Ptr>, blocks: seq<seq<Cell>>)
    requires AllShow(pool, ptrs, blocks)
    ensures |ptrs| == |blocks|
  {
  }

  /**
   * Any run of requests to a new pool: every block is live, in bounds and at a multiple of four, no two overlap, and
   * each holds what its caller has stored in it, as if it were alone.  Requests whose rounded sizes fit together in
   * the chunk size of the pool are all served from one chunk.
   */
  method Run(chunkSize: nat, ops: seq<Op>) returns (pool: MemoryPoolAllocator, ptrs: seq<Ptr>)
    ensures fresh(pool) && pool.Valid() && AllShow(pool, ptrs, AfterAll(ops)) && AllApart(ptrs)
    ensures Needed(ops) <= chunkSize ==> |pool.chunks| <= 1 && forall c :: c in pool.chunks ==> c.data.Length == chunkSize
  {
    hide AllShow, AllApart, Linked, Disjoint, After, Proper, Share;
    pool := new MemoryPoolAllocator(chunkSize);
    ptrs := [];
    var blocks: seq<seq<Cell>> := [];
    NothingShows(pool);
    assert ops[..0] == [];
    for i := 0 to |ops|
      invariant fresh(pool) && (forall c :: c in pool.chunks ==> fresh(c) && fresh(c.data))
      invariant pool.Valid() && AllShow(pool, ptrs, blocks) && AllApart(ptrs) && blocks == AfterAll(ops[..i])
      invariant pool.chunkCapacity == chunkSize && (Needed(ops) <= chunkSize ==> pool.OneChunk(Needed(ops[..i])))
    {
      assert ops[..i + 1][..i] == ops[..i];
      NeededGrows(ops, i + 1);
      if Proper(blocks, ops[i]) {
        assert forall d :: d in pool.Memory() ==> fresh(d);
        ptrs := Apply(pool, ptrs, blocks, ops[i]);
        blocks := After(blocks, ops[i]);
      }
    }
    assert ops[..|ops|] == ops;
  }

  lemma NothingShows(pool: MemoryPoolAllocator)
    ensures AllShow(pool, [], []) && AllApart([])
  {
  }

  /**
   * A block that has just been asked for, and a larger size for it: it grows in place exactly when its first size is a
   * multiple of four and the rounded second one has room in its chunk.
   */
  method AllocateThenGrow(pool: MemoryPoolAllocator, a: nat, b: nat) returns (p: Ptr, q: Ptr)
    requires pool.Valid() && 0 < a < b < TWO32 - 3
    modifies pool, pool.chunks, pool.Memory()
    ensures p.At? && (q == p <==> a % 4 == 0 && p.offset + Round4(b) <= p.chunk.data.Length)
    ensures old(pool.chunks) == [] ==> p.offset == 0 && p.chunk.data.Length == if Round4(a) > pool.chunkCapacity then Round4(a) else pool.chunkCapacity
  {
    hide Linked, Disjoint, Align, MemoryPoolAllocator.Frugal, MemoryPoolAllocator.CanExpand, MemoryPoolAllocator.Reserved, MemoryPoolAllocator.ChunksFit;
    AlignRounds(a);
    pool.HeadIsFirst();
    p := pool.Malloc(a);
    assert old(pool.chunks) == [] ==> p.offset == 0 && p.chunk.data.Length == if Round4(a) > pool.chunkCapacity then Round4(a) else pool.chunkCapacity;
    hide MemoryPoolAllocator.Served;
    JustAllocated(pool, p, a, b);
    q := pool.Realloc(p, a, b);
  }

  lemma JustAllocated(pool: MemoryPoolAllocator, p: Ptr, a: nat, b: nat)
    requires 0 < a < b < TWO32 - 3
    requires p.At? && p.chunk == pool.chunkHead && p.offset + Align(a) == p.chunk.size
    ensures pool.CanExpand(p, a, b) <==> a % 4 == 0 && p.offset + Round4(b) <= p.chunk.data.Length
  {
    AlignRounds(a);
    AlignRounds(b - a);
    if a % 4 == 0 {
      assert Round4(b) == a + Round4(b - a);
    }
  }
}
