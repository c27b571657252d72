/** What the pool allocator hands out, when it asks for another chunk, and when it fails, by sizes and
    capacities alone. */
module PoolAnswers {
  import opened PoolAllocator

  // The newest chunk has room for a block of this size.
  predicate Room(p: Pool, size: nat)
    requires p.chunks != []
  {
    p.chunks[0].size + RoundUp(size) <= p.chunks[0].capacity
  }

  // The pool once the newest chunk has n more bytes in use.
  predicate HeadFilled(p: Pool, n: nat, q: Pool)
    requires p.chunks != []
  {
    var c := p.chunks[0];
    q == p.(chunks := [Chunk(c.address, c.capacity, c.size + n)] + p.chunks[1..])
  }

  // The pool once there is a chunk at this address in front of the others, with n bytes in use.
  predicate ChunkAdded(p: Pool, address: nat, n: nat, q: Pool) {
    && |q.chunks| == |p.chunks| + 1 && q.chunks[1..] == p.chunks && q.chunkCapacity == p.chunkCapacity
    && q.chunks[0].address == address && q.chunks[0].size == n
    && q.chunks[0].capacity >= n && q.chunks[0].capacity >= p.chunkCapacity
    && (q.chunks[0].capacity == n || q.chunks[0].capacity == p.chunkCapacity)
  }

  /** Malloc fails exactly for a size of 0, or if the newest chunk has no room and the base allocator gives
      none; it asks for a chunk exactly if there is no room; and it hands out what comes next in the newest chunk. */
  lemma MallocAnswers(p: Pool, size: Size, answer: nat)
    requires p.chunks != [] && MallocFits(p, size)
    ensures var g, n := Malloc(p, size, answer), RoundUp(size);
            && (g.ptr == 0 <==> size == 0 || (!Room(p, size) && answer == 0))
            && (g.ptr == 0 ==> g.pool == p)
            && (size > 0 && Room(p, size) ==>
                  g.ptr == p.chunks[0].address + 24 + p.chunks[0].size && HeadFilled(p, n, g.pool))
            && (size > 0 && !Room(p, size) && answer != 0 ==>
                  g.ptr == answer + 24 && ChunkAdded(p, answer, n, g.pool))
            && (|g.pool.chunks| > |p.chunks| <==> size > 0 && !Room(p, size) && answer != 0)
  {
    AlignIsRoundUp(size);
  }

  // The block is the last one of the newest chunk, and can get this size where it is.
  predicate GrowsInPlace(p: Pool, b: Block, newSize: nat)
    requires p.chunks != []
  {
    var c := p.chunks[0];
    && b.address + RoundUp(b.size) == c.address + 24 + c.size
    && b.address + RoundUp(newSize) <= c.address + 24 + c.capacity
  }

  lemma GrowAnswers(p: Pool, b: Block, newSize: Size, answer: nat)
    requires Live(p, b) && 0 < newSize && ReallocFits(p, b, newSize) && RoundUp(newSize) > RoundUp(b.size)
    ensures var g := Realloc(p, b, newSize, answer);
            if GrowsInPlace(p, b, newSize) then
              g.ptr == b.address && HeadFilled(p, RoundUp(newSize) - RoundUp(b.size), g.pool)
            else
              && g == Malloc(p, RoundUp(newSize), answer)
              && MallocFits(p, RoundUp(newSize))
              && RoundUp(RoundUp(newSize)) == RoundUp(newSize)
  {
    AlignIsRoundUp(newSize);
    AlignIsRoundUp(b.size);
    GrowUnwrapped(p, b.address, RoundUp(b.size), RoundUp(newSize), answer);
  }

  /** Realloc of a live block fails exactly for a size of 0, or if the block must grow and there is room neither
      behind it nor anywhere else; the address stays exactly if the block need not grow or grows in place; and
      otherwise the block is a new one, the old one staying where it is. */
  lemma ReallocAnswers(p: Pool, blocks: seq<Block>, i: nat, newSize: Size, answer: nat)
    requires Safe(p, blocks) && i < |blocks|
    requires Honest(p, Align(newSize), answer) && ReallocFits(p, blocks[i], newSize)
    ensures var b, g := blocks[i], Realloc(p, blocks[i], newSize, answer);
            var grows := RoundUp(newSize) > RoundUp(b.size);
            var moves := grows && !GrowsInPlace(p, b, newSize);
            && (g.ptr == 0 <==> newSize == 0 || (moves && !Room(p, newSize) && answer == 0))
            && (g.ptr == b.address <==> newSize > 0 && !moves)
            && (g.ptr == 0 || !grows ==> g.pool == p)
            && (grows && !moves ==> HeadFilled(p, RoundUp(newSize) - RoundUp(b.size), g.pool))
            && (moves && Room(p, newSize) ==>
                  g.ptr == p.chunks[0].address + 24 + p.chunks[0].size && HeadFilled(p, RoundUp(newSize), g.pool))
            && (moves && !Room(p, newSize) && answer != 0 ==>
                  g.ptr == answer + 24 && ChunkAdded(p, answer, RoundUp(newSize), g.pool))
  {
    var b := blocks[i];
    LiveBlock(p, blocks, i);
    AlignIsRoundUp(newSize);
    AlignIsRoundUp(b.size);
    if newSize > 0 && RoundUp(newSize) > RoundUp(b.size) {
      GrowAnswers(p, b, newSize, answer);
      if !GrowsInPlace(p, b, newSize) {
        MallocAnswers(p, RoundUp(newSize), answer);
        MovedElsewhere(p, blocks, i, newSize, answer);
      }
    }
  }

  // A block that is handed out anew is not the old one.
  lemma MovedElsewhere(p: Pool, blocks: seq<Block>, i: nat, newSize: Size, answer: nat)
    requires Safe(p, blocks) && i < |blocks| && 0 < newSize
    requires Honest(p, RoundUp(newSize), answer) && MallocFits(p, RoundUp(newSize))
    requires RoundUp(newSize) == RoundUp(RoundUp(newSize)) < WORD
    ensures Malloc(p, RoundUp(newSize), answer).ptr != blocks[i].address
  {
    var n := RoundUp(newSize);
    MallocSafe(p, blocks, n, answer);
    LiveBlock(p, blocks, i);
    var g := Malloc(p, n, answer);
    if g.ptr != 0 { AskedFor(g.pool, blocks, g.ptr, newSize); }
  }
}
