/** MemoryPoolAllocator: blocks are cut off the newest of a list of chunks and never freed. Sizes and
    addresses are 64 bits wide; the base allocator's answer to a request for a chunk is a parameter. */
module PoolAllocator {
  import opened BigIntBytes

  const WORD: nat := 0x1_0000_0000_0000_0000
  const SHARED: nat := 32
  const HEADER: nat := 24

  type Size = n: nat | n < WORD

  // A chunk by its header's address; the head of the list comes first.
  datatype Chunk = Chunk(address: nat, capacity: nat, size: nat) {
    function Buffer(): nat { address + HEADER }
    function End(): nat { address + HEADER + capacity }
  }

  datatype Pool = Pool(chunks: seq<Chunk>, chunkCapacity: nat) {
    function Head(): Chunk
      requires chunks != []
    {
      chunks[0]
    }

    // The head with so many bytes in use.
    function Used(size: nat): Pool
      requires chunks != []
    {
      this.(chunks := [Head().(size := size)] + chunks[1..])
    }
  }

  // What a caller holds, with the size it asked for.
  datatype Block = Block(address: nat, size: nat)

  function RoundUp(n: nat): nat {
    (n + 7) / 8 * 8
  }

  function Align(n: nat): nat {
    (n + 7) % WORD / 8 * 8
  }

  // ---------------------------------------------------------------------------
  // The operations. A pointer of 0 is null.

  datatype Granted = Granted(pool: Pool, ptr: nat)

  function Take(p: Pool, n: nat): Granted
    requires p.chunks != []
  {
    Granted(p.Used((p.Head().size + n) % WORD), p.Head().Buffer() + p.Head().size)
  }

  function ChunkSize(p: Pool, n: nat): nat {
    if p.chunkCapacity > n then p.chunkCapacity else n
  }

  function AddChunk(p: Pool, capacity: nat, answer: nat): (q: Pool)
    ensures q.chunks != []
  {
    p.(chunks := [Chunk(answer, capacity, 0)] + p.chunks)
  }

  // Malloc and Realloc once sizes are aligned.
  function Cut(p: Pool, n: nat, answer: nat): Granted
    requires p.chunks != []
  {
    if (p.Head().size + n) % WORD <= p.Head().capacity then Take(p, n)
    else if answer == 0 then Granted(p, 0)
    else Take(AddChunk(p, ChunkSize(p, n), answer), n)
  }

  function Malloc(p: Pool, size: nat, answer: nat): Granted
    requires p.chunks != []
  {
    if size == 0 then Granted(p, 0) else Cut(p, Align(size), answer)
  }

  // The block is the last one cut off the head.
  predicate Last(p: Pool, address: nat, size: nat)
    requires p.chunks != []
  {
    address + size == p.Head().Buffer() + p.Head().size
  }

  function Grow(p: Pool, address: nat, original: nat, n: nat, answer: nat): Granted
    requires p.chunks != []
  {
    if original >= n then Granted(p, address)
    else if Last(p, address, original) && (p.Head().size + (n - original)) % WORD <= p.Head().capacity then
      Granted(p.Used((p.Head().size + (n - original)) % WORD), address)
    else Malloc(p, n, answer)
  }

  function Realloc(p: Pool, block: Block, newSize: nat, answer: nat): Granted
    requires p.chunks != []
  {
    if block.address == 0 then Malloc(p, newSize, answer)
    else if newSize == 0 then Granted(p, 0)
    else Grow(p, block.address, Align(block.size), Align(newSize), answer)
  }

  // Memory after n bytes are copied.
  function Copied(memory: seq<byte>, from: nat, to: nat, n: nat): (after: seq<byte>)
    requires from + n <= |memory| && to + n <= |memory|
    ensures |after| == |memory|
  {
    memory[..to] + memory[from..from + n] + memory[to + n..]
  }

  // ---------------------------------------------------------------------------
  // Safety.

  predicate GoodChunk(c: Chunk) {
    0 < c.address && c.address % 8 == 0 && c.size % 8 == 0 && c.size <= c.capacity && c.End() <= WORD
  }

  predicate ChunksApart(c: Chunk, d: Chunk) {
    c.End() <= d.address || d.End() <= c.address
  }

  predicate BlocksApart(a: Block, b: Block) {
    a.address + RoundUp(a.size) <= b.address || b.address + RoundUp(b.size) <= a.address
  }

  predicate Within(b: Block, c: Chunk) {
    c.Buffer() <= b.address && b.address + RoundUp(b.size) <= c.Buffer() + c.size
  }

  predicate GoodBlock(p: Pool, b: Block) {
    0 < b.size && b.address % 8 == 0 && exists i | 0 <= i < |p.chunks| :: Within(b, p.chunks[i])
  }

  predicate GoodPool(p: Pool) {
    && p.chunks != []
    && (forall i | 0 <= i < |p.chunks| :: GoodChunk(p.chunks[i]))
    && (forall i, j | 0 <= i < j < |p.chunks| :: ChunksApart(p.chunks[i], p.chunks[j]))
  }

  predicate Safe(p: Pool, blocks: seq<Block>) {
    && GoodPool(p)
    && (forall i | 0 <= i < |blocks| :: GoodBlock(p, blocks[i]))
    && (forall i, j | 0 <= i < j < |blocks| :: BlocksApart(blocks[i], blocks[j]))
  }

  // What malloc promises of a region of this length.
  predicate FreeRegion(p: Pool, length: nat, answer: nat) {
    && answer % 8 == 0
    && answer + length <= WORD
    && (forall i | 0 <= i < |p.chunks| :: answer + length <= p.chunks[i].address || p.chunks[i].End() <= answer)
  }

  predicate Honest(p: Pool, size: nat, answer: nat) {
    answer != 0 ==> FreeRegion(p, (HEADER + ChunkSize(p, Align(size))) % WORD, answer)
  }

  // No sum on the way passes 64 bits.
  predicate CutFits(p: Pool, n: nat)
    requires p.chunks != []
  {
    && p.Head().size + n < WORD
    && (p.Head().size + n > p.Head().capacity ==> HEADER + ChunkSize(p, n) < WORD)
  }

  predicate MallocFits(p: Pool, size: nat)
    requires p.chunks != []
  {
    CutFits(p, RoundUp(size))
  }

  predicate RoomBehind(p: Pool, address: nat, original: nat, n: nat)
    requires p.chunks != []
  {
    Last(p, address, original) && p.Head().size + (n - original) <= p.Head().capacity
  }

  predicate GrowFits(p: Pool, address: nat, original: nat, n: nat)
    requires p.chunks != []
  {
    n < WORD && (original >= n || RoomBehind(p, address, original, n) || CutFits(p, n))
  }

  predicate ReallocFits(p: Pool, block: Block, newSize: nat)
    requires p.chunks != []
  {
    if block.address == 0 then MallocFits(p, newSize)
    else GrowFits(p, block.address, RoundUp(block.size), RoundUp(newSize))
  }

  lemma AlignIsRoundUp(n: nat)
    ensures RoundUp(n) < WORD ==> Align(n) == RoundUp(n)
    ensures n <= RoundUp(n) < n + 8 && RoundUp(n) % 8 == 0 && Align(n) % 8 == 0
    ensures RoundUp(RoundUp(n)) == RoundUp(n)
    ensures n < WORD <= RoundUp(n) ==> Align(n) == 0
  {
  }

  // ---------------------------------------------------------------------------
  // One step.

  // More of the head in use.
  lemma UsedSafe(p: Pool, blocks: seq<Block>, size: nat)
    requires Safe(p, blocks) && p.Head().size <= size <= p.Head().capacity && size % 8 == 0
    ensures Safe(p.Used(size), blocks)
  {
    var q := p.Used(size);
    forall i | 0 <= i < |blocks| ensures GoodBlock(q, blocks[i]) {
      var k :| 0 <= k < |p.chunks| && Within(blocks[i], p.chunks[k]);
      assert Within(blocks[i], q.chunks[k]);
    }
  }

  // A block lies below the used end of the head or apart from the head's chunk.
  lemma BlockAndHead(p: Pool, b: Block)
    requires GoodPool(p) && GoodBlock(p, b)
    ensures var h := p.Head();
            || (h.Buffer() <= b.address && b.address + RoundUp(b.size) <= h.Buffer() + h.size)
            || b.address + RoundUp(b.size) <= h.address
            || h.End() + HEADER <= b.address
  {
    var k :| 0 <= k < |p.chunks| && Within(b, p.chunks[k]);
    assert GoodChunk(p.chunks[k]);
    if k > 0 { assert ChunksApart(p.chunks[0], p.chunks[k]); }
  }

  lemma OneMore(p: Pool, blocks: seq<Block>, b: Block)
    requires Safe(p, blocks) && GoodBlock(p, b)
    requires forall i | 0 <= i < |blocks| :: BlocksApart(blocks[i], b)
    ensures Safe(p, blocks + [b])
  {
  }

  lemma TakeSafe(p: Pool, blocks: seq<Block>, size: nat, n: nat)
    requires Safe(p, blocks) && 0 < size <= n && n == RoundUp(size) && n % 8 == 0
    requires p.Head().size + n <= p.Head().capacity
    ensures var g := Take(p, n); g.ptr != 0 && Safe(g.pool, blocks + [Block(g.ptr, size)])
  {
    var g, h := Take(p, n), p.Head();
    var b := Block(g.ptr, size);
    assert GoodChunk(h);
    UsedSafe(p, blocks, h.size + n);
    assert Within(b, g.pool.chunks[0]);
    forall i | 0 <= i < |blocks| ensures BlocksApart(blocks[i], b) {
      BlockAndHead(p, blocks[i]);
    }
    OneMore(g.pool, blocks, b);
  }

  lemma AddChunkSafe(p: Pool, blocks: seq<Block>, capacity: nat, answer: nat)
    requires Safe(p, blocks) && answer != 0 && FreeRegion(p, HEADER + capacity, answer)
    ensures Safe(AddChunk(p, capacity, answer), blocks)
  {
    var q := AddChunk(p, capacity, answer);
    forall i | 0 <= i < |blocks| ensures GoodBlock(q, blocks[i]) {
      var k :| 0 <= k < |p.chunks| && Within(blocks[i], p.chunks[k]);
      assert Within(blocks[i], q.chunks[k + 1]);
    }
    forall i, j | 0 <= i < j < |q.chunks| ensures ChunksApart(q.chunks[i], q.chunks[j]) {
      if i > 0 { assert ChunksApart(p.chunks[i - 1], p.chunks[j - 1]); }
    }
  }

  // Where no sum wraps.
  lemma CutUnwrapped(p: Pool, n: nat, answer: nat)
    requires p.chunks != [] && CutFits(p, n)
    ensures Cut(p, n, answer) ==
            if p.Head().size + n <= p.Head().capacity then Take(p, n)
            else if answer == 0 then Granted(p, 0)
            else Take(AddChunk(p, ChunkSize(p, n), answer), n)
  {
  }

  lemma MallocSafe(p: Pool, blocks: seq<Block>, size: Size, answer: nat)
    requires Safe(p, blocks) && Honest(p, size, answer) && MallocFits(p, size)
    ensures var g := Malloc(p, size, answer);
            if g.ptr == 0 then g.pool == p else Safe(g.pool, blocks + [Block(g.ptr, size)])
  {
    if size != 0 {
      var n := RoundUp(size);
      AlignIsRoundUp(size);
      CutUnwrapped(p, n, answer);
      if p.Head().size + n <= p.Head().capacity {
        TakeSafe(p, blocks, size, n);
      } else if answer != 0 {
        var capacity := ChunkSize(p, n);
        AddChunkSafe(p, blocks, capacity, answer);
        TakeSafe(AddChunk(p, capacity, answer), blocks, size, n);
      }
    }
  }

  lemma BlockInWord(p: Pool, b: Block)
    requires GoodPool(p) && GoodBlock(p, b)
    ensures HEADER < b.address && b.address + RoundUp(b.size) <= WORD
  {
    var k :| 0 <= k < |p.chunks| && Within(b, p.chunks[k]);
    assert GoodChunk(p.chunks[k]);
  }

  lemma SafeInWord(p: Pool, blocks: seq<Block>, i: nat)
    requires i < |blocks| && p.chunks != []
    ensures Safe(p, blocks) ==> p.Head().End() <= WORD && blocks[i].address + RoundUp(blocks[i].size) <= WORD
  {
    if Safe(p, blocks) {
      assert GoodChunk(p.Head());
      BlockInWord(p, blocks[i]);
    }
  }

  // Where a sum wraps, the block or its chunk would end behind the last address.
  lemma CutWraps(p: Pool, n: nat, answer: nat)
    requires p.chunks != [] && GoodChunk(p.Head()) && n < WORD && !CutFits(p, n)
    ensures var g := Cut(p, n, answer);
            g.pool.chunks != [] && (g.ptr == 0 || g.ptr + n > WORD || g.pool.Head().End() > WORD)
  {
  }

  lemma MallocWraps(p: Pool, size: Size, answer: nat)
    requires p.chunks != [] && GoodChunk(p.Head()) && !MallocFits(p, size)
    ensures var g := Malloc(p, size, answer);
            g.pool.chunks != [] && (g.ptr == 0 || g.ptr + RoundUp(size) > WORD || g.pool.Head().End() > WORD)
  {
    AlignIsRoundUp(size);
    if RoundUp(size) < WORD {
      CutWraps(p, RoundUp(size), answer);
    }
  }

  lemma MallocUnsafe(p: Pool, blocks: seq<Block>, size: Size, answer: nat)
    requires Safe(p, blocks) && !MallocFits(p, size) && Malloc(p, size, answer).ptr != 0
    ensures var g := Malloc(p, size, answer); !Safe(g.pool, blocks + [Block(g.ptr, size)])
  {
    var g := Malloc(p, size, answer);
    assert GoodChunk(p.Head());
    MallocWraps(p, size, answer);
    SafeInWord(g.pool, blocks + [Block(g.ptr, size)], |blocks|);
  }

  // ---------------------------------------------------------------------------
  // Realloc.

  // What the callers hold after Realloc of block i: the old block stays where it is when another is given.
  function Resized(blocks: seq<Block>, i: nat, ptr: nat, size: nat): seq<Block>
    requires i < |blocks|
  {
    if ptr == 0 then blocks
    else if ptr == blocks[i].address then blocks[i := Block(ptr, size)]
    else blocks + [Block(ptr, size)]
  }

  lemma ShrunkSafe(p: Pool, blocks: seq<Block>, i: nat, size: nat)
    requires Safe(p, blocks) && i < |blocks| && 0 < size && RoundUp(size) <= RoundUp(blocks[i].size)
    ensures Safe(p, blocks[i := Block(blocks[i].address, size)])
  {
    var all := blocks[i := Block(blocks[i].address, size)];
    forall j | 0 <= j < |all| ensures GoodBlock(p, all[j]) {
      var k :| 0 <= k < |p.chunks| && Within(blocks[j], p.chunks[k]);
      assert Within(all[j], p.chunks[k]);
    }
    forall j, k | 0 <= j < k < |all| ensures BlocksApart(all[j], all[k]) {
      assert BlocksApart(blocks[j], blocks[k]);
    }
  }

  // The last block cut off the head, and any other one.
  lemma LastBlock(p: Pool, last: Block, other: Block)
    requires GoodPool(p) && GoodBlock(p, last) && GoodBlock(p, other)
    requires last.address + RoundUp(last.size) == p.Head().Buffer() + p.Head().size
    requires BlocksApart(last, other)
    ensures p.Head().Buffer() <= last.address
    ensures other.address + RoundUp(other.size) <= last.address || p.Head().End() <= other.address
  {
    BlockAndHead(p, last);
    BlockAndHead(p, other);
    assert GoodChunk(p.Head());
  }

  lemma GrownSafe(p: Pool, blocks: seq<Block>, i: nat, size: nat, used: nat)
    requires Safe(p, blocks) && i < |blocks| && 0 < size
    requires blocks[i].address + RoundUp(blocks[i].size) == p.Head().Buffer() + p.Head().size
    requires blocks[i].address + RoundUp(size) == p.Head().Buffer() + used && used % 8 == 0
    requires p.Head().size <= used <= p.Head().capacity
    ensures Safe(p.Used(used), blocks[i := Block(blocks[i].address, size)])
  {
    var q, all := p.Used(used), blocks[i := Block(blocks[i].address, size)];
    UsedSafe(p, blocks, used);
    BlockAndHead(p, blocks[i]);
    assert GoodChunk(p.Head());
    assert Within(all[i], q.chunks[0]);
    forall j, k | 0 <= j < k < |all| ensures BlocksApart(all[j], all[k]) {
      assert BlocksApart(blocks[j], blocks[k]);
      if j == i {
        LastBlock(p, blocks[i], blocks[k]);
      } else if k == i {
        LastBlock(p, blocks[i], blocks[j]);
      }
    }
  }

  // A block of the rounded size is one of the size asked for.
  lemma AskedFor(p: Pool, blocks: seq<Block>, ptr: nat, size: nat)
    requires Safe(p, blocks + [Block(ptr, RoundUp(size))]) && 0 < size
    ensures Safe(p, blocks + [Block(ptr, size)])
    ensures forall i | 0 <= i < |blocks| :: blocks[i].address != ptr
  {
    var all := blocks + [Block(ptr, RoundUp(size))];
    AlignIsRoundUp(size);
    ShrunkSafe(p, all, |blocks|, size);
    assert all[|blocks| := Block(ptr, size)] == blocks + [Block(ptr, size)];
    forall i | 0 <= i < |blocks| ensures blocks[i].address != ptr {
      assert BlocksApart(all[i], all[|blocks|]) && GoodBlock(p, all[i]);
    }
  }

  // A live block.
  predicate Live(p: Pool, b: Block) {
    p.chunks != [] && GoodChunk(p.Head()) && 0 < b.address && b.address + RoundUp(b.size) <= WORD
  }

  lemma LiveBlock(p: Pool, blocks: seq<Block>, i: nat)
    requires Safe(p, blocks) && i < |blocks|
    ensures Live(p, blocks[i])
  {
    assert GoodChunk(p.Head());
    BlockInWord(p, blocks[i]);
  }

  lemma GrowUnwrapped(p: Pool, address: nat, original: nat, n: nat, answer: nat)
    requires p.chunks != [] && GoodChunk(p.Head()) && GrowFits(p, address, original, n)
    ensures Grow(p, address, original, n, answer) ==
            if original >= n then Granted(p, address)
            else if RoomBehind(p, address, original, n) then Granted(p.Used(p.Head().size + (n - original)), address)
            else Malloc(p, n, answer)
  {
  }

  lemma GrowWraps(p: Pool, address: nat, original: nat, n: nat, answer: nat)
    requires p.chunks != [] && GoodChunk(p.Head()) && n < WORD && RoundUp(n) == n && !GrowFits(p, address, original, n)
    ensures var g := Grow(p, address, original, n, answer);
            g.pool.chunks != [] && (g.ptr == 0 || g.ptr + n > WORD || g.pool.Head().End() > WORD)
  {
    MallocWraps(p, n, answer);
  }

  lemma ReallocWraps(p: Pool, b: Block, newSize: Size, answer: nat)
    requires Live(p, b) && !ReallocFits(p, b, newSize)
    ensures var g := Realloc(p, b, newSize, answer);
            g.pool.chunks != [] && (g.ptr == 0 || g.ptr + RoundUp(newSize) > WORD || g.pool.Head().End() > WORD)
  {
    AlignIsRoundUp(newSize);
    AlignIsRoundUp(b.size);
    if RoundUp(newSize) < WORD {
      GrowWraps(p, b.address, RoundUp(b.size), RoundUp(newSize), answer);
    }
  }

  // The three ways to grow a live block.
  lemma GrowSafe(p: Pool, blocks: seq<Block>, i: nat, newSize: Size, original: nat, n: nat, answer: nat)
    requires Safe(p, blocks) && i < |blocks| && 0 < newSize && Honest(p, n, answer)
    requires original == RoundUp(blocks[i].size) && n == RoundUp(newSize) == RoundUp(n) && n % 8 == original % 8 == 0
    requires GrowFits(p, blocks[i].address, original, n)
    ensures var g := Grow(p, blocks[i].address, original, n, answer);
            Safe(g.pool, Resized(blocks, i, g.ptr, newSize))
  {
    LiveBlock(p, blocks, i);
    GrowUnwrapped(p, blocks[i].address, original, n, answer);
    if original >= n {
      ShrunkSafe(p, blocks, i, newSize);
    } else if RoomBehind(p, blocks[i].address, original, n) {
      GrownSafe(p, blocks, i, newSize, p.Head().size + (n - original));
    } else {
      MallocSafe(p, blocks, n, answer);
      var g := Malloc(p, n, answer);
      if g.ptr != 0 { AskedFor(g.pool, blocks, g.ptr, newSize); }
    }
  }

  lemma ReallocSafe(p: Pool, blocks: seq<Block>, i: nat, newSize: Size, answer: nat)
    requires Safe(p, blocks) && i < |blocks|
    requires Honest(p, Align(newSize), answer) && ReallocFits(p, blocks[i], newSize)
    ensures var g := Realloc(p, blocks[i], newSize, answer); Safe(g.pool, Resized(blocks, i, g.ptr, newSize))
  {
    LiveBlock(p, blocks, i);
    AlignIsRoundUp(newSize);
    AlignIsRoundUp(blocks[i].size);
    if newSize != 0 {
      GrowSafe(p, blocks, i, newSize, RoundUp(blocks[i].size), RoundUp(newSize), answer);
    }
  }

  lemma ReallocUnsafe(p: Pool, blocks: seq<Block>, i: nat, newSize: Size, answer: nat)
    requires Safe(p, blocks) && i < |blocks|
    requires !ReallocFits(p, blocks[i], newSize) && Realloc(p, blocks[i], newSize, answer).ptr != 0
    ensures var g := Realloc(p, blocks[i], newSize, answer); !Safe(g.pool, Resized(blocks, i, g.ptr, newSize))
  {
    var g := Realloc(p, blocks[i], newSize, answer);
    LiveBlock(p, blocks, i);
    ReallocWraps(p, blocks[i], newSize, answer);
    SafeInWord(g.pool, Resized(blocks, i, g.ptr, newSize), if g.ptr == blocks[i].address then i else |blocks|);
  }

  // ---------------------------------------------------------------------------
  // Runs.

  datatype Call =
    | Allocate(size: Size, answer: nat)
    | Resize(i: nat, newSize: Size, answer: nat)

  datatype World = World(pool: Pool, blocks: seq<Block>)

  // The base allocator keeps its promise, and what is resized is a live block.
  predicate Proper(w: World, call: Call) {
    match call
    case Allocate(size, answer) => Honest(w.pool, size, answer)
    case Resize(i, newSize, answer) => i < |w.blocks| && Honest(w.pool, Align(newSize), answer)
  }

  predicate Fits(w: World, call: Call)
    requires Proper(w, call) && w.pool.chunks != []
  {
    match call
    case Allocate(size, _) => MallocFits(w.pool, size)
    case Resize(i, newSize, _) => ReallocFits(w.pool, w.blocks[i], newSize)
  }

  function Answer(w: World, call: Call): Granted
    requires Proper(w, call) && w.pool.chunks != []
  {
    match call
    case Allocate(size, answer) => Malloc(w.pool, size, answer)
    case Resize(i, newSize, answer) => Realloc(w.pool, w.blocks[i], newSize, answer)
  }

  function Do(w: World, call: Call): World
    requires Proper(w, call) && w.pool.chunks != []
  {
    var g := Answer(w, call);
    match call
    case Allocate(size, _) => World(g.pool, if g.ptr == 0 then w.blocks else w.blocks + [Block(g.ptr, size)])
    case Resize(i, newSize, _) => World(g.pool, Resized(w.blocks, i, g.ptr, newSize))
  }

  /** A call that hands out a block keeps the pool safe exactly when no sum on its way passes 64 bits;
      one that hands out null always does if none does. */
  lemma SafeExactlyIfFits(w: World, call: Call)
    requires Safe(w.pool, w.blocks) && Proper(w, call)
    ensures Fits(w, call) ==> Safe(Do(w, call).pool, Do(w, call).blocks)
    ensures Answer(w, call).ptr != 0 && Safe(Do(w, call).pool, Do(w, call).blocks) ==> Fits(w, call)
  {
    match call
    case Allocate(size, answer) =>
      if MallocFits(w.pool, size) {
        MallocSafe(w.pool, w.blocks, size, answer);
      } else if Answer(w, call).ptr != 0 {
        MallocUnsafe(w.pool, w.blocks, size, answer);
      }
    case Resize(i, newSize, answer) =>
      if ReallocFits(w.pool, w.blocks[i], newSize) {
        ReallocSafe(w.pool, w.blocks, i, newSize, answer);
      } else if Answer(w, call).ptr != 0 {
        ReallocUnsafe(w.pool, w.blocks, i, newSize, answer);
      }
  }

  /** A request of 2^64 - 8 bytes behind 8 bytes in use: the sum wraps, and the block handed out does
      not lie in its chunk. */
  lemma WrapUnsafe()
    ensures var w := World(Pool([Chunk(64, 16, 8)], 65536), [Block(88, 8)]);
            var call := Allocate(WORD - 8, 0);
            && Safe(w.pool, w.blocks) && Proper(w, call) && Answer(w, call).ptr == 96
            && !Safe(Do(w, call).pool, Do(w, call).blocks)
  {
    var c, b := Chunk(64, 16, 8), Block(88, 8);
    var w, call := World(Pool([c], 65536), [b]), Allocate(WORD - 8, 0);
    assert Within(b, w.pool.chunks[0]);
    assert Align(WORD - 8) == WORD - 8 == RoundUp(WORD - 8);
    assert !Fits(w, call);
    SafeExactlyIfFits(w, call);
  }

  // Every call proper and small enough when its turn comes.
  predicate Allowed(w: World, calls: seq<Call>)
    requires w.pool.chunks != []
    decreases |calls|
  {
    calls != [] ==>
      && Proper(w, calls[0]) && Fits(w, calls[0])
      && Do(w, calls[0]).pool.chunks != [] && Allowed(Do(w, calls[0]), calls[1..])
  }

  function Run(w: World, calls: seq<Call>): World
    requires w.pool.chunks != [] && Allowed(w, calls)
    decreases |calls|
  {
    if calls == [] then w else Run(Do(w, calls[0]), calls[1..])
  }

  /** Over every run, live blocks are aligned, inside the used part of their chunk and apart from each
      other, and no chunk has more in use than its capacity. */
  lemma {:induction false} RunSafe(w: World, calls: seq<Call>)
    requires Safe(w.pool, w.blocks) && Allowed(w, calls)
    ensures Safe(Run(w, calls).pool, Run(w, calls).blocks)
    decreases |calls|
  {
    if calls != [] {
      SafeExactlyIfFits(w, calls[0]);
      RunSafe(Do(w, calls[0]), calls[1..]);
    }
  }

  // ---------------------------------------------------------------------------
  // Contents.

  // The bytes of a block.
  function Bytes(memory: seq<byte>, b: Block): seq<byte>
    requires b.address + RoundUp(b.size) <= |memory|
  {
    memory[b.address..b.address + RoundUp(b.size)]
  }

  lemma CopiedAway(memory: seq<byte>, from: Block, to: Block)
    requires from.address + RoundUp(from.size) <= |memory| && to.address + RoundUp(to.size) <= |memory|
    requires RoundUp(from.size) <= RoundUp(to.size)
    ensures var n := RoundUp(from.size);
            && to.address + n <= |memory|
            && Bytes(Copied(memory, from.address, to.address, n), to)[..n] == Bytes(memory, from)
            && forall b: Block | b.address + RoundUp(b.size) <= |memory| && BlocksApart(b, to) ::
                 Bytes(Copied(memory, from.address, to.address, n), b) == Bytes(memory, b)
  {
  }

  // Memory after Realloc.
  function MemoryAfter(memory: seq<byte>, b: Block, ptr: nat): seq<byte>
    requires b.address + RoundUp(b.size) <= |memory|
    requires ptr == 0 || ptr == b.address || ptr + RoundUp(b.size) <= |memory|
  {
    if ptr == 0 || ptr == b.address then memory else Copied(memory, b.address, ptr, RoundUp(b.size))
  }

  // A block handed out elsewhere is a new and larger one.
  lemma ElsewhereIsLarger(p: Pool, blocks: seq<Block>, i: nat, newSize: Size, answer: nat)
    requires Safe(p, blocks) && i < |blocks|
    requires Honest(p, Align(newSize), answer) && ReallocFits(p, blocks[i], newSize)
    ensures var g := Realloc(p, blocks[i], newSize, answer);
            g.ptr != 0 && g.ptr != blocks[i].address ==>
              && RoundUp(blocks[i].size) < RoundUp(newSize) && g.ptr + RoundUp(newSize) <= WORD
              && forall j | 0 <= j < |blocks| :: BlocksApart(blocks[j], Block(g.ptr, newSize))
  {
    LiveBlock(p, blocks, i);
    ReallocSafe(p, blocks, i, newSize, answer);
    var g := Realloc(p, blocks[i], newSize, answer);
    AlignIsRoundUp(newSize);
    AlignIsRoundUp(blocks[i].size);
    if g.ptr != 0 && g.ptr != blocks[i].address {
      var all := blocks + [Block(g.ptr, newSize)];
      BlockInWord(g.pool, all[|blocks|]);
      forall j | 0 <= j < |blocks| ensures BlocksApart(blocks[j], Block(g.ptr, newSize)) {
        assert BlocksApart(all[j], all[|blocks|]);
      }
    }
  }

  /** Realloc gives a block that begins with the old one's bytes as far as both go, and every
      block there was before keeps its own. */
  lemma ReallocKeepsContents(p: Pool, blocks: seq<Block>, i: nat, newSize: Size, answer: nat, memory: seq<byte>)
    requires Safe(p, blocks) && i < |blocks| && |memory| == WORD
    requires Honest(p, Align(newSize), answer) && ReallocFits(p, blocks[i], newSize)
    requires Realloc(p, blocks[i], newSize, answer).ptr != 0
    ensures var b, g := blocks[i], Realloc(p, blocks[i], newSize, answer);
            && b.address + RoundUp(b.size) <= WORD && g.ptr + RoundUp(newSize) <= WORD
            && (g.ptr == b.address || g.ptr + RoundUp(b.size) <= WORD)
            && var n := if RoundUp(b.size) < RoundUp(newSize) then RoundUp(b.size) else RoundUp(newSize);
            && Bytes(MemoryAfter(memory, b, g.ptr), Block(g.ptr, newSize))[..n] == Bytes(memory, b)[..n]
            && forall j | 0 <= j < |blocks| ::
                 && blocks[j].address + RoundUp(blocks[j].size) <= WORD
                 && Bytes(MemoryAfter(memory, b, g.ptr), blocks[j]) == Bytes(memory, blocks[j])
  {
    var b, g := blocks[i], Realloc(p, blocks[i], newSize, answer);
    ReallocSafe(p, blocks, i, newSize, answer);
    ElsewhereIsLarger(p, blocks, i, newSize, answer);
    forall j | 0 <= j < |blocks| ensures blocks[j].address + RoundUp(blocks[j].size) <= WORD {
      BlockInWord(p, blocks[j]);
    }
    BlockInWord(p, b);
    if g.ptr == b.address {
      BlockInWord(g.pool, Resized(blocks, i, g.ptr, newSize)[i]);
    } else {
      CopiedAway(memory, b, Block(g.ptr, newSize));
    }
  }
}
