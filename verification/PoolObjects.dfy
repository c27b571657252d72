/** The allocator object: a linked list of chunk headers and the memory its blocks lie in. */
module PoolObjects {
  import opened BigIntBytes
  import opened PoolAllocator

  class ChunkHeader {
    const address: nat
    const capacity: nat
    const next: ChunkHeader?
    var size: nat

    constructor (address: nat, capacity: nat, next: ChunkHeader?)
      ensures this.address == address && this.capacity == capacity && this.next == next && size == 0
    {
      this.address := address;
      this.capacity := capacity;
      this.next := next;
      this.size := 0;
    }

    ghost function View(): Chunk
      reads this
    {
      Chunk(address, capacity, size)
    }
  }

  ghost predicate Linked(chunks: seq<ChunkHeader>) {
    chunks != [] ==>
      && chunks[0] !in chunks[1..] && Linked(chunks[1..])
      && chunks[0].next == if |chunks| > 1 then chunks[1] else null
  }

  class MemoryPoolAllocator {
    const memory: array<byte>
    const chunkCapacity: nat
    var chunkHead: ChunkHeader
    ghost var chunks: seq<ChunkHeader>

    // The list, head first.
    ghost predicate Valid()
      reads this
    {
      chunks != [] && chunks[0] == chunkHead && Linked(chunks)
    }

    ghost function View(): (p: Pool)
      reads this, chunks
      requires Valid()
      ensures p.chunks != []
    {
      Pool(seq(|chunks|, i requires 0 <= i < |chunks| reads this, chunks => chunks[i].View()), chunkCapacity)
    }

    // The shared data at this address, with a first chunk of no capacity behind it.
    constructor (memory: array<byte>, shared: nat, chunkSize: nat)
      requires 0 < shared && shared % 8 == 0 && shared + SHARED + HEADER <= WORD
      ensures Valid() && fresh(chunks) && this.memory == memory
      ensures View() == Pool([Chunk(shared + SHARED, 0, 0)], chunkSize) && Safe(View(), [])
    {
      this.memory := memory;
      chunkCapacity := chunkSize;
      var head := new ChunkHeader(shared + SHARED, 0, null);
      chunkHead := head;
      chunks := [head];
      new;
      assert View().chunks == [head.View()];
    }

    // Everything in a buffer of the caller's, which is aligned first.
    constructor WithBuffer(memory: array<byte>, buffer: nat, size: nat, chunkSize: nat)
      requires 0 < buffer && buffer + size <= WORD && size >= RoundUp(buffer) - buffer + SHARED + HEADER
      ensures Valid() && fresh(chunks) && this.memory == memory && Safe(View(), [])
      ensures View().chunkCapacity == chunkSize && |View().chunks| == 1
      ensures var c := View().Head(); buffer + SHARED <= c.address < buffer + SHARED + 8 && c.End() == buffer + size
    {
      AlignIsRoundUp(buffer);
      var aligned := RoundUp(buffer);
      this.memory := memory;
      chunkCapacity := chunkSize;
      var head := new ChunkHeader(aligned + SHARED, size - (aligned - buffer) - SHARED - HEADER, null);
      chunkHead := head;
      chunks := [head];
      new;
      assert View().chunks == [head.View()];
    }

    method AddChunk(capacity: nat, answer: nat) returns (ok: bool)
      requires Valid()
      modifies this`chunkHead, this`chunks
      ensures Valid() && ok == (answer != 0)
      ensures if ok then fresh(chunkHead) && chunks == [chunkHead] + old(chunks) else chunks == old(chunks)
      ensures View() == if ok then PoolAllocator.AddChunk(old(View()), capacity, answer) else old(View())
    {
      if answer == 0 { return false; }
      var chunk := new ChunkHeader(answer, capacity, chunkHead);
      chunkHead := chunk;
      chunks := [chunk] + chunks;
      assert chunks[1..] == old(chunks);
      assert View().chunks == [chunk.View()] + old(View()).chunks;
      return true;
    }

    // More of the head in use.
    method Use(size: nat)
      requires Valid()
      modifies chunkHead
      ensures Valid() && View() == old(View()).Used(size)
    {
      assert chunkHead !in chunks[1..];
      chunkHead.size := size;
      assert View().chunks == [chunkHead.View()] + old(View()).chunks[1..];
    }

    method Malloc(size: Size, answer: nat) returns (ptr: nat)
      requires Valid()
      modifies this`chunkHead, this`chunks, chunkHead
      ensures Valid()
      ensures chunks == old(chunks) || (fresh(chunkHead) && chunks == [chunkHead] + old(chunks))
      ensures Granted(View(), ptr) == PoolAllocator.Malloc(old(View()), size, answer)
    {
      if size == 0 { return 0; }
      var n := Align(size);
      if (chunkHead.size + n) % WORD > chunkHead.capacity {
        var ok := AddChunk(if chunkCapacity > n then chunkCapacity else n, answer);
        if !ok { return 0; }
      }
      ptr := chunkHead.address + HEADER + chunkHead.size;
      Use((chunkHead.size + n) % WORD);
    }

    // Realloc once sizes are aligned.
    method Grow(address: nat, original: nat, n: nat, answer: nat) returns (ptr: nat)
      requires Valid() && n < WORD
      requires PoolAllocator.Grow(View(), address, original, n, answer).ptr != 0 ==>
                 && address + original <= memory.Length
                 && PoolAllocator.Grow(View(), address, original, n, answer).ptr + original <= memory.Length
      modifies this`chunkHead, this`chunks, chunkHead, memory
      ensures Valid() && (chunks == old(chunks) || (fresh(chunkHead) && chunks == [chunkHead] + old(chunks)))
      ensures Granted(View(), ptr) == PoolAllocator.Grow(old(View()), address, original, n, answer)
      ensures memory[..] == if ptr == 0 || ptr == address then old(memory[..])
                            else Copied(old(memory[..]), address, ptr, original)
    {
      if original >= n { return address; }
      if address + original == chunkHead.address + HEADER + chunkHead.size {
        var increment := n - original;
        if (chunkHead.size + increment) % WORD <= chunkHead.capacity {
          Use((chunkHead.size + increment) % WORD);
          return address;
        }
      }
      ptr := Malloc(n, answer);
      if ptr != 0 {
        Copy(address, ptr, original);
      }
    }

    /** For a live block the callers hold, or for null. */
    method Realloc(original: Block, newSize: Size, answer: nat, ghost blocks: seq<Block>,
            ghost i: nat) returns (ptr: nat)
      requires Valid() && memory.Length == WORD
      requires original.address != 0 ==>
                 && Safe(View(), blocks) && i < |blocks| && blocks[i] == original
                 && Honest(View(), Align(newSize), answer) && ReallocFits(View(), original, newSize)
      modifies this`chunkHead, this`chunks, chunkHead, memory
      ensures Valid() && (chunks == old(chunks) || (fresh(chunkHead) && chunks == [chunkHead] + old(chunks)))
      ensures Granted(View(), ptr) == PoolAllocator.Realloc(old(View()), original, newSize, answer)
      ensures if original.address == 0 then memory[..] == old(memory[..])
              else
                && original.address + RoundUp(original.size) <= WORD
                && (ptr == 0 || ptr == original.address || ptr + RoundUp(original.size) <= WORD)
                && memory[..] == MemoryAfter(old(memory[..]), original, ptr)
    {
      if original.address == 0 {
        ptr := Malloc(newSize, answer);
        return;
      }
      LiveBlock(View(), blocks, i);
      ElsewhereIsLarger(View(), blocks, i, newSize, answer);
      AlignIsRoundUp(original.size);
      if newSize == 0 { return 0; }
      ptr := Grow(original.address, Align(original.size), Align(newSize), answer);
    }

    // memcpy.
    method Copy(from: nat, to: nat, n: nat)
      requires from + n <= memory.Length && to + n <= memory.Length
      modifies memory
      ensures memory[..] == Copied(old(memory[..]), from, to, n)
      ensures from == to ==> memory[..] == old(memory[..])
    {
      forall k | 0 <= k < n {
        memory[to + k] := memory[from + k];
      }
    }

    // Frees every chunk but the first.
    method Clear()
      requires Valid()
      modifies this`chunkHead, this`chunks, chunks
      ensures Valid() && chunks == [old(chunks)[|old(chunks)| - 1]]
      ensures View() == old(View()).(chunks := [old(View()).chunks[|old(chunks)| - 1].(size := 0)])
    {
      while chunkHead.next != null
        invariant Valid() && |chunks| <= |old(chunks)| && chunks == old(chunks)[|old(chunks)| - |chunks|..]
        invariant forall c | c in old(chunks) :: c.size == old(c.size)
        decreases |chunks|
      {
        chunkHead := chunkHead.next;
        chunks := chunks[1..];
      }
      assert chunks[0] == old(chunks)[|old(chunks)| - |chunks|];
      chunkHead.size := 0;
      assert View().chunks == [chunkHead.View()];
    }
  }
}
