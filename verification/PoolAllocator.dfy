/** The memory pool: a bump allocator over a list of chunks, with growth in place. */
module PoolAllocator {
  type byte = bv8

  /** The number of values of `size_t`. */
  const WORD: nat := 0x1_0000_0000_0000_0000

  /** The aligned size of a chunk header: a capacity, a size and a link. */
  const HEADER: nat := 24

  /** Addition of two values of `size_t`. */
  function Plus(a: nat, b: nat): (sum: nat)
    ensures a + b < WORD ==> sum == a + b
  {
    (a + b) % WORD
  }

  /** How far an address is past a multiple of eight. */
  function Misalignment(address: nat): nat { address % 8 }

  /** Rounds up to a multiple of eight in 64-bit arithmetic, so that the largest sizes wrap. */
  function Align(size: nat): (aligned: nat)
    ensures aligned % 8 == 0 && aligned < WORD
    ensures size + 7 < WORD ==> size <= aligned < size + 8
  {
    (size + 7) % WORD / 8 * 8
  }

  /** Rounding covers the size asked for exactly when it does not wrap; otherwise it gives
    * at most one byte less than nothing at all. */
  lemma AlignCoversIff(size: nat)
    requires size < WORD
    ensures Align(size) >= size <==> size + 7 < WORD
    ensures size + 7 >= WORD ==> Align(size) == 0
  {
    if size + 7 >= WORD {
      assert (size + 7) % WORD == size + 7 - WORD;
    }
  }

  /** A capacity, a size and a link, of eight bytes each. */
  lemma HeaderIsThreeWords()
    ensures HEADER == Align(8 + 8 + 8)
  {
  }

  /** The header of a chunk and, through `next`, the rest of the chunk list. */
  datatype Chunk = Null | Chunk(address: nat, capacity: nat, size: nat, next: Chunk)

  /** Where the next block of the chunk starts. */
  function Free(c: Chunk): nat requires c.Chunk? { c.address + HEADER + c.size }

  /** The addresses from `p` up to `p + n` and from `q` up to `q + m` do not meet. */
  predicate Apart(p: nat, n: nat, q: nat, m: nat) { p + n <= q || q + m <= p }

  /** The `n` addresses from `p` on are outside every chunk. */
  predicate Outside(c: Chunk, p: nat, n: nat) {
    c.Chunk? ==> Apart(p, n, c.address, HEADER + c.capacity) && Outside(c.next, p, n)
  }

  /** The chunks are within the address space, do not meet, and use no more than they have. */
  predicate ChunksOk(c: Chunk) {
    c.Chunk? ==>
      && c.address != 0 && c.address + HEADER + c.capacity <= WORD && c.size <= c.capacity
      && Outside(c.next, c.address, HEADER + c.capacity) && ChunksOk(c.next)
  }

  /** The `n` addresses from `p` on lie in the used part of one chunk. */
  predicate Holds(c: Chunk, p: nat, n: nat) {
    c.Chunk? && ((c.address + HEADER <= p && p + n <= Free(c)) || Holds(c.next, p, n))
  }

  /** Every block handed out lies in the used part of one chunk, and no two blocks meet. */
  ghost predicate BlocksOk(c: Chunk, blocks: map<nat, nat>) {
    && (forall p :: p in blocks ==> blocks[p] > 0 && Holds(c, p, blocks[p]))
    && (forall p, q :: p in blocks && q in blocks && p != q ==> Apart(p, blocks[p], q, blocks[q]))
  }

  /** Only the last chunk is the user's buffer, if there is one; the base allocator lent
    * exactly the others. */
  ghost predicate OwnersOk(c: Chunk, userBuffer: nat, held: set<nat>) {
    if c.Null? then userBuffer == 0 && held == {}
    else if c.address == userBuffer then c.next.Null? && held == {}
    else c.address in held && OwnersOk(c.next, userBuffer, held - {c.address})
  }

  /** Blocks start at the same offset from a multiple of eight as their chunk. */
  predicate UsesWholeWords(c: Chunk) { c.Chunk? ==> c.size % 8 == 0 && UsesWholeWords(c.next) }

  function TotalSize(c: Chunk): nat { if c.Null? then 0 else c.size + TotalSize(c.next) }

  function TotalCapacity(c: Chunk): nat { if c.Null? then 0 else c.capacity + TotalCapacity(c.next) }

  function Bottom(c: Chunk): (bottom: Chunk)
    ensures c.Chunk? ==> bottom.Chunk?
  { if c.Null? || c.next.Null? then c else Bottom(c.next) }

  /** The base allocator returns null, or a region that meets no chunk. */
  predicate FreshRegion(c: Chunk, region: nat, length: nat) {
    region == 0 || (region + length <= WORD && Outside(c, region, length))
  }

  // ---- The invariant under the three ways the chunk list changes

  lemma {:induction false} OutsideIsApart(c: Chunk, p: nat, n: nat, q: nat, m: nat)
    requires ChunksOk(c) && Holds(c, p, n) && Outside(c, q, m)
    ensures Apart(p, n, q, m)
  {
    if !(c.address + HEADER <= p && p + n <= Free(c)) {
      OutsideIsApart(c.next, p, n, q, m);
    }
  }

  /** The head chunk gives out its next `n` bytes. */
  lemma Bump(c: Chunk, blocks: map<nat, nat>, n: nat)
    requires c.Chunk? && ChunksOk(c) && BlocksOk(c, blocks)
    requires n > 0 && c.size + n <= c.capacity
    ensures ChunksOk(c.(size := c.size + n))
    ensures BlocksOk(c.(size := c.size + n), blocks[Free(c) := n])
    ensures forall p :: p in blocks ==> p != Free(c) && Apart(p, blocks[p], Free(c), n)
  {
    forall p | p in blocks
      ensures p != Free(c) && Apart(p, blocks[p], Free(c), n) && Holds(c.(size := c.size + n), p, blocks[p])
    {
      if Holds(c.next, p, blocks[p]) {
        OutsideIsApart(c.next, p, blocks[p], c.address, HEADER + c.capacity);
      }
    }
  }

  /** The last block of the head chunk grows. A block that seems to end where the head chunk
    * is free does end there: a claim below its extent cannot reach that far. */
  lemma Grow(c: Chunk, blocks: map<nat, nat>, p: nat, claimed: nat, n: nat)
    requires c.Chunk? && ChunksOk(c) && BlocksOk(c, blocks)
    requires p in blocks && claimed <= blocks[p] && p + claimed == Free(c)
    requires n > 0 && c.size + n <= c.capacity
    ensures claimed == blocks[p]
    ensures ChunksOk(c.(size := c.size + n))
    ensures BlocksOk(c.(size := c.size + n), blocks[p := claimed + n])
  {
    if Holds(c.next, p, blocks[p]) {
      OutsideIsApart(c.next, p, blocks[p], c.address, HEADER + c.capacity);
    }
    forall q | q in blocks && q != p
      ensures Apart(q, blocks[q], p, claimed + n) && Holds(c.(size := c.size + n), q, blocks[q])
    {
      assert Apart(q, blocks[q], p, blocks[p]);
      if Holds(c.next, q, blocks[q]) {
        OutsideIsApart(c.next, q, blocks[q], c.address, HEADER + c.capacity);
      }
    }
  }

  /** A new empty chunk goes to the front. */
  lemma Prepend(c: Chunk, blocks: map<nat, nat>, userBuffer: nat, held: set<nat>, region: nat, capacity: nat)
    requires ChunksOk(c) && BlocksOk(c, blocks) && OwnersOk(c, userBuffer, held)
    requires region != 0 && FreshRegion(c, region, HEADER + capacity)
    ensures ChunksOk(Chunk(region, capacity, 0, c))
    ensures BlocksOk(Chunk(region, capacity, 0, c), blocks)
    ensures OwnersOk(Chunk(region, capacity, 0, c), userBuffer, held + {region})
  {
    HeldAreNotOutside(c, userBuffer, held, region, HEADER + capacity);
    assert held + {region} - {region} == held;
  }

  lemma {:induction false} HeldAreNotOutside(c: Chunk, userBuffer: nat, held: set<nat>, p: nat, n: nat)
    requires ChunksOk(c) && OwnersOk(c, userBuffer, held) && n > 0 && Outside(c, p, n)
    ensures p !in held && (userBuffer != 0 ==> p != userBuffer)
  {
    if c.Chunk? && c.address != userBuffer {
      HeldAreNotOutside(c.next, userBuffer, held - {c.address}, p, n);
    }
  }

  class MemoryPoolAllocator {
    /** The chunk list, newest first; only the first chunk serves allocations. */
    var chunkHead: Chunk
    var memory: nat -> byte
    const chunkCapacity: nat
    const userBuffer: nat

    /** Every block handed out since the last `Clear`, with its extent. */
    ghost var blocks: map<nat, nat>
    /** The chunks taken from the base allocator and not yet given back to it. */
    ghost var held: set<nat>

    ghost predicate Valid()
      reads this
    {
      && chunkCapacity + HEADER < WORD
      && ChunksOk(chunkHead) && BlocksOk(chunkHead, blocks) && OwnersOk(chunkHead, userBuffer, held)
      && UsesWholeWords(chunkHead)
    }

    /** The size can be served without wrapping in 64-bit arithmetic. */
    predicate Fits(size: nat)
      reads this
    {
      size + 7 < WORD && Align(size) + HEADER < WORD && (chunkHead.Chunk? ==> chunkHead.size + Align(size) < WORD)
    }

    /** The head chunk has no room for `size` bytes. */
    predicate Full(size: nat)
      reads this
    {
      chunkHead.Null? || chunkHead.size + Align(size) > chunkHead.capacity
    }

    /** The block ends where the head chunk is free, and the chunk has room for the rest. */
    predicate GrowsInPlace(original: nat, originalSize: nat, newSize: nat)
      reads this
    {
      && chunkHead.Chunk? && original + Align(originalSize) == Free(chunkHead)
      && Align(originalSize) < Align(newSize)
      && chunkHead.size + (Align(newSize) - Align(originalSize)) <= chunkHead.capacity
    }

    /** The block is new or grows, and not where it stands. */
    predicate NeedsBlock(original: nat, originalSize: nat, newSize: nat)
      reads this
    {
      newSize != 0 && (original == 0 || (Align(originalSize) < Align(newSize) && !GrowsInPlace(original, originalSize, newSize)))
    }

    /** What the base allocator is asked for when `size` bytes need a new chunk. */
    function Request(size: nat): (length: nat)
      ensures length >= HEADER + Align(size) && length >= HEADER + chunkCapacity
      ensures length == HEADER + Align(size) || length == HEADER + chunkCapacity
    {
      HEADER + if chunkCapacity > Align(size) then chunkCapacity else Align(size)
    }

    constructor (chunkCapacity: nat, memory: nat -> byte)
      requires chunkCapacity + HEADER < WORD
      ensures Valid() && chunkHead.Null? && blocks == map[] && held == {}
      ensures this.chunkCapacity == chunkCapacity && this.memory == memory && userBuffer == 0
    {
      chunkHead, this.memory, this.chunkCapacity, userBuffer := Null, memory, chunkCapacity, 0;
      blocks, held := map[], {};
    }

    constructor OnBuffer(buffer: nat, size: nat, chunkCapacity: nat, memory: nat -> byte)
      requires chunkCapacity + HEADER < WORD
      requires buffer != 0 && size > HEADER && buffer + size <= WORD
      ensures Valid() && chunkHead == Chunk(buffer, size - HEADER, 0, Null) && blocks == map[] && held == {}
      ensures this.chunkCapacity == chunkCapacity && this.memory == memory && userBuffer == buffer
    {
      chunkHead, this.memory, this.chunkCapacity, userBuffer := Chunk(buffer, size - HEADER, 0, Null), memory, chunkCapacity, buffer;
      blocks, held := map[], {};
    }

    /** Gives every chunk but the user's buffer back to the base allocator, each once. */
    method Clear()
      requires Valid()
      modifies this
      ensures Valid() && blocks == map[] && held == {} && memory == old(memory)
      ensures userBuffer == 0 ==> chunkHead.Null?
      ensures userBuffer != 0 ==> old(chunkHead).Chunk?
      ensures userBuffer != 0 ==> chunkHead == Chunk(userBuffer, old(Bottom(chunkHead).capacity), 0, Null)
    {
      blocks := map[];
      while chunkHead.Chunk? && chunkHead.address != userBuffer
        invariant Valid() && blocks == map[] && memory == old(memory)
        invariant chunkHead.Chunk? ==> old(chunkHead).Chunk? && Bottom(chunkHead) == old(Bottom(chunkHead))
        decreases chunkHead
      {
        assert chunkHead.address in held;
        held := held - {chunkHead.address};
        chunkHead := chunkHead.next;
      }
      if chunkHead.Chunk? && chunkHead.address == userBuffer {
        chunkHead := chunkHead.(size := 0);
      }
    }

    /** Adds up the capacities of the chunks. */
    method Capacity() returns (capacity: nat)
      ensures capacity == TotalCapacity(chunkHead)
    {
      capacity := 0;
      var c := chunkHead;
      while c.Chunk?
        invariant capacity + TotalCapacity(c) == TotalCapacity(chunkHead)
        decreases c
      {
        capacity := capacity + c.capacity;
        c := c.next;
      }
    }

    /** Adds up the used bytes of the chunks, which never exceed their capacity. */
    method Size() returns (size: nat)
      requires Valid()
      ensures size == TotalSize(chunkHead) <= TotalCapacity(chunkHead)
    {
      size := 0;
      var c := chunkHead;
      while c.Chunk?
        invariant size + TotalSize(c) == TotalSize(chunkHead)
        decreases c
      {
        size := size + c.size;
        c := c.next;
      }
      UsedWithinCapacity(chunkHead);
    }

    method AddChunk(capacity: nat, region: nat) returns (ok: bool)
      requires Valid() && capacity + HEADER < WORD && FreshRegion(chunkHead, region, HEADER + capacity)
      modifies this`chunkHead, this`held
      ensures Valid() && ok == (region != 0)
      ensures held == old(held) + if ok then {region} else {}
      ensures chunkHead == if ok then Chunk(region, capacity, 0, old(chunkHead)) else old(chunkHead)
    {
      ok := region != 0;
      if ok {
        Prepend(chunkHead, blocks, userBuffer, held, region, capacity);
        chunkHead := Chunk(region, capacity, 0, chunkHead);
        held := held + {region};
      }
    }

    /** A block of at least `size` bytes that no earlier block meets, or null when nothing was
      * asked for or the base allocator is exhausted. `region` is what the base allocator
      * returns if it is asked. */
    method Malloc(size: nat, region: nat) returns (buffer: nat)
      requires Valid() && Fits(size) && FreshRegion(chunkHead, region, Request(size))
      modifies this`chunkHead, this`held, this`blocks
      ensures Valid()
      ensures buffer == 0 <==> (size == 0 || (old(Full(size)) && region == 0))
      ensures buffer == 0 ==> blocks == old(blocks) && chunkHead == old(chunkHead)
      ensures buffer != 0 ==> buffer !in old(blocks) && blocks == old(blocks)[buffer := Align(size)]
      ensures buffer != 0 ==> forall p :: p in old(blocks) ==> Apart(p, old(blocks)[p], buffer, Align(size))
      ensures buffer != 0 ==> chunkHead.Chunk? && Misalignment(buffer) == Misalignment(chunkHead.address)
      ensures size != 0 && !old(Full(size)) ==>
                buffer == old(Free(chunkHead)) && chunkHead == old(chunkHead.(size := chunkHead.size + Align(size))) && held == old(held)
      ensures size != 0 && old(Full(size)) && region != 0 ==>
                buffer == region + HEADER && held == old(held) + {region} &&
                chunkHead == Chunk(region, Request(size) - HEADER, Align(size), old(chunkHead))
      ensures buffer == 0 ==> held == old(held)
    {
      hide BlocksOk, ChunksOk, OwnersOk, Align, Plus, Misalignment, UsesWholeWords, Outside;
      if size == 0 { return 0; }
      var n := Align(size);
      ChunkSizeFits(chunkHead);
      if chunkHead.Null? || Plus(chunkHead.size, n) > chunkHead.capacity {
        var ok := AddChunk(if chunkCapacity > n then chunkCapacity else n, region);
        if !ok { return 0; }
      }
      buffer := chunkHead.address + HEADER + chunkHead.size;
      Bump(chunkHead, blocks, n);
      Regrown(chunkHead, userBuffer, held, size);
      ChunkSizeFits(chunkHead);
      chunkHead := chunkHead.(size := chunkHead.size + n);
      blocks := blocks[buffer := n];
    }

    /** Resizes a block. The caller may claim any size up to the block's extent: after a
      * request to shrink, which changes nothing, it claims less than the block has. */
    method Realloc(original: nat, originalSize: nat, newSize: nat, region: nat) returns (buffer: nat)
      requires Valid() && Fits(newSize) && FreshRegion(chunkHead, region, Request(newSize))
      requires original != 0 ==> original in blocks && originalSize + 7 < WORD && Align(originalSize) <= blocks[original]
      modifies this
      ensures Valid()
      ensures newSize == 0 ==> buffer == 0
      ensures buffer == 0 ==> blocks == old(blocks) && memory == old(memory)
      ensures original != 0 && newSize != 0 && Align(originalSize) >= Align(newSize) ==>
                buffer == original && blocks == old(blocks) && chunkHead == old(chunkHead)
      ensures original != 0 && newSize != 0 && old(GrowsInPlace(original, originalSize, newSize)) ==>
                buffer == original && blocks == old(blocks)[original := Align(newSize)] && held == old(held) &&
                chunkHead == old(chunkHead.(size := chunkHead.size + (Align(newSize) - Align(originalSize))))
      ensures buffer != 0 && buffer != original ==>
                buffer !in old(blocks) && blocks == old(blocks)[buffer := Align(newSize)]
      ensures buffer == 0 && newSize != 0 ==> old(Full(newSize)) && region == 0
      ensures old(NeedsBlock(original, originalSize, newSize)) && !old(Full(newSize)) ==>
                buffer == old(Free(chunkHead)) && chunkHead == old(chunkHead.(size := chunkHead.size + Align(newSize))) && held == old(held)
      ensures old(NeedsBlock(original, originalSize, newSize)) && old(Full(newSize)) && region != 0 ==>
                buffer == region + HEADER && held == old(held) + {region} &&
                chunkHead == Chunk(region, Request(newSize) - HEADER, Align(newSize), old(chunkHead))
      ensures forall p :: p in old(blocks) ==> p in blocks && old(blocks)[p] <= blocks[p]
      ensures Preserved(old(blocks), old(memory), memory)
      ensures original != 0 && buffer != 0 ==>
                SameBytes(old(memory), original, memory, buffer, Min(Align(originalSize), Align(newSize)))
    {
      hide BlocksOk, ChunksOk, OwnersOk, Align, Plus, Misalignment, UsesWholeWords, Outside, SameBytes, Preserved, FreshRegion;
      NothingWritten(blocks, memory);
      if original == 0 {
        buffer := Malloc(newSize, region);
        return;
      }
      if newSize == 0 { return 0; }
      var from, to := Align(originalSize), Align(newSize);
      if from >= to { return original; }
      HoldsSome(chunkHead, blocks, original);
      ChunkSizeFits(chunkHead);
      if original + from == chunkHead.address + HEADER + chunkHead.size {
        var increment := to - from;
        if Plus(chunkHead.size, increment) <= chunkHead.capacity {
          Grow(chunkHead, blocks, original, from, increment);
          RegrownBy(chunkHead, userBuffer, held, originalSize, newSize);
          chunkHead := chunkHead.(size := chunkHead.size + increment);
          blocks := blocks[original := to];
          return original;
        }
      }
      AlignAgain(newSize);
      buffer := Malloc(to, region);
      if buffer != 0 {
        CopyingIsSafe(old(blocks), memory, original, buffer, from, to);
        memory := Copied(memory, original, buffer, from);
      }
    }
  }

  function Min(a: nat, b: nat): nat { if a < b then a else b }

  /** The `n` bytes from `p` on in `before` are those from `q` on in `after`. */
  ghost predicate SameBytes(before: nat -> byte, p: nat, after: nat -> byte, q: nat, n: nat) {
    forall a :: q <= a < q + n ==> after(a) == before(p + (a - q))
  }

  /** No byte of any block changed. */
  ghost predicate Preserved(blocks: map<nat, nat>, before: nat -> byte, after: nat -> byte) {
    forall p :: p in blocks ==> SameBytes(before, p, after, p, blocks[p])
  }

  /** The memory after copying `n` bytes from `p` to `q`. */
  function Copied(memory: nat -> byte, p: nat, q: nat, n: nat): nat -> byte {
    (a: nat) => if q <= a < q + n then memory(p + (a - q)) else memory(a)
  }

  lemma CopyingIsSafe(blocks: map<nat, nat>, memory: nat -> byte, p: nat, q: nat, n: nat, m: nat)
    requires n <= m && forall b :: b in blocks ==> Apart(b, blocks[b], q, m)
    ensures Preserved(blocks, memory, Copied(memory, p, q, n))
    ensures SameBytes(memory, p, Copied(memory, p, q, n), q, n)
  {
  }

  lemma NothingWritten(blocks: map<nat, nat>, memory: nat -> byte)
    ensures Preserved(blocks, memory, memory)
    ensures forall p, n :: SameBytes(memory, p, memory, p, n)
  {
  }

  lemma AlignAgain(size: nat)
    requires size + 7 < WORD
    ensures Align(Align(size)) == Align(size) && Align(size) + 7 < WORD
  {
  }

  lemma ChunkSizeFits(c: Chunk)
    requires ChunksOk(c)
    ensures c.Chunk? ==> c.size <= c.capacity && c.address != 0 && c.address + HEADER + c.capacity <= WORD
  {
  }

  lemma HoldsSome(c: Chunk, blocks: map<nat, nat>, p: nat)
    requires BlocksOk(c, blocks) && p in blocks
    ensures c.Chunk?
  {
  }

  lemma Regrown(c: Chunk, userBuffer: nat, held: set<nat>, n: nat)
    requires c.Chunk? && OwnersOk(c, userBuffer, held) && UsesWholeWords(c)
    ensures OwnersOk(c.(size := c.size + Align(n)), userBuffer, held)
    ensures UsesWholeWords(c.(size := c.size + Align(n)))
    ensures Misalignment(Free(c)) == Misalignment(c.address)
  {
  }

  lemma RegrownBy(c: Chunk, userBuffer: nat, held: set<nat>, n: nat, m: nat)
    requires c.Chunk? && OwnersOk(c, userBuffer, held) && UsesWholeWords(c) && Align(n) <= Align(m)
    ensures OwnersOk(c.(size := c.size + (Align(m) - Align(n))), userBuffer, held)
    ensures UsesWholeWords(c.(size := c.size + (Align(m) - Align(n))))
  {
  }

  lemma {:induction false} UsedWithinCapacity(c: Chunk)
    requires ChunksOk(c)
    ensures TotalSize(c) <= TotalCapacity(c)
  {
    if c.Chunk? {
      UsedWithinCapacity(c.next);
    }
  }
}
