/** MemoryPoolAllocator: the operations on its chunks and on memory. */
module MemoryPoolAllocator {
  import opened Basics
  import M = MemoryPool

  type Memory = map<nat, bv8>

  function Load(memory: Memory, a: nat): bv8 {
    if a in memory then memory[a] else 0
  }

  function ByteAt(memory: Memory, p: nat, k: nat): bv8 {
    Load(memory, p + k)
  }

  /** The bytes at a place in one memory are those at a place in another. */
  ghost predicate SameBytes(memory: Memory, p: nat, memory': Memory, q: nat, n: nat) {
    forall k: nat | k < n :: ByteAt(memory, p, k) == ByteAt(memory', q, k)
  }

  /** Memory after n bytes have been copied, the first one first. */
  function Copied(memory: Memory, p: nat, q: nat, n: nat): Memory {
    if n == 0 then memory
    else
      var before := Copied(memory, p, q, n - 1);
      before[q + (n - 1) := Load(before, p + (n - 1))]
  }

  lemma {:induction false} CopiedElsewhere(memory: Memory, p: nat, q: nat, n: nat, a: nat)
    requires a < q || q + n <= a
    ensures Load(Copied(memory, p, q, n), a) == Load(memory, a)
    decreases n
  {
    if n > 0 {
      CopiedElsewhere(memory, p, q, n - 1, a);
    }
  }

  lemma {:induction false} CopiedBytes(memory: Memory, p: nat, q: nat, n: nat)
    requires p + n <= q || q + n <= p
    ensures SameBytes(Copied(memory, p, q, n), q, memory, p, n)
    decreases n
  {
    if n > 0 {
      var before := Copied(memory, p, q, n - 1);
      CopiedBytes(memory, p, q, n - 1);
      CopiedElsewhere(memory, p, q, n - 1, p + (n - 1));
      forall k: nat | k < n ensures ByteAt(Copied(memory, p, q, n), q, k) == ByteAt(memory, p, k) {
        if k < n - 1 {
          assert ByteAt(before, q, k) == ByteAt(memory, p, k);
        }
      }
    }
  }

  /** A block apart from the target keeps its bytes. */
  lemma {:induction false} CopiedLeaves(memory: Memory, p: nat, q: nat, n: nat, r: nat, m: nat)
    requires r + m <= q || q + n <= r
    ensures SameBytes(Copied(memory, p, q, n), r, memory, r, m)
  {
    forall k: nat | k < m ensures ByteAt(Copied(memory, p, q, n), r, k) == ByteAt(memory, r, k) {
      CopiedElsewhere(memory, p, q, n, r + k);
    }
  }

  class MemoryPoolAllocator {
    const chunkCapacity: M.SizeT
    const userBuffer: Option<nat>
    var chunks: seq<M.Chunk>
    var memory: Memory
    ghost var blocks: map<nat, M.SizeT>

    ghost function View(): M.Pool
      reads this
    {
      M.Pool(chunks, userBuffer, chunkCapacity, blocks)
    }

    constructor (chunkCapacity: M.SizeT)
      ensures M.Initial(View()) && userBuffer == None && this.chunkCapacity == chunkCapacity
    {
      this.chunkCapacity, userBuffer := chunkCapacity, None;
      chunks, memory, blocks := [], map[], map[];
    }

    /** The user's buffer becomes the first chunk, its header included. */
    constructor WithBuffer(buffer: nat, size: M.SizeT, chunkCapacity: M.SizeT)
      requires size > M.HEADER && M.Aligned(buffer) && buffer + size <= M.SIZE_T
      ensures M.Initial(View()) && userBuffer == Some(buffer) && this.chunkCapacity == chunkCapacity
      ensures M.Capacity(chunks) == size - M.HEADER
    {
      this.chunkCapacity, userBuffer := chunkCapacity, Some(buffer);
      chunks, memory, blocks := [M.Chunk(buffer, size - M.HEADER, 0)], map[], map[];
    }

    /** The sums of what chunks can hold and do hold, which do not wrap. */
    method Capacity() returns (capacity: M.SizeT)
      requires M.Valid(View())
      ensures capacity == M.Capacity(chunks)
    {
      M.CapacityFits(chunks);
      capacity := 0;
      var c := chunks;
      while |c| > 0
        invariant capacity + M.Capacity(c) == M.Capacity(chunks)
        decreases |c|
      {
        capacity := M.Plus(capacity, c[0].capacity);
        c := c[1..];
      }
    }

    method Size() returns (size: M.SizeT)
      requires M.Valid(View())
      ensures size == M.Size(chunks) <= M.Capacity(chunks)
    {
      M.SizeFits(chunks);
      M.CapacityFits(chunks);
      size := 0;
      var c := chunks;
      while |c| > 0
        invariant size + M.Size(c) == M.Size(chunks)
        decreases |c|
      {
        size := M.Plus(size, c[0].size);
        c := c[1..];
      }
    }

    /** Drops the newest chunk until a user's buffer is left, or nothing. */
    method Clear()
      requires M.Valid(View())
      modifies this
      ensures View() == M.Clear(old(View())) && memory == old(memory)
    {
      ghost var all, k := chunks, 0;
      assert all[0..] == all;
      while |chunks| > 0 && Some(chunks[0].base) != userBuffer
        invariant k <= |all| && chunks == all[k..] && memory == old(memory) && blocks == old(blocks)
        invariant userBuffer.Some? ==> k < |all|
        decreases |chunks|
      {
        k := k + 1;
        chunks := chunks[1..];
      }
      if |chunks| > 0 {
        assert k == |all| - 1;
        chunks := chunks[0 := chunks[0].(size := 0)];
      }
      blocks := map[];
    }

    method AddChunk(capacity: M.SizeT, offer: Option<nat>) returns (ok: bool)
      modifies this`chunks
      ensures ok == offer.Some?
      ensures chunks == if ok then [M.Chunk(offer.value, capacity, 0)] + old(chunks) else old(chunks)
    {
      ok := offer.Some?;
      if ok {
        chunks := [M.Chunk(offer.value, capacity, 0)] + chunks;
      }
    }

    /** The offer is where the base allocator would put a chunk of the capacity that is asked of it. */
    method Malloc(size: M.SizeT, offer: Option<nat>) returns (p: Option<nat>)
      requires M.Valid(View()) && M.OfferOk(View(), offer, M.Align(size))
      modifies this`chunks, this`blocks
      ensures (View(), p) == M.Malloc(old(View()), size, offer)
      ensures p.Some? ==> (old(M.Fits(View(), size)) <==> M.Valid(View()) && size <= blocks[p.value])
      ensures p.None? ==> View() == old(View())
    {
      M.MallocKeeps(View(), size, offer);
      M.MallocExactly(View(), size, offer);
      if size == 0 {
        return None;
      }
      var n := M.Align(size);
      if |chunks| == 0 || M.Plus(chunks[0].size, n) > chunks[0].capacity {
        var ok := AddChunk(if chunkCapacity > n then chunkCapacity else n, offer);
        if !ok {
          return None;
        }
      }
      p := Some(chunks[0].base + M.HEADER + chunks[0].size);
      chunks := chunks[0 := chunks[0].(size := M.Plus(chunks[0].size, n))];
      blocks := blocks[p.value := n];
    }

    /** Unless a sum of sizes wraps, a block that is resized keeps its bytes, and every other live block
        its own. */
    method Realloc(original: Option<nat>, originalSize: M.SizeT, newSize: M.SizeT, offer: Option<nat>)
      returns (q: Option<nat>)
      requires M.Valid(View()) && M.Proper(View(), M.DoRealloc(original, originalSize, newSize, offer))
      modifies this
      ensures (View(), q) == M.Realloc(old(View()), original, originalSize, newSize, offer)
      ensures old(M.DoesNotWrap(View(), M.DoRealloc(original, originalSize, newSize, offer))) ==>
        && M.Valid(View())
        && (original.Some? && q.Some? ==>
              SameBytes(memory, q.value, old(memory), original.value, M.Align(originalSize)))
        && forall r | r in old(blocks) && Some(r) != original :: SameBytes(memory, r, old(memory), r, old(blocks)[r])
    {
      M.OperationKeeps(View(), M.DoRealloc(original, originalSize, newSize, offer));
      if original.None? {
        q := Malloc(newSize, offer);
        return;
      }
      if newSize == 0 {
        blocks := blocks - {original.value};
        return None;
      }
      var oldAligned, newAligned := M.Align(originalSize), M.Align(newSize);
      if oldAligned >= newAligned {
        blocks := blocks[original.value := newAligned];
        return original;
      }
      var grown := Grow(original.value, oldAligned, newAligned);
      if grown {
        return original;
      }
      M.AlignAgainAligned(newSize);
      q := Move(original.value, oldAligned, newAligned, offer);
    }

    /** In place, for the last block of the newest chunk, as far as the chunk reaches. */
    method Grow(p: nat, oldAligned: M.SizeT, newAligned: M.SizeT) returns (grown: bool)
      requires oldAligned < newAligned
      modifies this`chunks, this`blocks
      ensures grown == M.GrowsInPlace(old(View()), p, oldAligned, newAligned)
      ensures !grown ==> View() == old(View())
      ensures grown ==>
        var head := old(chunks)[0];
        && chunks == old(chunks)[0 := head.(size := M.Plus(head.size, newAligned - oldAligned))]
        && blocks == old(blocks)[p := newAligned]
    {
      grown := false;
      if |chunks| > 0 && p + oldAligned == chunks[0].base + M.HEADER + chunks[0].size {
        var increment := newAligned - oldAligned;
        if M.Plus(chunks[0].size, increment) <= chunks[0].capacity {
          chunks := chunks[0 := chunks[0].(size := M.Plus(chunks[0].size, increment))];
          blocks := blocks[p := newAligned];
          grown := true;
        }
      }
    }

    /** Allocates and copies; the old block is not freed. */
    method Move(p: nat, oldAligned: M.SizeT, newAligned: M.SizeT, offer: Option<nat>) returns (q: Option<nat>)
      requires M.Valid(View()) && M.OfferOk(View(), offer, newAligned) && M.Align(newAligned) == newAligned
      requires p in blocks && blocks[p] == oldAligned < newAligned
      modifies this
      ensures
        var (t, q0) := M.Malloc(old(View()), newAligned, offer);
        q == q0 && View() == if q0.None? then t else M.Forget(t, p)
      ensures q.None? ==> memory == old(memory)
      ensures q.Some? && old(M.Fits(View(), newAligned)) ==>
        && SameBytes(memory, q.value, old(memory), p, oldAligned)
        && forall r | r in old(blocks) :: SameBytes(memory, r, old(memory), r, old(blocks)[r])
    {
      if M.Fits(View(), newAligned) {
        MoveIsSafe(View(), p, newAligned, offer, memory);
      }
      q := Malloc(newAligned, offer);
      if q.Some? {
        Copy(p, q.value, oldAligned);
        blocks := blocks - {p};
      }
    }

    /** memcpy. */
    method Copy(p: nat, q: nat, n: nat)
      modifies this`memory
      ensures memory == Copied(old(memory), p, q, n)
    {
      for k := 0 to n
        invariant memory == Copied(old(memory), p, q, k)
      {
        memory := memory[q + k := Load(memory, p + k)];
      }
    }
  }

  /** The new block is apart from all live ones, the moved one among them, so copying into it changes
      none of their bytes. */
  lemma {:induction false} MoveIsSafe(s: M.Pool, p: nat, n: M.SizeT, offer: Option<nat>, memory: Memory)
    requires M.Valid(s) && M.OfferOk(s, offer, n) && M.Fits(s, n) && M.Align(n) == n && p in s.blocks && s.blocks[p] < n
    ensures
      var (t, q) := M.Malloc(s, n, offer);
      && (q.Some? ==>
            && SameBytes(Copied(memory, p, q.value, s.blocks[p]), q.value, memory, p, s.blocks[p])
            && forall r | r in s.blocks :: SameBytes(Copied(memory, p, q.value, s.blocks[p]), r, memory, r, s.blocks[r]))
  {
    M.MallocKeeps(s, n, offer);
    var (t, q) := M.Malloc(s, n, offer);
    if q.Some? {
      assert M.BlocksApart(p, t.blocks[p], q.value, t.blocks[q.value]);
      CopiedBytes(memory, p, q.value, s.blocks[p]);
      forall r | r in s.blocks ensures SameBytes(Copied(memory, p, q.value, s.blocks[p]), r, memory, r, s.blocks[r]) {
        assert M.BlocksApart(r, t.blocks[r], q.value, t.blocks[q.value]);
        CopiedLeaves(memory, p, q.value, s.blocks[p], r, s.blocks[r]);
      }
    }
  }
}
