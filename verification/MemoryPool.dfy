/** The pool allocator's chunks and the blocks its clients hold, on a 64-bit machine: sizes are
    added as size_t, which wraps. */
module MemoryPool {
  import opened Basics

  const SIZE_T: nat := 0x1_0000_0000_0000_0000

  type SizeT = n: nat | n < SIZE_T

  // A chunk header, which the memory of the chunk follows.
  const HEADER: SizeT := 24

  datatype Chunk = Chunk(base: nat, capacity: SizeT, size: SizeT)

  // The chunks, newest first; a user's buffer, if there is one; and, for each block in a client's
  // hands, its aligned size as the client last asked for it.
  datatype Pool = Pool(chunks: seq<Chunk>, userBuffer: Option<nat>, chunkCapacity: SizeT, blocks: map<nat, SizeT>)

  /** The sum of two sizes. */
  function Plus(m: SizeT, n: SizeT): SizeT { if m + n < SIZE_T then m + n else m + n - SIZE_T }

  function Align(n: SizeT): SizeT { Plus(n, 7) / 8 * 8 }

  predicate Aligned(n: nat) { n % 8 == 0 }

  function Start(c: Chunk): nat { c.base + HEADER }

  function Top(c: Chunk): nat { c.base + HEADER + c.size }

  function End(c: Chunk): nat { c.base + HEADER + c.capacity }

  // ----- What every operation keeps -----

  predicate ChunkOk(c: Chunk) {
    Aligned(c.base) && Aligned(c.size) && c.size <= c.capacity && End(c) <= SIZE_T
  }

  predicate ChunksApart(c: Chunk, d: Chunk) {
    End(c) <= d.base || End(d) <= c.base
  }

  predicate Within(c: Chunk, p: nat, n: nat) {
    Start(c) <= p && p + n <= Top(c)
  }

  predicate BlockOk(chunks: seq<Chunk>, p: nat, n: nat) {
    0 < n && Aligned(p) && Aligned(n) && exists i :: 0 <= i < |chunks| && Within(chunks[i], p, n)
  }

  predicate BlocksApart(p: nat, m: nat, q: nat, n: nat) {
    p + m <= q || q + n <= p
  }

  /** Chunks lie in memory, do not overlap and are not filled beyond their capacity; the user's buffer
      is the last of them and no other is; live blocks are aligned, lie inside a chunk and do not
      overlap. */
  predicate Valid(s: Pool) {
    && (forall i | 0 <= i < |s.chunks| :: ChunkOk(s.chunks[i]))
    && (forall i, j | 0 <= i < j < |s.chunks| :: ChunksApart(s.chunks[i], s.chunks[j]))
    && UserBufferIsLast(s)
    && (forall p | p in s.blocks :: BlockOk(s.chunks, p, s.blocks[p]))
    && (forall p, q | p in s.blocks && q in s.blocks && p != q :: BlocksApart(p, s.blocks[p], q, s.blocks[q]))
  }

  predicate UserBufferIsLast(s: Pool) {
    s.userBuffer.Some? ==>
      |s.chunks| > 0 && forall i | 0 <= i < |s.chunks| :: (s.chunks[i].base == s.userBuffer.value <==> i == |s.chunks| - 1)
  }

  // ----- The operations -----

  /** The capacity of the chunk that a request needs, if the newest one cannot serve it. */
  function Needed(s: Pool, n: SizeT): Option<SizeT> {
    if |s.chunks| == 0 || Plus(s.chunks[0].size, n) > s.chunks[0].capacity then
      Some(if s.chunkCapacity > n then s.chunkCapacity else n)
    else None
  }

  /** Memory from a place on is apart from a chunk. */
  predicate MemoryApart(base: nat, length: nat, c: Chunk) {
    base + length <= c.base || End(c) <= base
  }

  /** What the base allocator promises of the memory it offers: as long as it was asked for, aligned,
      and apart from all other. */
  predicate OfferOk(s: Pool, offer: Option<nat>, n: SizeT) {
    offer.Some? && Needed(s, n).Some? ==>
      var length := Plus(HEADER, Needed(s, n).value);
      && 0 < offer.value && offer.value + length <= SIZE_T && Aligned(offer.value)
      && forall i | 0 <= i < |s.chunks| :: MemoryApart(offer.value, length, s.chunks[i])
  }

  function AddChunk(s: Pool, base: nat, capacity: SizeT): Pool {
    s.(chunks := [Chunk(base, capacity, 0)] + s.chunks)
  }

  /** Cuts n bytes off the newest chunk. */
  function Cut(s: Pool, n: SizeT): (Pool, nat)
    requires |s.chunks| > 0
  {
    var head := s.chunks[0];
    (s.(chunks := s.chunks[0 := head.(size := Plus(head.size, n))], blocks := s.blocks[Top(head) := n]), Top(head))
  }

  function Malloc(s: Pool, size: SizeT, offer: Option<nat>): (Pool, Option<nat>) {
    if size == 0 then (s, None)
    else
      var n := Align(size);
      match Needed(s, n)
      case None => var (t, p) := Cut(s, n); (t, Some(p))
      case Some(capacity) =>
        if offer.None? then (s, None)
        else
          var (t, p) := Cut(AddChunk(s, offer.value, capacity), n);
          (t, Some(p))
  }

  /** No sum of sizes wraps when a request is served. */
  predicate Fits(s: Pool, size: SizeT) {
    && size + 7 < SIZE_T
    && match Needed(s, Align(size))
       case None => s.chunks[0].size + Align(size) < SIZE_T
       case Some(capacity) => HEADER + capacity < SIZE_T
  }

  /** A client gives a block back that it will not use again; nothing is reused. */
  function Forget(s: Pool, p: nat): Pool {
    s.(blocks := s.blocks - {p})
  }

  predicate IsLast(s: Pool, p: nat, held: SizeT) {
    |s.chunks| > 0 && p + held == Top(s.chunks[0])
  }

  predicate GrowsInPlace(s: Pool, p: nat, held: SizeT, wanted: SizeT)
    requires held <= wanted
  {
    IsLast(s, p, held) && Plus(s.chunks[0].size, wanted - held) <= s.chunks[0].capacity
  }

  /** The pool after a block was resized, and where the block is now. A block that moves leaves its
      old place for good. */
  function Realloc(s: Pool, original: Option<nat>, originalSize: SizeT, newSize: SizeT, offer: Option<nat>): (Pool,
        Option<nat>) {
    if original.None? then Malloc(s, newSize, offer)
    else
      var p, held, wanted := original.value, Align(originalSize), Align(newSize);
      if newSize == 0 then (Forget(s, p), None)
      else if held >= wanted then (s.(blocks := s.blocks[p := wanted]), Some(p))
      else if GrowsInPlace(s, p, held, wanted) then
        var head := s.chunks[0];
        (s.(chunks := s.chunks[0 := head.(size := Plus(head.size, wanted - held))], blocks := s.blocks[p := wanted]),
         Some(p))
      else
        var (t, q) := Malloc(s, wanted, offer);
        if q.None? then (t, None) else (Forget(t, p), q)
  }

  /** No sum of sizes wraps when a block is resized. */
  predicate ResizeFits(s: Pool, p: nat, held: SizeT, newSize: SizeT) {
    && newSize + 7 < SIZE_T
    && var wanted := Align(newSize);
       held < wanted ==>
         && (IsLast(s, p, held) ==> s.chunks[0].size + (wanted - held) < SIZE_T)
         && (!GrowsInPlace(s, p, held, wanted) ==> Fits(s, wanted))
  }

  /** Drops every chunk but a user's buffer, and with them all blocks. */
  function Clear(s: Pool): Pool {
    if s.userBuffer.None? || |s.chunks| == 0 then s.(chunks := [], blocks := map[])
    else
      var last := s.chunks[|s.chunks| - 1];
      s.(chunks := [last.(size := 0)], blocks := map[])
  }

  // ----- Every operation keeps them -----

  lemma {:induction false} AlignAligns(n: SizeT)
    requires n + 7 < SIZE_T
    ensures n <= Align(n) < n + 8 && Aligned(Align(n))
  {}

  /** Aligning a size near the end of the range wraps to nothing. */
  lemma {:induction false} AlignWraps(n: SizeT)
    requires n + 7 >= SIZE_T
    ensures Align(n) == 0
  {}

  lemma {:induction false} AlignAgain(n: SizeT)
    requires Aligned(n)
    ensures n + 7 < SIZE_T && Align(n) == n
  {}

  lemma {:induction false} AlignedSum(m: nat, n: nat)
    requires Aligned(m) && Aligned(n)
    ensures Aligned(m + n)
  {}

  lemma {:induction false} TopIsAligned(c: Chunk)
    requires ChunkOk(c)
    ensures Aligned(Top(c))
  {}

  lemma {:induction false} AddChunkKeeps(s: Pool, base: nat, capacity: SizeT)
    requires Valid(s) && Aligned(base) && base + HEADER + capacity <= SIZE_T
    requires forall i | 0 <= i < |s.chunks| :: MemoryApart(base, HEADER + capacity, s.chunks[i])
    ensures Valid(AddChunk(s, base, capacity))
  {
    var t := AddChunk(s, base, capacity);
    assert ChunkOk(t.chunks[0]);
    forall i, j | 0 <= i < j < |t.chunks| ensures ChunksApart(t.chunks[i], t.chunks[j]) {
      if i > 0 {
        assert ChunksApart(s.chunks[i - 1], s.chunks[j - 1]);
      } else {
        assert MemoryApart(base, HEADER + capacity, s.chunks[j - 1]);
      }
    }
    forall p | p in t.blocks ensures BlockOk(t.chunks, p, t.blocks[p]) {
      var i :| 0 <= i < |s.chunks| && Within(s.chunks[i], p, s.blocks[p]);
      assert t.chunks[i + 1] == s.chunks[i];
    }
    assert UserBufferIsLast(t) by {
      if s.userBuffer.Some? {
        var n := |s.chunks|;
        assert ChunksApart(t.chunks[0], s.chunks[n - 1]);
      }
    }
  }

  lemma {:induction false} CutKeeps(s: Pool, n: SizeT)
    requires Valid(s) && |s.chunks| > 0 && n > 0 && Aligned(n)
    requires s.chunks[0].size + n <= s.chunks[0].capacity
    ensures Valid(Cut(s, n).0) && Cut(s, n).1 !in s.blocks
  {
    var t, p := Cut(s, n).0, Cut(s, n).1;
    assert ChunkOk(s.chunks[0]);
    TopIsAligned(s.chunks[0]);
    AlignedSum(s.chunks[0].size, n);
    ChunksStayApart(s, t);
    NewBlockApart(s);
    assert Within(t.chunks[0], p, n);
    forall q | q in t.blocks ensures BlockOk(t.chunks, q, t.blocks[q]) {
      if q != p {
        BlockStays(s.chunks, t.chunks, q, s.blocks[q]);
      }
    }
    forall q, r | q in t.blocks && r in t.blocks && q != r ensures BlocksApart(q, t.blocks[q], r, t.blocks[r]) {
      if q == p || r == p {
        assert BelowOrAbove(s, if q == p then r else q, n);
      } else {
        assert BlocksApart(q, s.blocks[q], r, s.blocks[r]);
      }
    }
  }

  /** The newest chunk's size may change within its capacity. */
  ghost predicate SameChunksBut(s: Pool, t: Pool) {
    && |t.chunks| == |s.chunks| > 0 && t.userBuffer == s.userBuffer
    && t.chunks[1..] == s.chunks[1..]
    && t.chunks[0].base == s.chunks[0].base && t.chunks[0].capacity == s.chunks[0].capacity
    && ChunkOk(t.chunks[0])
  }

  lemma {:induction false} ChunksStayApart(s: Pool, t: Pool)
    requires Valid(s) && SameChunksBut(s, t)
    ensures forall i | 0 <= i < |t.chunks| :: ChunkOk(t.chunks[i])
    ensures forall i, j | 0 <= i < j < |t.chunks| :: ChunksApart(t.chunks[i], t.chunks[j])
    ensures UserBufferIsLast(t)
  {
    forall i | 0 <= i < |t.chunks|
      ensures ChunkOk(t.chunks[i]) && t.chunks[i].base == s.chunks[i].base && t.chunks[i].capacity == s.chunks[i].capacity
    {
      if i > 0 {
        assert t.chunks[i] == t.chunks[1..][i - 1] == s.chunks[1..][i - 1] == s.chunks[i];
      }
    }
    forall i, j | 0 <= i < j < |t.chunks| ensures ChunksApart(t.chunks[i], t.chunks[j]) {
      assert ChunksApart(s.chunks[i], s.chunks[j]);
    }
  }

  /** A block of n bytes at the top of the newest chunk does not meet a live block. */
  predicate BelowOrAbove(s: Pool, q: nat, n: nat)
    requires |s.chunks| > 0 && q in s.blocks
  {
    var head := s.chunks[0];
    q + s.blocks[q] <= Top(head) || (Top(head) + n <= q || q + s.blocks[q] <= head.base)
  }

  lemma {:induction false} NewBlockApart(s: Pool)
    requires Valid(s) && |s.chunks| > 0
    ensures Top(s.chunks[0]) !in s.blocks
    ensures forall q, n: nat | q in s.blocks && s.chunks[0].size + n <= s.chunks[0].capacity :: BelowOrAbove(s, q, n)
  {
    forall q | q in s.blocks
      ensures q != Top(s.chunks[0])
      ensures forall n: nat | s.chunks[0].size + n <= s.chunks[0].capacity :: BelowOrAbove(s, q, n)
    {
      assert BlockOk(s.chunks, q, s.blocks[q]);
      var i :| 0 <= i < |s.chunks| && Within(s.chunks[i], q, s.blocks[q]);
      assert ChunkOk(s.chunks[0]) && ChunkOk(s.chunks[i]);
      if i > 0 {
        assert ChunksApart(s.chunks[0], s.chunks[i]);
      }
    }
  }

  lemma {:induction false} BlockStays(chunks: seq<Chunk>, after: seq<Chunk>, q: nat, n: nat)
    requires BlockOk(chunks, q, n) && |after| == |chunks| > 0 && after[1..] == chunks[1..]
    requires after[0].base == chunks[0].base && after[0].size >= chunks[0].size
    ensures BlockOk(after, q, n)
  {
    var i :| 0 <= i < |chunks| && Within(chunks[i], q, n);
    if i > 0 {
      assert after[i] == after[1..][i - 1] == chunks[1..][i - 1] == chunks[i];
    }
    assert Within(after[i], q, n);
  }

  /** A block was handed out as it should: as long as asked for, apart from every block that was live. */
  predicate Granted(s: Pool, t: Pool, p: nat, size: SizeT) {
    Valid(t) && p !in s.blocks && size <= Align(size) && t.blocks == s.blocks[p := Align(size)]
  }

  /** A block that was handed out is shorter than asked for, or outside its chunk, or in a chunk that
      does not lie in memory. */
  predicate Broken(t: Pool, p: nat, size: SizeT) {
    || (p in t.blocks && t.blocks[p] < size)
    || (p in t.blocks && !BlockOk(t.chunks, p, t.blocks[p]))
    || (|t.chunks| > 0 && End(t.chunks[0]) > SIZE_T)
  }

  lemma {:induction false} BrokenIsNotKept(t: Pool, p: nat, size: SizeT)
    requires Broken(t, p, size)
    ensures !(Valid(t) && p in t.blocks && size <= t.blocks[p])
  {
    if Valid(t) && p in t.blocks && |t.chunks| > 0 {
      assert ChunkOk(t.chunks[0]) && BlockOk(t.chunks, p, t.blocks[p]);
    }
  }

  /** NULL is returned for nothing, or when a chunk that is needed is refused, and then nothing has
      changed; otherwise, if no sum wraps, a block is handed out as it should be. */
  lemma {:induction false} MallocKeeps(s: Pool, size: SizeT, offer: Option<nat>)
    requires Valid(s) && OfferOk(s, offer, Align(size))
    ensures
      var (t, p) := Malloc(s, size, offer);
      && (p.None? <==> size == 0 || (Needed(s, Align(size)).Some? && offer.None?))
      && (p.None? ==> t == s)
      && (p.Some? && Fits(s, size) ==> Granted(s, t, p.value, size))
  {
    var n := Align(size);
    if size > 0 && Fits(s, size) {
      AlignAligns(size);
      if Needed(s, n).None? {
        CutKeeps(s, n);
      } else if offer.Some? {
        AddChunkKeeps(s, offer.value, Needed(s, n).value);
        CutKeeps(AddChunk(s, offer.value, Needed(s, n).value), n);
      }
    }
  }

  /** If a sum wraps, the block is not what was asked for. */
  lemma {:induction false} MallocBreaks(s: Pool, size: SizeT, offer: Option<nat>)
    requires Valid(s) && OfferOk(s, offer, Align(size)) && !Fits(s, size)
    ensures
      var (t, p) := Malloc(s, size, offer);
      p.Some? ==> Broken(t, p.value, size) && (p.value !in s.blocks || End(t.chunks[0]) > SIZE_T || t.blocks[p.value] < size)
  {
    var n := Align(size);
    if size + 7 >= SIZE_T {
      AlignWraps(size);
    } else if Needed(s, n).None? {
      WrappedCut(s, n);
    }
  }

  /** A chunk whose fill wraps around does not hold the block that was cut off it. */
  lemma {:induction false} WrappedCut(s: Pool, n: SizeT)
    requires Valid(s) && |s.chunks| > 0 && s.chunks[0].size + n >= SIZE_T
    ensures Cut(s, n).1 !in s.blocks && !BlockOk(Cut(s, n).0.chunks, Cut(s, n).1, n)
  {
    var t, p := Cut(s, n).0, Cut(s, n).1;
    NewBlockApart(s);
    assert ChunkOk(s.chunks[0]);
    forall i | 0 <= i < |t.chunks| ensures !Within(t.chunks[i], p, n) {
      if i > 0 {
        OutsideOtherChunks(s, p, n, i);
      }
    }
  }

  /** What starts in the newest chunk, or at its end, lies in no other. */
  lemma {:induction false} OutsideOtherChunks(s: Pool, p: nat, n: nat, i: nat)
    requires Valid(s) && 0 < i < |s.chunks| && n > 0
    requires Start(s.chunks[0]) <= p <= End(s.chunks[0])
    ensures !Within(s.chunks[i], p, n)
  {
    assert ChunksApart(s.chunks[0], s.chunks[i]) && ChunkOk(s.chunks[i]);
  }

  /** A request that is served is served right if and only if no sum of sizes wraps on the way. */
  lemma {:induction false} MallocExactly(s: Pool, size: SizeT, offer: Option<nat>)
    requires Valid(s) && OfferOk(s, offer, Align(size))
    ensures
      var (t, p) := Malloc(s, size, offer);
      p.Some? ==> (Fits(s, size) <==> Valid(t) && p.value in t.blocks && size <= t.blocks[p.value])
  {
    var (t, p) := Malloc(s, size, offer);
    MallocKeeps(s, size, offer);
    if !Fits(s, size) && p.Some? {
      MallocBreaks(s, size, offer);
      BrokenIsNotKept(t, p.value, size);
    }
  }

  lemma {:induction false} ForgetKeeps(s: Pool, p: nat)
    requires Valid(s)
    ensures Valid(Forget(s, p))
  {}

  lemma {:induction false} ShrinkKeeps(s: Pool, p: nat, n: SizeT)
    requires Valid(s) && p in s.blocks && 0 < n <= s.blocks[p] && Aligned(n)
    ensures Valid(s.(blocks := s.blocks[p := n]))
  {
    var t := s.(blocks := s.blocks[p := n]);
    assert BlockOk(s.chunks, p, s.blocks[p]);
    var i :| 0 <= i < |s.chunks| && Within(s.chunks[i], p, s.blocks[p]);
    assert Within(t.chunks[i], p, n);
    forall q, r | q in t.blocks && r in t.blocks && q != r ensures BlocksApart(q, t.blocks[q], r, t.blocks[r]) {
      assert BlocksApart(q, s.blocks[q], r, s.blocks[r]);
    }
  }

  /** The pool with the last block of its newest chunk n bytes longer. */
  function Grown(s: Pool, p: nat, n: SizeT): Pool
    requires |s.chunks| > 0 && p in s.blocks && s.blocks[p] + n < SIZE_T
  {
    s.(chunks := s.chunks[0 := s.chunks[0].(size := Plus(s.chunks[0].size, n))], blocks := s.blocks[p := s.blocks[p] + n])
  }

  /** A block that ends at the top of the newest chunk is its last one: what its client shrank before
      is not forgotten, so growing it in place meets no live block. */
  lemma {:induction false} GrowKeeps(s: Pool, p: nat, n: SizeT)
    requires Valid(s) && p in s.blocks && IsLast(s, p, s.blocks[p])
    requires s.chunks[0].size + n <= s.chunks[0].capacity && s.blocks[p] + n < SIZE_T && Aligned(s.blocks[p] + n)
    ensures Valid(Grown(s, p, n))
  {
    var t := Grown(s, p, n);
    GrownChunks(s, t, p, n);
    LastBlockInHead(s, p);
    assert Within(t.chunks[0], p, s.blocks[p] + n);
    forall q | q in t.blocks ensures BlockOk(t.chunks, q, t.blocks[q]) {
      if q == p {
        assert BlockOk(s.chunks, p, s.blocks[p]);
      } else {
        BlockStays(s.chunks, t.chunks, q, s.blocks[q]);
      }
    }
    forall q | q in s.blocks && q != p ensures BlocksApart(q, s.blocks[q], p, s.blocks[p] + n) {
      GrownApart(s, p, n, q);
    }
    forall q, r | q in t.blocks && r in t.blocks && q != r ensures BlocksApart(q, t.blocks[q], r, t.blocks[r]) {
      assert BlocksApart(q, s.blocks[q], r, s.blocks[r]);
    }
  }

  lemma {:induction false} GrownApart(s: Pool, p: nat, n: SizeT, q: nat)
    requires Valid(s) && p in s.blocks && q in s.blocks && q != p && IsLast(s, p, s.blocks[p])
    requires s.chunks[0].size + n <= s.chunks[0].capacity
    ensures BlocksApart(q, s.blocks[q], p, s.blocks[p] + n)
  {
    NewBlockApart(s);
    assert BlocksApart(q, s.blocks[q], p, s.blocks[p]);
    assert BelowOrAbove(s, q, n);
    LastBlockInHead(s, p);
  }

  lemma {:induction false} GrownChunks(s: Pool, t: Pool, p: nat, n: SizeT)
    requires Valid(s) && p in s.blocks && |s.chunks| > 0 && s.chunks[0].size + n <= s.chunks[0].capacity
    requires Aligned(s.blocks[p] + n) && t.userBuffer == s.userBuffer
    requires t.chunks == s.chunks[0 := s.chunks[0].(size := s.chunks[0].size + n)]
    ensures SameChunksBut(s, t)
    ensures forall i | 0 <= i < |t.chunks| :: ChunkOk(t.chunks[i])
    ensures forall i, j | 0 <= i < j < |t.chunks| :: ChunksApart(t.chunks[i], t.chunks[j])
    ensures UserBufferIsLast(t)
  {
    assert ChunkOk(s.chunks[0]) && BlockOk(s.chunks, p, s.blocks[p]);
    AlignedRest(s.blocks[p], n);
    AlignedSum(s.chunks[0].size, n);
    ChunksStayApart(s, t);
  }

  lemma {:induction false} AlignedRest(m: nat, n: nat)
    requires Aligned(m) && Aligned(m + n)
    ensures Aligned(n)
  {}

  /** The block whose end is the top of the newest chunk lies in that chunk. */
  lemma {:induction false} LastBlockInHead(s: Pool, p: nat)
    requires Valid(s) && p in s.blocks && IsLast(s, p, s.blocks[p])
    ensures Start(s.chunks[0]) <= p
  {
    assert BlockOk(s.chunks, p, s.blocks[p]);
    var i :| 0 <= i < |s.chunks| && Within(s.chunks[i], p, s.blocks[p]);
    assert ChunkOk(s.chunks[0]) && ChunkOk(s.chunks[i]);
    assert i > 0 ==> ChunksApart(s.chunks[0], s.chunks[i]);
  }

  /** A chunk whose fill wraps around does not hold its last block any more. */
  lemma {:induction false} WrappedGrowth(s: Pool, p: nat, n: SizeT)
    requires Valid(s) && p in s.blocks && IsLast(s, p, s.blocks[p])
    requires s.chunks[0].size + n >= SIZE_T && s.blocks[p] + n < SIZE_T
    ensures !BlockOk(Grown(s, p, n).chunks, p, s.blocks[p] + n)
  {
    var t := Grown(s, p, n);
    assert ChunkOk(s.chunks[0]) && BlockOk(s.chunks, p, s.blocks[p]);
    LastBlockInHead(s, p);
    forall i | 0 <= i < |t.chunks| ensures !Within(t.chunks[i], p, s.blocks[p] + n) {
      if i > 0 {
        OutsideOtherChunks(s, p, s.blocks[p] + n, i);
      }
    }
  }

  /** A block was resized as it should: it is live with its new size, where it was or in a place apart
      from all, and the others stay as they are. */
  predicate Resized(s: Pool, t: Pool, p: nat, q: nat, newSize: SizeT)
    requires p in s.blocks
  {
    && Valid(t) && (q == p || q !in s.blocks) && newSize <= Align(newSize)
    && t.blocks == (s.blocks - {p})[q := Align(newSize)]
  }

  /** NULL is returned for the size 0, when the block is given up, or when a chunk that is needed is
      refused, when nothing has changed; otherwise, if no sum wraps, the block is resized as it should
      be. A shrunk block keeps its place. */
  lemma {:induction false} ReallocKeeps(s: Pool, p: nat, originalSize: SizeT, newSize: SizeT, offer: Option<nat>)
    requires Valid(s) && p in s.blocks && s.blocks[p] == Align(originalSize)
    requires OfferOk(s, offer, Align(newSize))
    ensures
      var (t, q) := Realloc(s, Some(p), originalSize, newSize, offer);
      && (q.Some? && ResizeFits(s, p, s.blocks[p], newSize) ==> Resized(s, t, p, q.value, newSize))
      && (q.None? ==> t == if newSize == 0 then Forget(s, p) else s)
  {
    var held, wanted := Align(originalSize), Align(newSize);
    AlignAgainAligned(newSize);
    if newSize > 0 && held < wanted && !GrowsInPlace(s, p, held, wanted) {
      MoveKeeps(s, p, wanted, offer);
      MovedIsMalloc(s, p, originalSize, newSize, offer);
    } else if newSize > 0 && ResizeFits(s, p, held, newSize) {
      StayKeeps(s, p, originalSize, newSize, offer);
    }
  }

  /** A block that stays where it is. */
  lemma {:induction false} StayKeeps(s: Pool, p: nat, originalSize: SizeT, newSize: SizeT, offer: Option<nat>)
    requires Valid(s) && p in s.blocks && s.blocks[p] == Align(originalSize) && newSize > 0
    requires s.blocks[p] < Align(newSize) ==> GrowsInPlace(s, p, s.blocks[p], Align(newSize))
    requires ResizeFits(s, p, s.blocks[p], newSize)
    ensures
      var (t, q) := Realloc(s, Some(p), originalSize, newSize, offer);
      q == Some(p) && Resized(s, t, p, p, newSize)
  {
    var held, wanted := s.blocks[p], Align(newSize);
    AlignAligns(newSize);
    ReplacedKey(s.blocks, p, p, wanted);
    StayIs(s, p, originalSize, newSize, offer);
    if held >= wanted {
      ShrinkKeeps(s, p, wanted);
    } else {
      GrowKeeps(s, p, wanted - held);
    }
  }

  lemma {:induction false} StayIs(s: Pool, p: nat, originalSize: SizeT, newSize: SizeT, offer: Option<nat>)
    requires p in s.blocks && s.blocks[p] == Align(originalSize) && newSize > 0
    requires s.blocks[p] < Align(newSize) ==> GrowsInPlace(s, p, s.blocks[p], Align(newSize))
    ensures
      var held, wanted := s.blocks[p], Align(newSize);
      Realloc(s, Some(p), originalSize, newSize, offer)
        == (if held >= wanted then s.(blocks := s.blocks[p := wanted]) else Grown(s, p, wanted - held), Some(p))
  {}

  lemma {:induction false} AlignAgainAligned(size: SizeT)
    ensures Aligned(Align(size)) && Align(Align(size)) == Align(size)
  {
    if size + 7 < SIZE_T {
      AlignAligns(size);
      AlignAgain(Align(size));
    } else {
      AlignWraps(size);
    }
  }

  lemma {:induction false} MovedIsMalloc(s: Pool, p: nat, originalSize: SizeT, newSize: SizeT, offer: Option<nat>)
    requires newSize > 0 && Align(originalSize) < Align(newSize) && !GrowsInPlace(s, p, Align(originalSize), Align(newSize))
    ensures
      var (t, q) := Malloc(s, Align(newSize), offer);
      Realloc(s, Some(p), originalSize, newSize, offer) == if q.None? then (t, None) else (Forget(t, p), q)
  {}

  lemma {:induction false} MoveKeeps(s: Pool, p: nat, n: SizeT, offer: Option<nat>)
    requires Valid(s) && p in s.blocks && Align(n) == n && OfferOk(s, offer, n)
    ensures
      var (t, q) := Malloc(s, n, offer);
      && (q.None? ==> t == s)
      && (q.Some? && Fits(s, n) ==>
            && Valid(Forget(t, p)) && q.value !in s.blocks
            && Forget(t, p).blocks == (s.blocks - {p})[q.value := n])
  {
    MallocKeeps(s, n, offer);
    var (t, q) := Malloc(s, n, offer);
    if q.Some? && Fits(s, n) {
      ForgetKeeps(t, p);
      ReplacedKey(s.blocks, p, q.value, n);
    }
  }

  lemma {:induction false} ReplacedKey(blocks: map<nat, SizeT>, p: nat, q: nat, n: SizeT)
    requires p in blocks && (q == p || q !in blocks)
    ensures q != p ==> blocks[q := n] - {p} == (blocks - {p})[q := n]
    ensures q == p ==> blocks[q := n] == (blocks - {p})[q := n]
  {}

  /** If a sum wraps, the resized block is not what was asked for. */
  lemma {:induction false} ReallocBreaks(s: Pool, p: nat, originalSize: SizeT, newSize: SizeT, offer: Option<nat>)
    requires Valid(s) && p in s.blocks && s.blocks[p] == Align(originalSize)
    requires OfferOk(s, offer, Align(newSize)) && newSize > 0 && !ResizeFits(s, p, s.blocks[p], newSize)
    ensures
      var (t, q) := Realloc(s, Some(p), originalSize, newSize, offer);
      q.Some? ==> Broken(t, q.value, newSize)
  {
    var held, wanted := Align(originalSize), Align(newSize);
    if newSize + 7 >= SIZE_T {
      AlignWraps(newSize);
    } else if IsLast(s, p, held) && s.chunks[0].size + (wanted - held) >= SIZE_T {
      assert ChunkOk(s.chunks[0]);
      WrappedGrowth(s, p, wanted - held);
    } else {
      MovedIsMalloc(s, p, originalSize, newSize, offer);
      MoveBreaks(s, p, wanted, newSize, offer);
    }
  }

  lemma {:induction false} MoveBreaks(s: Pool, p: nat, n: SizeT, size: SizeT, offer: Option<nat>)
    requires Valid(s) && p in s.blocks && n == Align(size) && size + 7 < SIZE_T && OfferOk(s, offer, n) && !Fits(s, n)
    ensures
      var (t, q) := Malloc(s, n, offer);
      q.Some? ==> Broken(Forget(t, p), q.value, size)
  {
    AlignAligns(size);
    AlignAgain(n);
    MallocBreaks(s, n, offer);
  }

  /** A block that is resized is resized right if and only if no sum of sizes wraps on the way. */
  lemma {:induction false} ReallocExactly(s: Pool, p: nat, originalSize: SizeT, newSize: SizeT, offer: Option<nat>)
    requires Valid(s) && p in s.blocks && s.blocks[p] == Align(originalSize)
    requires OfferOk(s, offer, Align(newSize)) && newSize > 0
    ensures
      var (t, q) := Realloc(s, Some(p), originalSize, newSize, offer);
      q.Some? ==>
        (ResizeFits(s, p, s.blocks[p], newSize) <==> Valid(t) && q.value in t.blocks && newSize <= t.blocks[q.value])
  {
    var (t, q) := Realloc(s, Some(p), originalSize, newSize, offer);
    ReallocKeeps(s, p, originalSize, newSize, offer);
    if q.Some? && !ResizeFits(s, p, s.blocks[p], newSize) {
      ReallocBreaks(s, p, originalSize, newSize, offer);
      BrokenIsNotKept(t, q.value, newSize);
    }
  }

  lemma {:induction false} ClearKeeps(s: Pool)
    requires Valid(s)
    ensures Valid(Clear(s)) && Clear(s).blocks == map[]
    ensures Clear(s).chunks == [] <==> s.userBuffer.None?
  {
    if s.userBuffer.Some? {
      assert ChunkOk(s.chunks[|s.chunks| - 1]);
    }
  }

  // ----- Runs -----

  datatype Operation =
    | DoMalloc(size: SizeT, offer: Option<nat>)
    | DoRealloc(original: Option<nat>, originalSize: SizeT, newSize: SizeT, offer: Option<nat>)
    | DoClear

  /** The pool after an operation, and the block it hands out. */
  function Perform(s: Pool, op: Operation): (Pool, Option<nat>) {
    match op
    case DoMalloc(size, offer) => Malloc(s, size, offer)
    case DoRealloc(original, originalSize, newSize, offer) => Realloc(s, original, originalSize, newSize, offer)
    case DoClear => (Clear(s), None)
  }

  function Apply(s: Pool, op: Operation): Pool { Perform(s, op).0 }

  /** The client passes a live block with the size it knows, and the base allocator keeps its promise. */
  predicate Proper(s: Pool, op: Operation) {
    match op
    case DoMalloc(size, offer) => OfferOk(s, offer, Align(size))
    case DoRealloc(None, _, newSize, offer) => OfferOk(s, offer, Align(newSize))
    case DoRealloc(Some(p), originalSize, newSize, offer) =>
      p in s.blocks && s.blocks[p] == Align(originalSize) && OfferOk(s, offer, Align(newSize))
    case DoClear => true
  }

  /** No sum of sizes wraps on the way to the block that an operation hands out, if it does. */
  predicate DoesNotWrap(s: Pool, op: Operation) {
    Perform(s, op).1.Some? ==>
      match op
      case DoMalloc(size, offer) => Fits(s, size)
      case DoRealloc(None, _, newSize, offer) => Fits(s, newSize)
      case DoRealloc(Some(p), originalSize, newSize, offer) => ResizeFits(s, p, Align(originalSize), newSize)
      case DoClear => true
  }

  function Requested(op: Operation): SizeT {
    match op
    case DoMalloc(size, _) => size
    case DoRealloc(_, _, newSize, _) => newSize
    case DoClear => 0
  }

  /** An operation keeps the pool valid and hands out no block that is shorter than asked for. */
  predicate Keeps(s: Pool, op: Operation) {
    var (t, p) := Perform(s, op);
    Valid(t) && (p.Some? ==> p.value in t.blocks && Requested(op) <= t.blocks[p.value])
  }

  function ApplyAll(s: Pool, ops: seq<Operation>): Pool
    decreases ops
  {
    if |ops| == 0 then s else ApplyAll(Apply(s, ops[0]), ops[1..])
  }

  predicate AllProper(s: Pool, ops: seq<Operation>)
    decreases ops
  {
    |ops| > 0 ==> Proper(s, ops[0]) && AllProper(Apply(s, ops[0]), ops[1..])
  }

  predicate NoneWraps(s: Pool, ops: seq<Operation>)
    decreases ops
  {
    |ops| > 0 ==> DoesNotWrap(s, ops[0]) && NoneWraps(Apply(s, ops[0]), ops[1..])
  }

  predicate AllKeep(s: Pool, ops: seq<Operation>)
    decreases ops
  {
    |ops| > 0 ==> Keeps(s, ops[0]) && AllKeep(Apply(s, ops[0]), ops[1..])
  }

  /** A pool before its first request, with or without a user's buffer. */
  predicate Initial(s: Pool) {
    && s.blocks == map[]
    && match s.userBuffer
       case None => s.chunks == []
       case Some(b) =>
         |s.chunks| == 1 && s.chunks[0].base == b && s.chunks[0].size == 0 && Aligned(b) && End(s.chunks[0]) <= SIZE_T
  }

  /** An operation keeps the pool valid and serves its client right if and only if no sum of sizes
      wraps on the way. */
  lemma {:induction false} OperationKeeps(s: Pool, op: Operation)
    requires Valid(s) && Proper(s, op)
    ensures Keeps(s, op) <==> DoesNotWrap(s, op)
  {
    match op
    case DoMalloc(size, offer) =>
      MallocKeeps(s, size, offer);
      MallocExactly(s, size, offer);
    case DoRealloc(None, _, newSize, offer) =>
      MallocKeeps(s, newSize, offer);
      MallocExactly(s, newSize, offer);
    case DoRealloc(Some(p), originalSize, newSize, offer) =>
      ReallocKeeps(s, p, originalSize, newSize, offer);
      ForgetKeeps(s, p);
      if newSize > 0 {
        ReallocExactly(s, p, originalSize, newSize, offer);
      }
    case DoClear =>
      ClearKeeps(s);
  }

  /** Over any run: every operation keeps the pool valid and serves its client right if and only if no
      sum of sizes wraps on the way. */
  lemma {:induction false} RunKeeps(s: Pool, ops: seq<Operation>)
    requires Valid(s) && AllProper(s, ops)
    ensures AllKeep(s, ops) <==> NoneWraps(s, ops)
    ensures NoneWraps(s, ops) ==> Valid(ApplyAll(s, ops))
    decreases ops
  {
    if |ops| > 0 {
      OperationKeeps(s, ops[0]);
      if Keeps(s, ops[0]) {
        RunKeeps(Apply(s, ops[0]), ops[1..]);
      }
    }
  }

  lemma {:induction false} InitialIsValid(s: Pool)
    requires Initial(s)
    ensures Valid(s)
  {}

  /** A pool that is reached from a new one is valid, and its chunks are never filled beyond what they
      hold altogether, which lies in memory; a user's buffer stays. */
  lemma {:induction false} ReachableIsValid(s: Pool, ops: seq<Operation>)
    requires Initial(s) && AllProper(s, ops) && NoneWraps(s, ops)
    ensures Valid(ApplyAll(s, ops)) && ApplyAll(s, ops).userBuffer == s.userBuffer
    ensures Size(ApplyAll(s, ops).chunks) <= Capacity(ApplyAll(s, ops).chunks) < SIZE_T
  {
    InitialIsValid(s);
    RunKeeps(s, ops);
    SameBuffer(s, ops);
    SizeFits(ApplyAll(s, ops).chunks);
    CapacityFits(ApplyAll(s, ops).chunks);
  }

  lemma {:induction false} SameBuffer(s: Pool, ops: seq<Operation>)
    ensures ApplyAll(s, ops).userBuffer == s.userBuffer
    decreases ops
  {
    if |ops| > 0 {
      SameBuffer(Apply(s, ops[0]), ops[1..]);
    }
  }

  // ----- Sizes and capacities altogether -----

  function Size(chunks: seq<Chunk>): nat {
    if |chunks| == 0 then 0 else chunks[0].size + Size(chunks[1..])
  }

  function Capacity(chunks: seq<Chunk>): nat {
    if |chunks| == 0 then 0 else chunks[0].capacity + Capacity(chunks[1..])
  }

  lemma {:induction false} SizeFits(chunks: seq<Chunk>)
    requires forall i | 0 <= i < |chunks| :: ChunkOk(chunks[i])
    ensures Size(chunks) <= Capacity(chunks)
    decreases chunks
  {
    if |chunks| > 0 {
      assert ChunkOk(chunks[0]);
      SizeFits(chunks[1..]);
    }
  }

  function Between(low: nat, high: nat): set<nat> {
    set a: nat | a < high && From(low, a)
  }

  predicate From(low: nat, a: nat) { low <= a }

  lemma {:induction false} HowMany(low: nat, high: nat)
    requires low <= high
    ensures |Between(low, high)| == high - low
    decreases high
  {
    if low < high {
      HowMany(low, high - 1);
      assert Between(low, high) == Between(low, high - 1) + {high - 1};
    } else {
      assert Between(low, high) == {};
    }
  }

  /** The addresses of the chunks. */
  function Addresses(chunks: seq<Chunk>): set<nat> {
    if |chunks| == 0 then {} else Between(chunks[0].base, End(chunks[0])) + Addresses(chunks[1..])
  }

  lemma {:induction false} AddressesApart(c: Chunk, chunks: seq<Chunk>)
    requires forall i | 0 <= i < |chunks| :: ChunksApart(c, chunks[i])
    ensures Between(c.base, End(c)) !! Addresses(chunks)
    decreases chunks
  {
    if |chunks| > 0 {
      assert ChunksApart(c, chunks[0]);
      AddressesApart(c, chunks[1..]);
    }
  }

  /** Chunks that lie in memory and do not overlap have no more room than there are addresses. */
  lemma {:induction false} CapacityFits(chunks: seq<Chunk>)
    requires forall i | 0 <= i < |chunks| :: ChunkOk(chunks[i])
    requires forall i, j | 0 <= i < j < |chunks| :: ChunksApart(chunks[i], chunks[j])
    ensures Capacity(chunks) < SIZE_T
  {
    RoomIsAddresses(chunks);
    HowMany(0, SIZE_T);
    var all, rest := Between(0, SIZE_T), Between(0, SIZE_T) - Addresses(chunks);
    assert all == Addresses(chunks) + rest;
  }

  lemma {:induction false} RoomIsAddresses(chunks: seq<Chunk>)
    requires forall i | 0 <= i < |chunks| :: ChunkOk(chunks[i])
    requires forall i, j | 0 <= i < j < |chunks| :: ChunksApart(chunks[i], chunks[j])
    ensures Addresses(chunks) <= Between(0, SIZE_T)
    ensures Capacity(chunks) + (if |chunks| == 0 then 0 else HEADER) <= |Addresses(chunks)|
    decreases chunks
  {
    if |chunks| > 0 {
      assert ChunkOk(chunks[0]);
      HowMany(chunks[0].base, End(chunks[0]));
      AddressesApart(chunks[0], chunks[1..]);
      RoomIsAddresses(chunks[1..]);
    }
  }

  // ----- By how much they grow -----

  /** The newest chunk has n bytes left. */
  predicate HasRoom(s: Pool, n: nat) {
    |s.chunks| > 0 && s.chunks[0].size + n <= s.chunks[0].capacity
  }

  /** The pool holds n bytes more: in the newest chunk if they fit, or else at the start of a new chunk,
      which has the capacity that chunks have, or n if that is less. */
  predicate GrownBy(s: Pool, t: Pool, p: nat, n: nat, offer: Option<nat>) {
    && Size(t.chunks) == Size(s.chunks) + n
    && Capacity(t.chunks) == Capacity(s.chunks) +
                             (if HasRoom(s, n) then 0 else if s.chunkCapacity > n then s.chunkCapacity else n)
    && (if HasRoom(s, n) then p == s.chunks[0].base + 24 + s.chunks[0].size
        else offer.Some? && p == offer.value + 24)
  }

  lemma {:induction false} MallocGrows(s: Pool, size: SizeT, offer: Option<nat>)
    requires Fits(s, size)
    ensures
      var (n, (t, p)) := ((size + 7) / 8 * 8, Malloc(s, size, offer));
      && (p.None? <==> size == 0 || (!HasRoom(s, n) && offer.None?))
      && (if p.None? then t == s else GrownBy(s, t, p.value, n, offer))
  {
    var n := (size + 7) / 8 * 8;
    assert n == Align(size);
    RoomIsNeeded(s, size, n);
    if size > 0 && HasRoom(s, n) {
      CutGrows(s, n);
    } else if size > 0 && offer.Some? {
      CutGrows(AddChunk(s, offer.value, Needed(s, n).value), n);
    }
  }

  lemma {:induction false} RoomIsNeeded(s: Pool, size: SizeT, n: SizeT)
    requires Fits(s, size) && n == Align(size)
    ensures HasRoom(s, n) <==> Needed(s, n).None?
    ensures !HasRoom(s, n) ==> Needed(s, n) == Some(if s.chunkCapacity > n then s.chunkCapacity else n)
  {}

  lemma {:induction false} CutGrows(s: Pool, n: SizeT)
    requires HasRoom(s, n)
    ensures Size(Cut(s, n).0.chunks) == Size(s.chunks) + n && Capacity(Cut(s, n).0.chunks) == Capacity(s.chunks)
  {
    assert Cut(s, n).0.chunks[1..] == s.chunks[1..];
  }

  /** A block that is resized stays where it is if it shrinks, or if it is the last of the newest chunk and
      there is room behind it; otherwise it is allocated anew. */
  lemma {:induction false} ReallocGrows(s: Pool, p: nat, originalSize: SizeT, newSize: SizeT, offer: Option<nat>)
    requires p in s.blocks && s.blocks[p] == Align(originalSize) && newSize > 0
    requires ResizeFits(s, p, s.blocks[p], newSize)
    ensures
      var (held, n, (t, q)) := (s.blocks[p], (newSize + 7) / 8 * 8, Realloc(s, Some(p), originalSize, newSize, offer));
      var last := |s.chunks| > 0 && p + held == s.chunks[0].base + 24 + s.chunks[0].size;
      if n <= held then q == Some(p) && t.chunks == s.chunks
      else if last && HasRoom(s, n - held) then
        && q == Some(p)
        && Size(t.chunks) == Size(s.chunks) + (n - held) && Capacity(t.chunks) == Capacity(s.chunks)
      else
        && (q.None? <==> !HasRoom(s, n) && offer.None?)
        && (if q.None? then t == s else GrownBy(s, t, q.value, n, offer))
  {
    var held, n := s.blocks[p], (newSize + 7) / 8 * 8;
    assert n == Align(newSize);
    if n <= held {
    } else if GrowsInPlace(s, p, held, n) {
      StayIs(s, p, originalSize, newSize, offer);
      assert Grown(s, p, n - held).chunks[1..] == s.chunks[1..];
    } else {
      AlignAgainAligned(newSize);
      MovedIsMalloc(s, p, originalSize, newSize, offer);
      MallocGrows(s, n, offer);
      assert (n + 7) / 8 * 8 == n;
    }
  }

  /** Clear leaves nothing in use, and of the room only a user's buffer. */
  lemma {:induction false} ClearEmpties(s: Pool)
    requires Valid(s)
    ensures
      var t := Clear(s);
      && t.blocks == map[] && Size(t.chunks) == 0
      && t.userBuffer == s.userBuffer && t.chunkCapacity == s.chunkCapacity
      && (s.userBuffer.None? ==> Capacity(t.chunks) == 0)
      && (s.userBuffer.Some? ==>
            && |t.chunks| == 1 && t.chunks[0].base == s.userBuffer.value
            && exists i :: 0 <= i < |s.chunks| && s.chunks[i].base == s.userBuffer.value && s.chunks[i].capacity == Capacity(t.chunks))
  {
    if s.userBuffer.Some? {
      var last := s.chunks[|s.chunks| - 1];
      assert last.base == s.userBuffer.value;
      assert Clear(s).chunks[1..] == [];
      assert Capacity(Clear(s).chunks) == last.capacity;
    }
  }
}
