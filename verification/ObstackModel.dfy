/**
 The obstack as values: the control block, the chain of chunks, the memory they hold, and
 what each macro of obstack.h and each function of obstack.c does to them.
 */
module ObstackModel {
  import opened ObstackAlign
  import opened ByteMemory

  // LP64: two pointers before the contents of a chunk; alignof and sizeof of the union of
  // uintmax_t, long double and void *.
  const HEADER: nat := 16
  const DEFAULT_ALIGNMENT: nat := 16
  const DEFAULT_ROUNDING: nat := 16

  const INT_MAX: int := 0x7fff_ffff

  predicate IsInt(x: int) {
    -INT_MAX - 1 <= x <= INT_MAX
  }

  /** Conversion to a 32-bit `int`, which keeps the low 32 bits. */
  function ToInt(x: int): (r: int)
    ensures IsInt(r)
  {
    Bits.Mod(x + 0x8000_0000, 0x1_0000_0000) - 0x8000_0000
  }

  /** The chain of `prev` pointers is kept as a sequence, oldest chunk first. */
  datatype Chunk = Chunk(start: nat, limit: nat)

  datatype Obstack = Obstack(
    chunkSize: int,
    chunks: seq<Chunk>,
    objectBase: nat,
    nextFree: nat,
    chunkLimit: nat,
    alignMask: nat,
    maybeEmpty: bool,
    mem: Memory)

  /** What the chunk allocation function returned: an address and the bytes found there. */
  datatype Block = Block(addr: nat, data: seq<Byte>)

  /** The first address of a chunk at which an object can start. */
  function First(c: Chunk, mask: nat): nat
    requires IsMask(mask)
  {
    AlignUp(c.start + HEADER, mask)
  }

  function Last(h: Obstack): Chunk
    requires h.chunks != []
  {
    h.chunks[|h.chunks| - 1]
  }

  function ObjectSize(h: Obstack): int {
    h.nextFree - h.objectBase
  }

  predicate EmptyP(h: Obstack)
    requires h.chunks != [] && IsMask(h.alignMask)
  {
    |h.chunks| == 1 && h.nextFree == First(h.chunks[0], h.alignMask)
  }

  // ---------- Well-formed control blocks ----------

  predicate Apart(c: Chunk, a: nat, n: nat) {
    a + n <= c.start || c.limit <= a
  }

  ghost predicate ChunksOk(chunks: seq<Chunk>, mask: nat)
    requires IsMask(mask)
  {
    && (forall i :: 0 <= i < |chunks| ==> First(chunks[i], mask) <= chunks[i].limit)
    && (forall i, j :: 0 <= i < j < |chunks| ==>
          chunks[i].limit <= chunks[j].start || chunks[j].limit <= chunks[i].start)
  }

  /** All addresses of the chunks in the chain. */
  function ChunkBytes(chunks: seq<Chunk>): set<int> {
    if chunks == [] then {}
    else
      var k := |chunks| - 1;
      ChunkBytes(chunks[..k]) + ChunkRange(chunks[k])
  }

  function ChunkRange(c: Chunk): set<int> {
    Range(c.start, if c.limit < c.start then 0 else c.limit - c.start)
  }

  ghost predicate Shape(h: Obstack) {
    && IsMask(h.alignMask)
    && h.chunks != []
    && ChunksOk(h.chunks, h.alignMask)
    && h.mem.Keys == ChunkBytes(h.chunks)
    && h.chunkLimit == Last(h).limit
    && First(Last(h), h.alignMask) <= h.objectBase <= h.nextFree <= h.chunkLimit
    && (Aligned(h.objectBase, h.alignMask) || h.objectBase == h.nextFree == h.chunkLimit)
  }

  lemma {:induction false} ChunkInBytes(chunks: seq<Chunk>, i: nat)
    requires i < |chunks|
    ensures ChunkRange(chunks[i]) <= ChunkBytes(chunks)
  {
    var k := |chunks| - 1;
    if i < k { ChunkInBytes(chunks[..k], i); }
  }

  lemma {:induction false} BytesApart(chunks: seq<Chunk>, x: int)
    requires forall i :: 0 <= i < |chunks| ==> x !in ChunkRange(chunks[i])
    ensures x !in ChunkBytes(chunks)
  {
    if chunks != [] { BytesApart(chunks[..|chunks| - 1], x); }
  }

  lemma ChunkMapped(h: Obstack, i: nat, a: int, n: nat)
    requires i < |h.chunks| && h.mem.Keys == ChunkBytes(h.chunks)
    requires h.chunks[i].start <= a && a + n <= h.chunks[i].limit
    ensures Mapped(h.mem, a, n)
  {
    ChunkInBytes(h.chunks, i);
    forall x | a <= x < a + n ensures x in h.mem {
      assert x in ChunkRange(h.chunks[i]);
    }
  }

  lemma CurrentMapped(h: Obstack, a: int, n: nat)
    requires Shape(h) && h.objectBase <= a && a + n <= h.chunkLimit
    ensures Mapped(h.mem, a, n)
  {
    ChunkMapped(h, |h.chunks| - 1, a, n);
  }

  /** The growing object. */
  function Growing(h: Obstack): (s: seq<Byte>)
    requires Shape(h)
    ensures |s| == ObjectSize(h)
  {
    CurrentMapped(h, h.objectBase, h.nextFree - h.objectBase);
    Read(h.mem, h.objectBase, h.nextFree - h.objectBase)
  }

  // ---------- _obstack_begin ----------

  /** A size of zero selects the default, a page less malloc's own overhead. */
  function BeginSize(size: nat): int {
    if size == 0 then 4096 - RoundUp(RoundUp(12) + 4) else size
  }

  function RoundUp(n: nat): nat {
    Bits.AndNot(n + DEFAULT_ROUNDING - 1, DEFAULT_ROUNDING - 1)
  }

  /** An alignment of zero selects the default. */
  function BeginMask(alignment: nat): nat {
    (if alignment == 0 then DEFAULT_ALIGNMENT else alignment) - 1
  }

  function Begin(size: nat, alignment: nat, b: Block): Obstack
    requires IsMask(BeginMask(alignment)) && |b.data| == BeginSize(size)
  {
    var mask := BeginMask(alignment);
    var c := Chunk(b.addr, b.addr + |b.data|);
    Obstack(BeginSize(size), [c], First(c, mask), First(c, mask), c.limit, mask, false, Map(map[], b.addr, b.data))
  }

  // ---------- _obstack_newchunk ----------

  function NewSize(h: Obstack, length: nat): int
    requires h.objectBase <= h.nextFree
  {
    var size := h.nextFree - h.objectBase;
    var wanted := size + length + size / 8 + h.alignMask + 100;
    if wanted < h.chunkSize then h.chunkSize else wanted
  }

  /** The allocation function returned `NewSize` bytes that overlap no chunk. */
  ghost predicate GoodBlock(h: Obstack, length: nat, b: Block)
    requires h.objectBase <= h.nextFree
  {
    && |b.data| == NewSize(h, length)
    && forall i :: 0 <= i < |h.chunks| ==> Apart(h.chunks[i], b.addr, |b.data|)
  }

  function FreshChunk(b: Block): Chunk {
    Chunk(b.addr, b.addr + |b.data|)
  }

  /** The memory with the new chunk in it and the partial object copied to its start. */
  function Moved(h: Obstack, length: nat, b: Block): (m: Memory)
    requires Shape(h) && GoodBlock(h, length, b)
    ensures m.Keys == h.mem.Keys + ChunkRange(FreshChunk(b))
  {
    MovedMapped(h, length, b);
    CopyWithin(Map(h.mem, b.addr, b.data), First(FreshChunk(b), h.alignMask), h.objectBase, h.nextFree - h.objectBase)
  }

  lemma MovedMapped(h: Obstack, length: nat, b: Block)
    requires Shape(h) && GoodBlock(h, length, b)
    ensures var m := Map(h.mem, b.addr, b.data);
            && m.Keys == h.mem.Keys + ChunkRange(FreshChunk(b))
            && Mapped(m, h.objectBase, h.nextFree - h.objectBase)
            && Mapped(m, First(FreshChunk(b), h.alignMask), h.nextFree - h.objectBase)
    ensures First(FreshChunk(b), h.alignMask) + (h.nextFree - h.objectBase) + length <= FreshChunk(b).limit
  {
    CurrentMapped(h, h.objectBase, h.nextFree - h.objectBase);
    var c := FreshChunk(b);
    var m := Map(h.mem, b.addr, b.data);
    assert forall x :: c.start <= x < c.limit ==> x in ChunkRange(c) && x in m;
  }

  /** The old chunk is given back when the object just moved was all it held. */
  predicate Replaces(h: Obstack)
    requires IsMask(h.alignMask) && h.chunks != []
  {
    !h.maybeEmpty && h.objectBase == First(Last(h), h.alignMask)
  }

  function Chain(chunks: seq<Chunk>, drop: bool, c: Chunk): seq<Chunk>
    requires chunks != []
  {
    (if drop then chunks[..|chunks| - 1] else chunks) + [c]
  }

  function Remaining(m: Memory, drop: bool, c: Chunk): Memory {
    if drop then Unmap(m, c.start, c.limit - c.start) else m
  }

  /** The control block once `c` is current and the object being built starts at `first`. */
  function Rebased(h: Obstack, c: Chunk, first: nat, drop: bool, m: Memory): Obstack
    requires h.chunks != [] && h.objectBase <= h.nextFree
  {
    h.(chunks := Chain(h.chunks, drop, c),
       mem := Remaining(m, drop, Last(h)),
       objectBase := first,
       nextFree := first + (h.nextFree - h.objectBase),
       chunkLimit := c.limit,
       maybeEmpty := false)
  }

  function NewChunk(h: Obstack, length: nat, b: Block): Obstack
    requires Shape(h) && GoodBlock(h, length, b)
  {
    var c := FreshChunk(b);
    Rebased(h, c, First(c, h.alignMask), Replaces(h), Moved(h, length, b))
  }

  // ---------- The growing macros ----------

  ghost predicate BlockFor(h: Obstack, length: int, b: Block) {
    Shape(h) && (h.nextFree + length > h.chunkLimit ==> GoodBlock(h, length, b))
  }

  /** `obstack_make_room`. */
  function MakeRoom(h: Obstack, length: int, b: Block): Obstack
    requires BlockFor(h, length, b)
  {
    if h.nextFree + length > h.chunkLimit then NewChunk(h, length, b) else h
  }

  /** Storing at `nextFree` when there is room. */
  function Append(h: Obstack, data: seq<Byte>): Obstack
    requires Shape(h) && h.nextFree + |data| <= h.chunkLimit
  {
    CurrentMapped(h, h.nextFree, |data|);
    h.(mem := Write(h.mem, h.nextFree, data), nextFree := h.nextFree + |data|)
  }

  lemma UnmapKeys(m: Memory, c: Chunk)
    requires c.start <= c.limit
    ensures Unmap(m, c.start, c.limit - c.start).Keys == m.Keys - ChunkRange(c)
  {
  }

  lemma SwapBytes(all: set<int>, gone: set<int>, fresh': set<int>, kept: set<int>)
    requires kept == all - gone && gone !! fresh'
    ensures (all + fresh') - gone == kept + fresh'
  {
  }

  ghost predicate ApartFromAll(chunks: seq<Chunk>, c: Chunk) {
    forall i :: 0 <= i < |chunks| ==> chunks[i].limit <= c.start || c.limit <= chunks[i].start
  }

  lemma KeepOldChunk(chunks: seq<Chunk>, mask: nat, c: Chunk, m: Memory)
    requires IsMask(mask) && chunks != [] && ChunksOk(chunks, mask) && ApartFromAll(chunks, c)
    requires First(c, mask) <= c.limit && m.Keys == ChunkBytes(chunks) + ChunkRange(c)
    ensures ChunksOk(Chain(chunks, false, c), mask)
    ensures Remaining(m, false, chunks[|chunks| - 1]).Keys == ChunkBytes(Chain(chunks, false, c))
  {
    ChunksAppend(chunks, c, mask);
  }

  lemma DropOldChunk(chunks: seq<Chunk>, mask: nat, c: Chunk, m: Memory)
    requires IsMask(mask) && chunks != [] && ChunksOk(chunks, mask) && ApartFromAll(chunks, c)
    requires First(c, mask) <= c.limit && m.Keys == ChunkBytes(chunks) + ChunkRange(c)
    ensures ChunksOk(Chain(chunks, true, c), mask)
    ensures Remaining(m, true, chunks[|chunks| - 1]).Keys == ChunkBytes(Chain(chunks, true, c))
  {
    var k := |chunks| - 1;
    assert First(chunks[k], mask) <= chunks[k].limit;
    UnmapKeys(m, chunks[k]);
    PopBytes(chunks, mask);
    RangesApart(chunks[k], c);
    SwapBytes(ChunkBytes(chunks), ChunkRange(chunks[k]), ChunkRange(c), ChunkBytes(chunks[..k]));
    ChunksAppend(chunks[..k], c, mask);
  }

  /** The chain stays disjoint and the memory stays exactly that of its chunks. */
  lemma ChainMemory(chunks: seq<Chunk>, mask: nat, c: Chunk, m: Memory, drop: bool)
    requires IsMask(mask) && chunks != [] && ChunksOk(chunks, mask) && ApartFromAll(chunks, c)
    requires First(c, mask) <= c.limit && m.Keys == ChunkBytes(chunks) + ChunkRange(c)
    ensures ChunksOk(Chain(chunks, drop, c), mask)
    ensures Remaining(m, drop, chunks[|chunks| - 1]).Keys == ChunkBytes(Chain(chunks, drop, c))
  {
    if drop { DropOldChunk(chunks, mask, c, m); } else { KeepOldChunk(chunks, mask, c, m); }
  }

  lemma BlockApart(h: Obstack, length: nat, b: Block)
    requires h.objectBase <= h.nextFree && GoodBlock(h, length, b)
    ensures ApartFromAll(h.chunks, FreshChunk(b))
  {
    forall i | 0 <= i < |h.chunks|
      ensures h.chunks[i].limit <= b.addr || b.addr + |b.data| <= h.chunks[i].start
    {
      assert Apart(h.chunks[i], b.addr, |b.data|);
    }
  }

  lemma NewChunkShape(h: Obstack, length: nat, b: Block)
    requires Shape(h) && GoodBlock(h, length, b)
    ensures var h' := NewChunk(h, length, b);
            && Shape(h') && h'.nextFree + length <= h'.chunkLimit
  {
    MovedMapped(h, length, b);
    BlockApart(h, length, b);
    ChainMemory(h.chunks, h.alignMask, FreshChunk(b), Moved(h, length, b), Replaces(h));
  }

  lemma ChunksAppend(chunks: seq<Chunk>, c: Chunk, mask: nat)
    requires IsMask(mask) && ChunksOk(chunks, mask) && First(c, mask) <= c.limit
    requires ApartFromAll(chunks, c)
    ensures ChunksOk(chunks + [c], mask) && ChunkBytes(chunks + [c]) == ChunkBytes(chunks) + ChunkRange(c)
  {
    assert (chunks + [c])[..|chunks|] == chunks;
  }

  /** Taking the newest chunk away takes exactly its bytes away. */
  lemma PopBytes(chunks: seq<Chunk>, mask: nat)
    requires IsMask(mask) && chunks != [] && ChunksOk(chunks, mask)
    ensures var k := |chunks| - 1;
            ChunksOk(chunks[..k], mask) && ChunkBytes(chunks[..k]) == ChunkBytes(chunks) - ChunkRange(chunks[k])
  {
    var k := |chunks| - 1;
    forall x | x in ChunkRange(chunks[k]) ensures x !in ChunkBytes(chunks[..k]) {
      BytesApart(chunks[..k], x);
    }
  }

  lemma RangesApart(c: Chunk, d: Chunk)
    requires c.limit <= d.start || d.limit <= c.start
    ensures ChunkRange(c) !! ChunkRange(d)
  {
  }

  lemma MakeRoomShape(h: Obstack, length: int, b: Block)
    requires BlockFor(h, length, b)
    ensures var h' := MakeRoom(h, length, b); Shape(h') && h'.nextFree + length <= h'.chunkLimit
  {
    if h.nextFree + length > h.chunkLimit { NewChunkShape(h, length, b); }
  }

  /** `obstack_grow`. */
  function Grow(h: Obstack, data: seq<Byte>, b: Block): Obstack
    requires BlockFor(h, |data|, b)
  {
    MakeRoomShape(h, |data|, b);
    Append(MakeRoom(h, |data|, b), data)
  }

  /** `obstack_grow0`: the data and a terminating zero. */
  function Grow0(h: Obstack, data: seq<Byte>, b: Block): Obstack
    requires BlockFor(h, |data| + 1, b)
  {
    MakeRoomShape(h, |data| + 1, b);
    Append(MakeRoom(h, |data| + 1, b), data + [0])
  }

  /** `obstack_blank_fast`. */
  function BlankFast(h: Obstack, length: int): Obstack
    requires h.nextFree + length >= 0
  {
    h.(nextFree := h.nextFree + length)
  }

  /** `obstack_blank`; a negative length shrinks the growing object. */
  function Blank(h: Obstack, length: int, b: Block): Obstack
    requires BlockFor(h, length, b) && h.nextFree + length >= h.objectBase
  {
    MakeRoomShape(h, length, b);
    BlankFast(MakeRoom(h, length, b), length)
  }

  /** `obstack_finish`; its value is `h.objectBase`. */
  function Finish(h: Obstack): Obstack
    requires Shape(h)
  {
    var up := AlignUp(h.nextFree, h.alignMask);
    var next := if up > h.chunkLimit then h.chunkLimit else up;
    h.(maybeEmpty := h.maybeEmpty || h.nextFree == h.objectBase, nextFree := next, objectBase := next)
  }

  // ---------- obstack_free ----------

  /** The test with which the function decides that `obj` lies in a chunk. */
  predicate Holds(c: Chunk, obj: int) {
    c.start < obj <= c.limit
  }

  function Pop(h: Obstack): Obstack
    requires h.chunks != []
  {
    h.(chunks := h.chunks[..|h.chunks| - 1],
       mem := Unmap(h.mem, Last(h).start, Last(h).limit - Last(h).start),
       maybeEmpty := true)
  }

  /** Give chunks back, newest first, until one holds `obj`. */
  function PopTo(h: Obstack, obj: int): Obstack
    decreases |h.chunks|
  {
    if h.chunks == [] || Holds(Last(h), obj) then h else PopTo(Pop(h), obj)
  }

  datatype Freed = Kept(h: Obstack) | Emptied(mem: Memory) | Aborted

  /** The function `obstack_free`. */
  function FreeSlow(h: Obstack, obj: nat): Freed {
    var h' := PopTo(h, obj);
    if h'.chunks != [] then Kept(h'.(objectBase := obj, nextFree := obj, chunkLimit := Last(h').limit))
    else if obj == 0 then Emptied(h'.mem)
    else Aborted
  }

  /** The macro `obstack_free`: the current chunk is tried first. */
  function Free(h: Obstack, obj: nat): Freed
    requires h.chunks != []
  {
    if Last(h).start < obj < h.chunkLimit then Kept(h.(nextFree := obj, objectBase := obj)) else FreeSlow(h, obj)
  }

  /** `_obstack_memory_used`. */
  function MemoryUsed(chunks: seq<Chunk>): int {
    if chunks == [] then 0
    else
      var k := |chunks| - 1;
      MemoryUsed(chunks[..k]) + (chunks[k].limit - chunks[k].start)
  }
}
