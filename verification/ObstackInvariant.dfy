/**
 The finished objects of an obstack: where they lie, that nothing moves or overwrites them,
 and what each operation does to them.
 */
module ObstackInvariant {
  import Bits
  import opened ObstackAlign
  import opened ByteMemory
  import opened ObstackModel

  /** A finished object: the chunk it lies in, its address and its contents. */
  datatype Object = Object(chunk: nat, addr: nat, bytes: seq<Byte>)

  /** Objects lie in their chunk, aligned; only an empty object may sit, unaligned, at the limit. */
  ghost predicate Placed(h: Obstack, o: Object)
    requires IsMask(h.alignMask)
  {
    && o.chunk < |h.chunks|
    && var c := h.chunks[o.chunk];
       && First(c, h.alignMask) <= o.addr
       && o.addr + |o.bytes| <= c.limit
       && (Aligned(o.addr, h.alignMask) || (o.bytes == [] && o.addr == c.limit))
  }

  /** In the current chunk, objects end before the growing one; without the flag none is empty. */
  ghost predicate BelowGrowing(h: Obstack, o: Object) {
    o.chunk + 1 == |h.chunks| ==>
      o.addr + |o.bytes| <= h.objectBase && (!h.maybeEmpty ==> o.bytes != [])
  }

  ghost predicate Stored(m: Memory, o: Object) {
    Mapped(m, o.addr, |o.bytes|) && Read(m, o.addr, |o.bytes|) == o.bytes
  }

  ghost predicate ObjectOk(h: Obstack, o: Object)
    requires IsMask(h.alignMask)
  {
    Placed(h, o) && BelowGrowing(h, o) && Stored(h.mem, o)
  }

  /** Older objects lie in older chunks, or lower in the same chunk. */
  ghost predicate Before(o: Object, p: Object) {
    o.chunk < p.chunk || (o.chunk == p.chunk && o.addr + |o.bytes| <= p.addr)
  }

  ghost predicate Live(h: Obstack, live: seq<Object>)
    requires IsMask(h.alignMask)
  {
    && (forall i :: 0 <= i < |live| ==> ObjectOk(h, live[i]))
    && (forall i, j :: 0 <= i < j < |live| ==> Before(live[i], live[j]))
  }

  // ---------- Consequences ----------

  predicate Overlap(a: nat, n: nat, b: nat, m: nat) {
    a < b + m && b < a + n && n > 0 && m > 0
  }

  /** Finished objects do not overlap. */
  lemma LiveDisjoint(h: Obstack, live: seq<Object>, i: nat, j: nat)
    requires Shape(h) && Live(h, live) && i < j < |live|
    ensures !Overlap(live[i].addr, |live[i].bytes|, live[j].addr, |live[j].bytes|)
  {
    assert ObjectOk(h, live[i]) && ObjectOk(h, live[j]) && Before(live[i], live[j]);
    if live[i].chunk < live[j].chunk {
      ChunksApart(h, live[i].chunk, live[j].chunk);
    }
  }

  /** No finished object reaches into the growing one, nor into the room left for it. */
  lemma LiveApartFromGrowing(h: Obstack, live: seq<Object>, i: nat)
    requires Shape(h) && Live(h, live) && i < |live|
    ensures !Overlap(live[i].addr, |live[i].bytes|, h.objectBase, h.nextFree - h.objectBase)
    ensures !Overlap(live[i].addr, |live[i].bytes|, h.objectBase, h.chunkLimit - h.objectBase)
  {
    assert ObjectOk(h, live[i]);
    NotUnderGrowing(h, live[i]);
  }

  lemma ChunksApart(h: Obstack, i: nat, j: nat)
    requires Shape(h) && i < j < |h.chunks|
    ensures h.chunks[i].limit <= h.chunks[j].start || h.chunks[j].limit <= h.chunks[i].start
  {
  }

  lemma NotUnderGrowing(h: Obstack, o: Object)
    requires Shape(h) && ObjectOk(h, o)
    ensures !Overlap(o.addr, |o.bytes|, h.objectBase, h.chunkLimit - h.objectBase)
  {
    var k := |h.chunks| - 1;
    if o.chunk < k { ChunksApart(h, o.chunk, k); }
  }

  /** Every nonempty finished object starts on a multiple of the alignment, clamping or not. */
  lemma NonemptyAligned(h: Obstack, live: seq<Object>, i: nat, k: nat)
    requires Shape(h) && Live(h, live) && i < |live| && live[i].bytes != [] && h.alignMask + 1 == Bits.Pow2(k)
    ensures live[i].addr % (h.alignMask + 1) == 0
  {
    assert ObjectOk(h, live[i]);
    AlignedMeansMultiple(live[i].addr, k);
    Bits.MultipleIsRemainderZero(live[i].addr, k);
  }

  /** When `_obstack_newchunk` gives the current chunk back, no finished object lies in it, empty or not. */
  lemma FlagIsSound(h: Obstack, live: seq<Object>, i: nat)
    requires Shape(h) && Live(h, live) && Replaces(h) && i < |live|
    ensures live[i].chunk < |h.chunks| - 1
  {
    assert ObjectOk(h, live[i]);
  }

  // ---------- Moving to a new chunk ----------

  lemma StoredElsewhere(h: Obstack, length: nat, b: Block, o: Object)
    requires Shape(h) && GoodBlock(h, length, b) && Placed(h, o) && Stored(h.mem, o)
    ensures Stored(Moved(h, length, b), o)
  {
    MovedMapped(h, length, b);
    var m := Moved(h, length, b);
    assert Apart(h.chunks[o.chunk], b.addr, |b.data|);
    forall x | o.addr <= x < o.addr + |o.bytes| ensures x in m && m[x] == h.mem[x] {
      assert x in h.mem;
    }
    ReadSame(h.mem, m, o.addr, |o.bytes|);
  }

  lemma MovePlaces(h: Obstack, length: nat, b: Block)
    requires Shape(h) && GoodBlock(h, length, b)
    ensures var first, n := First(FreshChunk(b), h.alignMask), h.nextFree - h.objectBase;
            && Mapped(h.mem, h.objectBase, n)
            && (h.objectBase + n <= b.addr || b.addr + |b.data| <= h.objectBase)
            && b.addr <= first && first + n <= b.addr + |b.data|
  {
    CurrentMapped(h, h.objectBase, h.nextFree - h.objectBase);
    assert Apart(Last(h), b.addr, |b.data|);
    MovedMapped(h, length, b);
  }

  /** The copy at the start of the new chunk is the growing object. */
  lemma MovedCopy(h: Obstack, length: nat, b: Block)
    requires Shape(h) && GoodBlock(h, length, b)
    ensures var first, n := First(FreshChunk(b), h.alignMask), h.nextFree - h.objectBase;
            Mapped(Moved(h, length, b), first, n) && Read(Moved(h, length, b), first, n) == Growing(h)
  {
    var first, n := First(FreshChunk(b), h.alignMask), h.nextFree - h.objectBase;
    MovePlaces(h, length, b);
    ReadCopiedIn(h.mem, b.addr, b.data, first, h.objectBase, n);
    assert Moved(h, length, b) == CopyWithin(Map(h.mem, b.addr, b.data), first, h.objectBase, n);
  }

  /** Giving a chunk back changes nothing outside it. */
  lemma RemainingReads(m: Memory, drop: bool, c: Chunk, a: nat, n: nat)
    requires Mapped(m, a, n) && (a + n <= c.start || c.limit <= a)
    ensures Mapped(Remaining(m, drop, c), a, n) && Read(Remaining(m, drop, c), a, n) == Read(m, a, n)
  {
    ReadSame(m, Remaining(m, drop, c), a, n);
  }

  /** The growing object moves with its contents. */
  lemma NewChunkGrowing(h: Obstack, length: nat, b: Block)
    requires Shape(h) && GoodBlock(h, length, b)
    ensures Shape(NewChunk(h, length, b)) && Growing(NewChunk(h, length, b)) == Growing(h)
  {
    NewChunkShape(h, length, b);
    MovedCopy(h, length, b);
    MovedMapped(h, length, b);
    assert Apart(Last(h), b.addr, |b.data|);
    RemainingReads(Moved(h, length, b), Replaces(h), Last(h),
                   First(FreshChunk(b), h.alignMask), h.nextFree - h.objectBase);
  }

  lemma NewChunkObject(h: Obstack, live: seq<Object>, length: nat, b: Block, i: nat)
    requires Shape(h) && Live(h, live) && GoodBlock(h, length, b) && i < |live|
    ensures ObjectOk(NewChunk(h, length, b), live[i])
  {
    var o := live[i];
    assert ObjectOk(h, o);
    StoredElsewhere(h, length, b, o);
    if Replaces(h) {
      FlagIsSound(h, live, i);
      ChunksApart(h, o.chunk, |h.chunks| - 1);
      RemainingReads(Moved(h, length, b), true, Last(h), o.addr, |o.bytes|);
    }
  }

  /** Replacing the chunk loses nothing. */
  lemma NewChunkKeeps(h: Obstack, live: seq<Object>, length: nat, b: Block)
    requires Shape(h) && Live(h, live) && GoodBlock(h, length, b)
    ensures var h' := NewChunk(h, length, b);
            && Shape(h') && h'.nextFree + length <= h'.chunkLimit
            && Live(h', live) && Growing(h') == Growing(h)
  {
    NewChunkShape(h, length, b);
    NewChunkGrowing(h, length, b);
    forall i | 0 <= i < |live| ensures ObjectOk(NewChunk(h, length, b), live[i]) {
      NewChunkObject(h, live, length, b, i);
    }
  }

  lemma MakeRoomKeeps(h: Obstack, live: seq<Object>, length: int, b: Block)
    requires BlockFor(h, length, b) && Live(h, live)
    ensures var h' := MakeRoom(h, length, b);
            && Shape(h') && h'.nextFree + length <= h'.chunkLimit
            && Live(h', live) && Growing(h') == Growing(h)
  {
    if h.nextFree + length > h.chunkLimit { NewChunkKeeps(h, live, length, b); }
  }

  // ---------- Growing ----------

  lemma AppendObject(h: Obstack, o: Object, data: seq<Byte>)
    requires Shape(h) && ObjectOk(h, o) && h.nextFree + |data| <= h.chunkLimit
    ensures ObjectOk(Append(h, data), o)
  {
    CurrentMapped(h, h.nextFree, |data|);
    NotUnderGrowing(h, o);
    ReadElsewhere(h.mem, h.nextFree, data, o.addr, |o.bytes|);
  }

  lemma AppendGrowing(h: Obstack, data: seq<Byte>)
    requires Shape(h) && h.nextFree + |data| <= h.chunkLimit
    ensures Shape(Append(h, data)) && Growing(Append(h, data)) == Growing(h) + data
  {
    CurrentMapped(h, h.objectBase, h.chunkLimit - h.objectBase);
    ReadAppended(h.mem, h.objectBase, h.nextFree - h.objectBase, data);
  }

  lemma AppendKeeps(h: Obstack, live: seq<Object>, data: seq<Byte>)
    requires Shape(h) && Live(h, live) && h.nextFree + |data| <= h.chunkLimit
    ensures var h' := Append(h, data);
            Shape(h') && Live(h', live) && Growing(h') == Growing(h) + data
  {
    var h' := Append(h, data);
    AppendGrowing(h, data);
    forall i | 0 <= i < |live| ensures ObjectOk(h', live[i]) {
      assert ObjectOk(h, live[i]);
      AppendObject(h, live[i], data);
    }
  }

  lemma GrowKeeps(h: Obstack, live: seq<Object>, data: seq<Byte>, b: Block)
    requires BlockFor(h, |data|, b) && Live(h, live)
    ensures var h' := Grow(h, data, b); Shape(h') && Live(h', live) && Growing(h') == Growing(h) + data
  {
    MakeRoomKeeps(h, live, |data|, b);
    AppendKeeps(MakeRoom(h, |data|, b), live, data);
  }

  lemma Grow0Keeps(h: Obstack, live: seq<Object>, data: seq<Byte>, b: Block)
    requires BlockFor(h, |data| + 1, b) && Live(h, live)
    ensures var h' := Grow0(h, data, b); Shape(h') && Live(h', live) && Growing(h') == Growing(h) + data + [0]
  {
    MakeRoomKeeps(h, live, |data| + 1, b);
    AppendKeeps(MakeRoom(h, |data| + 1, b), live, data + [0]);
  }

  /** The shorter of the two is a prefix of the longer. */
  predicate Agree(s: seq<Byte>, t: seq<Byte>) {
    s <= t || t <= s
  }

  lemma ReadPrefix(m: Memory, a: int, len: nat, n: nat)
    requires n <= len && Mapped(m, a, len)
    ensures Read(m, a, n) <= Read(m, a, len)
  {
  }

  /** Moving `nextFree` within the chunk keeps the part of the growing object below both positions. */
  lemma BlankFastKeeps(h: Obstack, live: seq<Object>, length: int)
    requires Shape(h) && Live(h, live) && h.objectBase <= h.nextFree + length <= h.chunkLimit
    ensures var h' := BlankFast(h, length);
            && Shape(h') && Live(h', live)
            && |Growing(h')| == |Growing(h)| + length
            && Agree(Growing(h'), Growing(h))
  {
    var h' := BlankFast(h, length);
    forall i | 0 <= i < |live| ensures ObjectOk(h', live[i]) {
      assert ObjectOk(h, live[i]);
    }
    CurrentMapped(h, h.objectBase, h.chunkLimit - h.objectBase);
    if length <= 0 {
      ReadPrefix(h.mem, h.objectBase, h.nextFree - h.objectBase, h'.nextFree - h.objectBase);
    } else {
      ReadPrefix(h.mem, h.objectBase, h'.nextFree - h.objectBase, h.nextFree - h.objectBase);
    }
  }

  /** Blank space has arbitrary contents; what was there before stays, as far as it still fits. */
  lemma BlankKeeps(h: Obstack, live: seq<Object>, length: int, b: Block)
    requires BlockFor(h, length, b) && Live(h, live) && h.nextFree + length >= h.objectBase
    ensures var h' := Blank(h, length, b);
            && Shape(h') && Live(h', live)
            && |Growing(h')| == |Growing(h)| + length
            && Agree(Growing(h'), Growing(h))
  {
    MakeRoomKeeps(h, live, length, b);
    var h1 := MakeRoom(h, length, b);
    assert |Growing(h1)| == |Growing(h)|;
    BlankFastKeeps(h1, live, length);
  }

  // ---------- Finishing ----------

  function Finished(h: Obstack): Object
    requires Shape(h)
  {
    Object(|h.chunks| - 1, h.objectBase, Growing(h))
  }

  lemma FinishShape(h: Obstack)
    requires Shape(h)
    ensures Shape(Finish(h)) && Growing(Finish(h)) == []
  {
  }

  /** The object is complete where it lies, and the next one starts above it. */
  lemma FinishObject(h: Obstack)
    requires Shape(h)
    ensures ObjectOk(Finish(h), Finished(h))
  {
    CurrentMapped(h, h.objectBase, h.nextFree - h.objectBase);
  }

  lemma FinishOthers(h: Obstack, o: Object)
    requires Shape(h) && ObjectOk(h, o)
    ensures ObjectOk(Finish(h), o) && Before(o, Finished(h))
  {
  }

  lemma FinishKeeps(h: Obstack, live: seq<Object>)
    requires Shape(h) && Live(h, live)
    ensures var h' := Finish(h);
            Shape(h') && Live(h', live + [Finished(h)]) && Growing(h') == []
  {
    FinishShape(h);
    FinishObject(h);
    var h', o := Finish(h), Finished(h);
    LiveAppend(h, h', live, o);
  }

  lemma LiveAppend(h: Obstack, h': Obstack, live: seq<Object>, o: Object)
    requires Shape(h) && Live(h, live) && h' == Finish(h) && o == Finished(h)
    requires IsMask(h'.alignMask) && ObjectOk(h', o)
    ensures Live(h', live + [o])
  {
    var live' := live + [o];
    forall i | 0 <= i < |live'| ensures ObjectOk(h', live'[i]) {
      if i < |live| { FinishOthers(h, live[i]); }
    }
    forall i, j | 0 <= i < j < |live'| ensures Before(live'[i], live'[j]) {
      if j < |live| { assert Before(live[i], live[j]); } else { FinishOthers(h, live[i]); }
    }
  }

  // ---------- Freeing ----------

  ghost predicate SubMemory(m: Memory, m0: Memory) {
    forall x :: x in m ==> x in m0 && m[x] == m0[x]
  }

  lemma PopShape(h: Obstack)
    requires IsMask(h.alignMask) && h.chunks != [] && ChunksOk(h.chunks, h.alignMask)
    requires h.mem.Keys == ChunkBytes(h.chunks)
    ensures ChunksOk(Pop(h).chunks, h.alignMask)
    ensures Pop(h).mem.Keys == ChunkBytes(Pop(h).chunks)
    ensures SubMemory(Pop(h).mem, h.mem)
  {
    PopBytes(h.chunks, h.alignMask);
    assert First(Last(h), h.alignMask) <= Last(h).limit;
    UnmapKeys(h.mem, Last(h));
  }

  lemma HeldOnce(chunks: seq<Chunk>, mask: nat, obj: nat, c: nat)
    requires IsMask(mask) && ChunksOk(chunks, mask) && c < |chunks| && Holds(chunks[c], obj)
    ensures forall k :: c < k < |chunks| ==> !Holds(chunks[k], obj)
  {
  }

  lemma ChunksOkPrefix(chunks: seq<Chunk>, mask: nat, k: nat)
    requires IsMask(mask) && ChunksOk(chunks, mask) && k <= |chunks|
    ensures ChunksOk(chunks[..k], mask)
  {
  }

  /** Popping stops at the chunk that holds the address; the chunks above it are given back. */
  lemma {:induction false} PopToChunk(h: Obstack, obj: nat, c: nat)
    requires c < |h.chunks| && Holds(h.chunks[c], obj)
    requires forall k :: c < k < |h.chunks| ==> !Holds(h.chunks[k], obj)
    ensures var h' := PopTo(h, obj);
            && h'.chunks == h.chunks[..c + 1]
            && h'.alignMask == h.alignMask
            && h'.maybeEmpty == (h.maybeEmpty || c + 1 < |h.chunks|)
    decreases |h.chunks|
  {
    var k := |h.chunks| - 1;
    if c == k {
      assert h.chunks[..c + 1] == h.chunks;
    } else {
      PopToChunk(Pop(h), obj, c);
      assert h.chunks[..k][..c + 1] == h.chunks[..c + 1];
    }
  }

  /** Giving chunks back changes no byte of those that stay. */
  lemma {:induction false} PopToMemory(h: Obstack, obj: int)
    requires IsMask(h.alignMask) && ChunksOk(h.chunks, h.alignMask) && h.mem.Keys == ChunkBytes(h.chunks)
    ensures var h' := PopTo(h, obj); h'.mem.Keys == ChunkBytes(h'.chunks) && SubMemory(h'.mem, h.mem)
    decreases |h.chunks|
  {
    if h.chunks != [] && !Holds(Last(h), obj) {
      PopShape(h);
      PopToMemory(Pop(h), obj);
    }
  }

  /** Freeing an address inside chunk `c` leaves exactly the chunks up to `c`. */
  lemma FreeInChunk(h: Obstack, obj: nat, c: nat)
    requires Shape(h) && c < |h.chunks| && h.chunks[c].start < obj <= h.chunks[c].limit
    ensures var r := Free(h, obj);
            && r.Kept?
            && r.h.chunks == h.chunks[..c + 1]
            && r.h.objectBase == r.h.nextFree == obj && r.h.chunkLimit == h.chunks[c].limit
            && r.h.mem.Keys == ChunkBytes(r.h.chunks)
            && SubMemory(r.h.mem, h.mem)
            && r.h.alignMask == h.alignMask
            && r.h.maybeEmpty == (h.maybeEmpty || c + 1 < |h.chunks|)
  {
    var k := |h.chunks| - 1;
    if c < k { ChunksApart(h, c, k); }
    if Last(h).start < obj < h.chunkLimit {
      assert h.chunks[..c + 1] == h.chunks;
    } else {
      HeldOnce(h.chunks, h.alignMask, obj, c);
      PopToChunk(h, obj, c);
      PopToMemory(h, obj);
    }
  }

  lemma FreeShape(h: Obstack, o: Object)
    requires Shape(h) && ObjectOk(h, o)
    ensures var r := Free(h, o.addr); r.Kept? && Shape(r.h) && Growing(r.h) == []
  {
    FreeInChunk(h, o.addr, o.chunk);
    var h' := Free(h, o.addr).h;
    assert Last(h') == h.chunks[o.chunk];
    ChunksOkPrefix(h.chunks, h.alignMask, o.chunk + 1);
  }

  /** Freeing a finished object frees it and everything newer, in its chunk and beyond, and nothing else. */
  lemma FreeKeeps(h: Obstack, live: seq<Object>, i: nat)
    requires Shape(h) && Live(h, live) && i < |live|
    ensures var r := Free(h, live[i].addr);
            r.Kept? && Shape(r.h) && Live(r.h, live[..i]) && Growing(r.h) == []
  {
    assert ObjectOk(h, live[i]);
    FreeShape(h, live[i]);
    FreeInChunk(h, live[i].addr, live[i].chunk);
    FreeKeepsLive(h, Free(h, live[i].addr).h, live, i);
  }

  lemma FreeKeepsLive(h: Obstack, h': Obstack, live: seq<Object>, i: nat)
    requires Shape(h) && Live(h, live) && i < |live|
    requires h'.chunks == h.chunks[..live[i].chunk + 1] && h'.objectBase == live[i].addr && h'.alignMask == h.alignMask
    requires h'.mem.Keys == ChunkBytes(h'.chunks) && SubMemory(h'.mem, h.mem)
    requires h'.maybeEmpty == (h.maybeEmpty || live[i].chunk + 1 < |h.chunks|)
    ensures Live(h', live[..i])
  {
    assert ObjectOk(h, live[i]);
    forall j | 0 <= j < i ensures ObjectOk(h', live[j]) {
      assert ObjectOk(h, live[j]) && Before(live[j], live[i]);
      FreeKeepsObject(h, h', live[i], live[j]);
    }
  }

  lemma FreeKeepsObject(h: Obstack, h': Obstack, o: Object, p: Object)
    requires Shape(h) && ObjectOk(h, o) && ObjectOk(h, p) && Before(p, o)
    requires h'.chunks == h.chunks[..o.chunk + 1] && h'.objectBase == o.addr && h'.alignMask == h.alignMask
    requires h'.mem.Keys == ChunkBytes(h'.chunks)
    requires SubMemory(h'.mem, h.mem)
    requires h'.maybeEmpty == (h.maybeEmpty || o.chunk + 1 < |h.chunks|)
    ensures ObjectOk(h', p)
  {
    var c := h.chunks[p.chunk];
    assert h'.chunks[p.chunk] == c;
    ChunkMapped(h', p.chunk, p.addr, |p.bytes|);
    ReadSame(h'.mem, h.mem, p.addr, |p.bytes|);
  }

  lemma FreeAtBase(h: Obstack)
    requires Shape(h)
    ensures Free(h, h.objectBase) == Kept(h.(nextFree := h.objectBase))
  {
  }

  /** Freeing at `obstack_base` discards only the growing object. */
  lemma FreeGrowingKeeps(h: Obstack, live: seq<Object>)
    requires Shape(h) && Live(h, live)
    ensures var r := Free(h, h.objectBase);
            r.Kept? && Shape(r.h) && Live(r.h, live) && Growing(r.h) == []
  {
    FreeAtBase(h);
    var h' := h.(nextFree := h.objectBase);
    forall j | 0 <= j < |live| ensures ObjectOk(h', live[j]) {
      assert ObjectOk(h, live[j]);
    }
  }

  /** The address is in no chunk: every chunk is given back. */
  lemma {:induction false} PopToNone(h: Obstack, obj: int)
    requires IsMask(h.alignMask) && ChunksOk(h.chunks, h.alignMask) && h.mem.Keys == ChunkBytes(h.chunks)
    requires forall i :: 0 <= i < |h.chunks| ==> !Holds(h.chunks[i], obj)
    ensures PopTo(h, obj).chunks == [] && PopTo(h, obj).mem == map[]
    decreases |h.chunks|
  {
    if h.chunks != [] {
      PopShape(h);
      PopToNone(Pop(h), obj);
    }
  }

  /** `obstack_free (h, 0)` gives all memory back; any other address outside all chunks aborts, and only those do. */
  lemma FreeOutcome(h: Obstack, obj: nat)
    requires Shape(h)
    ensures Free(h, obj).Aborted? <==>
            obj != 0 && forall i :: 0 <= i < |h.chunks| ==> obj <= h.chunks[i].start || h.chunks[i].limit < obj
    ensures Free(h, obj).Emptied? <==> obj == 0
    ensures obj == 0 ==> Free(h, obj) == Emptied(map[])
  {
    if c :| 0 <= c < |h.chunks| && Holds(h.chunks[c], obj) {
      FreeInChunk(h, obj, c);
    } else {
      PopToNone(h, obj);
    }
  }

  lemma {:induction false} RangeSize(a: int, n: nat)
    ensures |Range(a, n)| == n
  {
    if n > 0 { RangeSize(a, n - 1); }
  }

  lemma UnionSize(a: set<int>, b: set<int>, u: set<int>)
    requires u == a + b && a == u - b
    ensures |u| == |a| + |b|
  {
    assert a !! b;
  }

  lemma ChunkRangeSize(c: Chunk)
    requires c.start <= c.limit
    ensures |ChunkRange(c)| == c.limit - c.start
  {
    RangeSize(c.start, c.limit - c.start);
  }

  lemma {:induction false} UsedIsBytes(chunks: seq<Chunk>, mask: nat)
    requires IsMask(mask) && ChunksOk(chunks, mask)
    ensures MemoryUsed(chunks) == |ChunkBytes(chunks)|
  {
    if chunks != [] {
      var k := |chunks| - 1;
      var a, b := ChunkBytes(chunks[..k]), ChunkRange(chunks[k]);
      PopBytes(chunks, mask);
      UnionSize(a, b, ChunkBytes(chunks));
      assert First(chunks[k], mask) <= chunks[k].limit;
      ChunkRangeSize(chunks[k]);
      UsedIsBytes(chunks[..k], mask);
    }
  }

  /** The sizes of the chunks add up to the bytes obtained and not given back. */
  lemma MemoryUsedExact(h: Obstack)
    requires Shape(h)
    ensures MemoryUsed(h.chunks) == |h.mem|
  {
    UsedIsBytes(h.chunks, h.alignMask);
    assert |h.mem| == |h.mem.Keys|;
  }
}
