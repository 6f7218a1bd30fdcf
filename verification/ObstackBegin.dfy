/** What `_obstack_begin` sets up, when that is a well-formed, empty obstack, and what every run keeps of it. */
module ObstackBegin {
  import opened Bits
  import opened ObstackAlign
  import opened ByteMemory
  import opened ObstackModel
  import opened ObstackInvariant
  import opened ObstackRuns

  /** A new obstack is well formed when the block holds the header and the gap up to the alignment. */
  lemma BeginShape(size: nat, alignment: nat, b: Block)
    requires IsMask(BeginMask(alignment)) && |b.data| == BeginSize(size)
    ensures var h := Begin(size, alignment, b);
            && (Shape(h) <==> First(FreshChunk(b), h.alignMask) <= b.addr + BeginSize(size))
            && (Shape(h) ==> Live(h, []) && Growing(h) == [])
  {
    var h := Begin(size, alignment, b);
    assert ChunkBytes(h.chunks) == ChunkRange(h.chunks[0]) by { assert h.chunks[..0] == []; }
    assert h.mem.Keys == ChunkRange(h.chunks[0]);
  }

  lemma SixteenTimes(k: nat)
    ensures IsMultiple(16 * Pow2(k), k)
  {
    Pow2IsMultiple(k + 4, k);
    assert Pow2(k + 4) == 2 * Pow2(k + 3) && Pow2(k + 3) == 2 * Pow2(k + 2);
    assert Pow2(k + 2) == 2 * Pow2(k + 1) && Pow2(k + 1) == 2 * Pow2(k);
  }

  /** An address just past a multiple of the alignment wastes a whole gap. */
  lemma WorstAlignment(k: nat)
    ensures AlignUp(16 * Pow2(k) + 1, Pow2(k) - 1) == 16 * Pow2(k) + Pow2(k)
  {
    var m := Pow2(k);
    SixteenTimes(k);
    BptrAlignLeast(0, 16 * m + 1, k);
    NextMultipleParity(16 * m, k);
    MultiplesApart(16 * m, BptrAlign(0, 16 * m + 1, m - 1), k);
  }

  lemma WorstAddress(size: nat, alignment: nat, b: Block, k: nat)
    requires IsMask(BeginMask(alignment)) && BeginMask(alignment) + 1 == Pow2(k) && |b.data| == BeginSize(size)
    requires BeginSize(size) < HEADER + BeginMask(alignment) && b.addr + HEADER == 16 * Pow2(k) + 1
    ensures !Shape(Begin(size, alignment, b))
  {
    WorstAlignment(k);
    BeginShape(size, alignment, b);
  }

  lemma WorstBlock(size: nat, alignment: nat) returns (b: Block)
    requires IsMask(BeginMask(alignment)) && BeginSize(size) < HEADER + BeginMask(alignment)
    ensures |b.data| == BeginSize(size) && !Shape(Begin(size, alignment, b))
  {
    var mask := BeginMask(alignment);
    var k: nat :| mask + 1 == Pow2(k);
    DefaultSize();
    b := Block(16 * Pow2(k) + 1 - HEADER, seq(BeginSize(size), _ => 0 as Byte));
    WorstAddress(size, alignment, b, k);
  }

  /** The alignment a caller may ask for: a power of two, or zero for the default. */
  ghost predicate IsAlignment(alignment: nat) {
    alignment == 0 || exists k: nat :: alignment == Pow2(k)
  }

  /** Zero selects 16 for the alignment and 4064 for the size; anything else is taken as it is. */
  lemma BeginParameters(size: nat, alignment: nat)
    requires IsAlignment(alignment)
    ensures IsMask(BeginMask(alignment)) && BeginMask(alignment) + 1 == if alignment == 0 then 16 else alignment
    ensures BeginSize(size) == if size == 0 then 4064 else size
  {
    DefaultSize();
    assert 16 == Pow2(4) by { assert Pow2(3) == 8; }
  }

  /**
   Whatever block the chunk allocation function returns, the new obstack is well formed, exactly
   when the requested size is at least the header and the alignment, less one, together.
   */
  lemma BeginWellFormed(size: nat, alignment: nat)
    requires IsAlignment(alignment)
    ensures IsMask(BeginMask(alignment)) && BeginSize(size) == if size == 0 then 4064 else size
    ensures var bytes := if size == 0 then 4064 else size;
            var a := if alignment == 0 then 16 else alignment;
            (forall b: Block :: |b.data| == bytes ==> Shape(Begin(size, alignment, b))) <==> bytes >= 16 + a - 1
  {
    BeginParameters(size, alignment);
    if BeginSize(size) >= HEADER + BeginMask(alignment) {
      forall b: Block | |b.data| == BeginSize(size) ensures Shape(Begin(size, alignment, b)) {
        BeginShape(size, alignment, b);
      }
    } else {
      var b := WorstBlock(size, alignment);
    }
  }

  /**
   The new obstack has one chunk, of exactly the size asked for, which is also the size of later
   chunks, and starts its first object at the first multiple of the alignment after the header.
   */
  lemma BeginSetsUp(size: nat, alignment: nat, b: Block)
    requires IsAlignment(alignment) && |b.data| == if size == 0 then 4064 else size
    ensures IsMask(BeginMask(alignment)) && |b.data| == BeginSize(size)
    ensures var h, a := Begin(size, alignment, b), if alignment == 0 then 16 else alignment;
            && h.alignMask + 1 == a && h.chunkSize == |b.data| && !h.maybeEmpty
            && h.chunks == [Chunk(b.addr, b.addr + |b.data|)] && h.chunkLimit == b.addr + |b.data|
            && h.nextFree == h.objectBase && h.objectBase % a == 0
            && b.addr + 16 <= h.objectBase < b.addr + 16 + a
            && (forall x :: x in h.mem <==> b.addr <= x < b.addr + |b.data|)
            && forall i :: 0 <= i < |b.data| ==> h.mem[b.addr + i] == b.data[i]
  {
    BeginParameters(size, alignment);
    var h := Begin(size, alignment, b);
    var k: nat :| h.alignMask + 1 == Pow2(k);
    BptrAlignLeast(0, b.addr + 16, k);
    AlignedMeansMultiple(h.objectBase, k);
    MultipleIsRemainderZero(h.objectBase, k);
  }

  lemma WorldAligned(w: World, i: nat, k: nat)
    requires Inv(w) && i < |w.live| && w.live[i].bytes != [] && w.h.alignMask + 1 == Pow2(k)
    ensures IsMultiple(w.live[i].addr, k)
  {
    assert ObjectOk(w.h, w.live[i]);
    AlignedMeansMultiple(w.live[i].addr, k);
  }

  lemma RunAlignedFrom(w: World, ops: seq<Op>, w': World, i: nat, k: nat)
    requires Inv(w) && Admissible(w, ops) && w' == Exec(w, ops) && w.h.alignMask + 1 == Pow2(k)
    requires i < |w'.live| && w'.live[i].bytes != []
    ensures IsMultiple(w'.live[i].addr, k)
  {
    RunKeepsParameters(w, ops);
    WorldAligned(w', i, k);
  }

  /** In every run of a new obstack, every nonempty finished object lies at a multiple of the alignment asked for. */
  lemma RunAligned(size: nat, alignment: nat, b: Block, w: World, ops: seq<Op>, i: nat)
    requires IsAlignment(alignment) && IsMask(BeginMask(alignment)) && |b.data| == BeginSize(size)
    requires w == World(Begin(size, alignment, b), []) && Inv(w) && Admissible(w, ops)
    requires i < |Exec(w, ops).live| && Exec(w, ops).live[i].bytes != []
    ensures alignment == 0 ==> Exec(w, ops).live[i].addr % 16 == 0
    ensures alignment > 0 ==> Exec(w, ops).live[i].addr % alignment == 0
  {
    BeginParameters(size, alignment);
    var k: nat :| BeginMask(alignment) + 1 == Pow2(k);
    RunAlignedFrom(w, ops, Exec(w, ops), i, k);
    MultipleIsRemainderZero(Exec(w, ops).live[i].addr, k);
  }

  /** The first object of a new obstack can grow without limit and the obstack still has one chunk. */
  lemma FirstObjectKeepsOneChunk(size: nat, alignment: nat, b: Block, w: World, ops: seq<Op>)
    requires IsMask(BeginMask(alignment)) && |b.data| == BeginSize(size)
    requires w == World(Begin(size, alignment, b), []) && Inv(w) && Admissible(w, ops)
    requires forall k :: 0 <= k < |ops| ==> Appends(ops[k])
    ensures |Exec(w, ops).h.chunks| == 1
  {
    GrowingAloneReplacesChunk(w, ops);
  }

  /** `obstack_init` asks for the defaults, which always suffice. */
  lemma InitWellFormed(b: Block)
    requires |b.data| == BeginSize(0)
    ensures IsMask(BeginMask(0)) && Shape(Begin(0, 0, b)) && Live(Begin(0, 0, b), []) && Growing(Begin(0, 0, b)) == []
  {
    assert BeginMask(0) + 1 == Pow2(4) by { assert Pow2(3) == 8; }
    DefaultSize();
    BeginShape(0, 0, b);
  }

  lemma DefaultSize()
    ensures BeginSize(0) == 4064
  {
    RoundUp16(27);
    RoundUp16(35);
  }

  lemma RoundUp16(x: nat)
    ensures AndNot(x, 15) == x - x % 16
  {
    assert Pow2(4) == 16 by { assert Pow2(3) == 8; }
    AndNotLowMask(x, 4);
    LowIsRemainder(x, 4);
  }

  lemma Align17()
    ensures IsMask(15) && AlignUp(17, 15) >= 32
  {
    assert 16 == Pow2(4) by { assert Pow2(3) == 8; }
    BptrAlignLeast(0, 17, 4);
    LowIsRemainder(BptrAlign(0, 17, 15), 4);
  }

  /** A size of 30 with the default alignment is one byte short: a block at address 1 is unusable. */
  lemma BeginTooSmall(b: Block)
    requires b.addr == 1 && |b.data| == BeginSize(30)
    ensures IsMask(BeginMask(16)) && !Shape(Begin(30, 16, b))
  {
    Align17();
    BeginShape(30, 16, b);
  }
}
