/**
 Finished objects lie packed: each starts in the first aligned place after the one before it in
 its chunk, or at the start of the chunk. From this follows what `obstack_empty_p` means.
 */
module ObstackLayout {
  import opened ObstackAlign
  import opened ByteMemory
  import opened ObstackModel
  import opened ObstackInvariant
  import opened ObstackRuns

  /** The first place for an object after `o`, clamped to the limit of its chunk. */
  function After(chunks: seq<Chunk>, mask: nat, o: Object): nat
    requires IsMask(mask) && o.chunk < |chunks|
  {
    var up := AlignUp(o.addr + |o.bytes|, mask);
    if up > chunks[o.chunk].limit then chunks[o.chunk].limit else up
  }

  /** Where an object that follows `live` starts in chunk `c`. */
  function Start(chunks: seq<Chunk>, mask: nat, live: seq<Object>, c: nat): nat
    requires IsMask(mask) && c < |chunks|
  {
    if live != [] && live[|live| - 1].chunk == c then After(chunks, mask, live[|live| - 1])
    else First(chunks[c], mask)
  }

  ghost predicate PackedAt(chunks: seq<Chunk>, mask: nat, live: seq<Object>, i: nat)
    requires IsMask(mask) && i < |live|
  {
    live[i].chunk < |chunks| && live[i].addr == Start(chunks, mask, live[..i], live[i].chunk)
  }

  ghost predicate PackedIn(chunks: seq<Chunk>, mask: nat, base: nat, live: seq<Object>) {
    && IsMask(mask) && chunks != []
    && base == Start(chunks, mask, live, |chunks| - 1)
    && forall i: nat :: i < |live| ==> PackedAt(chunks, mask, live, i)
  }

  ghost predicate Packed(w: World) {
    PackedIn(w.h.chunks, w.h.alignMask, w.h.objectBase, w.live)
  }

  // ---------- Every operation keeps objects packed ----------

  /** A new chunk changes the place of no finished object, and the growing one starts it. */
  lemma ChainPacked(chunks: seq<Chunk>, mask: nat, base: nat, live: seq<Object>, drop: bool, c: Chunk)
    requires PackedIn(chunks, mask, base, live)
    requires forall i :: 0 <= i < |live| ==> live[i].chunk < |Chain(chunks, drop, c)| - 1
    ensures PackedIn(Chain(chunks, drop, c), mask, First(c, mask), live)
  {
    forall i: nat | i < |live| ensures PackedAt(Chain(chunks, drop, c), mask, live, i) {
      assert PackedAt(chunks, mask, live, i);
    }
  }

  lemma PushPacked(chunks: seq<Chunk>, mask: nat, base: nat, live: seq<Object>, o: Object)
    requires PackedIn(chunks, mask, base, live) && o.chunk == |chunks| - 1 && o.addr == base
    ensures PackedIn(chunks, mask, After(chunks, mask, o), live + [o])
  {
    forall i: nat | i < |live + [o]| ensures PackedAt(chunks, mask, live + [o], i) {
      assert (live + [o])[..i] == live[..i];
      if i < |live| { assert PackedAt(chunks, mask, live, i); } else { assert live[..i] == live; }
    }
  }

  lemma TakePacked(chunks: seq<Chunk>, mask: nat, base: nat, live: seq<Object>, i: nat)
    requires PackedIn(chunks, mask, base, live) && i < |live| && live[i].chunk < |chunks|
    requires forall j :: 0 <= j < i ==> live[j].chunk <= live[i].chunk
    ensures PackedIn(chunks[..live[i].chunk + 1], mask, live[i].addr, live[..i])
  {
    assert PackedAt(chunks, mask, live, i);
    var chunks', live' := chunks[..live[i].chunk + 1], live[..i];
    forall j: nat | j < |live'| ensures PackedAt(chunks', mask, live', j) {
      assert PackedAt(chunks, mask, live, j) && live'[..j] == live[..j];
    }
  }

  lemma OlderChunks(w: World, length: nat, b: Block)
    requires Inv(w) && GoodBlock(w.h, length, b)
    ensures forall i :: 0 <= i < |w.live| ==>
              w.live[i].chunk < |Chain(w.h.chunks, Replaces(w.h), FreshChunk(b))| - 1
  {
    forall i | 0 <= i < |w.live|
      ensures w.live[i].chunk < |Chain(w.h.chunks, Replaces(w.h), FreshChunk(b))| - 1
    {
      assert ObjectOk(w.h, w.live[i]);
      if Replaces(w.h) { FlagIsSound(w.h, w.live, i); }
    }
  }

  lemma MakeRoomPacked(w: World, length: int, b: Block)
    requires Inv(w) && Packed(w) && BlockFor(w.h, length, b)
    ensures var h' := MakeRoom(w.h, length, b); PackedIn(h'.chunks, h'.alignMask, h'.objectBase, w.live)
  {
    if w.h.nextFree + length > w.h.chunkLimit {
      OlderChunks(w, length, b);
      ChainPacked(w.h.chunks, w.h.alignMask, w.h.objectBase, w.live, Replaces(w.h), FreshChunk(b));
    }
  }

  lemma FinishIs(h: Obstack)
    requires Shape(h)
    ensures var o := Finished(h);
            && |o.bytes| == h.nextFree - h.objectBase
            && Finish(h).objectBase == After(h.chunks, h.alignMask, o)
            && Finish(h).maybeEmpty == (h.maybeEmpty || o.bytes == [])
  {
  }

  lemma FinishStepIs(w: World)
    requires Inv(w)
    ensures var w', o := Step(w, OpFinish), Finished(w.h);
            && w'.live == w.live + [o] && w'.h.chunks == w.h.chunks && w'.h.alignMask == w.h.alignMask
            && w'.h.objectBase == After(w.h.chunks, w.h.alignMask, o)
            && w'.h.maybeEmpty == (w.h.maybeEmpty || o.bytes == [])
  {
    FinishIs(w.h);
  }

  lemma FinishPacked(w: World)
    requires Inv(w) && Packed(w)
    ensures Packed(Step(w, OpFinish))
  {
    FinishStepIs(w);
    PushPacked(w.h.chunks, w.h.alignMask, w.h.objectBase, w.live, Finished(w.h));
  }

  lemma FreeObjectIs(h: Obstack, o: Object)
    requires Shape(h) && ObjectOk(h, o)
    ensures var r := Free(h, o.addr);
            && r.Kept? && r.h.chunks == h.chunks[..o.chunk + 1] && r.h.objectBase == r.h.nextFree == o.addr
            && r.h.alignMask == h.alignMask && (h.maybeEmpty ==> r.h.maybeEmpty)
  {
    FreeInChunk(h, o.addr, o.chunk);
  }

  lemma FreeStepIs(w: World, i: nat)
    requires Inv(w) && i < |w.live|
    ensures var w', o := Step(w, OpFree(i)), w.live[i];
            && o.chunk < |w.h.chunks| && w'.live == w.live[..i]
            && w'.h.chunks == w.h.chunks[..o.chunk + 1] && w'.h.objectBase == w'.h.nextFree == o.addr
            && w'.h.alignMask == w.h.alignMask && (w.h.maybeEmpty ==> w'.h.maybeEmpty)
  {
    StepFree(w, i);
    assert ObjectOk(w.h, w.live[i]);
    FreeObjectIs(w.h, w.live[i]);
  }

  lemma OlderChunk(h: Obstack, live: seq<Object>, i: nat)
    requires IsMask(h.alignMask) && Live(h, live) && i < |live|
    ensures forall j :: 0 <= j < i ==> live[j].chunk <= live[i].chunk
  {
    forall j | 0 <= j < i ensures live[j].chunk <= live[i].chunk {
      assert Before(live[j], live[i]);
    }
  }

  lemma FreePacked(w: World, i: nat)
    requires Inv(w) && Packed(w) && i < |w.live|
    ensures Packed(Step(w, OpFree(i)))
  {
    FreeStepIs(w, i);
    OlderChunk(w.h, w.live, i);
    TakePacked(w.h.chunks, w.h.alignMask, w.h.objectBase, w.live, i);
  }

  lemma FreeGrowingStepIs(w: World)
    requires Inv(w)
    ensures var w' := Step(w, OpFreeGrowing);
            && w'.live == w.live && w'.h.chunks == w.h.chunks && w'.h.alignMask == w.h.alignMask
            && w'.h.objectBase == w'.h.nextFree == w.h.objectBase
  {
    FreeAtBase(w.h);
  }

  lemma AppendPacked(w: World, op: Op)
    requires Inv(w) && OpOk(w, op) && Packed(w) && Appends(op)
    ensures Packed(Step(w, op))
  {
    AppendStepIs(w, op);
    StepAppends(w, op);
    MakeRoomPacked(w, Wanted(op), op.b);
  }

  lemma StepPacked(w: World, op: Op)
    requires Inv(w) && OpOk(w, op) && Packed(w)
    ensures Packed(Step(w, op))
  {
    match op
    case OpBlank(n, b) => MakeRoomPacked(w, n, b);
    case OpFinish => FinishPacked(w);
    case OpFree(i) => FreePacked(w, i);
    case OpFreeGrowing => FreeGrowingStepIs(w);
    case _ => AppendPacked(w, op);
  }

  /** From a packed obstack, such as a new one, every run leaves a packed obstack. */
  lemma {:induction false} RunPacked(w: World, ops: seq<Op>)
    requires Inv(w) && Admissible(w, ops) && Packed(w)
    ensures Packed(Exec(w, ops))
    decreases |ops|
  {
    if ops != [] {
      StepPacked(w, ops[0]);
      RunPacked(Step(w, ops[0]), ops[1..]);
    }
  }

  lemma BeginPacked(size: nat, alignment: nat, b: Block)
    requires IsMask(BeginMask(alignment)) && |b.data| == BeginSize(size) && Shape(Begin(size, alignment, b))
    ensures Inv(World(Begin(size, alignment, b), [])) && Packed(World(Begin(size, alignment, b), []))
  {
  }

  // ---------- obstack_empty_p ----------

  /** Empty objects take no room: what follows them starts where the first did. */
  lemma {:induction false} EmptyObjectsTakeNoRoom(chunks: seq<Chunk>, mask: nat, base: nat, live: seq<Object>, i: nat)
    requires PackedIn(chunks, mask, base, live) && |chunks| == 1 && i <= |live|
    requires First(chunks[0], mask) <= chunks[0].limit
    requires forall j :: 0 <= j < |live| ==> live[j].bytes == []
    ensures Start(chunks, mask, live[..i], 0) == First(chunks[0], mask)
  {
    if i > 0 {
      EmptyObjectsTakeNoRoom(chunks, mask, base, live, i - 1);
      assert PackedAt(chunks, mask, live, i - 1);
    }
  }

  /** It is true exactly when there is one chunk and no byte in it is in use. */
  lemma EmptyPExact(w: World)
    requires Inv(w) && Packed(w)
    ensures EmptyP(w.h) <==>
            |w.h.chunks| == 1 && Growing(w.h) == [] && forall i :: 0 <= i < |w.live| ==> w.live[i].bytes == []
  {
    if EmptyP(w.h) {
      forall i | 0 <= i < |w.live| ensures w.live[i].bytes == [] {
        assert ObjectOk(w.h, w.live[i]);
      }
    } else if |w.h.chunks| == 1 && forall i :: 0 <= i < |w.live| ==> w.live[i].bytes == [] {
      EmptyObjectsTakeNoRoom(w.h.chunks, w.h.alignMask, w.h.objectBase, w.live, |w.live|);
      assert w.live[..|w.live|] == w.live;
    }
  }

  /** Freeing the oldest object leaves an obstack that is reported empty exactly if it lay in the first chunk. */
  lemma FreeAllIsEmpty(w: World)
    requires Inv(w) && Packed(w) && w.live != []
    ensures EmptyP(Step(w, OpFree(0)).h) <==> w.live[0].chunk == 0
  {
    FreeStepIs(w, 0);
    FreePacked(w, 0);
    EmptyPExact(Step(w, OpFree(0)));
  }

  /** With the flag set, a new chunk is added to the chain. */
  lemma GrowKeepsFlagged(w: World, data: seq<Byte>, b: Block)
    requires Inv(w) && OpOk(w, OpGrow(data, b)) && w.h.maybeEmpty && w.h.nextFree + |data| > w.h.chunkLimit
    ensures var w' := Step(w, OpGrow(data, b)); w'.live == w.live && |w'.h.chunks| == |w.h.chunks| + 1
  {
    AppendStepIs(w, OpGrow(data, b));
    StepAppends(w, OpGrow(data, b));
  }

  /**
   An obstack with nothing in it need not be reported empty: after an empty object was finished
   and freed, growing beyond the chunk keeps the old chunk, because the flag is still set.
   */
  lemma EmptyPCanMiss(w: World, data: seq<Byte>, b: Block)
    requires Inv(w) && w.live == [] && Growing(w.h) == []
    requires var w2 := Step(Step(w, OpFinish), OpFree(0));
             OpOk(w2, OpGrow(data, b)) && w2.h.nextFree + |data| > w2.h.chunkLimit
    ensures var w4 := Step(Step(Step(Step(w, OpFinish), OpFree(0)), OpGrow(data, b)), OpFreeGrowing);
            w4.live == [] && Growing(w4.h) == [] && !EmptyP(w4.h)
  {
    var w1 := Step(w, OpFinish);
    FinishStepIs(w);
    FreeStepIs(w1, 0);
    var w2 := Step(w1, OpFree(0));
    GrowKeepsFlagged(w2, data, b);
    FreeGrowingStepIs(Step(w2, OpGrow(data, b)));
  }
}
