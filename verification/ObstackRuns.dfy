/**
 Whole runs of an obstack refine a plain stack of byte strings with one string being built
 on top of it, and finished objects keep their address and contents until they are freed.
 */
module ObstackRuns {
  import opened ObstackAlign
  import opened ByteMemory
  import opened ObstackModel
  import opened ObstackInvariant

  /** An operation, with the block the chunk allocation function would return if it is called. */
  datatype Op =
    | OpMakeRoom(length: int, b: Block)
    | OpGrow(data: seq<Byte>, b: Block)
    | OpGrow0(data: seq<Byte>, b: Block)
    | OpOneGrow(c: Byte, b: Block)
    | OpWordGrow(word: seq<Byte>, b: Block)   // obstack_ptr_grow and obstack_int_grow
    | OpBlank(length: int, b: Block)
    | OpFinish
    | OpFree(i: nat)   // obstack_free at the i-th finished object
    | OpFreeGrowing    // obstack_free at obstack_base

  /** The obstack together with the history of its finished objects, oldest first. */
  datatype World = World(h: Obstack, live: seq<Object>)

  ghost predicate Inv(w: World) {
    Shape(w.h) && Live(w.h, w.live)
  }

  ghost predicate OpOk(w: World, op: Op) {
    match op
    case OpMakeRoom(n, b) => BlockFor(w.h, n, b)
    case OpGrow(d, b) => BlockFor(w.h, |d|, b)
    case OpGrow0(d, b) => BlockFor(w.h, |d| + 1, b)
    case OpOneGrow(c, b) => BlockFor(w.h, 1, b)
    case OpWordGrow(d, b) => BlockFor(w.h, |d|, b)
    case OpBlank(n, b) => BlockFor(w.h, n, b) && w.h.nextFree + n >= w.h.objectBase
    case OpFinish => true
    case OpFree(i) => i < |w.live|
    case OpFreeGrowing => true
  }

  ghost function Step(w: World, op: Op): (w': World)
    requires Inv(w) && OpOk(w, op)
    ensures Inv(w')
  {
    StepKeeps(w, op);
    StepRaw(w, op)
  }

  ghost function StepRaw(w: World, op: Op): World
    requires Inv(w) && OpOk(w, op)
  {
    match op
    case OpMakeRoom(n, b) => w.(h := MakeRoom(w.h, n, b))
    case OpGrow(d, b) => w.(h := Grow(w.h, d, b))
    case OpGrow0(d, b) => w.(h := Grow0(w.h, d, b))
    case OpOneGrow(c, b) => w.(h := Grow(w.h, [c], b))
    case OpWordGrow(d, b) => w.(h := Grow(w.h, d, b))
    case OpBlank(n, b) => w.(h := Blank(w.h, n, b))
    case OpFinish => World(Finish(w.h), w.live + [Finished(w.h)])
    case OpFree(i) =>
      FreeKeeps(w.h, w.live, i);
      World(Free(w.h, w.live[i].addr).h, w.live[..i])
    case OpFreeGrowing =>
      FreeGrowingKeeps(w.h, w.live);
      w.(h := Free(w.h, w.h.objectBase).h)
  }

  lemma StepKeeps(w: World, op: Op)
    requires Inv(w) && OpOk(w, op)
    ensures Inv(StepRaw(w, op))
  {
    match op
    case OpMakeRoom(n, b) => MakeRoomKeeps(w.h, w.live, n, b);
    case OpGrow(d, b) => GrowKeeps(w.h, w.live, d, b);
    case OpGrow0(d, b) => Grow0Keeps(w.h, w.live, d, b);
    case OpOneGrow(c, b) => GrowKeeps(w.h, w.live, [c], b);
    case OpWordGrow(d, b) => GrowKeeps(w.h, w.live, d, b);
    case OpBlank(n, b) => BlankKeeps(w.h, w.live, n, b);
    case OpFinish => FinishKeeps(w.h, w.live);
    case OpFree(i) => FreeKeeps(w.h, w.live, i);
    case OpFreeGrowing => FreeGrowingKeeps(w.h, w.live);
  }

  // ---------- The abstract stack ----------

  datatype Stack = Stack(finished: seq<seq<Byte>>, growing: seq<Byte>)

  function Contents(live: seq<Object>): (s: seq<seq<Byte>>)
    ensures |s| == |live|
  {
    seq(|live|, i requires 0 <= i < |live| => live[i].bytes)
  }

  ghost function Abs(w: World): Stack
    requires Inv(w)
  {
    Stack(Contents(w.live), Growing(w.h))
  }

  /** What an operation does to a stack of byte strings. Blank space may hold anything. */
  ghost predicate AbsNext(a: Stack, op: Op, a': Stack) {
    match op
    case OpMakeRoom(_, _) => a' == a
    case OpGrow(d, _) => a' == a.(growing := a.growing + d)
    case OpGrow0(d, _) => a' == a.(growing := a.growing + d + [0])
    case OpOneGrow(c, _) => a' == a.(growing := a.growing + [c])
    case OpWordGrow(d, _) => a' == a.(growing := a.growing + d)
    case OpBlank(n, _) =>
      a'.finished == a.finished && |a'.growing| == |a.growing| + n && Agree(a'.growing, a.growing)
    case OpFinish => a' == Stack(a.finished + [a.growing], [])
    case OpFree(i) => i < |a.finished| && a' == Stack(a.finished[..i], [])
    case OpFreeGrowing => a' == a.(growing := [])
  }

  lemma FinishRefines(w: World)
    requires Inv(w)
    ensures AbsNext(Abs(w), OpFinish, Abs(Step(w, OpFinish)))
  {
    FinishKeeps(w.h, w.live);
    assert Contents(w.live + [Finished(w.h)]) == Contents(w.live) + [Growing(w.h)];
  }

  lemma StepFree(w: World, i: nat)
    requires Inv(w) && i < |w.live|
    ensures Free(w.h, w.live[i].addr) == Kept(Step(w, OpFree(i)).h)
    ensures Step(w, OpFree(i)).live == w.live[..i]
  {
    FreeKeeps(w.h, w.live, i);
    assert Step(w, OpFree(i)) == StepRaw(w, OpFree(i));
  }

  lemma FreeRefines(w: World, i: nat)
    requires Inv(w) && i < |w.live|
    ensures AbsNext(Abs(w), OpFree(i), Abs(Step(w, OpFree(i))))
  {
    FreeKeeps(w.h, w.live, i);
    assert Contents(w.live[..i]) == Contents(w.live)[..i];
  }

  lemma StepRefines(w: World, op: Op)
    requires Inv(w) && OpOk(w, op)
    ensures AbsNext(Abs(w), op, Abs(Step(w, op)))
  {
    match op
    case OpMakeRoom(n, b) => MakeRoomKeeps(w.h, w.live, n, b);
    case OpGrow(d, b) => GrowKeeps(w.h, w.live, d, b);
    case OpGrow0(d, b) => Grow0Keeps(w.h, w.live, d, b);
    case OpOneGrow(c, b) => GrowKeeps(w.h, w.live, [c], b);
    case OpWordGrow(d, b) => GrowKeeps(w.h, w.live, d, b);
    case OpBlank(n, b) => BlankKeeps(w.h, w.live, n, b);
    case OpFinish => FinishRefines(w);
    case OpFree(i) => FreeRefines(w, i);
    case OpFreeGrowing => FreeGrowingKeeps(w.h, w.live);
  }

  // ---------- Runs ----------

  /** Every operation of the run is used as the header asks when its turn comes. */
  ghost predicate Admissible(w: World, ops: seq<Op>)
    requires Inv(w)
    decreases |ops|
  {
    ops == [] || (OpOk(w, ops[0]) && Admissible(Step(w, ops[0]), ops[1..]))
  }

  ghost function Exec(w: World, ops: seq<Op>): (w': World)
    requires Inv(w) && Admissible(w, ops)
    ensures Inv(w')
    decreases |ops|
  {
    if ops == [] then w else Exec(Step(w, ops[0]), ops[1..])
  }

  ghost predicate AbsReaches(a: Stack, ops: seq<Op>, a': Stack)
    decreases |ops|
  {
    if ops == [] then a' == a
    else exists m :: AbsNext(a, ops[0], m) && AbsReaches(m, ops[1..], a')
  }

  /** Every run of the obstack is a run of the stack of byte strings. */
  lemma {:induction false} RunRefinesStack(w: World, ops: seq<Op>)
    requires Inv(w) && Admissible(w, ops)
    ensures AbsReaches(Abs(w), ops, Abs(Exec(w, ops)))
    decreases |ops|
  {
    if ops != [] {
      StepRefines(w, ops[0]);
      RunRefinesStack(Step(w, ops[0]), ops[1..]);
    }
  }

  ghost predicate Spares(op: Op, i: nat) {
    op.OpFree? ==> i < op.i
  }

  /** A finished object keeps its address and bytes through any run that frees neither it nor an older one. */
  lemma {:induction false} FinishedObjectsStay(w: World, ops: seq<Op>, i: nat)
    requires Inv(w) && Admissible(w, ops) && i < |w.live|
    requires forall k :: 0 <= k < |ops| ==> Spares(ops[k], i)
    ensures var w' := Exec(w, ops);
            && i < |w'.live| && w'.live[i] == w.live[i]
            && Mapped(w'.h.mem, w.live[i].addr, |w.live[i].bytes|)
            && Read(w'.h.mem, w.live[i].addr, |w.live[i].bytes|) == w.live[i].bytes
    decreases |ops|
  {
    if ops == [] {
      assert ObjectOk(w.h, w.live[i]);
    } else {
      assert Spares(ops[0], i);
      FinishedObjectsStay(Step(w, ops[0]), ops[1..], i);
    }
  }

  /** What an operation appends to the growing object. */
  function Piece(op: Op): seq<Byte> {
    match op
    case OpGrow(d, _) => d
    case OpGrow0(d, _) => d + [0]
    case OpOneGrow(c, _) => [c]
    case OpWordGrow(d, _) => d
    case _ => []
  }

  function Appended(ops: seq<Op>): seq<Byte>
    decreases |ops|
  {
    if ops == [] then [] else Piece(ops[0]) + Appended(ops[1..])
  }

  predicate Appends(op: Op) {
    op.OpGrow? || op.OpGrow0? || op.OpOneGrow? || op.OpWordGrow? || op.OpMakeRoom?
  }

  lemma StepAppends(w: World, op: Op)
    requires Inv(w) && OpOk(w, op) && Appends(op)
    ensures Step(w, op).live == w.live && Growing(Step(w, op).h) == Growing(w.h) + Piece(op)
  {
    StepRefines(w, op);
  }

  /** However often the object had to move, it is the concatenation of what was appended. */
  lemma {:induction false} GrowingIsConcatenation(w: World, ops: seq<Op>)
    requires Inv(w) && Admissible(w, ops)
    requires forall k :: 0 <= k < |ops| ==> Appends(ops[k])
    ensures var w' := Exec(w, ops); w'.live == w.live && Growing(w'.h) == Growing(w.h) + Appended(ops)
    decreases |ops|
  {
    if ops == [] {
      assert Growing(w.h) + [] == Growing(w.h);
    } else {
      StepAppends(w, ops[0]);
      GrowingIsConcatenation(Step(w, ops[0]), ops[1..]);
      ConcatAssociates(Growing(w.h), Piece(ops[0]), Appended(ops[1..]));
    }
  }

  lemma ConcatAssociates(a: seq<Byte>, b: seq<Byte>, c: seq<Byte>)
    ensures (a + b) + c == a + (b + c)
  {
  }

  // ---------- What growing costs ----------

  /** The room an appending operation asks for. */
  function Wanted(op: Op): int {
    match op
    case OpMakeRoom(n, _) => n
    case _ => |Piece(op)|
  }

  lemma AppendStepIs(w: World, op: Op)
    requires Inv(w) && OpOk(w, op) && Appends(op)
    ensures BlockFor(w.h, Wanted(op), op.b)
    ensures var h1 := MakeRoom(w.h, Wanted(op), op.b);
            var h' := Step(w, op).h;
            && h'.chunks == h1.chunks && h'.objectBase == h1.objectBase && h'.chunkLimit == h1.chunkLimit
            && h'.maybeEmpty == h1.maybeEmpty && h'.alignMask == h1.alignMask
  {
  }

  /** The growing object is the first of its chunk, and no empty object may lie there. */
  predicate Alone(h: Obstack)
    requires IsMask(h.alignMask) && h.chunks != []
  {
    !h.maybeEmpty && h.objectBase == First(h.chunks[|h.chunks| - 1], h.alignMask)
  }

  /** The chunks that stay when the growing object moves on. */
  function Older(h: Obstack): seq<Chunk>
    requires IsMask(h.alignMask) && h.chunks != []
  {
    if Alone(h) then h.chunks[..|h.chunks| - 1] else h.chunks
  }

  lemma NewChunkChain(h: Obstack, length: nat, b: Block)
    requires Shape(h) && GoodBlock(h, length, b)
    ensures var h' := NewChunk(h, length, b);
            && h'.chunks == Older(h) + [FreshChunk(b)] && h'.objectBase == First(FreshChunk(b), h.alignMask)
            && h'.chunkLimit == FreshChunk(b).limit && !h'.maybeEmpty
            && h'.chunkSize == h.chunkSize && h'.alignMask == h.alignMask
  {
  }

  /** The object stays where it is exactly as long as it fits; otherwise it moves and is alone in its chunk. */
  lemma MakeRoomChain(h: Obstack, length: int, b: Block)
    requires BlockFor(h, length, b)
    ensures var h' := MakeRoom(h, length, b);
            if h.nextFree + length <= h.chunkLimit then h' == h
            else h'.chunks == Older(h) + [FreshChunk(b)] && h'.alignMask == h.alignMask && Alone(h')
  {
    if h.nextFree + length > h.chunkLimit { NewChunkChain(h, length, b); }
  }

  /** `obstack_blank` moves only the end of an object that fits; any other also moves, alone, to a new chunk. */
  lemma BlankChain(h: Obstack, length: int, b: Block)
    requires BlockFor(h, length, b) && h.nextFree + length >= h.objectBase
    ensures var h' := Blank(h, length, b);
            if h.nextFree + length <= h.chunkLimit then h' == h.(nextFree := h.nextFree + length)
            else
              && h'.chunks == Older(h) + [FreshChunk(b)] && h'.alignMask == h.alignMask && Alone(h')
              && h'.nextFree == h'.objectBase + (h.nextFree - h.objectBase) + length
  {
    MakeRoomChain(h, length, b);
  }

  /** The chain is as it was, or ends in a chunk with the growing object alone, after the chunks that hold others. */
  ghost predicate GrewFrom(h: Obstack, h': Obstack)
    requires IsMask(h.alignMask) && h.chunks != []
  {
    && h'.alignMask == h.alignMask && h'.chunks != []
    && (|| (h'.chunks == h.chunks && h'.objectBase == h.objectBase && h'.maybeEmpty == h.maybeEmpty)
        || (Alone(h') && h'.chunks[..|h'.chunks| - 1] == Older(h)))
  }

  lemma AppendStepChain(w: World, op: Op)
    requires Inv(w) && OpOk(w, op) && Appends(op)
    ensures GrewFrom(w.h, Step(w, op).h)
  {
    AppendStepIs(w, op);
    MakeRoomChain(w.h, Wanted(op), op.b);
    assert (Older(w.h) + [FreshChunk(op.b)])[..|Older(w.h)|] == Older(w.h);
  }

  lemma GrewTwice(h: Obstack, h': Obstack, h'': Obstack)
    requires IsMask(h.alignMask) && h.chunks != [] && GrewFrom(h, h') && GrewFrom(h', h'')
    ensures GrewFrom(h, h'')
  {
    assert Older(h') == Older(h);
  }

  /** However large the object grows and however often it moves, it takes at most one chunk more. */
  lemma {:induction false} GrowingChain(w: World, ops: seq<Op>)
    requires Inv(w) && Admissible(w, ops)
    requires forall k :: 0 <= k < |ops| ==> Appends(ops[k])
    ensures GrewFrom(w.h, Exec(w, ops).h)
    decreases |ops|
  {
    if ops != [] {
      AppendStepChain(w, ops[0]);
      GrowingChain(Step(w, ops[0]), ops[1..]);
      GrewTwice(w.h, Step(w, ops[0]).h, Exec(w, ops).h);
    }
  }

  lemma GrewAlone(h: Obstack, h': Obstack)
    requires IsMask(h.alignMask) && h.chunks != [] && GrewFrom(h, h') && Alone(h)
    ensures Alone(h') && |h'.chunks| == |h.chunks| && h'.chunks[..|h.chunks| - 1] == h.chunks[..|h.chunks| - 1]
  {
  }

  /** An object that is alone in its chunk never occupies a second one. */
  lemma GrowingAloneReplacesChunk(w: World, ops: seq<Op>)
    requires Inv(w) && Admissible(w, ops)
    requires !w.h.maybeEmpty && w.h.objectBase == First(w.h.chunks[|w.h.chunks| - 1], w.h.alignMask)
    requires forall k :: 0 <= k < |ops| ==> Appends(ops[k])
    ensures Alone(Exec(w, ops).h) && |Exec(w, ops).h.chunks| == |w.h.chunks|
    ensures Exec(w, ops).h.chunks[..|w.h.chunks| - 1] == w.h.chunks[..|w.h.chunks| - 1]
  {
    GrowingChain(w, ops);
    GrewAlone(w.h, Exec(w, ops).h);
  }

  // ---------- The parameters of an obstack ----------

  /**
   The new chunk has the size of the object, the request, an eighth of the object and some slack,
   but at least the chunk size; it follows the chunks that hold other objects and is marked as
   holding no empty object.
   */
  lemma NewChunkSize(h: Obstack, length: nat, b: Block)
    requires Shape(h) && GoodBlock(h, length, b)
    ensures var h', size := NewChunk(h, length, b), h.nextFree - h.objectBase;
            var wanted := size + length + size / 8 + h.alignMask + 100;
            var bytes := if wanted < h.chunkSize then h.chunkSize else wanted;
            && h'.chunks == Older(h) + [FreshChunk(b)] && FreshChunk(b) == Chunk(b.addr, b.addr + bytes)
            && h'.chunkLimit == b.addr + bytes && !h'.maybeEmpty
            && h'.chunkSize == h.chunkSize && h'.alignMask == h.alignMask
  {
    NewChunkChain(h, length, b);
  }

  lemma FreeKeepsParameters(h: Obstack, o: Object)
    requires Shape(h) && ObjectOk(h, o)
    ensures var r := Free(h, o.addr); r.Kept? && r.h.chunkSize == h.chunkSize && r.h.alignMask == h.alignMask
  {
    FreeInChunk(h, o.addr, o.chunk);
    PopToParameters(h, o.addr);
  }

  lemma {:induction false} PopToParameters(h: Obstack, obj: int)
    ensures PopTo(h, obj).chunkSize == h.chunkSize && PopTo(h, obj).alignMask == h.alignMask
    decreases |h.chunks|
  {
    if h.chunks != [] && !Holds(Last(h), obj) { PopToParameters(Pop(h), obj); }
  }

  lemma StepKeepsParameters(w: World, op: Op)
    requires Inv(w) && OpOk(w, op)
    ensures var w' := Step(w, op); w'.h.chunkSize == w.h.chunkSize && w'.h.alignMask == w.h.alignMask
  {
    if op.OpFree? {
      StepFree(w, op.i);
      assert ObjectOk(w.h, w.live[op.i]);
      FreeKeepsParameters(w.h, w.live[op.i]);
    } else if op.OpFreeGrowing? {
      FreeAtBase(w.h);
    }
  }

  /** No operation changes the chunk size or the alignment. */
  lemma {:induction false} RunKeepsParameters(w: World, ops: seq<Op>)
    requires Inv(w) && Admissible(w, ops)
    ensures var w' := Exec(w, ops); w'.h.chunkSize == w.h.chunkSize && w'.h.alignMask == w.h.alignMask
    decreases |ops|
  {
    if ops != [] {
      StepKeepsParameters(w, ops[0]);
      RunKeepsParameters(Step(w, ops[0]), ops[1..]);
    }
  }

  /** Whatever is asked for, there is a block with which the operation can go on. */
  lemma RoomCanBeMade(h: Obstack, length: int) returns (b: Block)
    requires Shape(h)
    ensures BlockFor(h, length, b)
  {
    if h.nextFree + length > h.chunkLimit {
      var top := AboveChunks(h.chunks);
      b := Block(top, seq(NewSize(h, length), _ => 0 as Byte));
    } else {
      b := Block(0, []);
    }
  }

  lemma AboveChunks(chunks: seq<Chunk>) returns (top: nat)
    ensures forall i :: 0 <= i < |chunks| ==> chunks[i].limit <= top
  {
    if chunks == [] {
      top := 0;
    } else {
      var t := AboveChunks(chunks[1..]);
      top := if t < chunks[0].limit then chunks[0].limit else t;
      forall i | 0 <= i < |chunks| ensures chunks[i].limit <= top {
        if i > 0 { assert chunks[i] == chunks[1..][i - 1]; }
      }
    }
  }

  /** Bytes copied by `_obstack_newchunk` when the operation is executed. */
  function CopiedBy(h: Obstack, op: Op): int {
    if h.nextFree + Wanted(op) > h.chunkLimit then h.nextFree - h.objectBase else 0
  }

  ghost function Copied(w: World, ops: seq<Op>): int
    requires Inv(w) && Admissible(w, ops)
    decreases |ops|
  {
    if ops == [] then 0 else CopiedBy(w.h, ops[0]) + Copied(Step(w, ops[0]), ops[1..])
  }

  /** A new chunk never starts its first object where the object was. */
  lemma NewChunkMoves(h: Obstack, length: nat, b: Block)
    requires Shape(h) && GoodBlock(h, length, b)
    ensures NewChunk(h, length, b).objectBase != h.objectBase
  {
    NewChunkChain(h, length, b);
    MovedMapped(h, length, b);
    assert Apart(Last(h), b.addr, |b.data|);
  }

  /** What is copied is the whole growing object, whenever its address changes. */
  lemma CopiedIsWhatMoves(w: World, op: Op)
    requires Inv(w) && OpOk(w, op) && Appends(op)
    ensures CopiedBy(w.h, op) == if Step(w, op).h.objectBase != w.h.objectBase then |Growing(w.h)| else 0
  {
    AppendStepIs(w, op);
    if w.h.nextFree + Wanted(op) > w.h.chunkLimit { NewChunkMoves(w.h, Wanted(op), op.b); }
  }

  /** The eighth added to the size of a new chunk pays for the next copy. */
  lemma CopyIsPaidFor(w: World, op: Op)
    requires Inv(w) && OpOk(w, op) && Appends(op)
    ensures var h, h' := w.h, Step(w, op).h;
            && CopiedBy(h, op) <= 8 * Capacity(h') - 8 * Capacity(h)
            && (CopiedBy(h, op) > 0 ==> Capacity(h) < h.nextFree - h.objectBase + Wanted(op))
  {
    AppendStepIs(w, op);
    if w.h.nextFree + Wanted(op) > w.h.chunkLimit {
      NewChunkPays(w.h, Wanted(op), op.b);
    }
  }

  /** The room from the start of the growing object to the end of the chunk. */
  function Capacity(h: Obstack): int {
    h.chunkLimit - h.objectBase
  }

  lemma NewChunkRoom(h: Obstack, length: nat, b: Block)
    requires Shape(h) && GoodBlock(h, length, b)
    ensures var size := h.nextFree - h.objectBase;
            Capacity(NewChunk(h, length, b)) >= size + length + size / 8 + 84
  {
  }

  lemma NewChunkPays(h: Obstack, length: nat, b: Block)
    requires Shape(h) && GoodBlock(h, length, b) && h.nextFree + length > h.chunkLimit
    ensures h.nextFree - h.objectBase <= 8 * Capacity(NewChunk(h, length, b)) - 8 * Capacity(h)
  {
    NewChunkRoom(h, length, b);
    EighthPays(h.nextFree - h.objectBase, length, Capacity(h), Capacity(NewChunk(h, length, b)));
  }

  lemma EighthPays(size: nat, length: int, before: int, after: int)
    requires size + length > before && after >= size + length + size / 8 + 84
    ensures size <= 8 * after - 8 * before
  {
  }

  /** The potential argument: `paid` copies so far, covered by the capacity and by the size of the object. */
  lemma {:induction false} CopyingAmortised(w: World, ops: seq<Op>, paid: nat)
    requires Inv(w) && Admissible(w, ops)
    requires forall k :: 0 <= k < |ops| ==> Appends(ops[k]) && !ops[k].OpMakeRoom?
    requires paid <= 8 * Capacity(w.h) && paid <= 9 * |Growing(w.h)|
    ensures paid + Copied(w, ops) <= 9 * |Growing(Exec(w, ops).h)|
    decreases |ops|
  {
    if ops != [] {
      CopyIsPaidFor(w, ops[0]);
      StepAppends(w, ops[0]);
      assert CopiedBy(w.h, ops[0]) >= 0;
      CopyingAmortised(Step(w, ops[0]), ops[1..], paid + CopiedBy(w.h, ops[0]));
    }
  }

  /** Growing an object piece by piece copies at most nine times its final size, however small the pieces. */
  lemma CopyingIsLinear(w: World, ops: seq<Op>)
    requires Inv(w) && Admissible(w, ops)
    requires forall k :: 0 <= k < |ops| ==> Appends(ops[k]) && !ops[k].OpMakeRoom?
    ensures Copied(w, ops) <= 9 * |Growing(Exec(w, ops).h)|
  {
    CopyingAmortised(w, ops, 0);
  }

  // ---------- Finished addresses ----------

  /** Only the object being built moves: finishing returns the address at which the object stays. */
  lemma FinishReturnsAddress(w: World, ops: seq<Op>)
    requires Inv(w) && Admissible(Step(w, OpFinish), ops)
    requires forall k :: 0 <= k < |ops| ==> Spares(ops[k], |w.live|)
    ensures var w' := Exec(Step(w, OpFinish), ops);
            && Mapped(w'.h.mem, w.h.objectBase, |Growing(w.h)|)
            && Read(w'.h.mem, w.h.objectBase, |Growing(w.h)|) == Growing(w.h)
  {
    FinishedObjectsStay(Step(w, OpFinish), ops, |w.live|);
  }

  // ---------- Room made once ----------

  /** `obstack_1grow_fast` for each byte. */
  function FastGrow(h: Obstack, data: seq<Byte>): Obstack
    requires Shape(h) && h.nextFree + |data| <= h.chunkLimit
    decreases |data|
  {
    if data == [] then h
    else
      FastGrowShape(h, data[0]);
      FastGrow(Append(h, [data[0]]), data[1..])
  }

  lemma FastGrowShape(h: Obstack, c: Byte)
    requires Shape(h) && h.nextFree + 1 <= h.chunkLimit
    ensures Shape(Append(h, [c]))
  {
    assert Live(h, []);
    AppendKeeps(h, [], [c]);
  }

  lemma {:induction false} FastGrowIsAppend(h: Obstack, data: seq<Byte>)
    requires Shape(h) && h.nextFree + |data| <= h.chunkLimit
    ensures FastGrow(h, data) == Append(h, data)
    decreases |data|
  {
    CurrentMapped(h, h.nextFree, |data|);
    if data == [] {
      assert Write(h.mem, h.nextFree, []) == h.mem;
    } else {
      FastGrowShape(h, data[0]);
      FastGrowIsAppend(Append(h, [data[0]]), data[1..]);
      AppendTwice(h, [data[0]], data[1..]);
      assert data == [data[0]] + data[1..];
    }
  }

  lemma AppendTwice(h: Obstack, d: seq<Byte>, e: seq<Byte>)
    requires Shape(h) && h.nextFree + |d| + |e| <= h.chunkLimit
    ensures Shape(Append(h, d)) && Append(Append(h, d), e) == Append(h, d + e)
  {
    assert Live(h, []);
    AppendKeeps(h, [], d);
    CurrentMapped(h, h.nextFree, |d| + |e|);
    WriteTwice(h.mem, h.nextFree, d, e);
  }

  /** `obstack_make_room (h, n)` and then n times `obstack_1grow_fast` is one `obstack_grow`. */
  lemma MakeRoomThenFastGrow(h: Obstack, data: seq<Byte>, b: Block)
    requires BlockFor(h, |data|, b)
    ensures var h1 := MakeRoom(h, |data|, b);
            && Shape(h1) && h1.nextFree + |data| <= h1.chunkLimit
            && FastGrow(h1, data) == Grow(h, data, b)
  {
    MakeRoomShape(h, |data|, b);
    FastGrowIsAppend(MakeRoom(h, |data|, b), data);
  }
}
