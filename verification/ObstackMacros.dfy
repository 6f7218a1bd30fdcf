/**
 The macros as code that updates a control block in place: the GNU statement expressions,
 the portable comma expressions with their `temp` slot, and the functions of obstack.c they
 call. Both sets of macros are proved against the same functions of the model.
 */
module ObstackMacros {
  import Bits
  import opened ObstackAlign
  import opened ByteMemory
  import opened ObstackModel
  import opened ObstackInvariant
  import opened ObstackRuns
  import opened ObstackBegin

  class ControlBlock {
    var chunkSize: int
    var chunks: seq<Chunk>
    var objectBase: nat
    var nextFree: nat
    var chunkLimit: nat
    var temp: int
    var alignMask: nat
    var maybeEmpty: bool
    var mem: Memory

    /** Everything but `temp`. */
    function View(): Obstack
      reads this
    {
      Obstack(chunkSize, chunks, objectBase, nextFree, chunkLimit, alignMask, maybeEmpty, mem)
    }

    // ---------- obstack.c ----------

    /** `_obstack_begin`; `b` is what the chunk allocation function returned. */
    constructor (size: nat, alignment: nat, b: Block)
      requires IsAlignment(alignment) && |b.data| == if size == 0 then 4064 else size
      ensures IsMask(BeginMask(alignment)) && |b.data| == BeginSize(size) && View() == Begin(size, alignment, b)
      ensures alignMask + 1 == if alignment == 0 then 16 else alignment
      ensures chunkSize == |b.data| && chunks == [Chunk(b.addr, b.addr + |b.data|)] && !maybeEmpty
    {
      BeginSetsUp(size, alignment, b);
      var align := if alignment == 0 then DEFAULT_ALIGNMENT else alignment;
      var chunkBytes := if size == 0 then 4096 - RoundUp(RoundUp(12) + 4) else size;
      var chunk := Chunk(b.addr, b.addr + chunkBytes);
      chunkSize := chunkBytes;
      alignMask := align - 1;
      chunks := [chunk];
      nextFree := AlignUp(chunk.start + HEADER, align - 1);
      objectBase := AlignUp(chunk.start + HEADER, align - 1);
      chunkLimit := chunk.limit;
      mem := Map(map[], b.addr, b.data);
      maybeEmpty := false;
      temp := 0;
    }

    /** One `COPYING_UNIT`, an `int` of four bytes. */
    method CopyUnit(ghost m: Memory, dst: nat, src: nat, offset: nat, ghost from: nat, ghost n: nat)
      requires (dst + offset) % 4 == 0 && (src + offset) % 4 == 0
      requires CopiedAbove(m, mem, dst, src, from, n) && (dst + n <= src || src + n <= dst) && offset + 4 == from
      modifies this`mem
      ensures CopiedAbove(m, mem, dst, src, offset, n)
    {
      CopyBelow(m, mem, dst, src, offset, 4, n);
      mem := Write(mem, dst + offset, Read(mem, src + offset, 4));
    }

    /** Whole units, from the top down, at addresses aligned for them. */
    method CopyUnits(dst: nat, src: nat, units: nat)
      requires units > 0 ==> dst % 4 == 0 && src % 4 == 0
      requires Mapped(mem, dst, 4 * units) && Mapped(mem, src, 4 * units)
      requires dst + 4 * units <= src || src + 4 * units <= dst
      modifies this`mem
      ensures CopiedAbove(old(mem), mem, dst, src, 0, 4 * units)
    {
      var i := units - 1;
      ghost var n := 4 * units;
      ghost var from := n;
      NothingCopied(mem, dst, src, n);
      while i >= 0
        invariant -1 <= i < units && from == 4 * (i + 1)
        invariant CopiedAbove(old(mem), mem, dst, src, from, n)
      {
        CopyUnit(old(mem), dst, src, 4 * i, from, n);
        from := 4 * i;
        i := i - 1;
      }
    }

    method CopyByte(ghost m: Memory, dst: nat, src: nat, i: nat, ghost n: nat)
      requires CopiedAbove(m, mem, dst, src, 0, i) && i < n && (dst + n <= src || src + n <= dst)
      requires Mapped(m, src, n) && Mapped(m, dst, n)
      modifies this`mem
      ensures CopiedAbove(m, mem, dst, src, 0, i + 1)
    {
      CopyAbove(m, mem, dst, src, i);
      mem := Write(mem, dst + i, [mem[src + i]]);
    }

    /** The copy loops of `_obstack_newchunk`: units if the object is aligned for them, then single bytes. */
    method CopyObject(dst: nat, src: nat, n: nat)
      requires CopyAllowed(mem, alignMask, dst, src, n)
      modifies this`mem
      ensures mem == CopyWithin(old(mem), dst, src, n)
    {
      var i := 0;
      NothingCopied(mem, dst, src, i);
      if alignMask + 1 >= DEFAULT_ALIGNMENT {
        var units := n / 4;
        CopyUnits(dst, src, units);
        i := 4 * units;
      }
      while i < n
        invariant i <= n
        invariant CopiedAbove(old(mem), mem, dst, src, 0, i)
      {
        CopyByte(old(mem), dst, src, i, n);
        i := i + 1;
      }
      AllCopied(old(mem), mem, dst, src, n);
    }

    method ChunkSizeFor(length: nat) returns (newSize: int)
      requires objectBase <= nextFree
      ensures newSize == NewSize(View(), length)
    {
      var objSize := nextFree - objectBase;
      newSize := (objSize + length) + objSize / 8 + alignMask + 100;
      if newSize < chunkSize {
        newSize := chunkSize;
      }
    }

    /** Where the new chunk ends and where its first object starts. */
    method PlaceChunk(length: nat, b: Block) returns (newChunk: Chunk, base: nat)
      requires objectBase <= nextFree && IsMask(alignMask) && |b.data| == NewSize(View(), length)
      ensures newChunk == FreshChunk(b) && base == First(newChunk, alignMask)
    {
      var newSize := ChunkSizeFor(length);
      newChunk := Chunk(b.addr, b.addr + newSize);
      base := First(newChunk, alignMask);
    }

    /** The block joins the memory and `n` bytes are copied into it. */
    method CopyIntoBlock(b: Block, dst: nat, src: nat, n: nat)
      requires CopyAllowed(Map(mem, b.addr, b.data), alignMask, dst, src, n)
      modifies this`mem
      ensures mem == CopyWithin(Map(old(mem), b.addr, b.data), dst, src, n)
    {
      mem := Map(mem, b.addr, b.data);
      CopyObject(dst, src, n);
    }

    /** The growing object moves to the new block; `h` is the obstack before that. */
    method MoveObject(ghost h: Obstack, ghost length: nat, b: Block, base: nat)
      requires Shape(h) && GoodBlock(h, length, b) && base == First(FreshChunk(b), h.alignMask)
      requires mem == h.mem && objectBase == h.objectBase && nextFree == h.nextFree && alignMask == h.alignMask
      modifies this`mem
      ensures mem == Moved(h, length, b)
    {
      MoveAllowed(h, length, b);
      CopyIntoBlock(b, base, objectBase, nextFree - objectBase);
    }

    /** Its end: the old chunk leaves the chain if the moved object was all it held. */
    method LinkChunk(newChunk: Chunk)
      requires chunks != [] && IsMask(alignMask)
      modifies this`chunks, this`mem
      ensures chunks == Chain(old(chunks), old(Replaces(View())), newChunk)
      ensures mem == Remaining(old(mem), old(Replaces(View())), old(Last(View())))
    {
      var k := |chunks| - 1;
      var oldChunk := chunks[k];
      if !maybeEmpty && objectBase == First(oldChunk, alignMask) {
        chunks := chunks[..k] + [newChunk];
        mem := Unmap(mem, oldChunk.start, oldChunk.limit - oldChunk.start);
      } else {
        chunks := chunks + [newChunk];
      }
    }

    /** From the copy to the end of the function. */
    method SwitchChunk(newChunk: Chunk, base: nat)
      requires chunks != [] && IsMask(alignMask) && objectBase <= nextFree
      modifies this
      ensures View() == Rebased(old(View()), newChunk, base, Replaces(old(View())), old(mem))
      ensures temp == old(temp)
    {
      var objSize := nextFree - objectBase;
      LinkChunk(newChunk);
      chunkLimit := newChunk.limit;
      objectBase := base;
      nextFree := base + objSize;
      maybeEmpty := false;
    }

    method NewChunk(length: nat, b: Block)
      requires Shape(View()) && GoodBlock(View(), length, b)
      modifies this
      ensures View() == ObstackModel.NewChunk(old(View()), length, b)
      ensures temp == old(temp)
    {
      ghost var h := View();
      var newChunk, base := PlaceChunk(length, b);
      MoveObject(h, length, b, base);
      assert Replaces(View()) == Replaces(h);
      SwitchChunk(newChunk, base);
    }

    /** The function `obstack_free`; the result tells whether it aborted. */
    method FreeFunction(obj: nat) returns (aborted: bool)
      modifies this
      ensures temp == old(temp)
      ensures match FreeSlow(old(View()), obj)
              case Kept(h) => !aborted && View() == h
              case Emptied(m) => !aborted && chunks == [] && mem == m
              case Aborted => aborted
    {
      while chunks != [] && (chunks[|chunks| - 1].start >= obj || chunks[|chunks| - 1].limit < obj)
        invariant PopTo(View(), obj) == PopTo(old(View()), obj)
        invariant temp == old(temp)
        decreases |chunks|
      {
        var c := chunks[|chunks| - 1];
        chunks := chunks[..|chunks| - 1];
        mem := Unmap(mem, c.start, c.limit - c.start);
        maybeEmpty := true;
      }
      aborted := false;
      if chunks != [] {
        objectBase, nextFree := obj, obj;
        chunkLimit := chunks[|chunks| - 1].limit;
      } else if obj != 0 {
        aborted := true;
      }
    }

    /** The loop of `_obstack_memory_used`, which sums into an `int`. */
    method SumSizes() returns (nbytes: int)
      ensures nbytes == ToInt(ObstackModel.MemoryUsed(chunks))
    {
      nbytes := 0;
      var k := |chunks|;
      ghost var above := 0;
      assert chunks[..k] == chunks;
      while k > 0
        invariant 0 <= k <= |chunks| && nbytes == ToInt(above)
        invariant above + ObstackModel.MemoryUsed(chunks[..k]) == ObstackModel.MemoryUsed(chunks)
      {
        k := k - 1;
        UsedStep(chunks, k);
        IntAdd(above, chunks[k].limit - chunks[k].start);
        above := above + (chunks[k].limit - chunks[k].start);
        nbytes := ToInt(nbytes + (chunks[k].limit - chunks[k].start));
      }
    }

    /** `_obstack_memory_used`: the bytes in use exactly when they fit in an `int`. */
    method MemoryUsed() returns (nbytes: int)
      requires Shape(View())
      ensures IsInt(nbytes) && (nbytes - |mem|) % 0x1_0000_0000 == 0
      ensures nbytes == |mem| <==> IsInt(|mem|)
    {
      nbytes := SumSizes();
      MemoryUsedExact(View());
      IntExact(|mem|);
    }

    /** `obstack_1grow_fast`. */
    method OneGrowFast(c: Byte)
      requires Shape(View()) && nextFree + 1 <= chunkLimit
      modifies this
      ensures View() == Append(old(View()), [c]) && temp == old(temp)
    {
      CurrentMapped(View(), nextFree, 1);
      mem := Write(mem, nextFree, [c]);
      nextFree := nextFree + 1;
    }

    /** `memcpy` to `nextFree`, and the advance that follows it. */
    method CopyIn(data: seq<Byte>, len: int)
      requires Shape(View()) && len == |data| && nextFree + len <= chunkLimit
      modifies this
      ensures View() == Append(old(View()), data) && temp == old(temp)
    {
      CurrentMapped(View(), nextFree, len);
      mem := Write(mem, nextFree, data);
      nextFree := nextFree + len;
    }

    /** The same with the terminating zero of `obstack_grow0`. */
    method CopyIn0(data: seq<Byte>, len: int)
      requires Shape(View()) && len == |data| && nextFree + len + 1 <= chunkLimit
      modifies this
      ensures View() == Append(old(View()), data + [0]) && temp == old(temp)
    {
      AppendTwice(View(), data, [0]);
      CopyIn(data, len);
      OneGrowFast(0);
    }

    /** `obstack_blank_fast`. */
    method BlankFastStep(len: int)
      requires nextFree + len >= 0
      modifies this
      ensures View() == BlankFast(old(View()), len) && temp == old(temp)
    {
      nextFree := nextFree + len;
    }

    // ---------- GNU C macros ----------

    method GnuMakeRoom(length: int, b: Block)
      requires BlockFor(View(), length, b) && IsInt(length)
      modifies this
      ensures View() == MakeRoom(old(View()), length, b)
    {
      var len := length;
      if chunkLimit - nextFree < len {
        NewChunk(len, b);
      }
    }

    method GnuGrow(data: seq<Byte>, b: Block)
      requires BlockFor(View(), |data|, b) && IsInt(|data|)
      modifies this
      ensures View() == Grow(old(View()), data, b)
    {
      MakeRoomShape(View(), |data|, b);
      var len := |data|;
      if nextFree + len > chunkLimit {
        NewChunk(len, b);
      }
      CopyIn(data, len);
    }

    method GnuGrow0(data: seq<Byte>, b: Block)
      requires BlockFor(View(), |data| + 1, b) && IsInt(|data| + 1)
      modifies this
      ensures View() == Grow0(old(View()), data, b)
    {
      MakeRoomShape(View(), |data| + 1, b);
      var len := |data|;
      if nextFree + len + 1 > chunkLimit {
        NewChunk(len + 1, b);
      }
      CopyIn0(data, len);
    }

    method GnuOneGrow(c: Byte, b: Block)
      requires BlockFor(View(), 1, b)
      modifies this
      ensures View() == Grow(old(View()), [c], b)
    {
      MakeRoomShape(View(), 1, b);
      if nextFree + 1 > chunkLimit {
        NewChunk(1, b);
      }
      OneGrowFast(c);
    }

    /** `obstack_int_grow` and `obstack_ptr_grow`, which store and then advance. */
    method GnuWordGrow(word: seq<Byte>, b: Block)
      requires BlockFor(View(), |word|, b) && IsInt(|word|)
      modifies this
      ensures View() == Grow(old(View()), word, b)
    {
      MakeRoomShape(View(), |word|, b);
      if nextFree + |word| > chunkLimit {
        NewChunk(|word|, b);
      }
      CopyIn(word, |word|);
    }

    method GnuBlank(length: int, b: Block)
      requires BlockFor(View(), length, b) && nextFree + length >= objectBase && IsInt(length)
      modifies this
      ensures View() == Blank(old(View()), length, b)
    {
      MakeRoomShape(View(), length, b);
      var len := length;
      if chunkLimit - nextFree < len {
        NewChunk(len, b);
      }
      BlankFastStep(len);
    }

    method GnuFinish() returns (value: nat)
      requires Shape(View())
      modifies this
      ensures View() == Finish(old(View())) && value == old(objectBase)
    {
      value := objectBase;
      if nextFree == value {
        maybeEmpty := true;
      }
      nextFree := AlignUp(nextFree, alignMask);
      var chunk := chunks[|chunks| - 1].start;
      if nextFree - chunk > chunkLimit - chunk {
        nextFree := chunkLimit;
      }
      objectBase := nextFree;
    }

    method GnuFree(obj: nat) returns (aborted: bool)
      requires chunks != []
      modifies this
      ensures match Free(old(View()), obj)
              case Kept(h) => !aborted && View() == h
              case Emptied(m) => !aborted && chunks == [] && mem == m
              case Aborted => aborted
    {
      var chunk := chunks[|chunks| - 1].start;
      if obj > chunk && obj < chunkLimit {
        nextFree, objectBase := obj, obj;
        aborted := false;
      } else {
        aborted := FreeFunction(obj);
      }
    }

    // ---------- Portable macros ----------

    method PortableMakeRoom(length: int, b: Block)
      requires BlockFor(View(), length, b) && IsInt(length)
      modifies this
      ensures View() == MakeRoom(old(View()), length, b)
    {
      temp := length;
      assert View() == old(View());
      if nextFree + temp > chunkLimit {
        NewChunk(temp, b);
      }
    }

    method PortableGrow(data: seq<Byte>, b: Block)
      requires BlockFor(View(), |data|, b) && IsInt(|data|)
      modifies this
      ensures View() == Grow(old(View()), data, b)
    {
      temp := |data|;
      assert View() == old(View());
      MakeRoomShape(View(), |data|, b);
      if nextFree + temp > chunkLimit {
        NewChunk(temp, b);
      }
      CopyIn(data, temp);
    }

    method PortableGrow0(data: seq<Byte>, b: Block)
      requires BlockFor(View(), |data| + 1, b) && IsInt(|data| + 1)
      modifies this
      ensures View() == Grow0(old(View()), data, b)
    {
      temp := |data|;
      assert View() == old(View());
      MakeRoomShape(View(), |data| + 1, b);
      if nextFree + temp + 1 > chunkLimit {
        NewChunk(temp + 1, b);
      }
      CopyIn0(data, temp);
    }

    method PortableOneGrow(c: Byte, b: Block)
      requires BlockFor(View(), 1, b)
      modifies this
      ensures View() == Grow(old(View()), [c], b)
    {
      MakeRoomShape(View(), 1, b);
      if nextFree + 1 > chunkLimit {
        NewChunk(1, b);
      }
      OneGrowFast(c);
    }

    /** `obstack_int_grow_fast` and `obstack_ptr_grow_fast`: advance, then store at index -1. */
    method PortableWordGrowFast(word: seq<Byte>)
      requires Shape(View()) && nextFree + |word| <= chunkLimit
      modifies this
      ensures View() == Append(old(View()), word) && temp == old(temp)
    {
      CurrentMapped(View(), nextFree, |word|);
      nextFree := nextFree + |word|;
      mem := Write(mem, nextFree - |word|, word);
    }

    method PortableWordGrow(word: seq<Byte>, b: Block)
      requires BlockFor(View(), |word|, b) && IsInt(|word|)
      modifies this
      ensures View() == Grow(old(View()), word, b)
    {
      MakeRoomShape(View(), |word|, b);
      if nextFree + |word| > chunkLimit {
        NewChunk(|word|, b);
      }
      PortableWordGrowFast(word);
    }

    method PortableBlank(length: int, b: Block)
      requires BlockFor(View(), length, b) && nextFree + length >= objectBase && IsInt(length)
      modifies this
      ensures View() == Blank(old(View()), length, b)
    {
      temp := length;
      assert View() == old(View());
      MakeRoomShape(View(), length, b);
      if chunkLimit - nextFree < temp {
        NewChunk(temp, b);
      }
      BlankFastStep(temp);
    }

    method PortableFinish() returns (value: int)
      requires Shape(View())
      modifies this
      ensures View() == Finish(old(View())) && value == old(objectBase)
    {
      if nextFree == objectBase {
        maybeEmpty := true;
      }
      temp := objectBase;
      nextFree := AlignUp(nextFree, alignMask);
      var chunk := chunks[|chunks| - 1].start;
      if nextFree - chunk > chunkLimit - chunk {
        nextFree := chunkLimit;
      }
      objectBase := nextFree;
      value := temp;
    }

    method PortableFree(obj: nat) returns (aborted: bool)
      requires chunks != []
      modifies this
      ensures match Free(old(View()), obj)
              case Kept(h) => !aborted && View() == h
              case Emptied(m) => !aborted && chunks == [] && mem == m
              case Aborted => aborted
    {
      var chunk := chunks[|chunks| - 1].start;
      temp := obj - chunk;
      if temp > 0 && temp < chunkLimit - chunk {
        objectBase := temp + chunk;
        nextFree := objectBase;
        aborted := false;
      } else {
        aborted := FreeFunction(temp + chunk);
      }
    }

    // ---------- The two sets of macros agree on every sequence of operations ----------

    /** A client of the GNU macros that remembers the addresses `obstack_finish` returned. */
    method GnuStep(ghost w: World, addrs: seq<nat>, op: Op) returns (addrs': seq<nat>)
      requires Inv(w) && View() == w.h && addrs == Addresses(w.live)
      requires OpOk(w, op) && IntLength(op)
      modifies this
      ensures View() == Step(w, op).h && addrs' == Addresses(Step(w, op).live)
    {
      addrs' := addrs;
      match op {
        case OpMakeRoom(n, b) => GnuMakeRoom(n, b);
        case OpGrow(d, b) => GnuGrow(d, b);
        case OpGrow0(d, b) => GnuGrow0(d, b);
        case OpOneGrow(c, b) => GnuOneGrow(c, b);
        case OpWordGrow(d, b) => GnuWordGrow(d, b);
        case OpBlank(n, b) => GnuBlank(n, b);
        case OpFinish =>
          var value := GnuFinish();
          addrs' := addrs + [value];
        case OpFree(i) =>
          StepFree(w, i);
          AddressesTake(w.live, i);
          var _ := GnuFree(addrs[i]);
          addrs' := addrs[..i];
        case OpFreeGrowing =>
          StepFreeGrowing(w);
          var _ := GnuFree(objectBase);
      }
    }

    method RunGnu(ghost w: World, addrs: seq<nat>, ops: seq<Op>) returns (addrs': seq<nat>)
      requires Inv(w) && View() == w.h && addrs == Addresses(w.live)
      requires Admissible(w, ops) && forall k :: 0 <= k < |ops| ==> IntLength(ops[k])
      modifies this
      ensures View() == Exec(w, ops).h && addrs' == Addresses(Exec(w, ops).live)
      decreases |ops|
    {
      if ops == [] {
        addrs' := addrs;
      } else {
        addrs' := GnuStep(w, addrs, ops[0]);
        addrs' := RunGnu(Step(w, ops[0]), addrs', ops[1..]);
      }
    }

    /** The same client, compiled with the portable macros. */
    method PortableStep(ghost w: World, addrs: seq<nat>, op: Op) returns (addrs': seq<nat>)
      requires Inv(w) && View() == w.h && addrs == Addresses(w.live)
      requires OpOk(w, op) && IntLength(op)
      modifies this
      ensures View() == Step(w, op).h && addrs' == Addresses(Step(w, op).live)
    {
      addrs' := addrs;
      match op {
        case OpMakeRoom(n, b) => PortableMakeRoom(n, b);
        case OpGrow(d, b) => PortableGrow(d, b);
        case OpGrow0(d, b) => PortableGrow0(d, b);
        case OpOneGrow(c, b) => PortableOneGrow(c, b);
        case OpWordGrow(d, b) => PortableWordGrow(d, b);
        case OpBlank(n, b) => PortableBlank(n, b);
        case OpFinish =>
          var value := PortableFinish();
          addrs' := addrs + [value];
        case OpFree(i) =>
          StepFree(w, i);
          AddressesTake(w.live, i);
          var _ := PortableFree(addrs[i]);
          addrs' := addrs[..i];
        case OpFreeGrowing =>
          StepFreeGrowing(w);
          var _ := PortableFree(objectBase);
      }
    }

    method RunPortable(ghost w: World, addrs: seq<nat>, ops: seq<Op>) returns (addrs': seq<nat>)
      requires Inv(w) && View() == w.h && addrs == Addresses(w.live)
      requires Admissible(w, ops) && forall k :: 0 <= k < |ops| ==> IntLength(ops[k])
      modifies this
      ensures View() == Exec(w, ops).h && addrs' == Addresses(Exec(w, ops).live)
      decreases |ops|
    {
      if ops == [] {
        addrs' := addrs;
      } else {
        addrs' := PortableStep(w, addrs, ops[0]);
        addrs' := RunPortable(Step(w, ops[0]), addrs', ops[1..]);
      }
    }
  }

  function Addresses(live: seq<Object>): seq<nat> {
    seq(|live|, i requires 0 <= i < |live| => live[i].addr)
  }

  lemma AddressesTake(live: seq<Object>, i: nat)
    requires i <= |live|
    ensures Addresses(live[..i]) == Addresses(live)[..i]
  {
  }

  lemma StepFreeGrowing(w: World)
    requires Inv(w)
    ensures Free(w.h, w.h.objectBase) == Kept(Step(w, OpFreeGrowing).h)
  {
    FreeGrowingKeeps(w.h, w.live);
  }

  /** The lengths that reach the macros fit in an `int`. */
  predicate IntLength(op: Op) {
    match op
    case OpMakeRoom(n, _) => IsInt(n)
    case OpGrow(d, _) => IsInt(|d|)
    case OpGrow0(d, _) => IsInt(|d| + 1)
    case OpWordGrow(d, _) => IsInt(|d|)
    case OpBlank(n, _) => IsInt(n)
    case _ => true
  }

  // ---------- Sums in an int ----------

  lemma UsedStep(chunks: seq<Chunk>, k: nat)
    requires k < |chunks|
    ensures ObstackModel.MemoryUsed(chunks[..k + 1])
            == ObstackModel.MemoryUsed(chunks[..k]) + (chunks[k].limit - chunks[k].start)
  {
    assert chunks[..k + 1][..k] == chunks[..k];
  }

  lemma IntAdd(x: int, y: int)
    ensures ToInt(ToInt(x) + y) == ToInt(x + y)
  {
    Bits.ModAdd(x + 0x8000_0000, y, 0x1_0000_0000);
  }

  lemma IntExact(x: int)
    ensures (ToInt(x) - x) % 0x1_0000_0000 == 0
    ensures ToInt(x) == x <==> IsInt(x)
  {
    Bits.ModIsRemainder(x + 0x8000_0000, 0x1_0000_0000);
  }

  // ---------- The copy loops ----------

  /** `mem` is `m` with bytes [from, to) of the source copied to the destination. */
  ghost predicate CopiedAbove(m: Memory, mem: Memory, dst: nat, src: nat, from: nat, to: nat) {
    && from <= to
    && Mapped(m, src, to) && Mapped(m, dst, to)
    && mem.Keys == m.Keys
    && forall x {:trigger mem[x]} :: x in m ==> mem[x] == m[if dst + from <= x < dst + to then src + (x - dst) else x]
  }

  lemma AllCopied(m: Memory, mem: Memory, dst: nat, src: nat, n: nat)
    requires CopiedAbove(m, mem, dst, src, 0, n)
    ensures mem == CopyWithin(m, dst, src, n)
  {
    var copied, data := CopyWithin(m, dst, src, n), Read(m, src, n);
    forall x | x in m ensures mem[x] == copied[x] {
      if dst <= x < dst + n { assert copied[x] == data[x - dst]; }
    }
    assert copied.Keys == mem.Keys;
  }

  /** Once the block is mapped, source and destination are, and they do not overlap. */
  /** Source and destination are mapped and apart, and aligned if whole units are to be copied. */
  ghost predicate CopyAllowed(m: Memory, mask: nat, dst: nat, src: nat, n: nat) {
    && Mapped(m, dst, n) && Mapped(m, src, n) && (dst + n <= src || src + n <= dst)
    && (n > 0 && mask + 1 >= DEFAULT_ALIGNMENT ==> dst % 4 == 0 && src % 4 == 0)
  }

  /** An object worth copying is aligned, and so is the place it goes to. */
  lemma UnitsAligned(h: Obstack, c: Chunk)
    requires Shape(h) && h.nextFree > h.objectBase && h.alignMask + 1 >= DEFAULT_ALIGNMENT
    ensures First(c, h.alignMask) % 4 == 0 && h.objectBase % 4 == 0
  {
    AlignedForUnits(First(c, h.alignMask), h.alignMask);
    AlignedForUnits(h.objectBase, h.alignMask);
  }

  lemma BlockAllowsCopy(m: Memory, b: Block, mask: nat, dst: nat, src: nat, n: nat)
    requires Mapped(m, src, n) && (src + n <= b.addr || b.addr + |b.data| <= src)
    requires b.addr <= dst && dst + n <= b.addr + |b.data|
    requires n > 0 && mask + 1 >= DEFAULT_ALIGNMENT ==> dst % 4 == 0 && src % 4 == 0
    ensures CopyAllowed(Map(m, b.addr, b.data), mask, dst, src, n)
  {
  }

  lemma MoveAllowed(h: Obstack, length: nat, b: Block)
    requires Shape(h) && GoodBlock(h, length, b)
    ensures CopyAllowed(Map(h.mem, b.addr, b.data), h.alignMask, First(FreshChunk(b), h.alignMask),
                        h.objectBase, ObjectSize(h))
  {
    MovePlaces(h, length, b);
    if ObjectSize(h) > 0 && h.alignMask + 1 >= DEFAULT_ALIGNMENT { UnitsAligned(h, FreshChunk(b)); }
    BlockAllowsCopy(h.mem, b, h.alignMask, First(FreshChunk(b), h.alignMask), h.objectBase, ObjectSize(h));
  }

  lemma NothingCopied(m: Memory, dst: nat, src: nat, n: nat)
    requires Mapped(m, dst, n) && Mapped(m, src, n)
    ensures CopiedAbove(m, m, dst, src, n, n)
  {
  }

  lemma CopyBelow(m: Memory, mem: Memory, dst: nat, src: nat, from: nat, n: nat, to: nat)
    requires CopiedAbove(m, mem, dst, src, from + n, to) && (dst + to <= src || src + to <= dst)
    ensures Mapped(mem, src + from, n) && Mapped(mem, dst + from, n)
    ensures CopiedAbove(m, Write(mem, dst + from, Read(mem, src + from, n)), dst, src, from, to)
  {
  }

  lemma CopyAbove(m: Memory, mem: Memory, dst: nat, src: nat, i: nat)
    requires CopiedAbove(m, mem, dst, src, 0, i) && (dst + i < src || src + i < dst)
    requires Mapped(m, src, i + 1) && Mapped(m, dst, i + 1)
    ensures src + i in mem && Mapped(mem, dst + i, 1)
    ensures CopiedAbove(m, Write(mem, dst + i, [mem[src + i]]), dst, src, 0, i + 1)
  {
  }
}
