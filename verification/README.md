# Verified core of the uClibc headers

A Dafny model, with proofs, of the four places where the uClibc headers hold real algorithms:

- **Atomics** (`include/atomic.h`). Every read-modify-write macro is a load / compute /
  compare-and-exchange / retry loop. `AtomicOps` holds what one turn computes and the sequential
  operation it should be (fetch-and-modify and compare-exchange, sections 7.17.7.4 and 7.17.7.5 of
  ISO/IEC 9899:2011). `AtomicMachine` lets any number of threads interleave their loads and
  compare-and-exchanges on one word of any width from two bits, signed or unsigned. `AtomicHistory`
  ties what the threads of the machine remember to the events of the trace. `AtomicLinearizability`,
  `AtomicProgress`, `AtomicCounting` and `AtomicRefCount` prove what holds over every run.
  `AtomicMacros` is the loop as code, with other threads interfering between any two of its accesses.
- **Object stacks** (`include/obstack.h` with `libc/misc/gnu/obstack.c`). `ObstackModel` gives each
  macro and function as a function on the control block, the chunk chain and a byte-addressed
  memory in which only bytes of live chunks exist. `ObstackInvariant` and `ObstackRuns` prove that
  every run behaves as a stack of byte strings, `ObstackBegin` what a new obstack is and when it is well formed, and
  `ObstackLayout` where in the chunks the objects of a run lie. `ObstackMacros` holds the GNU macros, the portable
  macros and the functions of obstack.c as methods that update a control block in place.
- **Float probe** (`docs/probe_math_exception.c`). `FloatFormat` is binary floating point with any
  precision and exponent range, rounding to nearest with ties to even (section 4.3.1 of
  IEEE 754-2008) and overflowing to infinity (section 7.4). `FloatProbe` is the search loop.
- **Pattern reader** (`include/regexp.h`). `RegexpReader` is the part of `compile` that places the
  `regex_t` and reads the pattern into a buffer that grows on the stack, wherever `alloca` puts
  each block.

`Bits` and `ByteMemory` hold the bitwise operators and the memory that the others share.
`dafny verify dfyconfig.toml` checks everything.

## How to read the results

- In the atomics, a *trace* is a sequence of invocations, loads, compare-and-exchanges and returns.
  The *log* of a trace lists the calls that have taken effect, in order. `Linearizable` says that the
  log is a linearization, and `QuiescentLogIsReturned` that the log is exactly the completed calls
  when nobody is inside a macro; results about the log are results about calls through these two.
- In the obstack, a `World` is the obstack and the history of its finished objects. The history is
  bookkeeping: no operation reads it except to name the object to free.
- The chunk allocation function, `alloca` and the other threads are the environment. They appear as
  parameters or nondeterministic choices, and the results hold for everything they may do.

## Where the code and its comments differ

- `atomic_increment_and_test` is described as true if and only if the word is now zero. On an
  unsigned type narrower than `int` it never is, because the addition happens in `int`.
  `IncrementAndTestMissesWrap` gives the case and `IncrementAndTestExact` the exact condition.
- The comment above `atomic_or` promises the old value; the macro is a statement without a value,
  and is modelled so.
- `compile` aligns the expression buffer to the next boundary after `expbuf` even when `expbuf` is
  aligned already, and so refuses some buffers that are large enough. `PlaceIsFirstFit` states what it
  does, `PlaceRefusesExactFit` gives a refused buffer and `PlaceRefusesFit` the exact condition.
- `_obstack_begin` does not check that the requested size holds the chunk header. `BeginTooSmall` gives
  a size that is too small, and `BeginWellFormed` the sizes that suffice wherever the block lies.
- `_obstack_memory_used` adds into an `int`. `ControlBlock.MemoryUsed` is exact if and only if the total
  is an `int`.
- `obstack_empty_p` can be false of an obstack with nothing in it, because an older chunk was kept.
  `EmptyPCanMiss` gives the runs and `EmptyPExact` the exact condition.

## Model

| member | source | states |
|---|---|---|
| AtomicOps.ValueIsTwosComplement | include/atomic.h:251-265 | the number a word is compared as: an unsigned word is itself, a signed one the number from -2^(w-1) to 2^(w-1) - 1 congruent to it modulo 2^w |
| AtomicOps.BoundsAttained | include/atomic.h:251-281 | the lowest and highest value bound the value of every word, and each is the value of some word |
| AtomicOps.EffectMeetsSpec | include/atomic.h:180-523 | one undisturbed turn of every macro is the sequential operation: arithmetic maximum and minimum, addition modulo 2^w, decrement of positive values only, bit by bit and/or, compare-exchange |
| AtomicOps.SpecIsDeterministic | include/atomic.h:180-523 | the sequential operations leave exactly one new word and one result |
| AtomicLinearizability.InvHolds | include/atomic.h:128-523 | in every reachable state the word and every logged result are those of replaying the log, each open call is logged exactly if its thread has left the loop, and each return matches a log entry made during the call |
| AtomicLinearizability.Linearizable | include/atomic.h:128-523 | every interleaving of any number of threads and any mix of macros has a sequential order, respecting real time, with each completed call exactly once and returning what the sequential operations return, ending in the actual memory; early exits take effect at their load |
| AtomicHistory.IdleCanInvoke | include/atomic.h:87-523 | in every reachable state a thread outside the macros can call each of them with any words and any bit of the word |
| AtomicHistory.OneNextEvent | include/atomic.h:186-217 | in every reachable state a thread inside a macro can take exactly one step |
| AtomicHistory.SoloReturns | include/atomic.h:186-217 | from every reachable state such a thread, run alone, returns within four of its steps, and needs the fourth exactly when its load is stale and the present word does not end the loop |
| AtomicHistory.CallOnTrace | include/atomic.h:211-217 | the failure count and first value of a call in progress are the number of its exchanges in the trace that found another word than its last load, and the word at its first load |
| AtomicProgress.FailuresOnTrace | include/atomic.h:126-142 | the failures counted are the compare-and-exchanges of the trace that found another word than the last load of their call |
| AtomicProgress.LockFree | include/atomic.h:134-140 | with n threads, failed compare-and-exchanges number at most n - 1 per step that changed the word |
| AtomicProgress.FailuresAmortised | include/atomic.h:186-217 | the same with the threads that are bound to fail next already paid for |
| AtomicProgress.SomeCallCompletes | include/atomic.h:186-217 | loads and exchanges are at most 2n per call that took effect plus n, so a long run always completes calls |
| AtomicProgress.RetriesBoundedByRank | include/atomic.h:251-523 | where every change lowers a rank, the exchanges of a call that fail in the trace are at most the rank of the word at its first load |
| AtomicProgress.MaxRetries | include/atomic.h:251-265 | with only atomic_max, the failed exchanges of a call in the trace are at most its operand minus the word at its first load |
| AtomicProgress.BitSetRetries | include/atomic.h:409-523 | with only or and bit-set operations, the failed exchanges of a call in the trace are at most the bits that were clear at its first load |
| AtomicCounting.QuiescentLogIsReturned | include/atomic.h:180-523 | when no thread is inside a macro, every logged call has returned its logged result |
| AtomicCounting.AdditionConserves | include/atomic.h:200-221 | the word is the initial value plus all committed operands modulo 2^w |
| AtomicCounting.Tickets | include/atomic.h:304-332 | each completed increment returns initial value plus its position modulo 2^w; up to 2^w of them return distinct values |
| AtomicCounting.TicketsContiguous | include/atomic.h:304-332 | once all returned, every value of that block was returned by some call and the word is the next one |
| AtomicCounting.DecrementIfPositiveBalance | include/atomic.h:369-386 | a nonnegative counter that no increment takes past its highest value stays nonnegative, and value plus successful decrements equals initial value plus increments |
| AtomicCounting.DecrementIfPositiveExact | include/atomic.h:369-386 | with decrements only, exactly min(v, n) of n calls get a positive value |
| AtomicCounting.DecrementIfPositiveReturns | include/atomic.h:369-386 | once all returned, exactly min(v, n) of the n completed calls returned a positive value |
| AtomicCounting.WinnerIsFirst | include/atomic.h:409-423 | a call sees its bit clear if and only if it was clear at the start and no earlier call targeted it |
| AtomicCounting.TestAndSetUnique | include/atomic.h:403-423 | an initially clear bit has exactly one winner once targeted, a set bit none, and untargeted bits keep their value |
| AtomicCounting.TestAndSetReturns | include/atomic.h:403-423 | once all returned, exactly one completed call on an initially clear bit returned zero if there was any, none on a set bit, and the bit is set exactly if it was or a call was on it |
| AtomicCounting.MaxOfAll | include/atomic.h:251-265 | with only atomic_max the word is the maximum of the initial value and all operands in effect |
| AtomicCounting.MaxOfReturned | include/atomic.h:251-265 | once all returned, the word is the maximum of the initial value and the operands of the completed calls |
| AtomicRefCount.LastDecrementSeenOnce | include/atomic.h:315-366 | whichever threads call: if no call takes effect on zero and no increment on the last word, decrement_and_test is true for exactly the call that leaves zero, and it is the last to take effect |
| AtomicRefCount.LastReferenceSeenOnce | include/atomic.h:315-366 | if every call uses a reference nobody else is using, wherever it was obtained, and no increment takes effect on the last word, the word counts the references free or in use and the same holds |
| AtomicRefCount.OwnedMeansPositive | include/atomic.h:315-366 | while a reference is free the count is positive and nobody has seen the last one go |
| AtomicRefCount.LastReferenceReturned | include/atomic.h:362-366 | when all references are dropped and all calls returned, exactly one decrement_and_test returned true |
| AtomicMacros.SharedWord.CompareAndExchange | include/atomic.h:87-94 | store if equal, return the old value |
| AtomicMacros.SharedWord.CompareAndExchangeFails | include/atomic.h:126-142 | built from the value form: true exactly if nothing was stored |
| AtomicMacros.SharedWord.FetchModify | include/atomic.h:180-523 | the retry loop, with any finite interference before each exchange and before each load, takes effect on the word its last load saw, by the sequential specification, and every earlier turn failed because the word had changed |
| AtomicMacros.DecrementAndTestIsZeroTest | include/atomic.h:362-366 | true if and only if the word is now zero, for every width and signedness |
| AtomicMacros.IncrementAndTestMissesWrap | include/atomic.h:335-339 | an 8-bit unsigned 255 wraps to zero and is not reported |
| AtomicMacros.IncrementAndTestExact | include/atomic.h:335-339 | true if and only if now zero, on every word, exactly when the type is signed or not narrower than int |
| AtomicMacros.PromotedValueExact | include/atomic.h:325-359 | increment_val and decrement_val return the stored value exactly when the type is not narrower than int or did not wrap |
| Bits.AndNotBit | include/obstack.h:128-128 | the arithmetic form of `x & ~y` has bit i exactly when x has it and y has not |
| ObstackAlign.BptrAlignLeast | include/obstack.h:124-128 | the least address at or above P whose offset from B is a multiple of A + 1 |
| ObstackAlign.BptrAlignMonotone | include/obstack.h:124-128 | alignment is monotone |
| ObstackAlign.BptrAlignIdempotent | include/obstack.h:124-128 | alignment is idempotent |
| ObstackAlign.BptrAlignBaseAgnostic | include/obstack.h:130-139 | relative to an aligned base it agrees with alignment relative to zero |
| ObstackModel.NewChunkShape | libc/misc/gnu/obstack.c:260-324 | the new chunk has room for the object and the request, chunks stay disjoint, memory is exactly that of the chain, and object_base is aligned |
| ObstackBegin.BeginWellFormed | libc/misc/gnu/obstack.c:159-204 | for every size and every power of two as alignment, with 4064 and 16 for zero, the new obstack is well formed whatever block the allocator returns if and only if size >= 16 + alignment - 1 |
| ObstackBegin.BeginSetsUp | libc/misc/gnu/obstack.c:166-200 | mask plus one is the alignment asked for, the chunk and the chunk size are exactly the size asked for, and the first object starts at the first multiple of the alignment after the header |
| ObstackBegin.RunAligned | include/obstack.h:382-395 | in every run of a new obstack each nonempty finished object lies at a multiple of the alignment given to it |
| ObstackBegin.FirstObjectKeepsOneChunk | libc/misc/gnu/obstack.c:308-318 | the first object of a new obstack may grow to any size and the obstack still has one chunk |
| ObstackBegin.InitWellFormed | libc/misc/gnu/obstack.c:159-204 | with size and alignment zero, as obstack_init asks, it always is, and it is empty |
| ObstackBegin.BeginTooSmall | libc/misc/gnu/obstack.c:173-196 | a size of 30 with alignment 16 and a block at address 1 gives a malformed obstack |
| ObstackInvariant.LiveDisjoint | include/obstack.h:28-33 | no two finished objects overlap |
| ObstackInvariant.LiveApartFromGrowing | include/obstack.h:28-33 | no finished object overlaps the growing one or the room left for it |
| ObstackInvariant.NonemptyAligned | include/obstack.h:382-395 | every nonempty finished object starts aligned, although finish may clamp to an unaligned limit |
| ObstackInvariant.FlagIsSound | include/obstack.h:170-173 | when the current chunk is given back, no finished object lies in it, not even an empty one |
| ObstackLayout.BeginPacked | libc/misc/gnu/obstack.c:191-198 | a well-formed new obstack has its growing object at the start of its chunk and no finished one, the layout that runs keep |
| ObstackLayout.FinishIs | include/obstack.h:382-395 | finish moves the base to the next aligned place, or to the limit if that is nearer, and sets the empty-object flag exactly if the object is empty or it was set |
| ObstackLayout.RunPacked | include/obstack.h:382-403 | from such a state every run leads to states in which each object starts at the first aligned place after its predecessor in the chunk, clamped to the limit, or at the start of the chunk |
| ObstackLayout.EmptyPExact | include/obstack.h:284-290 | in such a state obstack_empty_p is true if and only if there is one chunk, nothing is growing and every finished object is empty |
| ObstackLayout.FreeAllIsEmpty | include/obstack.h:284-290 | after freeing the oldest object it is true if and only if that object lay in the first chunk |
| ObstackLayout.EmptyPCanMiss | include/obstack.h:284-290 | finishing and freeing an empty object, growing past the chunk and freeing that leaves nothing, and obstack_empty_p is false |
| ObstackInvariant.NewChunkKeeps | libc/misc/gnu/obstack.c:254-324 | moving to a new chunk keeps all finished objects and the contents of the growing one |
| ObstackInvariant.GrowKeeps | include/obstack.h:292-300 | the data is appended and everything else kept |
| ObstackInvariant.Grow0Keeps | include/obstack.h:302-311 | the data and a zero are appended and everything else kept |
| ObstackInvariant.BlankKeeps | include/obstack.h:353-360 | the size changes by the length, also a negative one, and the common part and all finished objects are kept |
| ObstackInvariant.FinishKeeps | include/obstack.h:382-395 | the growing object becomes the newest finished one where it lies, and an empty one is started above it |
| ObstackInvariant.FreeInChunk | libc/misc/gnu/obstack.c:358-386 | an address in chunk c leaves exactly the chunks up to c, their bytes unchanged, and sets the flag exactly if the chunk changed |
| ObstackInvariant.FreeKeeps | include/obstack.h:397-403 | freeing a finished object frees it and everything newer, across chunks, and nothing older |
| ObstackInvariant.FreeGrowingKeeps | include/obstack.h:397-403 | freeing at obstack_base discards only the growing object |
| ObstackInvariant.FreeOutcome | libc/misc/gnu/obstack.c:353-386 | it aborts exactly for a nonzero address in no chunk, and for zero gives all memory back |
| ObstackInvariant.MemoryUsedExact | libc/misc/gnu/obstack.c:394-405 | the sizes of the chunks add up to the number of bytes obtained and not given back |
| ObstackMacros.ControlBlock.MemoryUsed | libc/misc/gnu/obstack.c:394-405 | the loop returns the int congruent to that number modulo 2^32, the number itself exactly if it is an int |
| ObstackRuns.RunRefinesStack | include/obstack.h:28-33 | every run is a run of a plain stack of byte strings with one string growing on top |
| ObstackRuns.FinishedObjectsStay | include/obstack.h:72-77 | a finished object keeps its address and bytes through any run that frees neither it nor an older one |
| ObstackRuns.FinishReturnsAddress | include/obstack.h:382-395 | the address finish returns holds the object's bytes from then on, until it is freed |
| ObstackRuns.GrowingIsConcatenation | include/obstack.h:79-82 | across any number of chunk moves the growing object is the concatenation of what was appended |
| ObstackRuns.NewChunkSize | libc/misc/gnu/obstack.c:271-323 | the new chunk has exactly max(chunk_size, size + length + size/8 + mask + 100) bytes and follows the chunks that hold other objects, the empty-object flag is clear, and chunk size and mask stay |
| ObstackRuns.RoomCanBeMade | libc/misc/gnu/obstack.c:271-278 | for every request there is a block with which it can be met |
| ObstackRuns.RunKeepsParameters | include/obstack.h:150-162 | no run changes the chunk size or the alignment |
| ObstackRuns.BlankChain | include/obstack.h:353-360 | blank, also with a negative length, changes only next_free if the object fits; otherwise the object moves to a chunk of its own |
| ObstackRuns.GrowingChain | libc/misc/gnu/obstack.c:308-323 | however often the growing object moves, the chain is unchanged or is the chunks with other objects and one chunk with this object alone |
| ObstackRuns.GrowingAloneReplacesChunk | libc/misc/gnu/obstack.c:308-318 | if the flag is clear and the object starts its chunk, even the only one, appending keeps the number of chunks and all older chunks, however often it moves |
| ObstackRuns.CopiedIsWhatMoves | libc/misc/gnu/obstack.c:288-306 | an appending operation copies the whole growing object exactly when its address changes, and nothing otherwise |
| ObstackRuns.CopyingIsLinear | libc/misc/gnu/obstack.c:271-282 | growing an object in any number of pieces copies at most nine times its final size, because each new chunk is an eighth larger than needed |
| ObstackRuns.MakeRoomThenFastGrow | include/obstack.h:247-300 | make_room(n) and n times 1grow_fast is one grow |
| ObstackMacros.ControlBlock.constructor | libc/misc/gnu/obstack.c:159-204 | the control block has the mask of the alignment given and one chunk of the size given, or the defaults 16 and 4064 for zero |
| ObstackMacros.ControlBlock.CopyObject | libc/misc/gnu/obstack.c:288-306 | units at aligned addresses, from the top down, and then single bytes copy the whole object and touch nothing else |
| ObstackMacros.ControlBlock.NewChunk | libc/misc/gnu/obstack.c:260-324 | the function as code gives the state of the model |
| ObstackMacros.ControlBlock.FreeFunction | libc/misc/gnu/obstack.c:358-386 | the chunk-popping loop gives the state of the model, empties or aborts |
| ObstackMacros.ControlBlock.GnuFinish | include/obstack.h:382-395 | GNU finish gives the state of the model and returns the old object_base |
| ObstackMacros.ControlBlock.PortableFinish | include/obstack.h:481-493 | portable finish gives the same state and value through the temp slot |
| ObstackMacros.ControlBlock.GnuFree | include/obstack.h:397-403 | GNU free tries the current chunk, then the function |
| ObstackMacros.ControlBlock.PortableFree | include/obstack.h:495-501 | portable free does the same through an offset in temp |
| ObstackMacros.ControlBlock.GnuWordGrow | include/obstack.h:325-351 | ptr_grow and int_grow, storing before advancing, append the word |
| ObstackMacros.ControlBlock.PortableWordGrow | include/obstack.h:450-464 | the portable forms, advancing before storing, append the same word |
| ObstackMacros.ControlBlock.RunGnu | include/obstack.h:253-403 | any sequence of GNU macros with int lengths reaches the state and returns the addresses of the model run |
| ObstackMacros.ControlBlock.RunPortable | include/obstack.h:405-503 | the same sequence of portable macros reaches the same state and returns the same addresses |
| FloatFormat.RoundIsNearest | docs/probe_math_exception.c:19-19 | a rounded sum is a finite number of the format and none is nearer |
| FloatFormat.RoundTiesToEven | docs/probe_math_exception.c:19-19 | of two equally near numbers the even one is the sum |
| FloatFormat.OverflowThreshold | docs/probe_math_exception.c:19-23 | a sum is infinite exactly from half a last place above the largest number on |
| FloatFormat.MaxFiniteIsLargest | docs/probe_math_exception.c:17-30 | no finite number exceeds (2 - 2^(1-p)) * 2^emax |
| FloatFormat.AddIsCorrectlyRounded | docs/probe_math_exception.c:19-30 | a sum of finite numbers overflows exactly from half a last place above the largest on, and otherwise is the nearest finite number, the even one of two equally near |
| FloatFormat.DoubleIsExact | docs/probe_math_exception.c:25-25 | twice a finite number is exact, or infinite exactly if it exceeds the largest |
| FloatFormat.HalveIsNearest | docs/probe_math_exception.c:28-28 | half of a finite number is finite, none is nearer to the exact half, and of two equally near it is the even one |
| FloatProbe.FillingStep | docs/probe_math_exception.c:18-29 | what adding a power of two gives in every state the search can be in after doubling |
| FloatProbe.Turn | docs/probe_math_exception.c:18-29 | each turn leads to the next state of the search, with small a finite power of two, or is the last |
| FloatProbe.Probe | docs/probe_math_exception.c:13-30 | for every precision from 1 and emax from 2 the loop ends after exactly emax + 3p turns with the largest finite number, and its double is infinite |
| RegexpReader.PlaceIsFirstFit | include/regexp.h:114-136 | the regex_t goes to the first aligned address after expbuf and the rest is left for the pattern; error 50 exactly if none fits |
| RegexpReader.PlaceRefusesExactFit | include/regexp.h:125-130 | a buffer from 8 to 72 is refused for a regex_t of 64 bytes that would fill it exactly |
| RegexpReader.PlaceRefusesFit | include/regexp.h:125-130 | an aligned buffer that is large enough gets error 50 exactly when fewer than eight bytes are to spare |
| RegexpReader.Frame.GrowBuffer | include/regexp.h:146-165 | below, above or apart, the new block leaves a larger buffer with the same characters; copies never overlap; bytes taken stay within twice the buffer |
| RegexpReader.ToCharKeeps | include/regexp.h:166-166 | storing an int as a char keeps it modulo 256, and a byte as it is |
| RegexpReader.Frame.ReadPattern | include/regexp.h:138-171 | regcomp gets exactly the characters before the first eof, NUL or newline, each byte as it is and other ints modulo 256, and a NUL; only a NUL or newline is pushed back, and n characters take at most max(128, 4n) bytes of stack |
| RegexpReader.RegcompSeesWholePattern | include/regexp.h:140-174 | the C string in such a buffer is the whole pattern exactly when no character is a multiple of 256 |

## Left out

- Memory ordering, barriers and inline assembly of atomic.h: the model is sequentially consistent.
- The `catomic_` macros, the `_rel` variants and the C11-style aliases of atomic.h: by default they expand to the modelled code.
- `atomic_add_negative`, `atomic_add_zero` and the size dispatch of atomic.h: one-line expressions over a modelled result.
- AtomicMacros.SharedWord.FetchModify: interference ends after finitely many turns, so that the loop terminates; unbounded interference is what the state machine covers.
- Wrap-around of addresses and of `long` in the obstack: addresses and sizes are unbounded integers.
- The `prev` pointers of chunks: the chain is a sequence, so their storage in the chunk header is not modelled.
- The data given to `obstack_grow` is a value: a source that lies inside the obstack itself is not modelled.
- `obstack_alignment_mask` as an lvalue: the mask does not change after `_obstack_begin`.
- Failure of the chunk allocation function: its handler does not return.
- `_obstack_begin_1`, which differs by an extra argument, `_obstack_allocated_p`, which repeats the test of `obstack_free`, and `obstack_printf`.
- ObstackMacros.ControlBlock.constructor: the constants are those of LP64, a 16-byte header, 16-byte default alignment and 4-byte int.
- Negative numbers, NaN and excess precision in the probe: it only meets nonnegative floats, and each sum is taken to be rounded once.
- The exception flags and printing of the probe, and the error translation and `regcomp` call of `compile`.
- The pattern source must contain an end marker: without one `compile` does not return.
- The rest of uClibc: most headers are declarations, and the other library sources are outside this model.
