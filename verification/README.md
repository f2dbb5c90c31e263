# HotSpot SPARC back end and serviceability agent: a Dafny model

The project models the parts of HotSpot's SPARC back end (the C1 code generator,
its assembler, its runtime stubs) and of the native serviceability agent whose
correctness spans several functions, a whole state machine or every input of an
emitted machine routine. `dafny verify dfyconfig.toml` checks all of it.

| file | models |
|---|---|
| `ThinLock.dfy` | `lock_object` / `unlock_object` as interleaved atomic steps of any number of threads |
| `Lir.dfy` | LIR operations, `is_single_instruction`, and what each emitter assembles |
| `Peephole.dfy`, `DelayedBlocks.dfy` | the delay-slot peephole in place on a list, and what code means with and without delay slots |
| `DelaySlots.dfy` | the assembler's delay-slot automaton and the emission of a rewritten list |
| `Sparc.dfy` | a step semantics: 64-bit registers, condition codes, `pc`/`npc`, annulment |
| `StringCompare.dfy`, `Division.dfy`, `ArrayAllocation.dfy` | emitted routines, proved against simple functions |
| `G1Queue.dfy` | the G1 log buffers, their filtering and refill, and the barriers over the card table |
| `G1Stubs.dfy` | the G1 barrier stubs as instructions, with the restart behind the refill call |
| `CardMarking.dfy` | the post barrier in many threads, with store buffers, against refinement workers |
| `CoreImage.dfy`, `ProcessRead.dfy` | reading memory from a core file and from a live process |
| `CallingConvention.dfy` | the register and stack allocator for argument signatures |
| `BranchWords.dfy` | branch words: assembling, decoding, patching |
| `Crc32.dfy` | the debug-link checksum |
| `ConjointCopy.dfy` | overlapping copies |
| `Bits.dfy`, `Wrappers.dfy` | masks and remainders; options and bytes |

Environment and assumptions, by component:

- Thin locking. Monitor code behind `slow_case` is an environment: it may rewrite
  the header of an object nobody holds and inflate one that is held. Locking is
  LIFO per thread, boxes are word-aligned and distinct, stacks are disjoint, and the
  4096 bytes above a thread's SP are its own. The stack bias is a parameter. When it
  is not a multiple of four, as on the 64-bit VM, headers are also taken to lie
  numerically outside the stacks; `MaskTestOnHeaders` says exactly which headers the
  test would otherwise let through.
- `is_single_instruction` does not always tell the truth: a single-word access
  through an index register that is marked unaligned is accepted and takes two
  instructions. `SingleInstructionExact` gives the exact condition (`Expands`), which
  also covers a null check when null checks are off and a slot displacement equal to
  the klass offset. LIR generation marks only long and double accesses unaligned
  (src/share/vm/c1/c1_LIRGenerator.cpp:2100). `EmissionSafe` carries this to whole
  lists: emission succeeds if and only if no operation put into a slot expands, and
  `ExpandingSlotFails` gives a list that fails.
- The large-offset guard of `load` and `store` (src/cpu/sparc/vm/c1_LIRAssembler_sparc.cpp:808
  and 921) parses as a conditional on the sum and never selects its other path; the
  model follows the code, with 13-bit offsets.
- Moving an operation past a call assumes the operation does not touch O7, G3 or G5.
  A virtual call loads the klass word, the vtable slot and the method's entry from
  memory, and a store moved behind it runs after those loads. `CallSwapExact` shows
  that the move is right for every callee if and only if the dispatch is the same
  before and after the store; stores that miss the three words satisfy it
  (`ClearKeepsDispatch`), and a store into the receiver's klass word need not
  (`StoreDisturbsDispatch`). The block theorem asks for this of stores only, where the
  run comes to such a call; `PeepholeKeepsText` needs nothing but a look at the list.
- `use_cbcond` does not imply that the displacement fits: an unbound label counts as
  the current address, so the short form is always chosen for it. `UnboundExact` gives
  the exact condition on the address the label gets later, and `UnboundMisses` the
  nearest one that is missed.
- The SATB queue filters a full buffer before handing it over. With an enqueueing
  threshold of 100 percent or more, a buffer whose entries are all wanted is refused
  and stays full (`StuckQueue`), and the stub comes back to the call each time
  (`TailLoops`); `HandleZeroIndex` states that this is the only case, and the stubs'
  methods ask for a smaller threshold.
- Core files. Maps are page-aligned and nonempty, their padded ranges disjoint, their
  files complete; the search array is in step with the map list.
- Process reads. The target is a function from aligned addresses to words or failure,
  and `addr + size` does not wrap. A read of size 0 at an unaligned address still
  peeks at one word; `TouchedOverlap` states both cases.
- Signatures. The character after the last one is read from the array beyond the
  signature, as the program does; stray halves are accepted, as it does.
- Card marking. The workers' contract is: take a logged card, clean it, then scan it,
  with the clean visible before the scan. Young cards stay young between pauses.

## Model

| member | source | states |
|---|---|---|
| `ThinLock.MutualExclusion` | src/cpu/sparc/vm/c1_MacroAssembler_sparc.cpp:79-159 | in every state of every run, of any number of threads and objects, two holders of one object are the same thread |
| `ThinLock.RecursionTestSound` | src/cpu/sparc/vm/c1_MacroAssembler_sparc.cpp:105-124 | in every run the mask test admits a thread only to an object it already holds, having seen a mark in its own stack, and records a recursive lock; otherwise nothing is acquired and the box holds a nonzero word |
| `ThinLock.OneDisplacedHeader` | src/cpu/sparc/vm/c1_MacroAssembler_sparc.cpp:100-123 | while a thread holds an object at any depth, exactly one of its boxes for it holds a nonzero displaced header |
| `ThinLock.DisplacedIsPreLock` | src/cpu/sparc/vm/c1_MacroAssembler_sparc.cpp:100-123 | from the compare-and-swap on, for as long as the record is held, the box keeps the object's pre-lock mark, which is that one displaced header, also if the release then goes to the slow case |
| `ThinLock.HeaderRestored` | src/cpu/sparc/vm/c1_MacroAssembler_sparc.cpp:100-158 | across a whole critical section, whatever happens in between, the outermost unlock puts back the mark the lock replaced, bit for bit, and the thread no longer holds the object |
| `ThinLock.UnlockSlowIffInflated` | src/cpu/sparc/vm/c1_MacroAssembler_sparc.cpp:150-158 | unlock leaves for the slow case if and only if the object was inflated |
| `ThinLock.NeverStuck` | src/cpu/sparc/vm/c1_MacroAssembler_sparc.cpp:79-159 | in every run a thread inside the fast path can take its next step: every address it uses exists |
| `ThinLock.RunKeepsInv` | src/cpu/sparc/vm/c1_MacroAssembler_sparc.cpp:79-159 | the protocol invariant holds in every state of every run |
| `ThinLock.MaskTest` | src/cpu/sparc/vm/c1_MacroAssembler_sparc.cpp:116-122 | subtracting SP and masking gives zero exactly for marks word-aligned with SP and less than 4096 bytes above it, in 64-bit wrap-around arithmetic |
| `ThinLock.MaskTestOnHeaders` | src/cpu/sparc/vm/c1_MacroAssembler_sparc.cpp:116-122 | a bias divisible by four rejects every header; any other bias accepts exactly the headers within 4096 bytes above SP that are off by the bias |
| `Lir.SingleInstructionExact` | src/cpu/sparc/vm/c1_LIRAssembler_sparc.cpp:63-142 | for every operand kind, type, displacement and flag, an accepted operation assembles to exactly one plain instruction if and only if it is not one of those that expand |
| `Lir.UnalignedIndexedLoadExpands` | src/cpu/sparc/vm/c1_LIRAssembler_sparc.cpp:1378-1456 | an unaligned indexed int load is accepted as one instruction and takes two |
| `Peephole.Peephole` | src/cpu/sparc/vm/c1_LIRAssembler_sparc.cpp:3375-3470 | the in-place scan leaves the list that one left-to-right rewriting produces |
| `Peephole.PlaceBranch` | src/cpu/sparc/vm/c1_LIRAssembler_sparc.cpp:3380-3411 | a branch takes the operation before it into its slot, or a nop |
| `Peephole.PlaceCall` | src/cpu/sparc/vm/c1_LIRAssembler_sparc.cpp:3412-3440 | a call takes a preceding move into its slot, or a nop |
| `DelayedBlocks.PeepholeKeepsMeaning` | src/cpu/sparc/vm/c1_LIRAssembler_sparc.cpp:3375-3470 | for every block, state and environment, the rewritten list under delay-slot semantics reaches the same state and target as the original in order, asking only of a store moved behind a virtual call that it leaves the dispatch alone; every other move is shown to, by the guard on O0 |
| `DelayedBlocks.PeepholeKeepsText` | src/cpu/sparc/vm/c1_LIRAssembler_sparc.cpp:3375-3470 | a block in which no virtual call directly follows a store that it would take keeps its meaning in every state and environment |
| `DelayedBlocks.BodyKeepsMeaning` | src/cpu/sparc/vm/c1_LIRAssembler_sparc.cpp:3375-3470 | a whole method body, loops included, visits the same blocks and states after any number of blocks, under the same condition on stores |
| `DelayedBlocks.BodyKeepsText` | src/cpu/sparc/vm/c1_LIRAssembler_sparc.cpp:3375-3470 | and from every state for a body whose text has no such store |
| `DelayedBlocks.PeepholeRestores` | src/cpu/sparc/vm/c1_LIRAssembler_sparc.cpp:3377-3440 | every transfer of the output has exactly one delay operation after it, and putting the slots back gives the input: nothing is lost, duplicated or moved across anything else |
| `DelayedBlocks.SlotsBestUsed` | src/cpu/sparc/vm/c1_LIRAssembler_sparc.cpp:3388-3440 | in the finished list the slot of every transfer holds the operation that came before it exactly when that one may fill it, and a nop otherwise |
| `DelayedBlocks.BranchSwap` | src/cpu/sparc/vm/c1_LIRAssembler_sparc.cpp:626-679 | a single-instruction operation does not change whether a branch is taken |
| `DelayedBlocks.CallSwap` | src/cpu/sparc/vm/c1_LIRAssembler_sparc.cpp:776-803 | a move that avoids O7, G3 and G5 and leaves the dispatch loads alone commutes with a call's set-up and target |
| `DelayedBlocks.CallSwapExact` | src/cpu/sparc/vm/c1_LIRAssembler_sparc.cpp:788-803 | moving such a move behind the call is right for every callee if and only if the klass, vtable and entry loads deliver the same before and after it |
| `DelayedBlocks.ClearKeepsDispatch` | src/cpu/sparc/vm/c1_LIRAssembler_sparc.cpp:3417-3422 | a move accepted for a call's slot that stores to none of the three words the dispatch reads keeps it; a move into a register always does, since a write to O0 is not accepted |
| `DelayedBlocks.StoreDisturbsDispatch` | src/cpu/sparc/vm/c1_LIRAssembler_sparc.cpp:3417-3427 | a store into the receiver's klass word is accepted for the slot and changes the dispatch whenever the new class has another method |
| `DelaySlots.EmissionSafe` | src/cpu/sparc/vm/assembler_sparc.hpp:587-660 | emitting the rewritten list succeeds if and only if no operation put into a slot expands; it then passes every automaton check, ends in `no_delay`, and every transfer word is followed by one plain word |
| `DelaySlots.ExpandingSlotFails` | src/cpu/sparc/vm/c1_LIRAssembler_sparc.cpp:3112-3128 | an unaligned indexed load before a branch makes emission fail |
| `DelaySlots.DelayIsOneWord` | src/cpu/sparc/vm/c1_LIRAssembler_sparc.cpp:3112-3128 | a delay operation announces itself and emits exactly one word, or fails exactly if it expands |
| `DelaySlots.EmitLirList` | src/share/vm/c1/c1_LIRAssembler.cpp:278-318 | peephole, emission operation by operation and flush never meet a failing check and append exactly the words of the rewritten list, given only that no operation put into a slot expands |
| `DelaySlots.Assembler.EmitAll` | src/cpu/sparc/vm/assembler_sparc.inline.hpp:31-41 | the mutable automaton follows its transition function and appends the words |
| `StringCompare.Correct` | src/cpu/sparc/vm/c1_LIRAssembler_sparc.cpp:292-344 | for all strings the emitted code ends, without a load outside the common length, with the first character difference or else the length difference |
| `Division.PowerDivision` | src/cpu/sparc/vm/c1_LIRAssembler_sparc.cpp:572-583 | for every dividend and power of two the shift sequence leaves Java's quotient |
| `Division.PowerRemainder` | src/cpu/sparc/vm/c1_LIRAssembler_sparc.cpp:572-595 | and Java's remainder |
| `Division.GeneralDivision` | src/cpu/sparc/vm/c1_LIRAssembler_sparc.cpp:598-623 | the `sdivcc` path with its overflow fix-up leaves Java's quotient for every pair with a nonzero divisor |
| `Division.GeneralRemainder` | src/cpu/sparc/vm/c1_LIRAssembler_sparc.cpp:598-623 | and Java's remainder |
| `Division.ReducedMultiply` | src/cpu/sparc/vm/c1_LIRGenerator_sparc.cpp:294-306 | whenever a multiplication is reduced, shift and add or subtract leave the product modulo 2^32 |
| `ArrayAllocation.InlineSize` | src/cpu/sparc/vm/c1_MacroAssembler_sparc.cpp:324-365 | a length that is negative or above the limit goes to the slow case; any other leaves the exact aligned size, a positive int |
| `ArrayAllocation.StubSize` | src/cpu/sparc/vm/c1_Runtime1_sparc.cpp:518-538 | the stub's own test sends the same lengths to the slow path, and for the others, decoding the layout helper, it computes the same size |
| `ArrayAllocation.SizeFits` | src/cpu/sparc/vm/c1_MacroAssembler_sparc.hpp:70-72 | under the length limit the size computation cannot overflow 32 bits |
| `ArrayAllocation.ArrayAllocated` | src/cpu/sparc/vm/c1_MacroAssembler_sparc.cpp:324-365 | sizing and zeroing around any allocator: the slow case exactly for bad lengths, otherwise exactly the words from the end of the header to the aligned size become zero |
| `ArrayAllocation.StubAllocated` | src/cpu/sparc/vm/c1_Runtime1_sparc.cpp:518-546 | the same for the stub: its own length test, the size after the refill, and exactly the body zeroed, with the header size in a register |
| `ArrayAllocation.BodyRuns` | src/cpu/sparc/vm/c1_MacroAssembler_sparc.cpp:360-365 | base and index computed from object and size, then exactly the n body words zeroed |
| `ArrayAllocation.ZeroRuns` | src/cpu/sparc/vm/c1_MacroAssembler_sparc.cpp:206-213 | the count-down store loop with its delay slot zeroes n words and no others, for every n |
| `G1Queue.PtrQueue.Enqueue` | src/cpu/sparc/vm/c1_Runtime1_sparc.cpp:970-1004 | refill until there is room, then store: the log, live buffer and buffers handed over together, gains exactly the value, filtering aside, and every buffer handed over stays on the list with its values |
| `G1Queue.PtrQueue.HandleZeroIndex` | src/share/vm/gc_implementation/g1/ptrQueue.cpp:138-194 | a full buffer is filtered if the queue filters, then kept or handed over whole, recycled or replaced; no wanted value is lost, and there is room afterwards except in the one stated case |
| `G1Queue.PtrQueue.ShouldEnqueue` | src/share/vm/gc_implementation/g1/satbQueue.cpp:123-145 | it refuses a buffer that is still full exactly if every value is wanted and the threshold is at least 100 percent |
| `G1Queue.StuckQueue` | src/share/vm/gc_implementation/g1/ptrQueue.cpp:138-147 | with a threshold of 100, a one-entry buffer holding a wanted value is as full after the refill call as before |
| `G1Queue.Compact` | src/share/vm/gc_implementation/g1/satbQueue.cpp:61-114 | the in-place loop leaves exactly the wanted entries, in order, at the top, nulls below them, and the rest untouched |
| `G1Queue.PreBarrier` | src/cpu/sparc/vm/c1_Runtime1_sparc.cpp:866-899 | the pre barrier logs the previous value once and loses no value marking still wants |
| `G1Stubs.TailEnqueues` | src/cpu/sparc/vm/c1_Runtime1_sparc.cpp:866-880 | the instructions of both stubs' tail, index store in the delay slot of the return, add the value to the log in memory and change nothing else |
| `G1Stubs.TailCalls` | src/cpu/sparc/vm/c1_Runtime1_sparc.cpp:866-883 | with index 0 the stub reaches the refill call with memory, thread and value untouched |
| `G1Stubs.TailRefills` | src/cpu/sparc/vm/c1_Runtime1_sparc.cpp:894-899 | from any log with room that the call leaves, new or partly filled, it restarts, adds the value to that log and returns |
| `G1Stubs.TailLoops` | src/cpu/sparc/vm/c1_Runtime1_sparc.cpp:894-899 | from a log without room it only comes back to the call |
| `G1Stubs.PreLogs` | src/cpu/sparc/vm/c1_Runtime1_sparc.cpp:866-899 | the whole pre barrier stub, with room and through a refill, logs the previous value and returns |
| `G1Stubs.PostHead` | src/cpu/sparc/vm/c1_Runtime1_sparc.cpp:924-955 | the instructions before the log return with nothing changed for a young or dirty card, and dirty any other |
| `G1Stubs.PostLogs` | src/cpu/sparc/vm/c1_Runtime1_sparc.cpp:924-985 | with room, the post barrier on a card that is neither returns with the card dirty, its address logged once, and the rest of memory kept |
| `G1Stubs.PostRefills` | src/cpu/sparc/vm/c1_Runtime1_sparc.cpp:924-1004 | without room, it reaches the refill call with the card dirty and nothing else changed, and from what the call leaves restarts, logs the card and returns |
| `G1Queue.PostBarrier` | src/cpu/sparc/vm/c1_Runtime1_sparc.cpp:924-1004 | young and dirty cards leave everything alone; any other card becomes dirty and its address is logged |
| `G1Queue.PostBarriers` | src/cpu/sparc/vm/c1_Runtime1_sparc.cpp:924-1004 | a run of barriers by one thread, across refills, is the fold of the one-card function |
| `G1Queue.MarkedOnce` | src/cpu/sparc/vm/c1_Runtime1_sparc.cpp:924-1004 | after any run every card stored to is young or dirty and the others are as before; a card that was neither is logged exactly once, and no other value is |
| `G1Queue.LogKept` | src/cpu/sparc/vm/c1_Runtime1_sparc.cpp:924-1004 | what was logged before a run is still there, below what the run added |
| `CardMarking.NoStoreLost` | src/cpu/sparc/vm/c1_Runtime1_sparc.cpp:932-985 | in every interleaving of threads and workers, a store whose barrier returned is visible and was scanned or has a worker still to come; a dirty card always has one |
| `CardMarking.QuietScanned` | src/cpu/sparc/vm/c1_Runtime1_sparc.cpp:932-985 | when the log is empty and all are idle, every such store was scanned and no card is dirty |
| `CardMarking.FenceNeeded` | src/cpu/sparc/vm/c1_Runtime1_sparc.cpp:936-940 | without the StoreLoad barrier some run loses a store |
| `CoreImage.Core.SortMapArray` | agent/src/os/linux/ps_core.c:419-459 | the array is a sorted permutation of the map list, whatever permutation the library's sort picks |
| `CoreImage.Core.Grab` | agent/src/os/linux/ps_core.c:1033-1064 | adding segments, sorting, adding more, sorting again and adding class-sharing maps leaves the array in step with the list, which holds exactly the nonempty segments |
| `CoreImage.Core.CoreLookup` | agent/src/os/linux/ps_core.c:152-196 | binary search then the class-sharing list returns what a linear scan of the ordinary maps, and only then of the others, returns |
| `CoreImage.Core.ReadData` | agent/src/os/linux/ps_core.c:465-513 | a nonempty read succeeds if and only if it starts in a map body and stays in padded ranges, and then every byte is the file's byte or zero in a page tail |
| `CoreImage.Core.ReadChunk` | agent/src/os/linux/ps_core.c:474-509 | one turn delivers the file bytes and the zeros of the last page, and touches nothing else |
| `CoreImage.ImageUnique` | agent/src/os/linux/ps_core.c:465-513 | disjoint padded ranges make the image a function of the address |
| `ProcessRead.ReadData` | agent/src/os/linux/ps_proc.c:59-106 | for every address and size it peeks at the touched words in order, stops at the first unreadable one, succeeds if and only if there is none, and then delivers every byte and nothing beyond |
| `ProcessRead.TouchedOverlap` | agent/src/os/linux/ps_proc.c:46-106 | for a nonzero size the words touched are exactly the aligned words overlapping the range |
| `CallingConvention.JavaConvention` | src/cpu/sparc/vm/args.cc:84-194 | the array ends up with the packed location of every character up to the first not accepted, and nothing else changes |
| `CallingConvention.NativeConvention` | src/cpu/sparc/vm/args.cc:207-275 | the same for the native layouts |
| `CallingConvention.JavaInjective` | src/cpu/sparc/vm/args.cc:84-194 | in every mode no two arguments of any signature share a register or stack slot |
| `CallingConvention.CountExact` | src/cpu/sparc/vm/args.cc:103-139 | the layout pass uses exactly the single places counted, and the single stack slots in use are exactly those below the count |
| `CallingConvention.CountPredicts` | src/cpu/sparc/vm/args.cc:103-151 | the two passes agree after every prefix |
| `CallingConvention.JavaShape` | src/cpu/sparc/vm/args.cc:130-189 | every pair is even-aligned with its halves adjacent, every place is in range, and exactly the five argument kinds get one |
| `CallingConvention.SpillsWhenFull` | src/cpu/sparc/vm/args.cc:146-176 | a single-register argument goes to the stack only when earlier arguments hold every register of its kind |
| `CallingConvention.NativeInjective` | src/cpu/sparc/vm/args.cc:202-275 | the native layouts share nothing either, for every accepted signature |
| `CallingConvention.NativeShape` | src/cpu/sparc/vm/args.cc:202-275 | their places are in range, and the 64-bit pairs are even-aligned and adjacent |
| `CallingConvention.PackRoundTrip` | src/cpu/sparc/vm/args.cc:63-78 | a packed word, built with shift and or, unpacks to the location, for every place in range |
| `BranchWords.BprDecodes` | src/cpu/sparc/vm/assembler_sparc.inline.hpp:57 | every register branch decodes to its target, condition, register, annul and prediction, and is never taken for a compare-and-branch |
| `BranchWords.BpDecodes` | src/cpu/sparc/vm/assembler_sparc.inline.hpp:63-69 | the same for branches on condition codes with prediction, integer and float |
| `BranchWords.BrDecodes` | src/cpu/sparc/vm/assembler_sparc.inline.hpp:60-66 | the same for the older branches |
| `BranchWords.CallDecodes` | src/cpu/sparc/vm/assembler_sparc.inline.hpp:76 | every call decodes to its target |
| `BranchWords.CbcondDecodes` | src/cpu/sparc/vm/assembler_sparc.inline.hpp:73-74 | every compare-and-branch is recognised as one and decodes to its target, condition, width, register and register or immediate operand |
| `BranchWords.GatherScatter` | src/cpu/sparc/vm/assembler_sparc.hpp:481-536 | for all five displacement layouts, decoding a word gives back every aligned displacement in range |
| `BranchWords.ScatterGather` | src/cpu/sparc/vm/assembler_sparc.hpp:481-536 | every word's decoded displacement is in range and encodes to the same field |
| `BranchWords.PatchReaches` | src/cpu/sparc/vm/macroAssembler_sparc.cpp:109-136 | a patched branch goes to the new destination and differs from the old word only in its displacement field |
| `BranchWords.PatchSame` | src/cpu/sparc/vm/macroAssembler_sparc.cpp:109-164 | patching any word with its own decoded destination changes nothing, and the two switch statements refuse the same words |
| `BranchWords.PatchExact` | src/cpu/sparc/vm/macroAssembler_sparc.cpp:109-164 | a word patched to any destination goes there if and only if its format reaches that far |
| `BranchWords.UseCbcondExact` | src/cpu/sparc/vm/assembler_sparc.hpp:638-643 | the short form is chosen exactly when the word before is no compare-and-branch and the label is unbound or within the 10-bit displacement |
| `BranchWords.UseCbcondFits` | src/cpu/sparc/vm/assembler_sparc.hpp:638-643 | when it is chosen the emitted displacement fits, and the word branches to the bound label, or to itself |
| `BranchWords.UnboundExact` | src/cpu/sparc/vm/assembler_sparc.hpp:311-318 | for an unbound label, the patched word reaches the address the label gets if and only if that is within the 10-bit displacement |
| `BranchWords.UnboundMisses` | src/cpu/sparc/vm/assembler_sparc.hpp:311-318 | a label bound 2048 bytes ahead is missed |
| `Crc32.TableCrcCorrect` | agent/src/os/linux/symtab.c:65-129 | the table-driven CRC equals the bit-serial reflected CRC-32 of section 8 of RFC 1952 for every buffer and start value |
| `Crc32.TableCorrect` | agent/src/os/linux/symtab.c:68-122 | each of the 256 entries is its index stepped eight times |
| `Crc32.DebuglinkCrc` | agent/src/os/linux/symtab.c:125-128 | the loop over a buffer computes the bit-serial CRC |
| `Crc32.CrcConcat` | agent/src/os/linux/symtab.c:146-151 | feeding two pieces gives the CRC of the concatenation |
| `Crc32.FileCrc` | agent/src/os/linux/symtab.c:136-151 | any sequence of reads gives the CRC of what they delivered together |
| `ConjointCopy.Conjoint` | src/cpu/sparc/vm/copy_sparc.hpp:84-142 | for every overlap the destination gets the old source elements and nothing else changes |
| `ConjointCopy.ForwardsExact` | src/cpu/sparc/vm/copy_sparc.hpp:85-89 | copying forwards is right for every memory if and only if the destination does not start inside the source |
| `ConjointCopy.BackwardsExact` | src/cpu/sparc/vm/copy_sparc.hpp:90-96 | copying backwards is right for every memory if and only if the source does not start inside the destination |

## Left out

- Biased locking, monitor inflation, TLAB refill and G1 refinement: environment contracts or exits.
- The 32-bit tiered call fix-up inside the peephole (src/cpu/sparc/vm/c1_LIRAssembler_sparc.cpp:3442-3465).
- Operations that `is_single_instruction` never accepts: their code is a parameter of the emitter model.
- Loading the two strings' fields before the compare loop (src/cpu/sparc/vm/c1_LIRAssembler_sparc.cpp:245-291).
- Explicit null checks and debug information recorded with a division.
- BranchWords.Bpr: joins fields by adding them, which is the source's `|` because no two fields share a bit; 64-bit address wrap-around is not modelled.
- CoreImage.Core.Grab: looking up existing maps while library segments are added, on an array not yet sorted again (agent/src/os/linux/ps_core.c:731-740), and replacing their sizes.
- CoreImage.Core.ReadData: the map list and array are sequences, not linked nodes; allocation failure is not modelled.
- G1Queue.PtrQueue.HandleZeroIndex: the shared, locked queue and the free list of buffers are not modelled; the choice to recycle and which values are wanted are parameters.
- G1Stubs.TailEnqueues: the compare-and-branch form of the short branches, and the register window around the refill call.
- CardMarking.NoStoreLost: only reference stores are buffered; card and log updates are sequentially consistent, and cards do not change between young and old during a run.
- CallingConvention.JavaConvention: the program's printing is not modelled; the error message becomes the index where the loop stops.
- Crc32.FileCrc: opening, seeking and reading the file are a sequence of chunks.
- ProcessRead.ReadData: `ptrace` is a function of the address.
- Everything under agent/src/os/bsd, ELF and symbol tables, attaching to processes, and disassembly.
- Floating-point arithmetic, patching stubs, exception unwinding and oop maps.
