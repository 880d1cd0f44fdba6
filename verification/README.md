# Verified model of the oneAPI Construction Kit host runtime

This project models, in Dafny, the host-side runtime of the oneAPI Construction Kit — the clik
command queue, the HAL (hardware abstraction layer) memory allocator, device copies and fills, the
ELF segment loader and kernel argument packing — and six algorithms of the libraries it carries
along: the benchmark library's thread barrier, argument product and power ranges, and the test
framework's simple regular expressions, UTF-8 validator and 128-bit printer. Every statement is
proved for all inputs, all runs or all reachable states.

`dafny verify dfyconfig.toml` checks the whole project.

## What is modelled

| file | component |
|---|---|
| `Words.dfy`, `Options.dfy` | 64-bit words with wrap-around and bitwise operators; optional values |
| `DeviceMemory.dfy` | device memory, the chunked `mem_copy`, `mem_fill` |
| `ProgramUpload.dfy` | loading PT_LOAD segments |
| `ClikCommands.dfy` | the synchronous calls and the same work as deferred commands |
| `CommandQueue.dfy` | the queue object, its critical sections, the worker's sweep |
| `QueueProtocol.dfy`, `QueueLiveness.dfy` | all interleavings of user threads and worker; where progress stops |
| `Allocator.dfy`, `DeviceAllocator.dfy` | the block list and its theory; the allocator object and all call sequences |
| `ArgAlignment.dfy`, `ArgPack.dfy` | rounding and padding tricks; argument layout and an unpacker |
| `Barrier.dfy` | the reusable barrier with departing threads |
| `SimpleRegex.dfy`, `RegexMatcher.dfy` | pattern syntax and meaning; syntax check, matcher, `RE` |
| `ArgsProduct.dfy`, `PowerRange.dfy` | the odometer product; power ranges |
| `Utf8.dfy`, `Decimal128.dfy` | UTF-8 validation; 128-bit decimal printing |

Objects the source updates in place are classes; each method is proved against a function of the old
state, and the lemmas are about those functions. Threads are modelled as steps between the points where
a lock is released: every step is a critical section, and a run is any sequence of enabled steps.

Modelling decisions:

- Device and host memory are the byte ranges [0, size); a read or write succeeds exactly when its whole
  range lies inside. Host pointers are indices, null is `None`.
- A kernel is an arbitrary function of device memory, quantified over in every queue theorem.
- Addresses, sizes, offsets and alignments are 64-bit words and wrap where the source lets them wrap.
  Timestamps, thread counts and phase numbers are unbounded integers.
- Assertions and CHECKs of the source are preconditions, except in `free`, where the behaviour with
  assertions disabled is modelled and an unknown pointer is shown to change nothing.
- Byte order of packed integers is little-endian.

Where the code and its documentation disagree, the code is modelled and the exact condition is proved:

- `mem_fill` is documented to write `size` bytes; it leaves the last `size % pattern_size` bytes alone
  (`FillsExactly`).
- `mem_copy` assumes disjoint ranges; it is right on exactly the overlaps that `CopyMovesExactly` names.
- `clik_command_queue.h` says the worker exits once all commands have been executed; it exits with
  whatever is pending (`ShutdownLoses`, `ShutdownDrainsExactly`), and not at all if the flag is set while a command runs
  (`RunningReached`, `ShutdownMissed`, `ShutdownEndsExactly`).
- `clik_wait` returns once the dispatched commands have run; a dispatch during a sweep can leave the
  waiting thread behind (`StrandedReached`, `StrandedForever`), and `WaitReturnsExactly` says when.
- A PT_LOAD segment with filesz > memsz zeroes bytes after the segment (`StaysInsideExactly`).
- A value argument of size 0 empties the pack (`EarlierBytesKept`).
- `RE::FullMatch` is a full match exactly unless the pattern ends in an escaped `$` (`FullMatchExactly`).
- The bounds checks of buffer commands are exact exactly when offset + size does not wrap
  (`BoundsCheckExact`). They are there to keep a command inside its buffer; a write that passes them
  lands below the buffer exactly when the address itself wraps (`WriteStaysExactly`), and so can a
  copy (`CopyBelowBuffer`, `CopyStaysExactly`).

## Model

| member | source | states |
|---|---|---|
| `Words.PowerOfTwoWord` | hal/source/arg_pack.cpp:44 | v & (v - 1) is zero, on 64 bits, for exactly 0 and the powers of two |
| `Words.AlignDown` | hal/include/allocator.h:86 | masking with ~(m - 1) rounds down to a multiple of m, for every power of two m |
| `DeviceMemory.CopyEffect` | hal/include/hal.h:109-135 | the byte at every address after a copy of any two mapped ranges, overlapping or not: a byte already overwritten by an earlier chunk is traced back to where that chunk read it |
| `DeviceMemory.CopyMoves` | hal/include/hal.h:109-135 | disjoint ranges, dst <= src, or one chunk: the destination holds the old source bytes and nothing else changes |
| `DeviceMemory.CopyMovesExactly` | hal/include/hal.h:101-135 | the copy is a faithful move for every memory content if and only if it does not run upwards into its own source with more than 1 MiB |
| `DeviceMemory.CopySucceedsExactly` | hal/include/hal.h:109-135 | a non-empty copy between ranges that do not wrap succeeds if and only if both ranges are mapped |
| `DeviceMemory.CopyTouchesOnlyDestination` | hal/include/hal.h:109-135 | complete or cut short by a failure, a copy changes no byte outside its destination |
| `DeviceMemory.FillEffect` | hal/include/hal.h:152-165 | a fill leaves whole patterns from dst on, and every other byte, the tail included, as it was |
| `DeviceMemory.FillTouchesOnlyRange` | hal/include/hal.h:152-165 | complete or cut short by a failure, a fill changes no byte outside its range |
| `DeviceMemory.FillSucceedsExactly` | hal/include/hal.h:157-164 | a fill whose whole patterns do not wrap succeeds if and only if they are all mapped |
| `DeviceMemory.FillsExactly` | hal/include/hal.h:144-165 | all size bytes are filled for every memory content if and only if the pattern length divides the size |
| `DeviceMemory.Device.MemCopy` | hal/include/hal.h:109-135 | the loop, with its early failures and wrapping addresses, computes the chunked copy |
| `DeviceMemory.Device.MemFill` | hal/include/hal.h:152-165 | a null pattern fails and changes nothing; otherwise the loop computes the fill, partial on failure |
| `ProgramUpload.UploadLoadsImage` | hal/source/program.cpp:79-118 | after a successful upload every byte of device memory is the one put there by the last segment covering it, else the old one |
| `ProgramUpload.UploadPlacesSegments` | hal/source/program.cpp:91-116 | disjoint PT_LOAD segments with filesz <= memsz: file bytes, then zeros up to memsz, and nothing else changed |
| `ProgramUpload.UploadSucceedsExactly` | hal/source/program.cpp:91-117 | the upload succeeds if and only if the whole extent of every PT_LOAD segment is mapped |
| `ProgramUpload.UploadFrame` | hal/source/program.cpp:91-117 | successful or not, an upload changes nothing outside the extents of the PT_LOAD segments |
| `ProgramUpload.StaysInsideExactly` | hal/source/program.cpp:102-115 | for every memory content, a successfully loaded segment changes no byte outside its memory size if and only if filesz <= memsz |
| `ProgramUpload.Upload` | hal/source/program.cpp:79-118 | the loader's result and final memory, at the failing segment when it fails; an invalid file changes nothing |
| `ProgramUpload.UploadSectionCopy` | hal/source/program.cpp:63-68 | copies the segment's file bytes, or fails and changes nothing |
| `ProgramUpload.UploadSectionZero` | hal/source/program.cpp:70-76 | a fill with the single byte 0 from vaddr + offset on |
| `ClikCommands.DeferredCallAgrees` | clik/runtime/sync/clik_sync.cpp:171-206 | what enqueuing accepts does, when executed, exactly what the synchronous call does; what it refuses the synchronous call refuses with no effect |
| `ClikCommands.DeferredProgramAgrees` | clik/runtime/sync/clik_sync.cpp:171-206 | executing the first n accepted commands leaves the memory of the first n calls made synchronously |
| `ClikCommands.ReadDelivers` | clik/runtime/async/clik_command_queue.cpp:146-149 | an accepted read, queued or synchronous, succeeds if and only if both ranges exist; it brings the bytes at buffer address plus offset to the host and changes nothing else |
| `ClikCommands.WriteDelivers` | clik/runtime/async/clik_command_queue.cpp:153-156 | an accepted write, queued or synchronous, succeeds if and only if both ranges exist; it puts the host bytes at buffer address plus offset and changes nothing else |
| `ClikCommands.CopyDelivers` | clik/runtime/async/clik_command_queue.cpp:160-164 | an accepted copy between ranges that do not wrap succeeds if and only if both exist; short of an upward overlap above 1048576 bytes it moves the bytes at source address plus offset to destination address plus offset and changes nothing else |
| `ClikCommands.KernelRuns` | clik/runtime/async/clik_command_queue.cpp:168-170 | a kernel command has the result and the device effect of its kernel, and leaves the host alone |
| `ClikCommands.WriteThenRead` | clik/runtime/async/clik_command_queue.cpp:144-156 | what a write command put into a buffer a read command brings back, with the device and all other host bytes unchanged |
| `ClikCommands.StoreCommutesWithAll` | clik/runtime/async/clik_command_queue.cpp:144-164 | a host store outside the bytes of the pending commands commutes with running them all |
| `ClikCommands.UnusedByteSettled` | clik/runtime/async/clik_command_queue.cpp:144-164 | host bytes no pending command uses already have their final value |
| `ClikCommands.UsesExactly` | clik/runtime/async/clik_command_queue.cpp:144-156 | a host store commutes with a pending command, in every world, if and only if it is outside the bytes the command uses |
| `ClikCommands.BoundsCheckExact` | clik/runtime/async/clik_command_queue.cpp:271-273 | the check on reads and writes refuses exactly the out-of-bounds ranges, for every buffer, if and only if offset + size does not wrap |
| `ClikCommands.CopyBoundsCheckExact` | clik/runtime/async/clik_command_queue.cpp:315-319 | the two checks on copies are exact, for all pairs of buffers, if and only if neither sum wraps |
| `ClikCommands.AdmitsTransfer` | clik/runtime/async/clik_command_queue.cpp:264-297 | reads and writes are accepted if and only if no pointer is null and the 64-bit end of the range is not beyond the buffer |
| `ClikCommands.AdmitsCopy` | clik/runtime/async/clik_command_queue.cpp:307-341 | copies are accepted if and only if neither buffer is null and both ranges end inside, kernels if and only if not null |
| `ClikCommands.StaysInBuffer` | clik/runtime/async/clik_command_queue.cpp:288-336 | an accepted command of any kind whose offset + size does not wrap, successful or not, changes no device byte outside its destination buffer |
| `ClikCommands.WriteStaysExactly` | clik/runtime/async/clik_command_queue.cpp:153-156 | an accepted write changes no byte outside its buffer, in any world, if and only if the buffer address plus the offset does not wrap |
| `ClikCommands.CopyStaysExactly` | clik/runtime/async/clik_command_queue.cpp:160-164 | the same for an accepted copy of at most 1 MiB: if and only if the destination address does not wrap, the source range cannot exist, or source and destination are the same |
| `ClikCommands.CopyBelowBuffer` | clik/runtime/async/clik_command_queue.cpp:307-336 | an accepted copy to a buffer at 4096 that overwrites the 16 bytes before it |
| `CommandQueue.DispatchCoversAll` | clik/runtime/async/clik_command_queue.cpp:227-243 | in order, dispatch returns true if and only if some command was undispatched, and afterwards all are dispatched |
| `CommandQueue.OrderKept` | clik/runtime/async/clik_async.cpp:226-236 | enqueue, dispatch and retire keep the pending list at exactly the timestamps executed + 1 .. next - 1 |
| `CommandQueue.ClikQueue.constructor` | clik/runtime/async/clik_command_queue.cpp:27-39 | nothing executed or dispatched, next timestamp 1 |
| `CommandQueue.ClikQueue.CreateCommand` | clik/runtime/async/clik_async.cpp:226-236 | a fresh timestamp, or nothing once shutting down |
| `CommandQueue.ClikQueue.Enqueue` | clik/runtime/async/clik_command_queue.cpp:264-351 | refuses null pointers, failed bounds checks and shutdown; otherwise appends the command with the next timestamp |
| `CommandQueue.ClikQueue.Dispatch` | clik/runtime/async/clik_command_queue.cpp:227-243 | the loop finds the latest pending timestamp and publishes it if it is new |
| `CommandQueue.ClikQueue.MustWait` | clik/runtime/async/clik_command_queue.cpp:256-259 | for a timestamp already given out, a thread goes on waiting if and only if some command up to that timestamp is still pending |
| `CommandQueue.ClikQueue.RetireHead` | clik/runtime/async/clik_command_queue.cpp:107-112 | the executed command is still at the head; removing it keeps the order |
| `CommandQueue.ClikQueue.Sweep` | clik/runtime/async/clik_command_queue.cpp:85-118 | whatever other threads enqueue or dispatch in the unlocked windows, a pass ends with executed equal to the dispatched timestamp it read, having run exactly those commands in order |
| `QueueProtocol.StepKeeps` | clik/runtime/async/clik_command_queue.cpp:82-164 | every step of every thread keeps timestamp order, the log of executed commands, and agreement with the synchronous program |
| `QueueProtocol.AsynchronousRefinesSynchronous` | clik/runtime/async/clik_command_queue.cpp:82-164 | for every interleaving: executed <= dispatched < next, executed commands are a prefix of the accepted ones and dispatched, running the pending ones reaches exactly the synchronous program's memory, and host bytes not in use already agree |
| `QueueProtocol.WorldAfterRetired` | clik/runtime/async/clik_command_queue.cpp:92-113 | with host memory left alone, memory after k executed commands is that of the first k accepted calls made through the synchronous API |
| `QueueProtocol.WaitCoversDispatch` | clik/runtime/async/clik_command_queue.cpp:249-261 | when a wait may return, every command accepted before the latest dispatch it observed has been executed |
| `QueueProtocol.WaitSleepsExactly` | clik/runtime/async/clik_command_queue.cpp:253-258 | in every reachable state, a thread that starts to wait falls asleep if and only if a dispatched command is still pending |
| `QueueProtocol.WokenWaiter` | clik/runtime/async/clik_command_queue.cpp:257-260 | a woken thread returns if its timestamp has been executed and sleeps again otherwise |
| `QueueProtocol.WaitersNotForgotten` | clik/runtime/async/clik_command_queue.cpp:115-118 | a thread asleep in a wait whose commands have all run has a notification owed to it by the sweep in progress; the end of a sweep wakes the sleeping threads if and only if it owes one |
| `QueueProtocol.SweepReachesSnapshot` | clik/runtime/async/clik_command_queue.cpp:85-123 | whatever is dispatched meanwhile, a sweep ends at exactly the dispatched timestamp it read |
| `QueueLiveness.LostWakeUp` | clik/runtime/async/clik_command_queue.cpp:115-123 | a thread that enqueues, dispatches and waits during the last command of a sweep is left waiting with the worker asleep |
| `QueueLiveness.StrandedReached` | clik/runtime/async/clik_command_queue.cpp:115-123 | a run from the initial state that ends there, for any two accepted calls |
| `QueueLiveness.StrandedForever` | clik/runtime/async/clik_command_queue.cpp:120-123 | from there, without a new command, a shutdown or a spurious wake-up the wait never returns |
| `QueueLiveness.RescuedBySpuriousWake` | clik/runtime/async/clik_command_queue.cpp:123 | a spurious wake-up of the worker leads a stranded wait to its return |
| `QueueLiveness.RescuedByNewCommand` | clik/runtime/async/clik_command_queue.cpp:238-242 | so does a new command that is dispatched |
| `QueueLiveness.WaitReturnsExactly` | clik/runtime/async/clik_command_queue.cpp:85-123 | in every reachable state, the worker's own steps lead to the return of a wait if and only if its timestamp has been executed, the worker is notified and not to shut down, or the sweep in progress covers the timestamp |
| `QueueLiveness.ShutdownDrainsExactly` | clik/runtime/async/clik_command_queue.cpp:55-61 | over every run after the flag is set, the worker that leaves has run every accepted command if and only if, when the flag was set, none was pending or the worker was running one in a sweep that had read the last timestamp |
| `QueueLiveness.ShutdownLoses` | clik/runtime/async/clik_command_queue.cpp:49-59 | a run from the initial state in which an accepted, dispatched command is never run: dispatch, shutdown, exit |
| `QueueLiveness.ShutdownMissed` | clik/runtime/async/clik_command_queue.cpp:57-61 | after a shutdown during a command, without a dispatch, another shutdown or a spurious wake-up the worker never leaves, so the join does not return |
| `QueueLiveness.RunningReached` | clik/runtime/async/clik_command_queue.cpp:92-107 | a run from the initial state to one in which a command is running and a shutdown can come |
| `QueueLiveness.ShutdownEndsExactly` | clik/runtime/async/clik_command_queue.cpp:55-61 | left to itself, the worker leaves after a shutdown if and only if it was not running a command when the flag was set |
| `Allocator.PlacedMeaning` | hal/include/allocator.h:83-86 | the chosen start is aligned, fits, and is the highest such address in its block |
| `Allocator.AllocateTakes` | hal/include/allocator.h:66-108 | a successful allocation is an aligned run of free bytes, taken up to its block's end; no other byte or taken block changes |
| `Allocator.RunFound` | hal/include/allocator.h:74-105 | if an aligned free run exists the allocation succeeds, in the lowest block that has one and as high as possible |
| `Allocator.AllocateFailsExactly` | hal/include/allocator.h:66-108 | alloc returns 0 if and only if no aligned run of the size exists among the free bytes of the whole range |
| `Allocator.AllocateKeepsOrder` | hal/include/allocator.h:93-104 | allocation keeps blocks ordered and no two free neighbours |
| `Allocator.MergeKeeps` | hal/include/allocator.h:172-189 | merging leaves free bytes, taken blocks and the free total as they were and no two free neighbours |
| `Allocator.ReleaseFrees` | hal/include/allocator.h:110-133 | freeing a live pointer gives back exactly its bytes and keeps the invariant; any other pointer, null included, changes nothing |
| `Allocator.FreeUndoesAlloc` | hal/include/allocator.h:94-133 | freeing the pointer just returned restores exactly the previous block set |
| `Allocator.FreeAllResets` | hal/include/allocator.h:110-189 | freeing all live pointers in any order leaves the single block of reset |
| `Allocator.Conservation` | hal/include/allocator.h:138-169 | free bytes and the extents of taken blocks add up to the range |
| `Allocator.AllocateCost` | hal/include/allocator.h:66-108 | an allocation lowers the free total by at least the size and by less than size plus alignment |
| `DeviceAllocator.HalAllocator.constructor` | hal/include/allocator.h:48-52 | one free block over the range |
| `DeviceAllocator.HalAllocator.Reset` | hal/include/allocator.h:55-62 | back to one free block |
| `DeviceAllocator.HalAllocator.FirstFit` | hal/include/allocator.h:74-92 | the search loop stops at the first free block with room, or at the end |
| `DeviceAllocator.HalAllocator.Alloc` | hal/include/allocator.h:66-108 | result and new block set, a size of 0 treated as 1, the invariant kept |
| `DeviceAllocator.HalAllocator.Free` | hal/include/allocator.h:110-133 | the new block set, the invariant kept, for any pointer |
| `DeviceAllocator.HalAllocator.Consolidate` | hal/include/allocator.h:172-189 | the loop merges all free neighbours |
| `DeviceAllocator.HalAllocator.AvailableBytes` | hal/include/allocator.h:138-148 | the sum of the free extents, which never exceeds 64 bits |
| `DeviceAllocator.HalAllocator.BlockEnd` | hal/include/allocator.h:152-160 | a block ends at the next block or at the end of the range |
| `DeviceAllocator.LiveAllocationsSafe` | hal/include/allocator.h:32-197 | over every sequence of calls each live allocation is non-null, aligned, inside the range, large enough, not free, and disjoint from every other |
| `ArgAlignment.LeastPower2Meaning` | hal/source/arg_pack.cpp:33-42 | the alignment is a power of two, less than twice the size, and the least one not below it |
| `ArgAlignment.SmearDoubles` | hal/source/arg_pack.cpp:35-40 | each smearing step doubles the run of leading ones |
| `ArgAlignment.RoundUpPower2` | hal/source/arg_pack.cpp:33-42 | the least power of two not below v, or 0 when v is 0 or the power does not fit |
| `ArgAlignment.PaddingMeaning` | hal/source/arg_pack.cpp:46-54 | padding leads to the least aligned offset; an alignment of 0 leads back to offset 0 |
| `ArgAlignment.AlignUpLeast` | hal/source/arg_pack.cpp:46-49 | the offset is a multiple in [n, n + m) and no multiple from n on is smaller |
| `ArgPack.ArgumentPlaced` | hal/source/arg_pack.cpp:57-121 | an argument starts at the least aligned offset after what is there, behind zeros, earlier bytes untouched |
| `ArgPack.SupportedExactly` | hal/source/arg_pack.cpp:61-119 | supported are global addresses and values, and local sizes on 64-bit and 32-bit targets, and nothing else |
| `ArgPack.AddressPlaced` | hal/source/arg_pack.cpp:64-74 | a global address takes 8 bytes at the least multiple of 8, behind zeros, little-endian, and decodes to the address |
| `ArgPack.LocalSizePlaced` | hal/source/arg_pack.cpp:90-110 | a local size takes 8 bytes at a multiple of 8 on 64-bit targets, its low 32 bits 4 bytes at a multiple of 4 on 32-bit targets |
| `ArgPack.ValuePlaced` | hal/source/arg_pack.cpp:75-83 | a value takes its bytes at a multiple of the least power of two not below its size |
| `ArgPack.EarlierBytesKept` | hal/source/arg_pack.cpp:75-83 | earlier bytes survive if and only if the argument is not an empty value or the pack is empty |
| `ArgPack.UnpackUndoesPack` | hal/source/arg_pack.cpp:123-136 | an unpacker that knows only kinds, spaces and sizes recovers the bytes of every argument |
| `ArgPack.PayloadDecodes` | hal/source/arg_pack.cpp:64-110 | the bytes decode to the address, the value or the local size, the latter modulo 2^32 on 32-bit targets |
| `ArgPack.HalArgPack.Append` | hal/source/arg_pack.cpp:77-81 | padding, 64-bit resize and copy leave exactly the placed bytes |
| `ArgPack.HalArgPack.AddArg` | hal/source/arg_pack.cpp:57-121 | false exactly for unsupported combinations, which leave the pack alone; otherwise the extended pack |
| `ArgPack.HalArgPack.Build` | hal/source/arg_pack.cpp:123-136 | true exactly when every argument is supported; the pack is always that of all arguments before the first unsupported one |
| `Barrier.ThreadBarrier.CreateBarrier` | external/benchmark/src/mutex.h:132-150 | the critical section on entry: sleep, or open the next phase |
| `Barrier.ThreadBarrier.Resume` | external/benchmark/src/mutex.h:138-149 | the critical section after a wake-up: sleep again, leave with false, or take over as last thread |
| `Barrier.ThreadBarrier.RemoveThread` | external/benchmark/src/mutex.h:114-118 | one thread fewer, and whether sleepers are woken |
| `Barrier.EntryCheckHolds` | external/benchmark/src/mutex.h:133 | in every sound state a thread that enters finds entered < running |
| `Barrier.DepartureWakesExactly` | external/benchmark/src/mutex.h:114-118 | a departing thread wakes the others if and only if some thread is waiting in the current phase |
| `Barrier.Advances` | external/benchmark/src/mutex.h:146-149 | with every live thread inside, opening the next phase leaves the counts, the lockstep and the owed wake-ups in order |
| `Barrier.StepKeeps` | external/benchmark/src/mutex.h:104-150 | every step of every thread keeps counts, lockstep, owed wake-ups and one winner per phase |
| `Barrier.BarrierSafe` | external/benchmark/src/mutex.h:104-150 | any number of threads, any interleaving: exactly one true per completed phase, the entry check never fails, and some live thread is always awake |
| `Barrier.NobodyLeavesEarly` | external/benchmark/src/thread_manager.h:21-31 | when a call returns from a phase, every remaining live thread has entered it |
| `SimpleRegex.ParseThenText` | external/googletest/src/gtest-port.cc:796-847 | every accepted text is the text of a list of valid items |
| `SimpleRegex.TextThenParse` | external/googletest/src/gtest-port.cc:796-847 | the text of valid items is accepted and parses back to them |
| `SimpleRegex.CharacterSets` | external/googletest/src/gtest-port.cc:728-751 | repeat, unsupported, digit and white-space tests agree with membership in their character sets |
| `SimpleRegex.AtomTestExact` | external/googletest/src/gtest-port.cc:755-785 | the test of one character agrees, for every atom, with the characters the atom stands for, written out class by class |
| `SimpleRegex.PunctuationBlocks` | external/googletest/src/gtest-port.cc:738-740 | the punctuation characters are the four blocks of ASCII punctuation |
| `SimpleRegex.AtomsValidExactly` | external/googletest/src/gtest-port.cc:749-751 | which escaped and unescaped characters are valid atoms, character by character |
| `SimpleRegex.OnceMeans` | external/googletest/src/gtest-port.cc:893-900 | an atom without a repeat matches exactly one character of its class |
| `SimpleRegex.OptionalMeans` | external/googletest/src/gtest-port.cc:856-875 | x? matches exactly what x or nothing matches |
| `SimpleRegex.PlusMeans` | external/googletest/src/gtest-port.cc:856-875 | x+ matches exactly what x followed by x* matches |
| `SimpleRegex.StarMeans` | external/googletest/src/gtest-port.cc:856-875 | x* matches exactly what nothing, or x followed by x*, matches |
| `RegexMatcher.VerdictMeans` | external/googletest/src/gtest-port.cc:796-847 | accepted texts are exactly the texts of patterns, each of one pattern |
| `RegexMatcher.ValidateRegex` | external/googletest/src/gtest-port.cc:796-847 | true if and only if the text is that of some pattern; null is refused |
| `RegexMatcher.MatchRepetitionAndRegexAtHead` | external/googletest/src/gtest-port.cc:856-875 | true if and only if some allowed repetition count of the atom leaves a suffix the rest matches |
| `RegexMatcher.MatchRegexAtHead` | external/googletest/src/gtest-port.cc:880-904 | true if and only if repetition counts exist that match a prefix, or the whole string before `$` |
| `RegexMatcher.MatchRegexAnywhere` | external/googletest/src/gtest-port.cc:914-924 | true if and only if some substring matches, from the start after `^`; null never matches |
| `RegexMatcher.FullTextMeans` | external/googletest/src/gtest-port.cc:956-968 | which pattern the derived full-match text stands for |
| `RegexMatcher.FullMatchExactly` | external/googletest/src/gtest-port.cc:931-933 | the derived pattern accepts exactly the whole-string matches if and only if the text does not end in an escaped `$` |
| `RegexMatcher.RE.constructor` | external/googletest/src/gtest-port.cc:942-969 | valid exactly for texts of patterns |
| `RegexMatcher.RE.FullMatch` | external/googletest/src/gtest-port.cc:931-933 | the whole string matches, or a prefix when the pattern ends in an escaped `$` |
| `RegexMatcher.RE.PartialMatch` | external/googletest/src/gtest-port.cc:937-939 | some substring matches |
| `ArgsProduct.DigitAt` | external/benchmark/src/benchmark_register.cc:275-286 | index k at step i is (i / product of earlier sizes) mod size k |
| `ArgsProduct.NextCounts` | external/benchmark/src/benchmark_register.cc:282-285 | one turn of the odometer counts up by one |
| `ArgsProduct.DigitsOfNumber` | external/benchmark/src/benchmark_register.cc:275-286 | every index vector is reached, at a step below the total |
| `ArgsProduct.ProductComplete` | external/benchmark/src/benchmark_register.cc:263-289 | every index vector is enumerated if and only if the product of the sizes fits in 64 bits, and none twice |
| `ArgsProduct.AppendsProduct` | external/benchmark/src/benchmark_register.cc:263-289 | the tuples appended are exactly the Cartesian product if the product of the sizes fits in 64 bits; for lists without repeated values only then, and no tuple is appended twice |
| `ArgsProduct.Benchmark.Accumulate` | external/benchmark/src/benchmark_register.cc:268-272 | the product of the sizes modulo 2^64 |
| `ArgsProduct.Benchmark.Advance` | external/benchmark/src/benchmark_register.cc:282-285 | the carry loop is one turn of the odometer |
| `ArgsProduct.Benchmark.ArgsProduct` | external/benchmark/src/benchmark_register.cc:263-289 | appends exactly the tuples picked by the digits of 0, 1, 2, ..., and none if a list is empty |
| `PowerRange.RangeMembers` | external/benchmark/src/benchmark_register.h:58-103 | the range holds exactly lo, hi, 0 when lo < 0 <= hi, and the powers and negated powers strictly between |
| `PowerRange.RangeIncreasing` | external/benchmark/src/benchmark_register.h:58-103 | strictly increasing from lo to hi |
| `PowerRange.IncreasingUnique` | external/benchmark/src/benchmark_register.h:58-103 | these two properties determine the range |
| `PowerRange.PowersMembers` | external/benchmark/src/benchmark_register.h:12-36 | exactly the powers of mult in the closed interval |
| `PowerRange.ArgVector.AddPowers` | external/benchmark/src/benchmark_register.h:14-36 | appends the powers; no product leaves the element type |
| `PowerRange.ArgVector.AddNegatedPowers` | external/benchmark/src/benchmark_register.h:38-56 | appends the negated powers in increasing order, in place |
| `PowerRange.ArgVector.AddRange` | external/benchmark/src/benchmark_register.h:58-103 | appends the range; no intermediate value leaves the element type |
| `Utf8.HeadDecodes` | external/googletest/src/gtest-printers.cc:487-511 | whatever one iteration accepts is the encoding of a scalar value |
| `Utf8.HeadEncoded` | external/googletest/src/gtest-printers.cc:487-511 | the encoding of every scalar value is accepted, whatever follows |
| `Utf8.AcceptedExactly` | external/googletest/src/gtest-printers.cc:483-514 | accepted strings are exactly the encodings, each of one sequence of scalar values |
| `Utf8.IsValidUTF8` | external/googletest/src/gtest-printers.cc:483-514 | true if and only if the bytes encode some sequence of scalar values; no index passes the length |
| `Decimal128.Round` | external/googletest/src/gtest-printers.cc:308-319 | one round divides high * 2^64 + low by 10 exactly, and nothing needs more than 64 bits |
| `Decimal128.DigitsMeaning` | external/googletest/src/gtest-printers.cc:291-323 | decimal notation denotes the value, in digits only, with no leading zero |
| `Decimal128.DecimalMeaning` | external/googletest/src/gtest-printers.cc:291-323 | what is printed denotes the value, 0 included, in at least one digit, with a leading zero only alone |
| `Decimal128.AtMost39Digits` | external/googletest/src/gtest-printers.cc:297-299 | 128-bit values have at most 39 digits |
| `Decimal128.DivideBy10` | external/googletest/src/gtest-printers.cc:309-319 | quotient and remainder of the 128-bit value, in 64-bit variables |
| `Decimal128.PrintUint128` | external/googletest/src/gtest-printers.cc:291-323 | exactly the decimal notation, written inside the 40-byte buffer |
| `Decimal128.PrintInt128` | external/googletest/src/gtest-printers.cc:324-331 | a minus sign and the decimal notation of the magnitude, the smallest value included |

## Left out

- DeviceMemory.Device.MemFill: an empty pattern is excluded, because the source's loop does not end on one that can be written.
- DeviceAllocator.HalAllocator.constructor: a range that ends at or beyond 2^64 is excluded, because the source's end address then wraps and no block has an extent.
- ArgPack.HalArgPack.Build: values of more than 2^63 bytes are excluded, as in `AddArg`.
- ArgPack.HalArgPack.AddArg: values of more than 2^63 bytes are excluded, because the source then computes the alignment 0.
- ClikCommands.StaysInBuffer: one-way, for offset + size below 2^64; the exact conditions are proved for writes (`WriteStaysExactly`) and for copies of one chunk (`CopyStaysExactly`), not for longer copies, which can write some chunks before they fail.
- Holes in device memory: memory is one contiguous range, so an access fails only beyond its end.
- Interleaving inside one command: a command's effect on memory is one step; nothing else touches device memory, and the host is barred from the bytes in use.
- Null queue and device pointers, and the creation and release of devices, programs and kernels: single null tests and reference counts, on which no result here depends.
- Kernel argument translation and work-group checks of `clik_execute_run_kernel`: a kernel is an arbitrary effect on device memory.
- Wrap-around of 64-bit timestamps, which needs 2^64 commands, and of the barrier's 32-bit counters.
- HAL library loading, ELF byte decoding and symbol lookup: program headers are given as records, and bytes copied from the file are assumed to lie in it.
- Failure of host allocations, such as the copy's bounce buffer or a growing vector.
- `ThreadManager::WaitForAllThreads` and its alive counter: a second, simpler condition variable.
- Failure messages of `ValidateRegex`, and all printing to streams.
- Profiler output, the RISC-V ISA string parser, byte swaps, reporters, statistics and timers: they format output, use floating point, or are single-branch helpers.
