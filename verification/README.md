# Intra-node datatype transfer: a Dafny model

The benchmark moves a list of memory blocks (an iovec list) from one sender process to any number of
receivers on the same node, in five ways: through a shared region, through the same region in pipelined
chunks, with cross-memory attach, and with XPMEM attachments that are rebuilt in every iteration or kept over
all iterations. The model gives all five one specification and proves each against it.

A process's memory is an `array<byte>`, and `iov_base` is an index into it. A block list is read as one byte
stream: stream byte k lives at address `AddrOf(v, k)`. `Packed` takes memory to the stream and `Unpacked` takes
the stream to memory; neither knows about loops, cursors, chunks, windows or pages.

Where C would leave defined behaviour, the model stops with a false result: an index past the end of a block
list, a read through a handle that is not attached, a read past the end of an attachment, a failed `assert`.
No precondition rules these out: each contract says exactly for which inputs they happen, and the sweep module
turns that into one condition on the program's arguments. What is required of callers is that the listed blocks
belong to their process's memory and that the shared region can hold them.

| file | content |
|---|---|
| `Iovec.dfy` | block lists, the stream, `Packed`, `Unpacked`, round trips |
| `Arithmetic.dfy`, `Script.dfy` | products and quotients; the action sequence of one iteration |
| `StreamCopy.dfy`, `Shmem.dfy`, `Pipeline.dfy` | the copying loops of the shared-memory engines |
| `Protocol.dfy`, `ProtocolTheorems.dfy` | the chunk protocol, and what holds under every interleaving |
| `ProtocolRuns.dfy`, `ProtocolGuards.dfy` | which interleavings there are; why both waiting conditions are needed |
| `Cma.dfy` | windowed `process_vm_readv` |
| `Pages.dfy`, `Xpmem.dfy`, `XpmemEngines.dfy`, `PageMemo.dfy` | page arithmetic, attach table, page memo, both XPMEM engines |
| `Engines.dfy`, `Interleaved.dfy` | whole runs with one receiver; the shared-memory ones with any number, under every interleaving |
| `Sweep.dfy` | the block-size sweep that calls all five engines, the documented example, and arguments that stop it |

Results a reader may not expect:

- The unguarded inner loop of the pipelined engine stays inside its block list exactly if the list is empty,
  or its total is a multiple of the depth and its last block is not empty (`PackPipelined`, `UnpackPipelined`).
- The CMA loop stays inside its lists exactly if they have at most `CMA_IOV_LIMIT` entries or a multiple of
  that many (`CmaReceive`).
- The page memo of the uncached XPMEM engine survives the detach phase. If the first and the last small block
  of the list lie on one page, the second iteration reads through a detached handle. A buffer of one page in
  smaller blocks is such a list (`OnePageBufferIsUnsafe`); it passes all other checks of the program on systems
  whose page is as large as the pipeline depth. `NocacheSafeSizes` gives the exact condition on the program's
  lists. Attachments are conserved on every list: a run that completes has detached all it attached.
- `MPI_Bcast` takes its count as an `int`. The broadcast of the block list needs fewer than 2^27 blocks.
- For power-of-two sizes the whole sweep runs to the end with every assert true exactly if the buffer holds at
  least one pipeline chunk, has fewer than 2^27 smallest blocks, and is larger than a page unless every block
  is at least a page (`PowerSweepSafe`).

## Model

| member | source | states |
|---|---|---|
| Iovec.PackedIsConcatenation | src/bench.c:68-72 | the stream of a list is its blocks one after the other |
| Iovec.UnpackedByte | src/bench.c:88-92 | storing one more stream byte is one memory update at that byte's address, also when blocks overlap |
| Iovec.RoundTripIffDisjoint | src/bench.c:57-95 | unpacking and packing again returns every stream unchanged if and only if no two stream bytes share an address |
| Iovec.UnpackOfPackIsIdentity | src/bench.c:57-95 | packing and unpacking the same list changes no byte of memory, for any list and any prefix |
| Iovec.InMemoryExtends | src/bench.c:57-95 | what is asked of a list: each block lies in memory; blocks may come in any order, overlap and be empty |
| Iovec.UniformBuffer | src/bench.c:685-689 | on the list the program builds, packing reads the buffer front to back and unpacking overwrites exactly the buffer |
| StreamCopy.StoreSegment | src/bench.c:134-136 | one memcpy out of a block extends the stored stream prefix by its length |
| StreamCopy.LoadSegment | src/bench.c:174-176 | one memcpy into a block extends the loaded stream prefix by its length |
| Shmem.CopyToShmem | src/bench.c:57-75 | the region's front becomes the stream of the list, the rest is unchanged, the sum is the list's total |
| Shmem.CopyFromShmem | src/bench.c:77-95 | memory becomes the unpacked stream; the sum is the list's total |
| Shmem.SizeAssertIff | src/bench.c:243-255 | nread == bufsize holds if and only if the block size divides the buffer size |
| Shmem.OneChunkScripts | src/bench.c:242-262 | the order of copies and collectives that RunShmem logs in an iteration is the pipelined one with a single chunk |
| Pipeline.CursorFitsInt | src/bench.c:131-152 | block index, offset in the block and stream position, before and after any segment the loops copy, stay within a 32-bit int when the buffer size does |
| Pipeline.PackChunk | src/bench.c:130-152 | one sender round advances by exactly the depth, or stops exactly at the end of the list before reading past it; the bytes stored are the next ones of the stream |
| Pipeline.UnpackChunk | src/bench.c:170-192 | the same for one receiver round, given only that the announced chunk is in the region |
| Pipeline.PackPipelined | src/bench.c:124-161 | in bounds if and only if ChunksFit; then the region is byte for byte what CopyToShmem leaves, both final asserts reduce to total == bufsize, and copies and collectives come in script order |
| Pipeline.UnpackPipelined | src/bench.c:167-199 | in bounds if and only if ChunksFit; then memory is what unpacking the whole message leaves, in script order, although each announcement promises one chunk and the rest of the region may change between announcements; nothing but the receiver's memory is written |
| Protocol.SenderStepInv | src/bench.c:128-165 | every sender step of the protocol keeps the invariant over all processes |
| Protocol.ReceiverStepInv | src/bench.c:167-199 | every receiver step keeps it |
| Protocol.RunInv | src/bench.c:120-204 | it holds in every reachable state, for any number of receivers and iterations and any interleaving |
| ProtocolTheorems.ReadsAreFresh | src/bench.c:168-193 | every byte a receiver has yet to read in its announced chunks was stored by the sender in the receiver's own iteration and has that iteration's value |
| ProtocolTheorems.NoOverlap | src/bench.c:130-155 | the chunk the sender is filling starts at or after the end of whatever any receiver is still reading |
| ProtocolTheorems.NoEarlyOverwrite | src/bench.c:157-158 | the sender is in a later iteration than a receiver only when that receiver has unpacked all of its iteration |
| ProtocolTheorems.EndOfIteration | src/bench.c:195-202 | a receiver that has entered the Gather has the memory of the uninterleaved computation, and its blocks hold the sender's message if they are disjoint |
| ProtocolTheorems.CollectivesMatch | src/shmem_pipeline_dt.c:128-170 | the k-th collective entered by any receiver and by the sender is the same kind of operation |
| ProtocolTheorems.ScriptsMatch | src/bench.c:154-196 | sender and receivers enter the same collectives per iteration: one Bcast per chunk, then one Gather |
| ProtocolTheorems.SenderFollowsScript | src/bench.c:128-158 | the protocol's sender carries out, per iteration, exactly the action sequence PackPipelined logs |
| ProtocolTheorems.ReceiverFollowsScript | src/bench.c:167-196 | the protocol's receivers carry out exactly the sequence UnpackPipelined logs |
| ProtocolTheorems.TracesAreScripts | src/bench.c:120-204 | in every complete run the actions read off the steps of each process are that script, once per iteration |
| ProtocolTheorems.RunWork | src/bench.c:120-204 | every step is one unit of work, so the number of steps taken is a function of the state reached |
| ProtocolTheorems.RunLength | src/bench.c:120-204 | every run is finite, with one fixed length for all complete runs, reached if and only if all processes have finished |
| ProtocolTheorems.NoDeadlock | src/shmem_pipeline_dt.c:94-178 | a reachable state has no step if and only if every process has finished |
| ProtocolTheorems.MaximalRunIsCorrect | src/bench.c:120-204 | every schedule that does not stop early ends with each receiver's memory equal to the uninterleaved result and with identical call logs |
| ProtocolTheorems.RunsComplete | src/bench.c:120-204 | every run can be continued to a finished state |
| ProtocolRuns.CompleteRunsExist | src/bench.c:120-204 | every configuration, with any contents of the region, has a run in which all processes finish |
| ProtocolRuns.SenderWaitsOnlyInGather | src/bench.c:154-158 | in every reachable state an unfinished sender can step if and only if it is not in a Gather that some receiver has yet to enter; its Bcasts wait for nobody |
| ProtocolRuns.ReceiverWaitsOnlyInBcast | src/bench.c:169-196 | a receiver can step if and only if it is not in a Bcast that the sender has yet to enter; its Gathers wait for nobody |
| ProtocolRuns.SenderRunsAhead | src/bench.c:129-158 | from every reachable state in an iteration the sender alone can store the rest of its message, announce it and enter the Gather |
| ProtocolRuns.ReceiverRunsAhead | src/bench.c:168-202 | once the last chunk is announced, a receiver alone can unpack the rest and leave the Gather before the sender has entered it |
| ProtocolRuns.WholeMessageAhead | src/bench.c:129-158 | there is a run with the whole message stored and all Bcasts returned while every receiver is still at the start |
| ProtocolRuns.ReceiverLeavesGatherFirst | src/bench.c:195-202 | there is a run in which a receiver is in the next iteration while the sender is still in its last Bcast |
| ProtocolGuards.GatherMustWait | src/bench.c:157-158 | if the root's Gather could return early, a receiver could finish an iteration with bytes of the next one |
| ProtocolGuards.BcastMustWait | src/bench.c:169 | if a receiver's Bcast could return early, it could finish an iteration with bytes never sent |
| ProtocolGuards.OnlyTheGuardDiffers | src/bench.c:154-169 | those two variants differ from the protocol in nothing but the dropped condition |
| Cma.ProcessVmReadv | src/bench.c:331-332 | a full read moves as many bytes as both lists hold, in list order |
| Cma.WindowPacked | src/bench.c:331-332 | a window of a list is a stretch of the list's stream |
| Cma.ReadWindow | src/bench.c:330-336 | after a window all blocks up to its end are in place |
| Cma.NextWindow | src/bench.c:329-337 | the next window starts at an aligned index, or runs past the end exactly when the list length does not fit the limit |
| Cma.TilesCover | src/bench.c:329-337 | the windows cover every block exactly once |
| Cma.CmaReceive | src/bench.c:325-339 | in bounds if and only if the list length fits the limit; then copied and remaining bytes add up to the buffer size, the windows tile the list, and memory is what one unlimited read would leave; window i starts at i times the smaller of list length and limit, and their number is fixed |
| Pages.AndNotMask | src/bench.c:428 | base & ~(2^k - 1), digit by digit, is base rounded down to a multiple of 2^k |
| Pages.PageBaseGreatest | src/bench.c:428 | the page base is the greatest page multiple at or below the address |
| Xpmem.Driver.Attach | src/bench.c:433 | a non-null handle that is not attached now becomes attached to the range; whether detached handles may come back is a parameter |
| Xpmem.Driver.Detach | src/bench.c:463-467 | removes one attachment and is idempotent |
| Xpmem.AttachFor | src/bench.c:427-446 | one table entry: the memo's handle if the page is the memo's, otherwise a new attachment of the block's page or of the block |
| Xpmem.BuildTable | src/bench.c:426-447 | which slots are filled from the memo of the iteration before, that all others are new attachments of their own page or block, that small blocks between two attaches share a handle, the new memo, and the number of attach calls |
| XpmemEngines.FreshStartIffNoStale | src/bench.c:430 | no slot is filled from the old memo if and only if the first small block is not on the memo's page |
| XpmemEngines.ThroughIsIdentity | src/bench.c:452-458 | attachment address plus page offset is the block's own address, and the read stays inside the attachments if and only if no small block straddles a page |
| XpmemEngines.FreshTable | src/bench.c:426-460 | after a fresh start every entry is a live attachment of its own range, made by this table, and removing the table's handles restores the earlier attachments |
| XpmemEngines.StaleTable | src/bench.c:430-439 | otherwise some entry cannot be read |
| XpmemEngines.CopyPhase | src/bench.c:449-460 | succeeds if and only if every entry can be read; then the buffer is the concatenation of what the entries address |
| XpmemEngines.DetachAll | src/bench.c:462-467 | removes exactly the handles in the table, however often each occurs |
| XpmemEngines.AfterDetach | src/bench.c:462-467 | detaching a finished table leaves exactly the attachments there were before it was built, also when some of its slots are stale |
| XpmemEngines.MemoStable | src/bench.c:374-375 | the memo in front of every iteration after the first is the last small block's page |
| XpmemEngines.NocacheIteration | src/xpmem_dt.c:109-152 | one iteration with a memo carried over from the one before: succeeds if and only if the start is fresh and no block straddles (unless a reusing driver can hide a stale slot), every completed iteration restores the attachments, stale slots hold the old handle, and the handle carried on is the last small block's |
| XpmemEngines.RunNocache | src/bench.c:405-475 | the whole run succeeds if NocacheSafe, and only then unless a reusing driver can hide a stale slot; every completed run leaves no attachment, on any list and with any driver; stale slots hold the handle of the last small block of the iteration before; a safe run has the sender's message after every iteration and counts its attach calls exactly |
| XpmemEngines.RunCached | src/bench.c:538-611 | with any driver the cached run succeeds if and only if CachedSafe, and then has the message after every iteration, leaves no attachment, and makes the attach calls of a single table |
| XpmemEngines.CachedRefinesUncached | src/xpmem_cache_dt.c:120-167 | where the uncached run is safe both leave the same memory after every iteration and the same attachments; together they build one table for every uncached iteration and one more |
| PageMemo.MemoIsPageMap | src/bench.c:426-447 | on any list with sorted pages two small blocks share a handle if and only if they share a page, as with a full page map |
| PageMemo.UniformSorted | src/bench.c:685-689 | the page bases of the program's list are monotone |
| PageMemo.UniformMemoExact | src/bench.c:426-447 | so on the program's list the memo is a full page map, in the first and in every later iteration, for all sizes and whatever handles the driver picks |
| PageMemo.AttachCallsExact | src/bench.c:426-447 | for any blocks smaller than a page, a table of the program's list costs one attach call for each page on which a block starts |
| PageMemo.AttachCallsIsPageCount | src/bench.c:560-580 | for blocks that divide a page that is ceil(nblocks * blocksize / page) |
| PageMemo.AttachCallsOfLargeBlocks | src/bench.c:573-575 | blocks of at least a page are attached one by one |
| PageMemo.TableCallsOfSizes | src/bench.c:426-447 | both cases as one number computed from sizes, for every list on which the cached engine completes |
| PageMemo.NoStraddleSizes | src/bench.c:685-689 | when no small block of the program's list straddles a page, in terms of sizes |
| PageMemo.NocacheSafeSizes | src/bench.c:405-467 | the uncached run is safe if and only if blocks are at least a page, or divide it and leave the last block off the first page |
| PageMemo.CachedSafeSizes | src/bench.c:554-603 | the cached run is safe if and only if blocks are at least a page, or divide it, or all fit in one |
| PageMemo.UniformStaleShows | src/bench.c:426-447 | on the program's lists a stale slot is never hidden by a driver that reuses addresses |
| PageMemo.OnePageBufferIsUnsafe | src/bench.c:430-439 | a one-page buffer in smaller blocks is unsafe uncached and safe cached |
| Engines.RunShmem | src/bench.c:239-263 | with one receiver, the run completes if and only if the size assert holds, leaves the result of AfterIterations in the receiver and the message in the region, and logs the one-chunk script once per iteration on each side |
| Engines.PipelinedIteration | src/bench.c:120-204 | one iteration of it: memory, region and script of both sides |
| Engines.RunPipelined | src/bench.c:120-204 | with one receiver, the run completes if and only if both lists fit and the size assert holds, with the same result in receiver and region as RunShmem and the script of the chunks once per iteration |
| Engines.RunCma | src/bench.c:306-348 | the run completes if and only if the windows fit and the size assert holds, with the same result, and reads the same windows in every iteration |
| Interleaved.EveryInterleaving | src/bench.c:120-263 | any lists of equal total, any number of receivers, any interleaving that does not stop early: each receiver ends with what RunShmem and RunPipelined leave, and each process has carried out what they log |
| Interleaved.FittingListsAreValid | src/bench.c:118-158 | every list on which the sender's unguarded loop stays in bounds, with any receivers' lists of the same total, is a configuration of the protocol |
| Interleaved.BcastAnnouncesChunk | src/bench.c:167-193 | in every reachable state the part of the announced chunk that a receiver has not read holds its iteration's message: what UnpackPipelined relies on |
| Interleaved.EveryReceiverGetsTheBuffer | src/bench.c:120-263 | on the program's lists, for block and chunk sizes that divide the buffer, every receiver ends with the sender's buffer in place of its own and nothing else changed, under every interleaving; chunk = depth is the pipelined engine, chunk = buffer the plain one |
| Engines.MessageArrives | src/bench.c:131-152 | the sender's and the receiver's layout may differ: disjoint receiver blocks hold the sender's stream after the transfer |
| Engines.AfterIterationsUniform | src/bench.c:685-689 | any positive number of transfers leaves exactly the message in the receiver's buffer |
| Sweep.InitList | src/bench.c:685-689 | the list of consecutive blocks of one size |
| Sweep.StepShmem | src/bench.c:692-693 | on one block size, succeeds if and only if it divides the buffer; starts from a cleared buffer, delivers the sender's, and runs the one-chunk script in every iteration |
| Sweep.StepPipelined | src/bench.c:697-698 | in addition the depth must divide the buffer; the script is that of its chunks |
| Sweep.StepCma | src/bench.c:705 | succeeds if and only if the list fits the limit and its broadcast count fits an int; starts and delivers the same, with its windows in every iteration |
| Sweep.StepXpmem | src/bench.c:710-714 | each XPMEM engine, given the sender's list in place of the receiver's, completes if and only if the broadcast count fits and its own size condition holds; then it starts and delivers the same, restores the attachments, and makes the attach calls of one table, or of one table per iteration |
| Sweep.StepDeliversToAll | src/bench.c:692-698 | on a safe block size both shared-memory engines deliver to any number of receivers under every interleaving |
| Sweep.SweepStep | src/bench.c:677-717 | all five engines complete if and only if StepSafe; each starts from a cleared buffer and leaves the sender's buffer in the receiver's and nothing else changed, has run its own scripts or windows in every iteration, no attachment is left, the attach calls are those of one table per uncached iteration and one more, and both shared-memory engines deliver to any number of receivers under every interleaving |
| Sweep.Doubled | src/bench.c:724 | shifting a size that fits an int left by one doubles it: no wrap of a 64-bit size_t |
| Sweep.RunSweep | src/bench.c:652-729 | the program runs to the end with every assert true if and only if 0 < smallest <= largest <= buffer and every visited block size is safe; it visits exactly the doublings of the smallest size up to the largest, terminates, at each of them does what SweepStep says, and makes the sum of their attach calls |
| Sweep.PowerStepSafe | src/bench.c:677-689 | the same for one power-of-two block size, in terms of exponents |
| Sweep.PowerSweepSafe | src/bench.c:656-729 | for power-of-two sizes, every visited block size is safe if and only if three comparisons on the arguments hold |
| Sweep.PowerSweepCalls | src/bench.c:677-714 | for power-of-two sizes, the attach calls of the first i block sizes in closed form |
| Sweep.ExampleIsSafe | README.md:51-54 | the documented arguments 4194304 4 4194304 are safe on pages of 4096 bytes and with a list limit of 1024 |
| Sweep.ExampleCalls | src/bench.c:691-714 | they make 1363857 attach calls, 56832 of them at 8192 bytes |
| Sweep.RunExample | src/bench.c:652-729 | the sweep on them completes, with 21 block sizes and that many attach calls |
| Sweep.DepthWitness | src/bench.c:160-161 | an accepted buffer that is not a whole number of chunks stops the sweep |
| Sweep.DivisionWitness | src/bench.c:244 | an accepted block size that leaves a rest stops it, also when it is reached only by doubling a safe one |
| Sweep.WindowWitness | src/bench.c:329-332 | 1536 blocks with a list limit of 1024 stop it |
| Sweep.CountWitness | src/bench.c:312 | 2^27 blocks stop it: the broadcast count does not fit an int |
| Sweep.StraddleWitness | src/bench.c:449-458 | blocks that straddle pages stop it |
| Sweep.OnePageWitness | src/bench.c:430-439 | a one-page buffer in smaller blocks stops it, in the uncached XPMEM engine only |

## Left out

- UnpackChunk: the region is fixed during one round, of which only the announced chunk is read; between rounds it may change, and the protocol modules treat the interleaving with the sender on single bytes.
- RunShmem: one receiver, which runs after the sender in every iteration; any number of receivers under every interleaving are in Interleaved.
- RunPipelined: the same.
- SweepStep: CMA and XPMEM are called for one receiver, which stands for each of them: a receiver writes only its own memory, attaches through its own driver and reads memory that nobody writes.
- RunSweep: the same.
- NocacheIteration: if an address-reusing driver could return the stale handle again (StaleShows fails, never on the program's lists), only the safe direction is stated, because the outcome then depends on which address the driver picks.
- RunNocache: the same, for the second iteration on.
- MPI beyond the ordering and waiting of Bcast, Gather and their message (the block list reaches every receiver unchanged); the Barriers between engines, which only separate them.
- The collectives of the CMA and XPMEM engines as a transition system: one Bcast and one Gather per iteration around reads of memory that nobody writes.
- The sender's fill of its buffer with 'x': its bytes are arbitrary, and in the protocol they may change between iterations.
- Failed or partial system calls (open, mmap, attach, process_vm_readv), xpmem_get and xpmem_release, allocation and freeing; page size, list limit and addresses are parameters.
- Negative command-line sizes, which atoi would turn into huge size_t values; sizes are naturals up to INT_MAX.
- Weak-memory effects: stores become visible in the order of the collectives.
- Timing, printing, and the files under src/mpi, src/type_tests and src/misc-tests, which hold no transfer logic of their own.
