# Storage lab: a verified model

The storage lab is a set of small C and C++ programs, each of which models one layer between a program and
its flash chips. This project states what five of those models guarantee and proves it with Dafny 4.11:

| layer | modules |
|---|---|
| flash translation layer | `FtlModel`, `FtlSteps`, `FtlCollect`, `FtlSpace`, `FtlRuns`, `FtlTheorems`, `Ftl` |
| NVMe queue pair | `NvmeModel`, `NvmeRuns`, `Nvme` |
| durable file replacement | `KernelModel`, `DurableSaves`, `DurableOutcomes`, `DurableReplace` |
| tiny filesystem | `Extents`, `TinyFsModel`, `Ownership`, `Paths`, `Renames`, `TreeRuns`, `TinyFs` |
| block device and io_uring rings | `BlockDevice`, `IoRing` |

`Arithmetic` and `Sums` hold the shared lemmas. `dafny verify dfyconfig.toml` checks everything.

Each layer is written twice. The code that updates arrays, maps, indexes and counters in place is a class
(`Ftl.Device`, `Nvme.QueuePair`, `DurableReplace.Process`, `TinyFs.FileSystem`, `BlockDevice.ModelDevice`,
`IoRing.Ring`), whose methods have the loops of the original and are proved equal to an operation on values.
The theorems about whole runs are about those values.

## The layers

**Flash translation layer.** Geometry is arbitrary: at least one page per block, and
1 <= LBAS <= (BLOCKS-2)*PAGES. Every page also carries the user data the original leaves implicit, so that the
meaning of a read can be stated. `naive` is the switch of the wear-levelling sample; both settings are covered.
The map holds block and page at the value level and a page number in the class. The central difficulty is the
collector: while it copies, the victim holds Valid duplicates and the map is not a bijection. The invariant is
stated instead of the `Masked` drive, in which the pages already copied count as stale. No code tests for -1
from `erased_block`; the proof that it never comes is a pigeonhole argument (`FtlSpace`) over the invariant
that one block stays erased and the open block holds a Valid page. Inside `write` more is true: the collector
is entered only just after a block was opened, its victim fits there, and one collection is enough. The write
amplification theorem uses a potential, s * NAND writes + (PAGES - s) * stale pages - PAGES * host writes, that no
host write raises.

**NVMe queue pair.** Rings of 2 to 65536 entries. Host and controller actions interleave one at a time and
are compared with an unbounded queue of all accepted commands. The full and empty conventions are those of
sections 4.1.1 and 4.1.2 of the NVM Express Base Specification 1.4. The submission side refines that queue on
every schedule. The controller does not test for a full completion ring, so the completion side does so exactly on
schedules in which no fetch happens while size - 1 completions wait (`Disciplined`,
`NvmeRuns.CompletionsSafeExactly`); a ring of any size can be overrun (`NvmeRuns.OverrunOnEverySize`). The host
can see to that on its own by keeping accepted but unreaped commands below size, as the program's `main` does
(`NvmeRuns.HostRuleSuffices`, `NvmeRuns.HostRuleNeeded`). The fields `woken` and `errors` record the calls to
`complete_request` and `report_error`.

**Durable replacement.** The kernel is explicit: cached file contents, a flag that says whether they are
synced, a last known durable directory and an ordered log of later directory operations. The assumptions are:
a failed call changes nothing; a file that is not synced holds arbitrary bytes after a crash; a crash keeps some
prefix of the directory log that includes everything flushed; rename is one operation of that log; close has no
effect. Each system call takes its outcome from a list, and where the list ends the machine stops, so every
crash point of every call is covered. Only `write` is retried when interrupted, as in the code; an interrupted
`open`, `rename` or `fsync` counts as failed. `DurableOutcomes` says which lists make a save return true, and which
false. The model is that of the Linux branch.

**Tiny filesystem.** Maps and vectors as in the C++ programs, the character scanner of the C program for path
resolution, any number of inodes and blocks (at least the four metadata blocks). The caller's duties are an
existing name for `unlink` and `rename`, and a fresh one for `create`. `create` does not test for free blocks, and
its loop ends exactly when enough are free (`Extents.LoopEndsExactly`); `create_checked` tests first. Creating
over a taken name leaks the old inode (`Ownership.CreateKeepsExactly`). `blocks_for` keeps its 64-bit sum and
32-bit cast; `TinyFsModel.BlocksForIsCeiling` says where they lose nothing. A rename breaks the tree in two ways,
into its own subtree and over an inode that has entries; `Renames.TreeKeptExactly` states when it does neither,
and `TreeRuns.RunGrowsExactly` lifts that to whole runs.

**Block device and rings.** The device works on whole blocks of 4096 bytes, and the count of touched blocks
keeps its 64-bit wrap-around: an empty write at offset 0 is the one range for which it is wrong
(`BlockDevice.TouchedIsAligned`). The io_uring ring has free-running 32-bit counters, for every ring size that
divides 2^32 and is less than it; `IoRing.WrapNeedsDivisor` and `IoRing.FullIsSeen` show that no other size works.
`enter` drops completions that do not fit and computes off + 4096 in 64 bits, and the model does the same.

## Model

| member | source | states |
|---|---|---|
| `FtlTheorems.WriteAmplification` | 06-storage-lab-inside-an-ssd-nand-ftl-in-10-minutes/10_write_amplification.c:108-153 | From a fresh drive, in any run of writes and TRIMs with at most u LBAs in use at a time, s * NAND writes <= PAGES * host writes + (PAGES - s) * effective TRIMs, where s = ceil(((BLOCKS-2)*PAGES - (u-1)) / (BLOCKS-2)); with u <= BLOCKS-2 every NAND write is a host write |
| `FtlTheorems.WriteAmplificationFrom` | 06-storage-lab-inside-an-ssd-nand-ftl-in-10-minutes/10_write_amplification.c:141-150 | The same bound counted from any ready drive, as after a counter reset; the stale pages the drive starts with are charged like TRIMs |
| `FtlTheorems.WorstAmplification` | 06-storage-lab-inside-an-ssd-nand-ftl-in-10-minutes/10_write_amplification.c:108-153 | From a fresh drive, in any run with at most u LBAs in use at a time, NAND writes <= (1 + PAGES - s) * host writes, with no TRIM term |
| `FtlTheorems.EachWriteCosts` | 06-storage-lab-inside-an-ssd-nand-ftl-in-10-minutes/10_write_amplification.c:141-150 | The same price for each write, counted from any ready drive |
| `FtlTheorems.NeverOutOfSpace` | 06-storage-lab-inside-an-ssd-nand-ftl-in-10-minutes/11_trim.c:55-91 | After any run on any geometry, the next `write`: its own `program` is given a block when the open one is full; it collects at most once; every `program` inside that collection finds a free page in the open block; two spare blocks are erased at the end. -1 is never used as an index |
| `FtlTheorems.RunRefines` | 06-storage-lab-inside-an-ssd-nand-ftl-in-10-minutes/11_trim.c:67-91 | After any run every LBA reads as its latest write left it, or as zeros when never written or trimmed since: the drive is a plain LBA-to-data map |
| `FtlTheorems.RunCounts` | 06-storage-lab-inside-an-ssd-nand-ftl-in-10-minutes/11_trim.c:73-78 | Each `write` is exactly one host write and at least one NAND write |
| `FtlTheorems.RunConserves` | 06-storage-lab-inside-an-ssd-nand-ftl-in-10-minutes/11_trim.c:67-91 | Over any run, NAND writes grow as the sum of `next` plus PAGES times the sum of `erases` |
| `FtlTheorems.ReachableState` | 06-storage-lab-inside-an-ssd-nand-ftl-in-10-minutes/11_trim.c:105-118 | Every reachable state satisfies what `consistent` tests, has two spare erased blocks, reads like the plain map, and NAND writes = sum of next + PAGES * sum of erases |
| `FtlTheorems.Run` | 06-storage-lab-inside-an-ssd-nand-ftl-in-10-minutes/11_trim.c:67-78 | Every operation of every run finds and leaves the drive ready: sound map, two spare erased blocks, same geometry |
| `FtlTheorems.GeometryIsTight` | 06-storage-lab-inside-an-ssd-nand-ftl-in-10-minutes/11_trim.c:14 | Two spare erased blocks are incompatible with more than (BLOCKS-2)*PAGES mapped LBAs |
| `FtlTheorems.GreedyIsOptimal` | 06-storage-lab-inside-an-ssd-nand-ftl-in-10-minutes/12_wear_leveling.c:42-53 | The victim costs no more copies than any other filled block, and the rule (most stale, fewest erases, lowest index) has one answer only |
| `FtlRuns.WriteKeeps` | 06-storage-lab-inside-an-ssd-nand-ftl-in-10-minutes/11_trim.c:73-78 | One `write` on a ready drive: ready again, exactly one LBA reads differently, one host write, NAND writes matched by the flash |
| `FtlRuns.WriteCollectsOnce` | 06-storage-lab-inside-an-ssd-nand-ftl-in-10-minutes/11_trim.c:77 | The loop of `write` turns at most once |
| `FtlRuns.WriteCosts` | 06-storage-lab-inside-an-ssd-nand-ftl-in-10-minutes/11_trim.c:73-91 | One host write programs at most PAGES pages, its own included |
| `FtlRuns.CopiesFindRoom` | 06-storage-lab-inside-an-ssd-nand-ftl-in-10-minutes/11_trim.c:77-87 | In the collection of a `write`, no copy ever opens a block: the open one has a free page before each |
| `FtlRuns.TurningCollects` | 06-storage-lab-inside-an-ssd-nand-ftl-in-10-minutes/11_trim.c:77-91 | Whenever the loop of `write` goes round, there is a victim, it can be collected, the loop invariant is kept and the number of stale pages falls |
| `FtlRuns.ReclaimKeeps` | 06-storage-lab-inside-an-ssd-nand-ftl-in-10-minutes/11_trim.c:77 | The loop of `write` leaves with two erased blocks, so by its first condition, without changing any LBA |
| `FtlRuns.WriteBodyKeeps` | 06-storage-lab-inside-an-ssd-nand-ftl-in-10-minutes/11_trim.c:74-76 | Invalidate and program: the page ledger moves by exactly one page and the map stays a bijection |
| `FtlRuns.TrimReady` | 06-storage-lab-inside-an-ssd-nand-ftl-in-10-minutes/11_trim.c:137-141 | TRIM keeps the drive ready, makes exactly that LBA read as zeros and touches neither counters nor the open block |
| `FtlRuns.MakeReady` | 06-storage-lab-inside-an-ssd-nand-ftl-in-10-minutes/11_trim.c:27-31 | A fresh drive is ready, reads as zeros, and has nothing stale, worn or counted |
| `FtlRuns.YieldIsReclaimable` | 06-storage-lab-inside-an-ssd-nand-ftl-in-10-minutes/11_trim.c:73-91 | With at most u LBAs mapped, each collection inside `write` reclaims at least ceil(((BLOCKS-2)*PAGES-(u-1))/(BLOCKS-2)) pages |
| `FtlRuns.CollectPays` | 06-storage-lab-inside-an-ssd-nand-ftl-in-10-minutes/11_trim.c:82-91 | A collection that reclaims at least s pages does not raise s*NAND + (PAGES-s)*stale - PAGES*host |
| `FtlSpace.CountsDecide` | 06-storage-lab-inside-an-ssd-nand-ftl-in-10-minutes/11_trim.c:105-118 | If every mapped LBA finds its own Valid page, the two counts agree exactly when every Valid page is the page its LBA maps to |
| `FtlSpace.VictimIsStale` | 06-storage-lab-inside-an-ssd-nand-ftl-in-10-minutes/11_trim.c:40-51 | Pigeonhole: with one erased block left, a victim exists and holds at least that many stale pages |
| `FtlSpace.VictimCollectable` | 06-storage-lab-inside-an-ssd-nand-ftl-in-10-minutes/11_trim.c:82-87 | A block with a stale page has been filled, and one erased block is room enough to save it |
| `FtlSpace.Crowd` | 06-storage-lab-inside-an-ssd-nand-ftl-in-10-minutes/11_trim.c:40-49 | Sealed blocks share all their pages between Valid and Stale, bounded by the stalest of them |
| `FtlCollect.CollectKeeps` | 06-storage-lab-inside-an-ssd-nand-ftl-in-10-minutes/11_trim.c:82-91 | A collection keeps the map a bijection, changes no logical value, frees exactly the stale pages of its victim and pays one NAND write for each other page of it |
| `FtlCollect.CollectMoves` | 06-storage-lab-inside-an-ssd-nand-ftl-in-10-minutes/11_trim.c:82-91 | A collection moves only LBAs whose page was in the victim, and moves them out of it |
| `FtlCollect.CollectErases` | 06-storage-lab-inside-an-ssd-nand-ftl-in-10-minutes/11_trim.c:82-91 | A collection erases exactly the victim: all its pages Free, its erase count up by one, every other count unchanged |
| `FtlCollect.CollectRoom` | 06-storage-lab-inside-an-ssd-nand-ftl-in-10-minutes/11_trim.c:82-91 | A collection gives back at least as many erased blocks as it uses |
| `FtlCollect.CopyOutKeeps` | 06-storage-lab-inside-an-ssd-nand-ftl-in-10-minutes/11_trim.c:86-87 | The copy loop keeps the map invariant of the drive with the copied pages taken for stale, though the drive itself then holds duplicates |
| `FtlCollect.CopyOutRoom` | 06-storage-lab-inside-an-ssd-nand-ftl-in-10-minutes/11_trim.c:86-87 | The copy loop opens at most one block, and none when the open block has room for all |
| `FtlCollect.CopiesFit` | 06-storage-lab-inside-an-ssd-nand-ftl-in-10-minutes/11_trim.c:86-87 | When the open block has room for all of the victim, it has room for what is left at each page of the copy loop, and stays open |
| `FtlCollect.CopiedThenOut` | 06-storage-lab-inside-an-ssd-nand-ftl-in-10-minutes/11_trim.c:86-87 | The states inside the copy loop: from each of them, copying the rest gives the whole copy |
| `FtlCollect.CopyOnce` | 06-storage-lab-inside-an-ssd-nand-ftl-in-10-minutes/11_trim.c:86-87 | Copying one page is TRIM followed by program on that drive |
| `FtlCollect.BlockCounts` | 06-storage-lab-inside-an-ssd-nand-ftl-in-10-minutes/11_trim.c:67-72 | A block holds exactly `next` Valid or Stale pages |
| `FtlSteps.TrimKeeps` | 06-storage-lab-inside-an-ssd-nand-ftl-in-10-minutes/11_trim.c:137-141 | TRIM keeps the frame and the map, and the ownership of Valid pages in both directions |
| `FtlSteps.TrimCounts` | 06-storage-lab-inside-an-ssd-nand-ftl-in-10-minutes/11_trim.c:137-141 | TRIM turns exactly one Valid page stale if the LBA was mapped, otherwise none |
| `FtlSteps.ProgramKeeps` | 06-storage-lab-inside-an-ssd-nand-ftl-in-10-minutes/11_trim.c:67-72 | Programming an unmapped LBA adds one Valid page, one mapped LBA and one NAND write, and changes that LBA only |
| `FtlSteps.RewriteKeeps` | 06-storage-lab-inside-an-ssd-nand-ftl-in-10-minutes/11_trim.c:75-76 | Invalidate then program: values, page counts and untouched fields |
| `FtlModel.ErasedBlockUpTo` | 06-storage-lab-inside-an-ssd-nand-ftl-in-10-minutes/12_wear_leveling.c:57-66 | After n blocks `erased_block` holds the least worn erased block, first index on ties, or the first one when naive; -1 exactly when there is none |
| `FtlModel.VictimUpTo` | 06-storage-lab-inside-an-ssd-nand-ftl-in-10-minutes/12_wear_leveling.c:42-53 | After n blocks `victim` holds the lexicographic best, or -1 exactly when none has a stale page |
| `FtlModel.ErasedBlockFound` | 06-storage-lab-inside-an-ssd-nand-ftl-in-10-minutes/11_trim.c:34-63 | `erased_block` finds a block exactly when `erased_blocks` is not zero |
| `FtlModel.ProgramPlaces` | 06-storage-lab-inside-an-ssd-nand-ftl-in-10-minutes/12_wear_leveling.c:57-76 | `program` writes the next page of the open block; when that is full it opens the spare block with fewest erases, lowest index on ties, or the lowest index when naive; nothing else of flash, map or counters changes |
| `FtlModel.VictimIsStalestFirst` | 06-storage-lab-inside-an-ssd-nand-ftl-in-10-minutes/12_wear_leveling.c:42-53 | The victim has the most stale pages, then the fewest erases (not when naive), then the lowest index; -1 only when nothing is stale |
| `FtlModel.ProgramFrame` | 06-storage-lab-inside-an-ssd-nand-ftl-in-10-minutes/11_trim.c:67-72 | `program` keeps pages programmed in order, leaves filled blocks alone and uses a spare block only when the open one is full |
| `FtlModel.CopyStep` | 06-storage-lab-inside-an-ssd-nand-ftl-in-10-minutes/11_trim.c:86-87 | The room for the rest of the victim survives each copy, even when `program` opens a block in between |
| `Ftl.PageNumber` | 06-storage-lab-inside-an-ssd-nand-ftl-in-10-minutes/11_trim.c:33 | Page number block*PAGES+page decodes to that block and page |
| `Ftl.Device.constructor` | 06-storage-lab-inside-an-ssd-nand-ftl-in-10-minutes/11_trim.c:27-31 | A new device is the fresh drive and is ready |
| `Ftl.Device.CountErased` | 06-storage-lab-inside-an-ssd-nand-ftl-in-10-minutes/11_trim.c:34-39 | Counts the erased blocks other than the open one |
| `Ftl.Device.FindVictim` | 06-storage-lab-inside-an-ssd-nand-ftl-in-10-minutes/12_wear_leveling.c:42-53 | The scan returns the lexicographic best victim |
| `Ftl.Device.FindErased` | 06-storage-lab-inside-an-ssd-nand-ftl-in-10-minutes/12_wear_leveling.c:57-66 | The scan returns the least worn erased block, or the first when naive, or -1 |
| `Ftl.Device.Program` | 06-storage-lab-inside-an-ssd-nand-ftl-in-10-minutes/12_wear_leveling.c:57-76 | The in-place update is the specified `program`; the block it opens is the one of first choice, and the map entry is the number of the page just filled |
| `Ftl.Device.Rewrite` | 06-storage-lab-inside-an-ssd-nand-ftl-in-10-minutes/11_trim.c:74-76 | `write` up to its loop: the old page goes stale, the new one is programmed |
| `Ftl.Device.MarkStale` | 06-storage-lab-inside-an-ssd-nand-ftl-in-10-minutes/11_trim.c:33 | Exactly the page of that number becomes stale |
| `Ftl.Device.SaveValid` | 06-storage-lab-inside-an-ssd-nand-ftl-in-10-minutes/11_trim.c:86-87 | The copy loop in place is the specified one |
| `Ftl.Device.GarbageCollect` | 06-storage-lab-inside-an-ssd-nand-ftl-in-10-minutes/11_trim.c:82-91 | Refuses exactly when nothing is stale, otherwise is the specified collection |
| `Ftl.Device.Write` | 06-storage-lab-inside-an-ssd-nand-ftl-in-10-minutes/11_trim.c:73-78 | The whole host write in place, with its loop; the LBA reads as written, all others as before, and the drive is ready again |
| `Ftl.Device.Trim` | 06-storage-lab-inside-an-ssd-nand-ftl-in-10-minutes/11_trim.c:137-141 | TRIM in place |
| `Ftl.Device.Consistent` | 06-storage-lab-inside-an-ssd-nand-ftl-in-10-minutes/11_trim.c:105-118 | For a map whose entries are in range: true exactly when the map is a bijection from mapped LBAs onto Valid pages, with the reverse map as inverse |
| `NvmeRuns.CompletionsSafeExactly` | 07-storage-lab-inside-nvme-queues-in-10-minutes/10_reap.c:53-102 | For every ring size and every schedule of submit, doorbells, fetches and reaps: at each point the host could reap exactly the fetched commands in order, if and only if no fetch happens while kSize-1 completions wait |
| `NvmeRuns.ExactlyOnceInOrder` | 07-storage-lab-inside-nvme-queues-in-10-minutes/10_reap.c:53-102 | On such schedules the reaped ids are a prefix of the accepted ids, none lost, repeated or reordered; RAM holds the fetched transfers in order; no errors; the ids in flight are distinct across the 16-bit wrap-around exactly while at most 65536 are |
| `NvmeRuns.ReadArrives` | 07-storage-lab-inside-nvme-queues-in-10-minutes/10_reap.c:53-86 | Submit, ring and fetch on an idle pair: the 4096 bytes at the buffer become the low byte of the LBA, no other byte changes; the ring entries hold opcode 2, namespace 1, LBA and buffer each in its field |
| `NvmeRuns.RamIsLastRead` | 07-storage-lab-inside-nvme-queues-in-10-minutes/10_reap.c:72-86 | In every reachable state each byte of RAM belongs to the last fetched command whose page covers it |
| `NvmeRuns.ReapReports` | 07-storage-lab-inside-nvme-queues-in-10-minutes/10_reap.c:95-98 | A completion wakes its command, and is counted as an error exactly when its status is more than the phase bit |
| `NvmeRuns.DoorbellsCounted` | 07-storage-lab-inside-nvme-queues-in-10-minutes/10_reap.c:62-64 | Over any run, one doorbell write for each doorbell event and for nothing else |
| `NvmeRuns.HostRuleSuffices` | 07-storage-lab-inside-nvme-queues-in-10-minutes/10_reap.c:109-134 | A host that keeps accepted but unreaped commands at kSize-1 or fewer, as `main` does, is safe whatever the controller does and when |
| `NvmeRuns.HostRuleNeeded` | 07-storage-lab-inside-nvme-queues-in-10-minutes/10_reap.c:76-86 | If the host rings and reaps nothing, a controller that runs on stays safe exactly when there is room for the completions of everything accepted |
| `NvmeRuns.OneTooMany` | 07-storage-lab-inside-nvme-queues-in-10-minutes/10_reap.c:76-86 | After any safe schedule, one fetch with kSize-1 completions waiting leaves the host no completion to see and kSize commands unanswered |
| `NvmeRuns.OverrunOnEverySize` | 07-storage-lab-inside-nvme-queues-in-10-minutes/10_reap.c:76-86 | A failing schedule for every ring size: kSize rounds of submit, doorbell and fetch without a reap |
| `NvmeRuns.RingInCyclicOrder` | 07-storage-lab-inside-nvme-queues-in-10-minutes/10_reap.c:42-86 | In every reachable state of every schedule, the SQ doorbell lies cyclically between head and tail, the slots from head to tail are the unfetched commands in order, and `submit` refuses exactly when kSize-1 are unfetched |
| `NvmeRuns.BatchingIsTransparent` | 07-storage-lab-inside-nvme-queues-in-10-minutes/08_submit.c:67-84 | Two safe schedules with the same accepted commands and room for their completions, followed by ring, run and reap, give the same completion order, the same RAM and the same queue pair, doorbell count apart |
| `NvmeRuns.SubmitRefuses` | 07-storage-lab-inside-nvme-queues-in-10-minutes/10_reap.c:54 | next(tail) == head exactly when size-1 accepted commands are unfetched (NVM Express Base Specification 1.4, section 4.1.2) |
| `NvmeRuns.SubmitFront` | 07-storage-lab-inside-nvme-queues-in-10-minutes/10_reap.c:53-61 | A submit appends one command to the reference queue or is refused, and overwrites no unfetched slot |
| `NvmeRuns.FetchFront` | 07-storage-lab-inside-nvme-queues-in-10-minutes/10_reap.c:77-81 | A controller round takes the oldest rung command and transfers it, on any schedule |
| `NvmeRuns.FetchBack` | 07-storage-lab-inside-nvme-queues-in-10-minutes/10_reap.c:82-84 | With fewer than kSize-1 completions waiting, its completion overwrites none of them |
| `NvmeRuns.FetchHides` | 07-storage-lab-inside-nvme-queues-in-10-minutes/10_reap.c:82-84 | With kSize-1 waiting, the completion ring looks empty afterwards |
| `NvmeRuns.ReapBack` | 07-storage-lab-inside-nvme-queues-in-10-minutes/10_reap.c:94-99 | A host round takes the oldest completion |
| `NvmeRuns.RunFront` | 07-storage-lab-inside-nvme-queues-in-10-minutes/10_reap.c:53-102 | The submission ring and RAM refine the reference over every run, safe or not |
| `NvmeRuns.RunRefines` | 07-storage-lab-inside-nvme-queues-in-10-minutes/10_reap.c:53-102 | The whole queue pair does over every safe run, from any refined state |
| `NvmeRuns.Determined` | 07-storage-lab-inside-nvme-queues-in-10-minutes/10_reap.c:42-50 | The reference state fixes the queue pair down to stale slot contents, doorbell count apart |
| `NvmeModel.FetchShowsUnlessFull` | 07-storage-lab-inside-nvme-queues-in-10-minutes/10_reap.c:76-86 | A fetch adds one visible completion exactly when fewer than size-1 are visible, and hides all of them otherwise |
| `NvmeModel.Step` | 07-storage-lab-inside-nvme-queues-in-10-minutes/10_reap.c:53-102 | Every action keeps the indexes inside the rings |
| `Nvme.QueuePair.constructor` | 07-storage-lab-inside-nvme-queues-in-10-minutes/10_reap.c:42-50 | A new pair is all zero |
| `Nvme.QueuePair.Advance` | 07-storage-lab-inside-nvme-queues-in-10-minutes/10_reap.c:41 | (i + 1) % kSize in 16 bits is the next index, also for 65536 entries |
| `Nvme.QueuePair.Submit` | 07-storage-lab-inside-nvme-queues-in-10-minutes/10_reap.c:53-61 | Refused exactly when the ring is full; otherwise the tail slot holds a read of this LBA into this buffer under the next 16-bit id, for any LBA and buffer |
| `Nvme.QueuePair.RingSqDoorbell` | 07-storage-lab-inside-nvme-queues-in-10-minutes/10_reap.c:62-64 | In place, the doorbell step |
| `Nvme.QueuePair.DmaWrite` | 07-storage-lab-inside-nvme-queues-in-10-minutes/10_reap.c:72-74 | The low byte of the LBA fills the 4096 bytes at prp1 and no other |
| `Nvme.QueuePair.ControllerRun` | 07-storage-lab-inside-nvme-queues-in-10-minutes/10_reap.c:76-86 | For buffers inside host RAM: fetches exactly the commands between head and doorbell, one step each, and stops at the doorbell |
| `Nvme.QueuePair.TakeCompletion` | 07-storage-lab-inside-nvme-queues-in-10-minutes/10_reap.c:95-98 | Wakes the command of the oldest completion and counts an error exactly for a status above 1 |
| `Nvme.QueuePair.RingCqDoorbell` | 07-storage-lab-inside-nvme-queues-in-10-minutes/10_reap.c:100 | In place, the completion doorbell step |
| `Nvme.QueuePair.Reap` | 07-storage-lab-inside-nvme-queues-in-10-minutes/10_reap.c:92-102 | Takes every visible completion, returns their number and rings back once |
| `DurableSaves.NeverLostNeverMixed` | 05-storage-lab-linux-page-cache-in-10-minutes/10_durable_replace.c:42-66 | After any history of saves, short writes, interruptions, failures, crashes and restarts, whatever a further crash keeps: the destination holds, whole, the last acknowledged version or a later attempted one |
| `DurableOutcomes.AcknowledgedNeverLost` | 05-storage-lab-linux-page-cache-in-10-minutes/10_durable_replace.c:42-66 | Judged by the outcomes alone: once all calls of a save have succeeded, whatever other saves and crashes do, the destination holds whole what that save or a later attempt wrote |
| `DurableOutcomes.SaveReturnsExactly` | 05-storage-lab-linux-page-cache-in-10-minutes/10_durable_replace.c:42-66 | A save returns true exactly when open succeeds, any mix of interrupted and short writes covers the data, and fsync, rename, open of the directory and its fsync succeed; false exactly when one of these fails and the directory open was still answered |
| `DurableOutcomes.AcknowledgedHolds` | 05-storage-lab-linux-page-cache-in-10-minutes/10_durable_replace.c:42-66 | Then the destination holds the data, safe from every crash |
| `DurableOutcomes.WritesCover` | 05-storage-lab-linux-page-cache-in-10-minutes/10_durable_replace.c:42-53 | Interrupted and short writes that add up to the data make `write_all` return true, having used exactly those outcomes |
| `DurableOutcomes.WritesBreak` | 05-storage-lab-linux-page-cache-in-10-minutes/10_durable_replace.c:45-49 | The first error other than EINTR before that makes it return false |
| `DurableOutcomes.WritesStop` | 05-storage-lab-linux-page-cache-in-10-minutes/10_durable_replace.c:44-51 | Until either it goes on |
| `DurableOutcomes.SwitchExactly` | 05-storage-lab-linux-page-cache-in-10-minutes/10_durable_replace.c:61-65 | The second half succeeds exactly when the first did and all three calls succeed; the directory is opened in any case |
| `DurableSaves.SaveKeeps` | 05-storage-lab-linux-page-cache-in-10-minutes/10_durable_replace.c:56-66 | At every stopping point of one call the destination is safe; a call that returned true leaves its data as the only version a crash can leave |
| `DurableSaves.PrepareKeeps` | 05-storage-lab-linux-page-cache-in-10-minutes/10_durable_replace.c:58-60 | Open, write and fsync never disturb a file the destination may fall back to; on success the temporary file is complete and durable |
| `DurableSaves.RenameKeeps` | 05-storage-lab-linux-page-cache-in-10-minutes/10_durable_replace.c:61 | Renaming a synced temporary file keeps both versions whole at every surviving prefix of the directory log |
| `DurableSaves.SyncDirKeeps` | 05-storage-lab-linux-page-cache-in-10-minutes/10_durable_replace.c:62-63 | The directory flush forgets every older version |
| `DurableSaves.WriteAllKeeps` | 05-storage-lab-linux-page-cache-in-10-minutes/10_durable_replace.c:42-53 | Short and interrupted writes accumulate to exactly the data, or the call reports failure |
| `DurableSaves.CrashKeeps` | 05-storage-lab-linux-page-cache-in-10-minutes/10_durable_replace.c:55-66 | A crash leaves a safe state holding one of the allowed versions |
| `DurableSaves.Live` | 05-storage-lab-linux-page-cache-in-10-minutes/10_durable_replace.c:56-66 | Safety of the state reached by any list of saves with restarts; acknowledgements only move forward |
| `DurableSaves.LiveVersions` | 05-storage-lab-linux-page-cache-in-10-minutes/10_durable_replace.c:56-66 | The versions a history may hold are the start and each attempted save, in order |
| `DurableSaves.DataFlushNeeded` | 05-storage-lab-linux-page-cache-in-10-minutes/10_durable_replace.c:59 | Without the data flush, a crash can leave any bytes under the destination name |
| `DurableSaves.DirectoryFlushNeeded` | 05-storage-lab-linux-page-cache-in-10-minutes/10_durable_replace.c:62-63 | Without the directory flush, a completed rename can be undone |
| `DurableReplace.Process.WriteAll` | 05-storage-lab-linux-page-cache-in-10-minutes/10_durable_replace.c:42-53 | The loop, one system call after another, is the specified run |
| `DurableReplace.Process.WriteDurably` | 05-storage-lab-linux-page-cache-in-10-minutes/10_durable_replace.c:58-60 | Open, write all, fsync: the specified run, including where the machine stops |
| `DurableReplace.Process.SwitchName` | 05-storage-lab-linux-page-cache-in-10-minutes/10_durable_replace.c:61-65 | The specified run; true exactly when the data was written and rename, open and fsync of the directory succeed |
| `DurableReplace.Process.Replace` | 05-storage-lab-linux-page-cache-in-10-minutes/10_durable_replace.c:56-66 | True exactly on the outcomes that acknowledge a save, false exactly on those that refuse one; then the destination holds the data; safe at every stopping point |
| `Ownership.EveryRunAccounted` | 03-storage-lab-how-filesystems-work-in-10-minutes/08_create_file.cpp:36-110 | After every run of `create_checked` with fresh names and `unlink` of existing ones: used bits are exactly blocks 0-3 and the disjoint extents of live inodes, each owning blocks_for(size) blocks, and `free_blocks` counts all the others |
| `Ownership.RunConserves` | 03-storage-lab-how-filesystems-work-in-10-minutes/08_create_file.cpp:43-110 | Over any run no block leaks: metadata, owned and free blocks add up to the device |
| `Ownership.ReleaseFrees` | 03-storage-lab-how-filesystems-work-in-10-minutes/08_create_file.cpp:84-85 | Clearing the bits of a file makes exactly that many more blocks free |
| `Ownership.CreateIsFirstFit` | 03-storage-lab-how-filesystems-work-in-10-minutes/08_create_file.cpp:54-75 | A created file owns exactly the lowest-numbered free blocks, ascending, with a used block between consecutive extents |
| `Ownership.CreatedAreLowest` | 03-storage-lab-how-filesystems-work-in-10-minutes/08_create_file.cpp:54-75 | Each block of a created file was free and lies below every block that stays free, and there are blocks_for(size) of them |
| `Ownership.CreateThenUnlink` | 03-storage-lab-how-filesystems-work-in-10-minutes/08_create_file.cpp:65-87 | Create then unlink restores bitmap, names and inodes bit for bit; only the inode number is spent |
| `Ownership.CreateKeeps` | 03-storage-lab-how-filesystems-work-in-10-minutes/08_create_file.cpp:99-110 | `create_checked`, accepted or refused, keeps block ownership and names |
| `Ownership.CreateKeepsExactly` | 03-storage-lab-how-filesystems-work-in-10-minutes/08_create_file.cpp:99-110 | `create_checked` keeps blocks and names accounted for exactly when it refuses or the name is fresh; over a taken name it leaks the old inode |
| `Ownership.UnlinkKeeps` | 03-storage-lab-how-filesystems-work-in-10-minutes/08_create_file.cpp:79-87 | `unlink` keeps block ownership and names |
| `Ownership.MakeGood` | 03-storage-lab-how-filesystems-work-in-10-minutes/08_create_file.cpp:36-41 | A new filesystem is accounted for |
| `TinyFsModel.MakeLeaves` | 03-storage-lab-how-filesystems-work-in-10-minutes/08_create_file.cpp:36-41 | A new filesystem field by field: blocks 0 to 3 in use, an empty root at inode 2, inode 11 next |
| `TinyFsModel.CreateLeaves` | 03-storage-lab-how-filesystems-work-in-10-minutes/08_create_file.cpp:65-75 | `create` field by field: next inode with one link and the size, one name, every other inode and name as before |
| `TinyFsModel.CreateCheckedExactly` | 03-storage-lab-how-filesystems-work-in-10-minutes/08_create_file.cpp:99-110 | Gives out the next inode exactly when blocks and inodes suffice; otherwise returns 0 and changes nothing |
| `TinyFsModel.MakeDirLeaves` | 03-storage-lab-how-filesystems-work-in-10-minutes/09_resolve_path.cpp:75-81 | One inode with directory mode and two links, its name in the parent, a table of its own, no block used |
| `TinyFsModel.UnlinkLeaves` | 03-storage-lab-how-filesystems-work-in-10-minutes/08_create_file.cpp:79-87 | The name goes; with other links left the file loses one and keeps its blocks, with the last link exactly its blocks are freed and the inode is blank |
| `Extents.TakeIsLowest` | 03-storage-lab-how-filesystems-work-in-10-minutes/08_create_file.cpp:67-72 | The extents of one file list the lowest free blocks in order, and the rest stay free |
| `Extents.TakeIsGapped` | 03-storage-lab-how-filesystems-work-in-10-minutes/08_create_file.cpp:54-72 | Between consecutive extents of a file lies a block that was in use |
| `Extents.TakeMarks` | 03-storage-lab-how-filesystems-work-in-10-minutes/08_create_file.cpp:54-72 | Afterwards a block is used exactly if it was or the file got it |
| `Extents.FreeIsListed` | 03-storage-lab-how-filesystems-work-in-10-minutes/08_create_file.cpp:43-47 | The list of free blocks holds the free ones and no other |
| `Extents.PickTakesLowest` | 03-storage-lab-how-filesystems-work-in-10-minutes/06_alloc_blocks.c:27-34 | One allocation takes the lowest free blocks, and takes some unless nothing is free or wanted |
| `Extents.PickOnFullDisk` | 03-storage-lab-how-filesystems-work-in-10-minutes/06_alloc_blocks.c:61-68 | On a full disk an allocation yields no block and changes nothing, which the retry loop must test for |
| `Extents.LoopEndsExactly` | 03-storage-lab-how-filesystems-work-in-10-minutes/08_create_file.cpp:67-72 | The loop of `create`, which does not check first, ends exactly when need <= number of free blocks |
| `Extents.RoundsCover` | 03-storage-lab-how-filesystems-work-in-10-minutes/08_create_file.cpp:67-72 | With enough free blocks it ends after at most `need` rounds, with the bitmap of the whole file |
| `Extents.RoundsLeaveShortfall` | 03-storage-lab-how-filesystems-work-in-10-minutes/08_create_file.cpp:67-72 | Otherwise the shortfall is still needed after any number of rounds |
| `Ownership.CreateNeverEnds` | 03-storage-lab-how-filesystems-work-in-10-minutes/08_create_file.cpp:65-75 | A failing input: 61 blocks asked of a new filesystem of 64, of which 60 are free |
| `TinyFsModel.BlocksForIsCeiling` | 03-storage-lab-how-filesystems-work-in-10-minutes/08_create_file.cpp:42 | For 64-bit sizes blocks_for is the ceiling exactly when the size needs at most 2^32 - 1 blocks |
| `Renames.RenameMovesSubtree` | 03-storage-lab-how-filesystems-work-in-10-minutes/09_resolve_path.cpp:84-102 | For every target directory outside what moves, the new name free or taken: new path/s resolves to what old path/s did; old path/s gives 0 unless it runs through the new name; every path through neither is unchanged |
| `Renames.TreeKeptExactly` | 03-storage-lab-how-filesystems-work-in-10-minutes/09_resolve_path.cpp:84-88 | The tree survives exactly when the target directory is outside the moved subtree and the new name is free, or the old one itself, or led to an inode without entries other than the one that moves |
| `Renames.RenameKeepsTree` | 03-storage-lab-how-filesystems-work-in-10-minutes/09_resolve_path.cpp:84-88 | The half of it that keeps the tree |
| `Renames.CutOff` | 03-storage-lab-how-filesystems-work-in-10-minutes/09_resolve_path.cpp:84-88 | Renaming a directory into its own subtree breaks the tree |
| `Renames.Orphaned` | 03-storage-lab-how-filesystems-work-in-10-minutes/09_resolve_path.cpp:84-88 | Renaming over an inode that has other entries breaks the tree |
| `Renames.RenameOverDirectory` | 03-storage-lab-how-filesystems-work-in-10-minutes/09_resolve_path.cpp:84-88 | A failing input: /a renamed over the directory /b that holds a file |
| `Renames.AddKeepsTree` | 03-storage-lab-how-filesystems-work-in-10-minutes/09_resolve_path.cpp:62-81 | A name for a new inode keeps the tree exactly when it was free or led to an inode without entries |
| `TreeRuns.RunGrowsExactly` | 03-storage-lab-how-filesystems-work-in-10-minutes/09_resolve_path.cpp:62-102 | Over any run of `create`, `make_dir` and `rename`, the directories are a tree after each operation exactly when each was harmless in that sense |
| `TreeRuns.EveryRunIsTree` | 03-storage-lab-how-filesystems-work-in-10-minutes/09_resolve_path.cpp:62-102 | From a new filesystem likewise; then two paths to one inode have the same components and only slashes lead to the root |
| `TreeRuns.RenameOnPaths` | 03-storage-lab-how-filesystems-work-in-10-minutes/09_resolve_path.cpp:84-102 | The subtree move in path strings, with every other path unchanged |
| `Paths.OnePath` | 03-storage-lab-how-filesystems-work-in-10-minutes/09_resolve_path.cpp:92-102 | In a tree one list of names leads to an inode |
| `Paths.PartsJoin` | 03-storage-lab-how-filesystems-work-in-10-minutes/09_resolve_path.c:120-134 | The components of a/b are those of a and then those of b |
| `Paths.PartsOfJoin` | 03-storage-lab-how-filesystems-work-in-10-minutes/09_resolve_path.c:120-134 | Joining proper names with slashes and splitting again gives the names back |
| `Paths.LeadingSlash` | 03-storage-lab-how-filesystems-work-in-10-minutes/09_resolve_path.c:125 | A leading slash makes no difference |
| `Paths.TrailingSlash` | 03-storage-lab-how-filesystems-work-in-10-minutes/09_resolve_path.c:131 | A trailing slash makes no difference |
| `Paths.DoubleSlash` | 03-storage-lab-how-filesystems-work-in-10-minutes/09_resolve_path.cpp:95-96 | Repeated slashes make no difference |
| `Paths.WalkAppend` | 03-storage-lab-how-filesystems-work-in-10-minutes/09_resolve_path.cpp:92-102 | Walking a list of names is walking its parts one after the other |
| `Paths.ResolveJoin` | 03-storage-lab-how-filesystems-work-in-10-minutes/09_resolve_path.cpp:92-102 | Resolving a/b is resolving b from the result of a, when that is not 0 |
| `Paths.ResolveEntry` | 03-storage-lab-how-filesystems-work-in-10-minutes/09_resolve_path.cpp:92-102 | One component more is one lookup more, 0 when the name is missing; the empty path and / give inode 2 |
| `Paths.MissingIsFinal` | 03-storage-lab-how-filesystems-work-in-10-minutes/09_resolve_path.cpp:92-102 | A missing component gives 0, whatever follows it |
| `TinyFs.FileSystem.constructor` | 03-storage-lab-how-filesystems-work-in-10-minutes/08_create_file.cpp:36-41 | A new filesystem, accounted for |
| `TinyFs.FileSystem.FreeCount` | 03-storage-lab-how-filesystems-work-in-10-minutes/08_create_file.cpp:43-47 | Counts the free blocks |
| `TinyFs.FileSystem.Alloc` | 03-storage-lab-how-filesystems-work-in-10-minutes/08_create_file.cpp:54-61 | The scan and the growing run: the first free block, the longest run up to the wish, exactly those bits set |
| `TinyFs.FileSystem.AllocAll` | 03-storage-lab-how-filesystems-work-in-10-minutes/08_create_file.cpp:67-72 | The loop of `create` ends when enough blocks are free and yields the specified extents |
| `TinyFs.FileSystem.Create` | 03-storage-lab-how-filesystems-work-in-10-minutes/08_create_file.cpp:65-75 | In place, the specified create |
| `TinyFs.FileSystem.CreateChecked` | 03-storage-lab-how-filesystems-work-in-10-minutes/08_create_file.cpp:99-110 | Creates with the next inode when blocks and inodes suffice, otherwise returns 0 with the state unchanged; keeps ownership |
| `TinyFs.FileSystem.Unlink` | 03-storage-lab-how-filesystems-work-in-10-minutes/08_create_file.cpp:79-87 | In place, the specified unlink: other links keep the blocks, the last one clears exactly the file's bits |
| `TinyFs.FileSystem.MakeDir` | 03-storage-lab-how-filesystems-work-in-10-minutes/09_resolve_path.cpp:75-81 | In place, the specified make_dir |
| `TinyFs.FileSystem.Rename` | 03-storage-lab-how-filesystems-work-in-10-minutes/09_resolve_path.cpp:84-88 | In place, the specified rename |
| `TinyFs.FileSystem.Resolve` | 03-storage-lab-how-filesystems-work-in-10-minutes/09_resolve_path.c:120-134 | The character scanner equals splitting on slashes, dropping empty parts and one lookup per part |
| `TinyFs.NextComponent` | 03-storage-lab-how-filesystems-work-in-10-minutes/09_resolve_path.c:122-131 | One round of the scanner is one component |
| `BlockDevice.TouchedIsAligned` | 02-storage-lab-blocks-sectors-pages-in-10-minutes/09_misaligned_write.c:21-25 | blocks_touched is the aligned range in blocks, for every range but the empty one at offset 0 |
| `BlockDevice.AlignedIsNearest` | 02-storage-lab-blocks-sectors-pages-in-10-minutes/11_align_io.cpp:13-18 | align_down and align_up give the nearest multiples on either side |
| `BlockDevice.OverlayBytes` | 02-storage-lab-blocks-sectors-pages-in-10-minutes/09_misaligned_write.c:50-67 | The plain copy byte by byte |
| `BlockDevice.ReadsOnlyAtTheEnds` | 02-storage-lab-blocks-sectors-pages-in-10-minutes/09_misaligned_write.c:54-62 | Only the first and the last block of a range can be partly covered |
| `BlockDevice.ModelDevice.constructor` | 02-storage-lab-blocks-sectors-pages-in-10-minutes/09_misaligned_write.c:36-42 | A new device reads as zeros, with counters at zero |
| `BlockDevice.ModelDevice.WriteBlock` | 02-storage-lab-blocks-sectors-pages-in-10-minutes/09_misaligned_write.c:55-65 | One read-modify-write: exactly the bytes of the range in that block change, and the block is read exactly when partly covered |
| `BlockDevice.ModelDevice.Write` | 02-storage-lab-blocks-sectors-pages-in-10-minutes/09_misaligned_write.c:50-67 | Byte by byte: the range holds the source, every other byte is as before; writes blocks_touched blocks, and reads exactly the partly covered ones, at most two |
| `IoRing.WrapNeedsDivisor` | 08-storage-lab-buffered-vs-direct-io-in-10-minutes/10_uring_model.cpp:14-31 | counter % N steps around the ring for every 32-bit counter exactly when N divides 2^32 |
| `IoRing.FullIsSeen` | 08-storage-lab-buffered-vs-direct-io-in-10-minutes/10_uring_model.cpp:18-20 | size() == N holds of a full ring exactly when N < 2^32 |
| `IoRing.PlacesApart` | 08-storage-lab-buffered-vs-direct-io-in-10-minutes/10_uring_model.cpp:14-31 | Entries less than N apart use different slots, across the wrap-around too |
| `IoRing.QueuePush` | 08-storage-lab-buffered-vs-direct-io-in-10-minutes/10_uring_model.cpp:19-24 | Storing at tail % N appends to the queue |
| `IoRing.QueuePop` | 08-storage-lab-buffered-vs-direct-io-in-10-minutes/10_uring_model.cpp:25-30 | Moving the head on removes the first entry |
| `IoRing.ResultIsRange` | 08-storage-lab-buffered-vs-direct-io-in-10-minutes/10_uring_model.cpp:46-47 | A read succeeds exactly when it lies inside the file, exactly for offsets whose end does not overflow 64 bits |
| `IoRing.ResultsAnswer` | 08-storage-lab-buffered-vs-direct-io-in-10-minutes/10_uring_model.cpp:45-50 | Completion i carries the user_data of submission i, and 4096 or -22 by the rule of the model |
| `IoRing.OfferedIsPrefix` | 08-storage-lab-buffered-vs-direct-io-in-10-minutes/10_uring_model.cpp:45-50 | Of the completions offered, those that fit are kept in order and the rest is dropped |
| `IoRing.Ring.constructor` | 08-storage-lab-buffered-vs-direct-io-in-10-minutes/10_uring_model.cpp:14-18 | A new ring is empty |
| `IoRing.Ring.Push` | 08-storage-lab-buffered-vs-direct-io-in-10-minutes/10_uring_model.cpp:19-24 | Refused exactly when N entries wait, otherwise appends, for any counter values |
| `IoRing.Ring.Pop` | 08-storage-lab-buffered-vs-direct-io-in-10-minutes/10_uring_model.cpp:25-30 | Empty exactly when nothing waits, otherwise the first entry |
| `IoRing.Serve` | 08-storage-lab-buffered-vs-direct-io-in-10-minutes/10_uring_model.cpp:46-47 | 4096 exactly for a read that lies inside the file or whose end overflows 64 bits, otherwise -22 |
| `IoRing.PostingRound` | 08-storage-lab-buffered-vs-direct-io-in-10-minutes/10_uring_model.cpp:45-50 | One round of the loop takes one submission and offers its completion behind the earlier ones |
| `IoRing.Enter` | 08-storage-lab-buffered-vs-direct-io-in-10-minutes/10_uring_model.cpp:42-53 | Drains the submission ring and posts one completion per entry, in order; none is dropped exactly when pending and submitted fit together, and then completion i answers submission i |

## Left out

- Printing, reporting and the demonstration `main` functions: input and output only.
- Random number generators: every sequence of LBAs is covered instead.
- The ratio `waf` as a floating-point number: the bound is stated on the two counters.
- A bound on the spread of wear: cold data never moves, so the programs intend none.
- Overflow of the FTL's `long` and `int` counters: they are mathematical integers here.
- `write_no_gc` of the collection sample: `write` without its loop, covered by `FtlRuns.WriteBodyKeeps`.
- The NVMe phase bit, error statuses and entry fields that stay zero: the controller always writes status 1 and `reap` compares indexes.
- Real system calls, mmap, direct I/O, the Windows and portable branches of the replace program: no durability is claimed there.
- Several processes saving to the same destination at once: the program is a single process.
- BlockDevice.ModelDevice.Write: excludes the empty write at offset 0, for which the loop of the original would run past the device; empty writes at later offsets are covered.
- IoRing.Ring.constructor: takes N to divide 2^32 and to be less than it; other sizes do not survive the wrap-around or never read as full (`IoRing.WrapNeedsDivisor`, `IoRing.FullIsSeen`).
- Ftl.Device.Consistent: takes map entries in range, as every reachable state has them; the original would read outside its arrays otherwise.
- Nvme.QueuePair.ControllerRun: takes the buffers of the commands it fetches to lie inside host RAM; the transfer of the original has no bound of its own.
- TinyFs.FileSystem.Create: takes a free inode and enough free blocks; without the blocks the loop of the original never ends (`Extents.LoopEndsExactly`), without the inode it writes outside its table.
- The C limits of the tiny filesystem (8 extents, 32 directory rows, 31-character names): the C++ maps and vectors are the reference.
- TinyFs.FileSystem.Resolve: does not insert the empty name table that the C++ lookup `dirs[ino]` leaves behind; it changes no lookup.
- Hard links in the tiny filesystem: no operation of the program makes one, so the run theorems have one name per file.
- Timing harnesses and benchmarks, the polling model, the application cache, partition alignment and the other small samples: they have no state to reason about, or only easy members.
- Floating-point models (queueing, percentiles, block sizes): arithmetic without state.
