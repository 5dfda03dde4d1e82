# Finux, verified

A Dafny model of the hard parts of Finux, a small 32-bit operating system, with machine-checked proofs
about it. `dafny verify dfyconfig.toml` checks everything.

## What is modelled

**Threads and locks** (`Lists`, `Scheduler`, `Kernel`). `Lists` is `lib/list.c` on a heap of nodes, one
assignment at a time; its lemmas say what every operation does to a ring of any length and that it
leaves all other rings alone. `Scheduler` is a state machine: the running thread, the ready ring, and
for every lock its value, its waiters, and the threads that were woken or hold it. One step is a timer
interrupt, one pass through the loop of an acquire, or a release. Its lemmas quantify over all runs,
with any number of threads and locks. `Kernel` is the C code over the rings: its globals and links are
proved to follow the state machine. A thread is identified with the list node embedded in it, so that
`list_entry` is the identity.

**Memory** (`Paging`, `PageBitmap`, `PageBitmapRepaired`). `set_page` fills an array of 32-bit words,
which is then read by the processor's own page walk (section 4.3 of the Intel 64 and IA-32
Architectures Software Developer's Manual, Volume 3A). `get_pages` and `free_pages` are modelled as written, over the whole bitmap;
`PageBitmapRepaired` is a declared repair of them.

**Disk** (`Bytes`, `HardDisk`, `PartitionTable`, `FinuxFs`, `SectorMap`, `Loader`, `FinuxTool`,
`BootRoundTrip`, `CopyRuns`). A disk is a sequence of bytes. The loader's partition walk, formatting,
mounting and loading and the host tool's `cp` are methods on it. `BootRoundTrip` puts them together:
format, copy, boot. `CopyRuns` is about any sequence of copies.

**Floppy boot sector** (`Fat12`, `FloppyBoot`). The search for `LOADER.BIN`, the lookup in the packed
table, the cluster chain, and the conversion of sector numbers to cylinder, head and sector, in a
memory of bytes.

Results of code the model does not contain are parameters: the time of every interrupt and the choice
of every thread's next call (the list of steps), the bytes of disk, floppy and memory, the memory map,
the stack bytes that `make_fs` writes behind the super block (`junk`), and the byte behind the
directory array (`behind`).

## Where the code does less than its names promise

The code is modelled as it is; each case has its exact condition.

- A release always wakes "the node after the sentinel". It keeps the rings exactly when somebody waits
  or the value stays negative. Otherwise the sentinel itself becomes the last ready thread and no queues
  fit the links any more (`Kernel.Release`, `NoShapeLeft`). To take a free lock and give it back
  undisturbed is such a release (`UncontendedReleaseFails`), and the scheduler runs the sentinel one
  context switch after the threads then ready (`SentinelRuns`).
- `yield_thread` takes the next thread out of the ready ring except when it is alone there; then it runs
  and stays linked (`Kernel.YieldThread`, `Kernel.AcquirePass`). With one thread that never acquires and
  no nested locking this never happens: such a run goes wrong only at a release without a waiter
  (`UnnestedRunIsLegal`, `Kernel.ExecuteUnnested`). With two locks taken in opposite orders it does
  (`NestedUseFails`).
- A semaphore created with v admits v+1 holders, since acquire waits while the value is below zero
  (`Admission`).
- `get_pages` never advances its byte pointer and never resets its mask: it searches the first byte
  only, and without a free run there it shifts the mask out and hands out pages nobody looked at, which
  stay unmarked or belong to another block. `free_pages` divides by the page size where 8 is meant. A run
  of calls keeps live blocks disjoint and exactly their pages marked if and only if every get finds a
  free run in the first byte, or a bitmap so short that it gets 0, and every free a block of the first
  byte (`RunIsSoundIffGood`). The kernel's own boot already leaves that domain with the stack of its
  second thread (`SecondThreadIsUnserved`). `PageBitmapRepaired` makes three repairs (the pointer
  advances, the mask starts anew for each byte, the division is by 8) and proves the allocator sound
  over every run and complete.
- `strcmp` compares the characters after the first difference; `ComparesEqual` says exactly when it
  answers 0, and `OtherNameComparesEqual` gives a different name that passes. On a freshly formatted root directory the loader still finds its kernel and nothing else.
- The host tool's sector map lies inside the sectors the formatter reserved exactly when the partition is
  a multiple of 4096 sectors (`SectorMapFits`).
- The host tool's map counts units of eight sectors, but its data goes to `first_data_sector + n`
  where the inode says `first_data_sector + 8 * n`: they agree only for n = 0
  (`DataIsWhereInodeSays`), which the first file on a fresh partition gets. A second file is written over
  the first, unless that has only one sector (`SecondCopy`, `LongFileCanBeLost`).
- The host tool takes the links of the extended partition as counted from the start of the disk. It
  agrees with the loader on a Finux partition that is the first logical one (`ToolFindsIt`), and on a later
  one only by chance (`SecondIsMissed`, `LaterIsFoundIff`).
- `make_fs` adds the start of the first extended partition also to a primary partition's start. Without an
  extended partition the walk takes the master boot record for the first table, and what is added is
  the start of its first entry, be it the Finux partition itself (`PrimaryBaseIsRight`,
  `OnlyPrimaryFails`).
- With a name that is already in the directory the host tool calls `tmp_entry`, which nothing defines,
  and ends there, before it has written anything.
- The counter of ticks wraps after 2^32, which is not a multiple of 20; the slice before the wrap has
  16 ticks (`ShortSliceAtWrap`).

## Model

| member | source | states |
|---|---|---|
| Lists.InitListHead | lib/list.c:3-7 | the node is alone in its ring, no other link changes |
| Lists.InternalAdd | lib/list.c:9-17 | exactly the four links of a splice change, also when neighbours coincide |
| Lists.ListAdd | lib/list.c:19-22 | links after insertion behind head |
| Lists.ListAddTail | lib/list.c:24-27 | the same links as list_add, despite its name |
| Lists.InternalDel | lib/list.c:29-33 | the two neighbours are linked to each other |
| Lists.ListDel | lib/list.c:35-41 | neighbours closed up, the node alone, nothing else changed |
| Lists.ListReplace | lib/list.c:43-52 | links after the five assignments in order, including the re-read of old->prev |
| Lists.RingRotates | lib/list.c:9-17 | a closed ring may be read off from any of its nodes |
| Lists.AppendToRing | lib/list.c:24-27 | insertion behind the last node appends to the ring, whatever its length |
| Lists.InsertIntoRing | lib/list.c:19-22 | insertion puts the node right behind the k-th of a ring of any length |
| Lists.InsertElsewhere | lib/list.c:19-22 | insertion keeps every ring that shares no node |
| Lists.DeleteFromRing | lib/list.c:35-41 | deletion takes the k-th node out and keeps the order of the others |
| Lists.DeletedIsAlone | lib/list.c:35-41 | the deleted node is alone, and deleting from a ring of one changes nothing |
| Lists.DeleteElsewhere | lib/list.c:35-41 | deletion keeps every ring that shares no node |
| Lists.DeleteUndoesInsert | lib/list.c:19-41 | list_del after list_add restores every link |
| Lists.ReplaceInRing | lib/list.c:43-52 | list_replace puts the new node in the old one's place and leaves the old one alone, also in a ring of one |
| Lists.ReplaceElsewhere | lib/list.c:43-52 | list_replace keeps every ring that shares no node |
| Scheduler.StepKeepsThreads | kernel/sync/sync.c:16-76 | no step loses or duplicates a thread: the number of places it is in is conserved |
| Scheduler.StepKeepsInv | kernel/sync/sync.c:16-76 | tick, acquire pass and release keep: every thread in one place, ready ring not empty, value + holders == initial, value >= -1, woken >= value+1 while somebody waits, woken threads runnable |
| Scheduler.RunKeepsInv | kernel/sync/sync.c:16-76 | the same over every run whose steps find the rings as they need them |
| Scheduler.Reachable | kernel/sync/sync.c:9-76 | in every state such a run reaches from free semaphores: each thread in exactly one place, at most v+1 holders (a lock: one), value never below -1, and while somebody waits and the value would admit one, a woken thread is runnable |
| Scheduler.Admission | kernel/sync/sync.c:51-63 | a pass takes the semaphore if and only if at most v threads hold it |
| Scheduler.InitIsStart | kernel/thread/init.c:69-99 | init_thread's state starts the runs, after any number of ticks, with the initial thread as the one that never acquires |
| Scheduler.BlockFindsTwoReady | kernel/syscall/sys_call.c:9-16 | with unnested use and a thread that never acquires, a blocking thread leaves at least two ready; the rings fail a step if and only if it is a release without a waiter |
| Scheduler.UnnestedRunIsLegal | kernel/sync/sync.c:16-76 | a run of unnested use finds the rings right at every step if and only if each of its releases finds a waiter, and then keeps the invariants |
| Scheduler.UnnestedPrefix | kernel/sync/sync.c:31-42 | the step at which a run of unnested use fails is a release without a waiter |
| Scheduler.NestedUseFails | kernel/syscall/sys_call.c:9-16 | two locks taken in opposite orders reach a state in which a thread blocks with one thread ready |
| Scheduler.ReleaseNeedsWaiter | kernel/sync/sync.c:31-42 | in every reachable state a release by a holder leaves the rings right if and only if somebody waits |
| Scheduler.UncontendedReleaseFails | kernel/sync/sync.c:16-42 | from every start state, taking any free lock or semaphore and giving it back undisturbed is a release without a waiter |
| Scheduler.SentinelRuns | kernel/sync/sync.c:36-39 | after such a release the sentinel becomes the current thread after exactly one context switch more than there were ready threads, in any run on the other locks |
| Scheduler.PositionAdvances | kernel/interrupt/timer.c:15-33 | a ready thread moves forward by one at every context switch and by nothing else |
| Scheduler.RunsAfterSwitches | kernel/interrupt/timer.c:15-33 | the thread at position i runs after exactly i+1 context switches |
| Scheduler.Remaining | kernel/interrupt/timer.c:17-19 | from any tick the first slice expiry is 1 to 20 ticks away, across the wrap of the counter too |
| Scheduler.ShortSliceAtWrap | kernel/interrupt/timer.c:13-19 | every slice has 20 ticks except the one before the wrap, which has 16 |
| Scheduler.TicksForceSwitches | kernel/interrupt/timer.c:15-33 | ticks in a run are bounded by its context switches: no 20 consecutive ticks without one |
| Scheduler.RunsWithinTicks | kernel/interrupt/timer.c:15-33 | in every run with 20*(i+1) ticks the thread at position i gets to run |
| Scheduler.WokenThreadRuns | kernel/sync/sync.c:31-42 | no lost wake-up, in time: while threads wait on a semaphore with value >= 0, a woken thread runs within 20 ticks per ready thread |
| Scheduler.WokenInOrder | kernel/sync/sync.c:16-42 | over any run, waiters + blocked == woken + waiters left: wake-ups come in the order of blocking |
| Kernel.Lock.constructor | kernel/sync/sync.c:9-14 | get_lock and get_sema: value set, sentinel alone |
| Kernel.Kernel.InitThread | kernel/thread/init.c:69-99 | the rings and globals hold the start state: two ready threads in order, one free lock, ticks as the timer has left them |
| Kernel.Kernel.YieldThread | kernel/syscall/sys_call.c:9-16 | the first ready thread runs and leaves the ring, and stays its head if and only if it was alone |
| Kernel.Kernel.TimerHandler | kernel/interrupt/timer.c:15-33 | rings and globals follow the state machine's tick; before init_thread only the counter moves |
| Kernel.Kernel.AcquirePass | kernel/sync/sync.c:51-63 | one pass of the loop of either acquire follows the state machine, unless it blocks with one ready thread: then that thread is current and still linked as ready |
| Kernel.Kernel.Release | kernel/sync/sync.c:65-76 | follows the state machine if a waiter exists or the value stays negative; otherwise the invariant is lost, and the rings are those without this lock and with its sentinel as last ready thread |
| Kernel.EmptyWakeLinksSentinel | kernel/sync/sync.c:70-73 | waking from an empty ring splices the sentinel into the ready ring |
| Kernel.EmptyWakeShape | kernel/sync/sync.c:70-73 | all other rings stay closed, disjoint and in order |
| Kernel.NoShapeLeft | kernel/sync/sync.c:70-73 | no queues of any state with all the locks have such links |
| Kernel.StaleShape | kernel/sync/sync.c:53-58 | blocking with one ready thread takes no thread out of the ready ring |
| Kernel.RotateShape | kernel/interrupt/timer.c:21-29 | rotation keeps all rings closed, disjoint and in the order of the queues |
| Kernel.BlockShape | kernel/sync/sync.c:53-58 | enqueueing the running thread and yielding keeps all rings closed, disjoint and in order |
| Kernel.WakeShape | kernel/sync/sync.c:70-73 | moving the first waiter to the ready tail keeps all rings closed, disjoint and in order |
| Kernel.Kernel.Execute | kernel/sync/sync.c:16-76 | over every run of timer interrupts, acquires and releases the threads' code allows, the pointers and counters are those of the state machine up to the first step that does not find the rings as it needs them, and that step destroys them in the way stated |
| Kernel.Kernel.ExecuteUnnested | kernel/sync/sync.c:16-76 | in every run of unnested use only a release without a waiter destroys the rings; up to it they and the invariants hold |
| Kernel.Kernel.ExecuteFromStart | kernel/thread/init.c:69-99 | the same from init_thread's state: at every point each of the three threads in one place and at most one holder |
| Paging.GetPageCnt | kernel/mm/page.c:98-112 | the pages up to the end of the last usable region, modulo 2^32 |
| Paging.FillTable | kernel/mm/page.c:144-148 | one table filled, the others, the directory and all other memory kept |
| Paging.FillDirectory | kernel/mm/page.c:141-150 | directory and tables filled, nothing else written |
| Paging.WalkIsIdentity | kernel/mm/page.c:141-150 | the processor's walk over such tables maps every address below 4MB per table to itself with flags 7 |
| Paging.TablesFit | kernel/mm/page.c:98-137 | the tables cover the end of memory if and only if it does not wrap when rounded to a page; then they end below 0x1ff000 if and only if memory ends within 254*4MB; one directory suffices |
| Paging.SetPage | kernel/mm/page.c:122-161 | for every memory map: each address below 4MB per table is identity-mapped through CR3; nothing below 0x100000 and, with up to 254 tables, nothing from 0x1ff000 on is written; CR3 is a page in between; the range covers memory exactly if its end does not wrap |
| PageBitmap.Mask | kernel/mm/page.c:60-63 | the mask selects the lowest n bits |
| PageBitmap.GetPages | kernel/mm/page.c:49-79 | which call is served from which page, what is marked, and what an unserved call returns |
| PageBitmap.FindRun | kernel/mm/page.c:65-77 | the page chosen is the highest free run that leaves out page 0 of the byte |
| PageBitmap.FreePages | kernel/mm/page.c:81-95 | clears n bits of the byte at (page number)/4096, and nothing else |
| PageBitmap.StepIsSoundIffGood | kernel/mm/page.c:49-95 | over the whole bitmap: get and free keep live blocks disjoint and exactly their pages marked if and only if the get finds a free run in byte 0 (or returns 0), the free finds the block's own byte |
| PageBitmap.RunIsSoundIffGood | kernel/mm/page.c:49-95 | a run of any gets and frees is sound at every point if and only if all its calls are such |
| PageBitmap.OnlyGetsDecide | kernel/mm/page.c:81-95 | in runs from a fresh bitmap only the gets decide: the first wrong call is never a free |
| PageBitmap.FirstPagesStayUnused | kernel/mm/page.c:72 | no page whose number is divisible by 8 is handed out in any run, sound or not |
| PageBitmap.MarkKeepsSound | kernel/mm/page.c:69-72 | marking a free run of any byte and handing it out keeps blocks disjoint and marks exact |
| PageBitmap.UnmarkKeepsSound | kernel/mm/page.c:91-93 | clearing a block's bits in its own byte and dropping it keeps them so |
| PageBitmap.UnservedPages | kernel/mm/page.c:65-78 | every page of a block handed out without a free run is held by another block too or stays unmarked |
| PageBitmap.UnservedGetRepeats | kernel/mm/page.c:65-78 | such a call made twice hands out the same block twice |
| PageBitmap.SecondThreadIsUnserved | kernel/thread/init.c:136-139 | the four calls of init_thread's two thread_creat reach one: the second stack is three unmarked pages |
| PageBitmap.FreeUndoesGet | kernel/mm/page.c:81-95 | free after get restores bitmap and blocks |
| PageBitmapRepaired.SearchByte | kernel/mm/page.c:67-76 | with a fresh mask the inner loop finds the highest free run of the byte |
| PageBitmapRepaired.GetPages | kernel/mm/page.c:49-79 | repaired: the first byte with a free run, only its bits change, 0 only if there is none |
| PageBitmapRepaired.FreePages | kernel/mm/page.c:81-95 | repaired: the bits of the block's own byte are cleared, nothing else |
| PageBitmapRepaired.EveryRunIsSound | kernel/mm/page.c:49-95 | repaired: in every run, with no condition, live blocks are disjoint, exactly their pages marked, none divisible by 8 |
| PageBitmapRepaired.GetMeets | kernel/mm/page.c:65-78 | repaired: 0 if and only if no byte has a free run, else only the new block's bits change |
| PageBitmapRepaired.FreeUndoesGet | kernel/mm/page.c:81-95 | repaired: free after get restores bitmap and blocks |
| PageBitmapRepaired.ServedCallsAgree | kernel/mm/page.c:49-95 | calls the code as written serves rightly have the same result under the repair |
| PageBitmap.FreeingPhantomUnmarksOthers | kernel/mm/page.c:90-93 | after a get that was not served, freeing its block unmarks a page of another live block |
| PageBitmap.FindLongest | kernel/mm/page.c:23-30 | the length of the longest usable region |
| PageBitmap.InitPageBitMap | kernel/mm/page.c:17-47 | the bytes in use are cleared, only the bitmap's own page is marked, the rest of memory kept |
| PageBitmap.PagesAreMappedMemory | kernel/mm/page.c:17-47 | every page the bitmap can denote, with its round-up to bytes, is memory and identity-mapped |
| PageBitmap.BitmapFitsItsPage | kernel/mm/page.c:32-44 | the bitmap fits its page if and only if at most 128MB lie above 5MB |
| PageBitmap.EveryPageHasABit | kernel/mm/page.c:32-34 | there is a bit for every page above 5MB, a partial last one included, and less than a byte more |
| Bytes.LowByteFirst | boot/fs.h:34-35 | words on the disk, from literal bytes: the low byte comes first |
| Bytes.PlaceValue | boot/fs.h:34-35 | one more in byte k is 256^k more in the word |
| PartitionTable.EntryFields | boot/fs.h:24-36 | kind, start and length of a partition entry by their byte offsets in the sector |
| PartitionTable.GetPartInformation | boot/fs.c:25-83 | for any disk and any contents of the arrays: the primary entries up to the first empty one, and in `logical` the extended ones followed by what the walk finds |
| PartitionTable.ChainIsCollected | boot/fs.c:55-82 | for any extended chain that fits, the walk collects, link by link, the logical partitions and the entries leading to them |
| PartitionTable.FirstIsLogical | boot/fs.c:54-65 | the first entry collected is the first extended one, or without any the first of the master boot record |
| PartitionTable.FindFinuxPart | boot/fs.c:115-152 | which partition is chosen and what base results, for any contents of the arrays unless a search of `logical` would start with a Finux entry |
| PartitionTable.Locate | boot/fs.c:25-152 | on any disk whose walk ends well: for a Finux primary the base make_fs takes, otherwise the first Finux entry of the list and its base, PANIC exactly if there is none, and the unset pointer exactly if the list is empty |
| PartitionTable.PrimaryBaseIsRight | boot/fs.c:54-65 | that base is right if and only if the first extended entry, or without any the first entry of all, starts at sector 0 |
| PartitionTable.OnlyPrimaryFails | boot/fs.c:54-65 | a disk with one partition, a Finux one from sector 63 on: the walk ends well and the base is 126 |
| PartitionTable.ExtendedDiskIsWalked | boot/fs.c:36-152 | a disk given byte by byte, with an extended partition at sector 2: the list collected, and base 65 |
| PartitionTable.LocateFinux | boot/fs.c:25-152 | without a Finux primary, walk and search give the absolute sector of the first Finux logical partition of any chain that fits |
| FinuxFs.InodeArrayWrites | boot/fs.c:203-216 | clearing the array and then overwriting its first sector leaves the root inode and zeros |
| FinuxFs.FormatIsImage | boot/fs.c:195-238 | the overlapping write phases together are one contiguous write from base+1 to the first data sector |
| FinuxFs.Format | boot/fs.c:154-240 | formats exactly when the magic number is missing, and writes the image and nothing else |
| FinuxFs.FormatReadsBack | boot/fs.c:154-253 | the formatted partition is recognised by a second make_fs, and get_super_block reads the same geometry |
| FinuxFs.FormattedGeometry | boot/fs.c:166-193 | the super block of a formatted partition in numbers: the tables follow each other and each is just long enough |
| FinuxFs.SuperLayout | boot/fs.h:51-68 | which word of the sector is which field of the super block |
| FinuxFs.InodeLayout | boot/fs.h:76-82 | which word is which field of an inode |
| FinuxFs.GetSuperBlock | boot/fs.c:247-253 | the super block as it stands on the disk |
| FinuxFs.SectorMapFits | finux_tool/finux.py:126-131 | the map the tool reads lies in the sectors make_fs reserves if and only if the partition is a multiple of 4096 sectors |
| SectorMap.CanUse | finux_tool/finux.py:146-153 | true exactly if all map bytes of the range are free, false exactly if one before the map's end is in use, an error otherwise |
| SectorMap.FindSectors | finux_tool/finux.py:155-161 | first fit: the place found is free and every earlier one blocked; -1 exactly if all are blocked |
| SectorMap.SetSectorMap | finux_tool/finux.py:163-176 | the marks, one byte more than needed above eight sectors; fails exactly if that byte is outside the map |
| SectorMap.HighBitsAreSet | finux_tool/finux.py:170-175 | bit 7-j of the byte for m sectors is set if and only if j < m |
| SectorMap.MarkedBits | finux_tool/finux.py:163-176 | the map after marking, bit by bit, the byte overwritten behind the extent included |
| SectorMap.AllocationKeepsSound | finux_tool/finux.py:146-176 | an allocation keeps extents disjoint and their bytes in use, also the byte it overwrites |
| SectorMap.RunKeepsSound | finux_tool/finux.py:146-176 | over any sequence of allocations from an empty map all extents are pairwise disjoint |
| SectorMap.Allocate | finux_tool/finux.py:199-205 | search and marking together are one first-fit allocation, which succeeds if and only if first fit has a place whose marks end in the map |
| Loader.StrCmp | lib/string.c:27-37 | the result is 0 if and only if the strings are equal or the characters after their first difference are |
| Loader.KernelNameIs | boot/fs.c:307 | the name looked for is "vmFinux.core" |
| Loader.OtherNameComparesEqual | lib/string.c:27-37 | "vmFinux.cXre" compares equal to the kernel's name |
| Loader.GetRootArea | boot/fs.c:255-267 | the first root_sectors - 3 sectors of the directory are copied, the rest of the array kept |
| Loader.GetInodeArray | boot/fs.c:269-279 | inode k is the one at byte 16*k of the array's sectors |
| Loader.FindFileInRoot | boot/fs.c:282-294 | the first entry the comparison accepts, or none if there is none |
| Loader.LoadSectors | boot/fs.c:315-321 | the sectors stand in order from the load address on, nothing else is written |
| Loader.LoaderKernel | boot/fs.c:299-330 | memory holds the chosen file's sectors and the kernel information; unchanged if it panics |
| FinuxTool.FindPartBase | finux_tool/finux.py:20-63 | the base for every disk, as the walk over records that takes every link as counted from the start of the disk |
| FinuxTool.FinuxPrimaryFails | finux_tool/finux.py:34-35 | a Finux entry in the master boot record ends the program with an exception |
| FinuxTool.NothingIsNotFound | finux_tool/finux.py:40-41 | without a Finux or an extended entry nothing is found |
| FinuxTool.FirstIsFound | finux_tool/finux.py:257-266 | a Finux partition that is the first logical one is found where it is |
| FinuxTool.SecondIsMissed | finux_tool/finux.py:43-63 | one that is the second is looked for in a wrong sector: with an empty table there it is not found, with a Finux entry there the base is right if and only if that entry has the same start |
| FinuxTool.LaterIsFoundIff | finux_tool/finux.py:43-63 | for a Finux partition behind any later link the tool agrees with the loader if and only if the first Finux entry it meets, going on from the relative sector number, adds up to the right distance |
| FinuxTool.GetInodeArray | finux_tool/finux.py:92-99 | the inodes as they stand on the disk |
| FinuxTool.WriteInodeArray | finux_tool/finux.py:101-105 | the loop of writes is one write of the packed inodes |
| FinuxTool.WriteMap | finux_tool/finux.py:133-136 | the byte-wise writes are one write of the map |
| FinuxTool.CopyData | finux_tool/finux.py:210-218 | the pieces written are together the file, exactly once |
| FinuxTool.FindInodeInMap | finux_tool/finux.py:139-143 | the first free inode |
| FinuxTool.FindFileInRoot | finux_tool/finux.py:224-234 | whether any entry of the directory has the name |
| FinuxTool.WriteEntryInRoot | finux_tool/finux.py:236-255 | the first entry with the name or unused is replaced, no other byte changes; a full directory is kept |
| FinuxTool.EntryOnDisk | finux_tool/finux.py:245-252 | the sixteen bytes of an entry: the inode number, low byte first, and the name, cut at twelve characters or filled up with blanks |
| FinuxTool.EntryReadsBack | finux_tool/finux.py:241-243 | what was written as entry k is read as entry k |
| FinuxTool.InodesBytesAt | finux_tool/finux.py:101-105 | each inode is found where it was packed |
| FinuxTool.InodesReadBack | finux_tool/finux.py:92-105 | packing the inodes that were unpacked gives back the bytes |
| FinuxTool.OnlyTheNewFile | finux_tool/finux.py:286-294 | writing back whole tables changes one inode, one inode map byte, the file's map bytes and its data, and nothing else |
| CopyRuns.TablesAfterCopy | finux_tool/finux.py:286-295 | what a copy makes of super block, maps and inodes on the disk |
| CopyRuns.CopyKeepsVolume | finux_tool/finux.py:257-295 | a copy keeps every earlier file's inode and the map sound for all, and adds its own |
| CopyRuns.RunKeepsVolume | finux_tool/finux.py:257-295 | the same over any sequence of successful copies onto a formatted partition |
| CopyRuns.InodesStayApart | finux_tool/finux.py:199-205 | after any such sequence the inodes on the disk are different ones and record pairwise disjoint sectors |
| CopyRuns.FilesDoNotOverlap | finux_tool/finux.py:199-205 | the sectors recorded by the inodes of any files of a sound map do not overlap |
| CopyRuns.VolumeIsMountable | finux_tool/finux.py:272-283 | after any such sequence the tool can be called again |
| CopyRuns.DataAfterCopy | finux_tool/finux.py:210-218 | behind the tables a copy writes the file at its place and nothing else |
| CopyRuns.SecondCopy | finux_tool/finux.py:199-218 | where the second file goes, and that the first file's bytes stay if and only if it has at most one sector or the two files agree where the second lies over it |
| CopyRuns.SecondHasRoom | finux_tool/finux.py:155-176 | after a first copy there is room for a second file if and only if the map bytes of both fit in the map |
| CopyRuns.LongFileCanBeLost | finux_tool/finux.py:210-218 | for every first file of more than one sector there are second files of any size that do not agree |
| FinuxTool.DataIsWhereInodeSays | finux_tool/finux.py:203-211 | the data is written where the inode says if and only if the file starts the data area |
| FinuxTool.InodeSectorsAreMarked | finux_tool/finux.py:199-205 | every sector a new inode records has its bit set in the map written with it |
| FinuxTool.JustEnough | finux_tool/finux.py:126-131 | the map has a bit for every sector of the partition, less than a byte more; a file gets the least number of sectors that holds it |
| FinuxTool.Choose | finux_tool/finux.py:190-205 | a free inode and the first-fit place, and both maps with them marked; it fails if and only if one of the two is missing |
| FinuxTool.Cp | finux_tool/finux.py:224-295 | what a copy writes where; it succeeds if and only if the name is absent, an inode is free, first fit has a place and the data there ends on the disk image; a failure, or a name that exists (line 231 then calls an undefined name), leaves the disk as it was |
| BootRoundTrip.FormatIsFresh | boot/fs.c:154-240 | a formatted partition has only the root inode, an empty sector map and an empty directory |
| BootRoundTrip.FormattedRoot | boot/fs.c:208-216 | on a formatted disk inode 0 has the mode of a file, fills exactly the sectors between inode array and data area, and is 512 bytes per sector long |
| BootRoundTrip.FormattedInodes | boot/fs.c:200-206 | all other inodes of a formatted disk are zero |
| BootRoundTrip.TablesView | finux_tool/finux.py:286-294 | after the table writes the new inode and the data are in place and super block and directory unchanged |
| BootRoundTrip.CopyStoresKernel | finux_tool/finux.py:182-255 | the first copy takes inode 1, place 0 and entry 0, and stores inode, name and data where the loader looks |
| BootRoundTrip.CopyStaysInside | finux_tool/finux.py:286-295 | the copy writes only inside the partition |
| BootRoundTrip.LayoutStays | boot/fs.c:25-83 | the partition tables survive any change inside the partition |
| BootRoundTrip.KernelEntryMatches | boot/fs.c:282-294 | the literal strcmp accepts the kernel's entry, the first, although the name has no terminating zero of its own |
| BootRoundTrip.ToolFindsIt | finux_tool/finux.py:257-266 | tool and loader agree on the partition's base |
| BootRoundTrip.MakeFs | boot/fs.c:106-240 | search and formatting together, for any contents of the disk |
| BootRoundTrip.FormatAndCopy | finux_tool/finux.py:257-295 | first boot and cp: the kernel is stored, and nothing outside the partition changes |
| BootRoundTrip.Boot | boot/loader.c:25-44 | the second boot writes nothing to the disk and loads the stored kernel |
| BootRoundTrip.FormatCopyBoot | boot/fs.c:299-330 | format, copy, boot: exactly the file's bytes stand at the load address and its size is reported, for every non-empty file that fits |
| Fat12.LookupPacked | boot/boot.s:170-208 | the lookup undoes the packing, for odd and even entries of any table |
| Fat12.PackedBytes | boot/boot.s:170-208 | the three bytes of two packed entries, literally |
| Fat12.ChainExample | boot/boot.s:149-150 | 0xfff ends a chain, 0xff8 does not |
| Fat12.ChainIsAcyclic | boot/boot.s:134-158 | a chain that ends visits no cluster twice |
| FloppyBoot.Machine.ReadSector | boot/boot.s:230-256 | cylinder, head and sector denote the requested sector |
| FloppyBoot.DriveNumbering | boot/boot.s:236-243 | the drive counts eighteen sectors of a track, then the other head, then the next cylinder |
| FloppyBoot.VolumeLayout | boot/boot.h:22-29 | the sector numbers follow from the volume's parameters, and the name looked for is LOADER.BIN's |
| FloppyBoot.DirEntryFields | boot/boot.s:126-128 | name and first cluster of a directory entry as the section "FAT Directory Structure" of Microsoft's FAT32 File System Specification v1.03 lays it out |
| FloppyBoot.EntryInBuffer | boot/boot.s:186-198 | the two sectors read hold both bytes of the entry, also when it straddles them, and lie in one track |
| FloppyBoot.Machine.GetNextSectorInFAT | boot/boot.s:170-208 | returns the table entry; only the transfer buffer changes |
| FloppyBoot.Machine.KeepLoading | boot/boot.s:134-158 | for every chain of at most 56 clusters the loop ends with the file's sectors in order from 0x9000, and nothing else but the buffer changed |
| FloppyBoot.Machine.CompareName | boot/boot.s:90-107 | equal exactly if all eleven bytes are |
| FloppyBoot.Machine.SearchLoader | boot/boot.s:63-122 | the first of the 224 entries with the name, and its first cluster; not found exactly if there is none |
| FloppyBoot.Machine.BootFloppy | boot/boot.s:58-158 | the file of the first such entry is loaded, or there is none |

## Left out

- Registers, stacks, `eflags` and the assembly of context switches: a switch is the assignment of `current_thread`.
- Timer interrupts inside acquire, release and yield: the source does not protect these windows throughout, and a step of the model is one pass of a loop or one call.
- `yield` through the system call gate: the `yield_thread` it ends in is modelled, the gate is not.
- `get_pid`, `thread_creat` and the stack layout of a new thread: the model starts from existing threads.
- Semaphores created with a value of 2^31 or more, which the source's signed comparison takes as negative.
- Scheduler.Allowed: releases by threads that do not hold the lock, and acquires by its holder, are outside the runs; `Kernel.Release` and `Kernel.AcquirePass` themselves do not exclude them.
- A PANIC or an exception of the tool is an outcome of the method that meets it; what is printed is not modelled.
- Port commands, interrupt controllers, timer programming, screen output: one disk transfer is atomic and succeeds; the floppy's retry loop has ended.
- Scheduler.RunKeepsInv: a step that destroys the rings has no next state in the state machine, so that the runs end before it; `Kernel.Execute` says what it leaves.
- Scheduler.Reachable: likewise, the states before such a step.
- PageBitmap.GetPages: a block's address is given as its page number counted from 5MB, and calls for no page or more than 8 are answered but are not part of the runs.
- Paging.SetPage: the effect of bit 31 of CR0.
- PartitionTable.GetPartInformation: what happens after a table is looked for behind the end of the disk, after more entries than the array holds, or after a fifth entry behind the buffer: the method reports it and ends there.
- PartitionTable.FindFinuxPart: a Finux entry at the very front of `logical` without a Finux primary, for which the code looks in front of the array; the walk never leaves that, as `Locate` shows.
- PartitionTable.LocateFinux: a Finux primary, which `Locate` covers.
- FinuxTool.FindPartBase: a disk image that ends inside a sector, whose last record is taken as missing.
- Loader.GetInodeArray: the fourth sector holds 28 inodes more than the array; the model ends with the array's 100.
- FinuxTool.Cp: empty files, files of 4GB and more, and data that would make the disk image grow.
- FinuxTool.DataIsWhereInodeSays: the round trip is for the first file only, since later ones are not put where their inodes say; that their extents are disjoint is proved for any number of files.
- BootRoundTrip.FormatCopyBoot: a Finux partition that is primary or not the first logical one; the formatting and the loader's search have contracts for those, the tool does not handle a primary one.
- Listing commands and displays of the tool, `strlen`, `memcpy`, `memset`, descriptor tables, exception stubs and interrupt masks.
