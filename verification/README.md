# Sadie: a verified model of its transport, memory map, scheduler, time and printing

Sadie is a small kernel and a runtime for asynchronous components.  This project models
the parts of it whose correctness is hardest to see from the code and proves properties
of the model: `dafny verify dfyconfig.toml` checks all of it with Dafny 4.11.

* **Message ring** (`RingMachine`, `RingTheorems`, `RingProgress`, `RingBuff`): AcMpscRingBuff as a machine
  with one step per atomic action, any number of producers and one consumer; the same
  machine on 32-bit words; and the class whose fields and cells the calls change in place.
* **Message list** (`LinkListMachine`, `LinkListTheorems`, `LinkListProgress`, `LinkList`):
  AcMpscLinkList over any number of lists, with the nodes that messages trade as they leave a list.
* **Message pools** (`PoolMachine`, `PoolProgress`, `MsgPool`): get and return on top of the ring, and the
  aligned allocation of the messages.
* **Page tables** (`PageTable`, `PageTree`, `PageTurn`, `PageRange`, `PageTheorems`,
  `PageBits`, `PageRemap`, `PageMapper`): the entries with their overlaid fields, the walk of the processor, the
  greedy mapper as a function for every input, the in-place mapper proved to compute it,
  what a call does to the map of addresses and to their caching, and when pages are mapped
  already.
* **Dispatcher** (`DispatcherMachine`, `DispatcherTheorems`, `DispatcherProgress`,
  `DispatcherCalls`, `Dispatcher`): the slots that dispatch, add and remove exchange, and the life of a component.
* **Scheduler** (`WaitingTcbs`, `ReadyRing`, `Scheduling`, `SchedulerRuns`, `Scheduler`): the
  timer heap in its array, the ring of linked thread blocks, one call of the scheduler, and
  runs in which threads yield, wait, end and become ready.
* **Time and text** (`Time`, `PrintfText`, `PrintfMeaning`, `Printf`, `TimeText`,
  `TimeReading`): conversions and roundings in 64 bits, long division into digits, the
  formatter with its bounded writer and what each conversion means, and the duration and
  seconds strings, written and read back.
* `IntMath` holds the arithmetic the others share.

The `Progress` modules say that calls get to their end: a bound on a thread's own actions,
however the others interleave.

A machine is a total function `Step(state, event)`; a run is a list of events, and the main
results hold for every list.  Fields named as history in a datatype record what happened
(the order in which positions were won, who holds what) and no step reads them to decide.
The classes have the fields of the C structures; their methods are proved to change them as
the machine or a specification function says.  A call of a class is not overtaken while it
runs, but other threads may be stopped inside their own calls: in the ring anywhere, in
the list between the exchange and the store.

Where code and comments differ the model follows the code:

* `AC_U64_DIV_ROUND_UP` rounds to nearest with halves up, not up
  (`libs/incs/ac_intmath.h:22-29`), and its sum can wrap; `Time.DivRoundsUpIff` says when it
  rounds up all the same.
* All three leaf writes of the page mapper store the linear address, not the physical one;
  `PageTheorems.MapsToPhysicalIffSame` says when that is what was asked for.
* get_or_alloc_pde takes every present entry for one that leads to a table, also that of a large
  page; `PageRemap.LargerLeafStrays`.
* A ring of one cell passes init but overwrites a message; `RingTheorems.FifoIffTwoCells`.
* The remove path of the scheduler takes the raw successor, which may be a zombie;
  `Scheduling.PickAfterRemoval`.
* A dispatcher that loses the race with a removal drops late sends;
  `DispatcherTheorems.DroppedIffSentLate` says which, `SendIsDropped` shows one.
  AcDispatcher_dispatch answers for the last component it processed, not for all of them;
  `Dispatcher.AnswerIsWrongIff`.
* thread_make_ready puts a thread that waits for the timer into the ring and leaves it in
  the queue; `Scheduler.ThreadScheduler.MakeReady`.
* write_uval overruns its buffer for zero padded widths from 66 on that exceed the digits by
  less than 2^63, and pads nothing for larger ones, with zeros or blanks;
  `Printf.FitsBufferIff`.  write_sval does not use the size it is given.
* Tenfold a remainder can wrap in sub_sec_to_str; `Time.WordDivisionIsLongIff`.
* The 32-bit sums in ac_calloc_align can wrap; `MsgPool.WellLaidIffNoWrap`.

Outside the model and given to it as parameters: the clock (`now`), the timer frequency,
what the allocators answer, where the pool of table pages lies, and how long threads stop.

## Model

| member | source | states |
|---|---|---|
| `RingMachine.InitInv` | libs/ac_mpsc_ring_buff/srcs/ac_mpsc_ring_buff.c:127-163 | the ring that init builds satisfies the invariant, for every power of two |
| `RingMachine.StepKeepsInv` | libs/ac_mpsc_ring_buff/srcs/ac_mpsc_ring_buff.c:37-102 | every atomic action of every thread keeps it: each cell is free, reserved by one producer, published or being taken, as its sequence number says |
| `RingMachine.RunKeepsInv` | libs/ac_mpsc_ring_buff/srcs/ac_mpsc_ring_buff.c:37-102 | so does every run |
| `RingTheorems.FifoOverAllRuns` | libs/ac_mpsc_ring_buff/srcs/ac_mpsc_ring_buff.c:37-102 | on the 32-bit machine, over all interleavings whose snapshots stay within 2^31: what rmv_mem returned is a prefix of what was added in the order of the winning compare-exchanges, and every other added pointer is still held for its position |
| `RingTheorems.RunWraps` | libs/ac_mpsc_ring_buff/srcs/ac_mpsc_ring_buff.c:42-63 | the machine with u32 positions and signed differences takes the same branches as the one with unbounded positions, across any number of wraps |
| `RingTheorems.FifoIffTwoCells` | libs/ac_mpsc_ring_buff/srcs/ac_mpsc_ring_buff.c:140-148 | FIFO over all runs holds exactly for rings of at least two cells |
| `RingTheorems.RingOfOneOverwrites` | libs/ac_mpsc_ring_buff/srcs/ac_mpsc_ring_buff.c:44-63 | two adds to a ring of one cell succeed and the first pointer is lost |
| `RingTheorems.FullAnswer` | libs/ac_mpsc_ring_buff/srcs/ac_mpsc_ring_buff.c:46-59 | add_mem answers FALSE at its load exactly when its snapshot is current and all positions are reserved and not freed (and, in a ring of one cell, not published); a stale snapshot never does; the same on 32-bit words |
| `RingTheorems.EmptyAnswer` | libs/ac_mpsc_ring_buff/srcs/ac_mpsc_ring_buff.c:80-89 | rmv_mem answers AC_NULL exactly when the position it is to remove is not published, on 32-bit words too |
| `RingTheorems.RmvAnswer` | libs/ac_mpsc_ring_buff/srcs/ac_mpsc_ring_buff.c:91-101 | and else it returns the pointer that won that position, whatever producers do meanwhile |
| `RingTheorems.MaskedSlot` | libs/ac_mpsc_ring_buff/srcs/ac_mpsc_ring_buff.c:45 | `pos & mask` of a wrapped position is the cell of the unbounded one |
| `RingProgress.AddEnds` | libs/ac_mpsc_ring_buff/srcs/ac_mpsc_ring_buff.c:42-70 | over all interleavings a call of add_mem has ended when its thread has done six actions at most and two for each position won meanwhile: only another producer that wins holds it up |
| `RingProgress.AddEndsOnWords` | libs/ac_mpsc_ring_buff/srcs/ac_mpsc_ring_buff.c:42-70 | the same on 32-bit words |
| `RingProgress.AddEndsAlone` | libs/ac_mpsc_ring_buff/srcs/ac_mpsc_ring_buff.c:42-70 | from any place inside add_mem a producer that runs alone ends within six actions, with its pointer published and TRUE, or FALSE and nothing changed exactly when it has no position and the ring is full |
| `RingProgress.AddEndsAloneOnWords` | libs/ac_mpsc_ring_buff/srcs/ac_mpsc_ring_buff.c:42-70 | the same answer on 32-bit words |
| `RingProgress.RmvEnds` | libs/ac_mpsc_ring_buff/srcs/ac_mpsc_ring_buff.c:76-102 | over all interleavings, on 32-bit words, rmv_mem returns the published pointer that is next within four actions of the consumer |
| `RingBuff.AcMpscRingBuff.Init` | libs/ac_mpsc_ring_buff/srcs/ac_mpsc_ring_buff.c:127-163 | accepts exactly the powers of two and builds an empty ring, which is well formed below 2^31 |
| `RingBuff.AcMpscRingBuff.Reserve` | libs/ac_mpsc_ring_buff/srcs/ac_mpsc_ring_buff.c:42-60 | from a snapshot that may be stale, the retry loop reserves the next position unless all are taken, in 32-bit arithmetic |
| `RingBuff.AcMpscRingBuff.AddMem` | libs/ac_mpsc_ring_buff/srcs/ac_mpsc_ring_buff.c:37-71 | appends the pointer, or changes nothing and answers FALSE exactly when full; the cells end as the machine's, and the ring is well formed afterwards exactly when no message in a ring of one cell was overwritten |
| `RingBuff.AcMpscRingBuff.RmvMem` | libs/ac_mpsc_ring_buff/srcs/ac_mpsc_ring_buff.c:76-102 | removes and returns the oldest pointer, or AC_NULL exactly when it is not published |
| `IntMath.CountOneBits` | libs/incs/ac_intmath.h:40-48 | the shifting loop counts the one bits |
| `IntMath.OneBitIsPow2` | libs/incs/ac_intmath.h:40-48 | a value has one bit exactly when it is a power of two |
| `PoolMachine.PoolRunKeepsInv` | libs/ac_msg_pool/incs/ac_msg_pool.h:50-72 | over any run of gets and returns every message of the pool is in exactly one place |
| `PoolMachine.PooledPlusOutstanding` | libs/ac_msg_pool/incs/ac_msg_pool.h:50-72 | pooled plus outstanding messages are always msg_count |
| `PoolMachine.HandedOut` | libs/ac_msg_pool/incs/ac_msg_pool.h:50-59 | get_msg hands out a message only when no client has it |
| `PoolMachine.PoolConserved` | libs/ac_msg_pool/incs/ac_msg_pool.h:50-72 | over all runs on 32-bit positions pooled and outstanding messages stay all of the pool's, a client keeps its message until it returns it, and a message is handed out again only after a ret_msg of it |
| `PoolMachine.PoolRunWraps` | libs/ac_msg_pool/incs/ac_msg_pool.h:50-72 | the pool on the ring of 32-bit words does what the pool on unbounded positions does |
| `PoolMachine.RetNeverRefused` | libs/ac_msg_pool/incs/ac_msg_pool.h:67-72 | the ignored answer of ret_msg's add is never FALSE, on 32-bit words |
| `PoolMachine.FirstGetsSucceed` | libs/ac_msg_pool/incs/ac_msg_pool.h:50-59 | as many gets as messages were in the ring at first succeed, whatever returns are under way |
| `PoolMachine.ActKeepsRingInv` | libs/ac_msg_pool/incs/ac_msg_pool.h:67-72 | the ignored answer of ret_msg's add is never FALSE |
| `PoolMachine.RoomForOutsider` | libs/ac_msg_pool/incs/ac_msg_pool.h:67-72 | a message outside the ring leaves a free cell for it |
| `PoolProgress.ReturnedIsBack` | libs/ac_msg_pool/incs/ac_msg_pool.h:67-72 | over all interleavings, on 32-bit words, a ret_msg that has begun ends and its message wins a position of the ring within six actions of its thread and two for each position won meanwhile |
| `PoolProgress.ReturnAlone` | libs/ac_msg_pool/incs/ac_msg_pool.h:67-72 | a ret_msg that runs alone puts the message last into the ring, published |
| `PoolProgress.GetEnds` | libs/ac_msg_pool/incs/ac_msg_pool.h:50-59 | over all interleavings, on 32-bit words, get_msg hands out the oldest message within four actions once it is published |
| `MsgPool.WellLaidIffNoWrap` | libs/ac_msg_pool/srcs/ac_msg_pool.c:51-67 | elements are aligned, disjoint and inside the allocation exactly when neither 32-bit sum wraps |
| `MsgPool.TooLargeIsNotLaidOut` | libs/ac_msg_pool/srcs/ac_msg_pool.c:51-67 | two elements of 2^32 - 1 bytes: OK is answered and they overlap |
| `MsgPool.MessagesApart` | libs/ac_msg_pool/srcs/ac_msg_pool.c:103-152 | the messages of a pool begin at multiples of 8 and do not share a byte, with their 40 bytes and the extra data; their AcNextPtrs are on different cache lines of 64 bytes |
| `MsgPool.AcMsgPool.Init` | libs/ac_msg_pool/srcs/ac_msg_pool.c:88-164 | succeeds exactly for a power of two, a size that is not zero after wrapping, and both allocations; the ring then holds all messages in address order, inside the first allocation, and unless the size wraps each has an AcNextPtr of its own from the second |
| `MsgPool.AcMsgPool.Fill` | libs/ac_msg_pool/srcs/ac_msg_pool.c:130-154 | the add in the loop never fails, and message i gets AcNextPtr i |
| `MsgPool.AcMsgPool.GetMsg` | libs/ac_msg_pool/incs/ac_msg_pool.h:50-59 | the oldest published message with its len_extra set, or AC_NULL and no change |
| `MsgPool.GetKeepsPool` | libs/ac_msg_pool/incs/ac_msg_pool.h:50-59 | after a get that finds a message the places of all messages are those of the pool machine |
| `MsgPool.AcMsgPool.RetMsg` | libs/ac_msg_pool/incs/ac_msg_pool.h:67-72 | the message is last in the ring again, and the add succeeds; AC_NULL and messages of no pool are ignored |
| `MsgPool.FilledPool` | libs/ac_msg_pool/srcs/ac_msg_pool.c:130-154 | what init leaves is a state the pool theorems start from |
| `LinkListMachine.InitialInv` | libs/ac_mpsc_link_list/srcs/ac_mpsc_link_list.c:28-40 | initialised lists and messages with a node each satisfy the invariant |
| `LinkListMachine.StepKeepsInv` | libs/ac_mpsc_link_list/srcs/ac_mpsc_link_list.c:67-115 | every load, store and exchange of every thread on every list keeps it; LinkListProgress has what the calls get done |
| `LinkListMachine.LinkOwnList` | libs/ac_mpsc_link_list/srcs/ac_mpsc_link_list.c:73-75 | the late store of next links two neighbours of the list and harms nothing else |
| `LinkListMachine.DistinctEnds` | libs/ac_mpsc_link_list/srcs/ac_mpsc_link_list.c:93 | head is tail exactly when the list is empty |
| `LinkListTheorems.FifoOverAllRuns` | libs/ac_mpsc_link_list/srcs/ac_mpsc_link_list.c:67-115 | over all runs, the messages exchanged into a list are those returned by rmv, in that order, followed by those still queued |
| `LinkListTheorems.StepIsFifo` | libs/ac_mpsc_link_list/srcs/ac_mpsc_link_list.c:73-113 | a call that ends takes the oldest message or none, an exchange adds one, nothing else changes the queue |
| `LinkListTheorems.EmptyAnswer` | libs/ac_mpsc_link_list/srcs/ac_mpsc_link_list.c:93-95 | rmv reports empty exactly when the queue is empty at its load of head |
| `LinkListTheorems.NeverFails` | libs/ac_mpsc_link_list/srcs/ac_mpsc_link_list.c:105-107 | the message read is never AC_NULL, so ac_fail is not reached |
| `LinkListTheorems.SpinIsHelped` | libs/ac_mpsc_link_list/srcs/ac_mpsc_link_list.c:97-101 | while the spin reads AC_NULL one producer is before its store, and that store ends the spin |
| `LinkListTheorems.RmvAlone` | libs/ac_mpsc_link_list/srcs/ac_mpsc_link_list.c:90-113 | once the oldest message is linked, rmv alone returns it in four steps |
| `LinkListTheorems.LateLinkStaysInList` | libs/ac_mpsc_link_list/srcs/ac_mpsc_link_list.c:73-75 | however long a producer stalls, its store never goes to a recycled node |
| `LinkListTheorems.ListOwnsOneMore` | libs/ac_mpsc_link_list/srcs/ac_mpsc_link_list.c:102-104 | a list owns its length plus one nodes, all different |
| `LinkListTheorems.MessagesOwnOneEach` | libs/ac_mpsc_link_list/srcs/ac_mpsc_link_list.c:70-104 | every message outside the lists owns exactly one node |
| `LinkListTheorems.NodesConserved` | libs/ac_mpsc_link_list/srcs/ac_mpsc_link_list.c:67-115 | over any run on any number of lists no node or message is lost or made |
| `LinkListProgress.AddAlone` | libs/ac_mpsc_link_list/srcs/ac_mpsc_link_list.c:67-82 | a call of add that runs alone queues its message last, with its node linked after the old head, and touches no other list |
| `LinkListProgress.AddGoesOn` | libs/ac_mpsc_link_list/srcs/ac_mpsc_link_list.c:70-75 | under any interleaving each action of a call of add takes it one action nearer to its end, with the message and the list it began with, and no other event moves it |
| `LinkListProgress.AddEnds` | libs/ac_mpsc_link_list/srcs/ac_mpsc_link_list.c:67-82 | so over all runs a call of add has ended when its thread has done the actions that were left, and not before |
| `LinkListProgress.AddQueues` | libs/ac_mpsc_link_list/srcs/ac_mpsc_link_list.c:70-73 | over all runs, a message whose add has done all but its last action has been returned by rmv or is queued |
| `LinkListProgress.OldestIsReturned` | libs/ac_mpsc_link_list/srcs/ac_mpsc_link_list.c:90-113 | over all runs, rmv returns the oldest message within the actions it has left, once that is linked |
| `LinkListProgress.RmvOfEmpty` | libs/ac_mpsc_link_list/srcs/ac_mpsc_link_list.c:90-95 | on an empty list rmv answers AC_NULL in two actions and changes nothing |
| `LinkListProgress.RmvsDrain` | libs/ac_mpsc_link_list/srcs/ac_mpsc_link_list.c:87-115 | when no add is stopped, calls of rmv that run alone return all that is queued, oldest first |
| `LinkList.AcMpscLinkList.Add` | libs/ac_mpsc_link_list/srcs/ac_mpsc_link_list.c:67-82 | the message is last in the queue, whether or not the caller stops before its store |
| `LinkList.AcMpscLinkList.Rmv` | libs/ac_mpsc_link_list/srcs/ac_mpsc_link_list.c:87-115 | the oldest message or AC_NULL exactly when there is none; the message leaves with the old tail as its node; the spin ends as the stopped producers store, in any order |
| `PageTable.AllocPde` | arch/x86/libs/page_table_x86/srcs/page_table_x86.c:89-124 | the next page of the pool is cleared and no other page changes |
| `PageTree.PdeAddr` | arch/x86/libs/page_table_x86/incs/page_table_x86.h:176-188 | any 51-bit page number written through the phy_addr field of any entry is read back through it, and the entry leads there unless it is marked as a leaf |
| `PageTree.WalkStep` | arch/x86/libs/page_table_x86/incs/page_table_x86.h:272-279 | the walk goes to the table below when the tree has one, and to the leaf or nowhere when not |
| `PageTree.GrowKeepsTree` | arch/x86/libs/page_table_x86/srcs/page_table_x86.c:129-144 | a table added by get_or_alloc_pde keeps the tables a tree with no page shared |
| `PageTree.GrowKeepsLook` | arch/x86/libs/page_table_x86/srcs/page_table_x86.c:129-144 | and changes the translation of no address |
| `PageTree.LeafIsIdentity` | arch/x86/libs/page_table_x86/srcs/page_table_x86.c:274-281 | the fields written for a leaf of any size map each page it covers to itself with the bits given |
| `PageTurn.DescendGrows` | arch/x86/libs/page_table_x86/srcs/page_table_x86.c:351-362 | going down adds exactly the tables the path lacks, or resets exactly when the pool has too few pages |
| `PageTurn.TurnMaps` | arch/x86/libs/page_table_x86/srcs/page_table_x86.c:250-383 | one turn maps the pages of its leaf to themselves, leaves all other pages alone, leaves no table empty and meets no entry that is already present |
| `PageRange.LoopIsCorrect` | arch/x86/libs/page_table_x86/srcs/page_table_x86.c:250-384 | the loop over an unmapped range ends with the range mapped, or resets exactly when the pool lacks pages for the missing tables |
| `PageTheorems.MapIsCorrect` | arch/x86/libs/page_table_x86/srcs/page_table_x86.c:198-396 | after page_table_map_lin_to_phy every byte of the range is translated to itself through the largest leaf that the alignments and the range allow, with the bits of the caching mode, which PageBits.CachingAsAsked states as a number; every other byte as before; the tables are still a tree |
| `PageTheorems.MapOnNewRoot` | arch/x86/libs/page_table_x86/srcs/page_table_x86.c:234-244 | the same for AC_NULL on a new root, where nothing is mapped |
| `PageTheorems.NewRootIsEmpty` | arch/x86/libs/page_table_x86/srcs/page_table_x86.c:235-241 | a new root translates nothing and its entry 511 leads to itself |
| `PageTheorems.LevelOfIs` | arch/x86/libs/page_table_x86/srcs/page_table_x86.c:248-383 | in closed form, the size of the leaf that the greedy loop writes for each page |
| `PageTheorems.NeededBound` | arch/x86/libs/page_table_x86/srcs/page_table_x86.c:248-383 | for addresses of equal alignment the tables needed are one per 512G region touched and those around the two ends, at most four more |
| `PageTheorems.PagesTaken` | arch/x86/libs/page_table_x86/srcs/page_table_x86.c:89-124 | a call with equal addresses succeeds exactly when the pool holds the missing tables, takes one page for each, and four more than the 512G regions touched are enough |
| `PageTheorems.CountsAddUp` | arch/x86/libs/page_table_x86/srcs/page_table_x86.c:283-382 | for every input that succeeds, 1G times the large, 2M times the middle and 4K times the small leaves make the length |
| `PageTheorems.MapsToPhysicalIffSame` | arch/x86/libs/page_table_x86/srcs/page_table_x86.c:275 | the range goes to the physical address asked for exactly when that is the linear one or the length is zero |
| `PageTheorems.OtherPhysicalIsIgnored` | arch/x86/libs/page_table_x86/srcs/page_table_x86.c:372 | linear page 1 asked to go to physical page 2: the call succeeds and page 1 goes to page 1 |
| `PageBits.BitsCount` | arch/x86/libs/page_table_x86/srcs/page_table_x86.c:149-185 | the table of get_caching_bits has an entry exactly for the modes 1 to 8, and its three bits make the mode less one in binary |
| `PageBits.CachingAsAsked` | arch/x86/libs/page_table_x86/srcs/page_table_x86.c:198-396 | after a call that succeeds every byte of the range is found at itself through a writable leaf with 4 pat + 2 pcd + pwt equal to the mode less one, and the answer is the root given |
| `PageBits.CachingOnNewRoot` | arch/x86/libs/page_table_x86/srcs/page_table_x86.c:234-244 | the same for AC_NULL, with the address of the new root as the answer |
| `PageBits.UnknownModeNeverMaps` | arch/x86/libs/page_table_x86/srcs/page_table_x86.c:167-175 | for PAGE_CACHING_UNKNOWN and modes above 8 no call of positive length succeeds, whatever its other arguments |
| `PageBits.LeafWord` | arch/x86/libs/page_table_x86/incs/page_table_x86.h:217-258 | the 64-bit word of a leaf: present, writable, the caching bits where its size puts them, bit 7 for a large page, and the address |
| `PageBits.TableWord` | arch/x86/libs/page_table_x86/incs/page_table_x86.h:176-188 | the word of an entry that leads to a table: present, writable and its address |
| `PageRemap.MappedAgainResets` | arch/x86/libs/page_table_x86/srcs/page_table_x86.c:266-269 | a call for a range with a page that is mapped already aborts, whatever else it maps before, if it meets no leaf larger than its own |
| `PageRemap.LargerLeafStrays` | arch/x86/libs/page_table_x86/srcs/page_table_x86.c:129-144 | a larger leaf is taken for a table at its own address; when that is none of the pool the call goes astray |
| `PageMapper.PagePool.CallocPage` | arch/x86/libs/page_table_x86/srcs/page_table_x86.c:89-98 | the clearing loop does what AllocPde says |
| `PageMapper.PagePool.GetOrAllocPde` | arch/x86/libs/page_table_x86/srcs/page_table_x86.c:129-144 | the in-place version does what PageTable.Enter says, for every entry |
| `PageMapper.PagePool.MapLeaf` | arch/x86/libs/page_table_x86/srcs/page_table_x86.c:261-382 | descent, the check for a present entry, the caching bits and the field writes, in place, do what PageTable.MapOne says |
| `PageMapper.PagePool.LevelOfTurn` | arch/x86/libs/page_table_x86/srcs/page_table_x86.c:252-348 | the tests on the index fields choose the largest leaf the alignments and the size allow |
| `PageMapper.PagePool.MapLinToPhy` | arch/x86/libs/page_table_x86/srcs/page_table_x86.c:198-396 | the whole function, in place and for every input, does what PageTable.Map says, which the theorems are about; AC_NULL exactly for a length or address that is not a multiple of 4K |
| `DispatcherMachine.StepKeepsInv` | libs/ac_dispatcher/srcs/ac_dispatcher.c:135-406 | every action of the dispatching, removing, adding and sending threads keeps the slot invariant; DispatcherProgress has what they get done |
| `DispatcherMachine.RunKeepsInv` | libs/ac_dispatcher/srcs/ac_dispatcher.c:135-406 | so does every run |
| `DispatcherMachine.ScanKeepsRest` | libs/ac_dispatcher/srcs/ac_dispatcher.c:372-391 | a removal only meets components whose add has returned |
| `DispatcherTheorems.HeldOnce` | libs/ac_dispatcher/srcs/ac_dispatcher.c:158-244 | a component in use is held by exactly one of a slot, the dispatcher and the remover, and by one slot at most |
| `DispatcherTheorems.OneDrainer` | libs/ac_dispatcher/srcs/ac_dispatcher.c:135-153 | over all runs at most one thread drains a component's queue |
| `DispatcherTheorems.RestoreIffNotRemoved` | libs/ac_dispatcher/srcs/ac_dispatcher.c:226-237 | the restoring compare-exchange succeeds exactly when the component was not removed meanwhile, and else leaves the slot alone |
| `DispatcherTheorems.StoreEmptyIsSafe` | libs/ac_dispatcher/srcs/ac_dispatcher.c:213-216 | the plain store of DC_EMPTY never overwrites a component |
| `DispatcherTheorems.Lifecycle` | libs/ac_dispatcher/srcs/ac_dispatcher.c:78-96 | deliveries are AC_INIT_CMD, a prefix of the later sends in queue order, and at most one AC_DEINIT_CMD at the end |
| `DispatcherTheorems.LifecycleOverAllRuns` | libs/ac_dispatcher/srcs/ac_dispatcher.c:135-349 | the same, AC_INIT_CMD first and once and AC_DEINIT_CMD last and once, in every reachable state |
| `DispatcherTheorems.GoneStaysGone` | libs/ac_dispatcher/srcs/ac_dispatcher.c:81-96 | nothing is delivered after AC_DEINIT_CMD |
| `DispatcherTheorems.RemoverDeliversAll` | libs/ac_dispatcher/srcs/ac_dispatcher.c:164-178 | what was queued when rmv_dc took the slot is delivered before AC_DEINIT_CMD |
| `DispatcherTheorems.PoolNeverEmpty` | libs/ac_dispatcher/srcs/ac_dispatcher.c:85-86 | of two messages one is left for each command, counting only the gets |
| `DispatcherTheorems.GetFindsMessage` | libs/ac_dispatcher/srcs/ac_dispatcher.c:85-86 | so over all runs the get of ret_dc and of add on the component's ring of messages is never AC_NULL, whatever clients are returning meanwhile |
| `DispatcherTheorems.DispatcherFinishes` | libs/ac_dispatcher/srcs/ac_dispatcher.c:223-237 | over all runs, a component that the dispatcher finishes has been given exactly what had been sent when its queue was last found empty, and AC_DEINIT_CMD |
| `DispatcherTheorems.DroppedIffSentLate` | libs/ac_dispatcher/srcs/ac_dispatcher.c:223-237 | over all runs, sends are dropped exactly when there is one between that look at the queue and the end |
| `DispatcherTheorems.SendIsDropped` | libs/ac_dispatcher/srcs/ac_dispatcher.c:223-237 | a run of fourteen actions in which a send is dropped |
| `DispatcherProgress.EveryComponentIsServed` | libs/ac_dispatcher/srcs/ac_dispatcher.c:201-239 | over all runs, a component that is not removed has been given in order all that had been sent to it, when the dispatcher has done four actions for each slot, two for each message that waits and two for each that may have been sent meanwhile |
| `DispatcherProgress.AloneServesAll` | libs/ac_dispatcher/srcs/ac_dispatcher.c:201-239 | so the dispatcher alone gives every component in use all that is queued for it |
| `DispatcherProgress.DispatchComesNearer` | libs/ac_dispatcher/srcs/ac_dispatcher.c:201-239 | each action of the dispatcher takes it nearer to a component that has not been given everything |
| `DispatcherProgress.NeverMeetsBusy` | libs/ac_dispatcher/srcs/ac_dispatcher.c:217-219 | as the only dispatcher it never finds a slot that another is processing |
| `DispatcherProgress.RemovalEnds` | libs/ac_dispatcher/srcs/ac_dispatcher.c:158-183 | over all runs, a removal that has found its component ends, with OK, when its thread has done the actions left and two for each message sent meanwhile |
| `DispatcherCalls.AddAlone` | libs/ac_dispatcher/srcs/ac_dispatcher.c:321-348 | an add that runs alone puts the component into the first empty slot with AC_INIT_CMD queued, or gives it back when none is empty |
| `DispatcherCalls.RmvAlone` | libs/ac_dispatcher/srcs/ac_dispatcher.c:372-391 | a removal that runs alone takes the first slot with the component, delivers what is queued and AC_DEINIT_CMD, and answers OK; or answers ERR and changes nothing |
| `Dispatcher.DispatchableComp.ProcessMsgs` | libs/ac_dispatcher/srcs/ac_dispatcher.c:135-153 | all queued messages are delivered in order, and the answer is whether there were any |
| `Dispatcher.AcDispatcher.DispatchSlot` | libs/ac_dispatcher/srcs/ac_dispatcher.c:201-239 | a slot's component gets its messages and is put back, or finished when a remover took the slot meanwhile |
| `Dispatcher.AcDispatcher.Dispatch` | libs/ac_dispatcher/srcs/ac_dispatcher.c:192-244 | so do all slots, and the answer is that of the last component |
| `Dispatcher.AnswerIsWrongIff` | libs/ac_dispatcher/srcs/ac_dispatcher.c:192-244 | that answer is FALSE although messages were processed exactly when the last component that had messages is followed by one that had none |
| `Dispatcher.AnswerForTwo` | libs/ac_dispatcher/srcs/ac_dispatcher.c:222 | a dispatch to two components delivers a message to the first and answers FALSE |
| `Dispatcher.AcDispatcher.AddComp` | libs/ac_dispatcher/srcs/ac_dispatcher.c:287-349 | the first empty slot gets the component with AC_INIT_CMD queued; AC_NULL exactly when there is none |
| `Dispatcher.AcDispatcher.RmvComp` | libs/ac_dispatcher/srcs/ac_dispatcher.c:356-396 | the first match is drained, finished and its slot emptied; the status says whether there was one |
| `Dispatcher.AcDispatcher.RmvDc` | libs/ac_dispatcher/srcs/ac_dispatcher.c:158-183 | all messages and then AC_DEINIT_CMD are delivered |
| `WaitingTcbs.RootIsMin` | arch/x86/libs/thread_x86/srcs/waiting_tcbs.c:26-48 | the root of a heap is a minimum |
| `WaitingTcbs.MovedUp` | arch/x86/libs/thread_x86/srcs/waiting_tcbs.c:109-122 | a swap with the parent leaves a heap but for the parent's place |
| `WaitingTcbs.MovedDown` | arch/x86/libs/thread_x86/srcs/waiting_tcbs.c:149-189 | a swap with the smaller child leaves a heap but for the child's place |
| `WaitingTcbs.WaitQueue.Peek` | arch/x86/libs/thread_x86/srcs/waiting_tcbs.c:81-87 | a thread with the earliest deadline, or AC_NULL exactly when none waits |
| `WaitingTcbs.WaitQueue.Add` | arch/x86/libs/thread_x86/srcs/waiting_tcbs.c:95-126 | keeps the heap and adds exactly the thread with its deadline; the sift ends |
| `WaitingTcbs.WaitQueue.Remove` | arch/x86/libs/thread_x86/srcs/waiting_tcbs.c:131-193 | keeps the heap and removes exactly the thread that peek answers; the sift ends |
| `WaitingTcbs.LeaveInOrder` | arch/x86/libs/thread_x86/srcs/waiting_tcbs.c:77-193 | threads that leave one by one as earliest leave in the order of their deadlines, each once |
| `ReadyRing.Ring.NextTcb` | arch/x86/libs/thread_x86/srcs/thread_x86.c:255-272 | the next thread that is no zombie; the search ends at the idle thread |
| `ReadyRing.Ring.AddTcbBefore` | arch/x86/libs/thread_x86/srcs/thread_x86.c:283-306 | the ring stays well formed with the thread before the current one, and ready_length is its size; 1 and no change for a linked thread |
| `ReadyRing.Ring.AddTcbAfter` | arch/x86/libs/thread_x86/srcs/thread_x86.c:316-339 | the same after the current one |
| `ReadyRing.Ring.RemoveTcb` | arch/x86/libs/thread_x86/srcs/thread_x86.c:349-366 | the ring closes over the thread's place, the thread is unlinked, and its successor is the answer |
| `ReadyRing.Ring.RemoveZombies` | arch/x86/libs/thread_x86/srcs/thread_x86.c:629-671 | exactly the threads that are no zombies stay, in their order; the others' blocks are marked empty and counted |
| `ReadyRing.LiveKeepsOrder` | arch/x86/libs/thread_x86/srcs/thread_x86.c:640-667 | each thread kept has its place in ring order |
| `ReadyRing.LiveAreLive` | arch/x86/libs/thread_x86/srcs/thread_x86.c:645-652 | no zombie is kept |
| `Scheduling.PickIsLive` | arch/x86/libs/thread_x86/srcs/thread_x86.c:468-480 | without removal the pick is no zombie, and idle exactly when all others are zombies |
| `Scheduling.PickAfterRemoval` | arch/x86/libs/thread_x86/srcs/thread_x86.c:460-480 | with removal the pick is a zombie exactly when the raw successor is one |
| `Scheduling.ZombieCanBePicked` | arch/x86/libs/thread_x86/srcs/thread_x86.c:467 | a ring where that happens |
| `Scheduling.PickComesFirst` | arch/x86/libs/thread_x86/srcs/thread_x86.c:470-480 | a thread that could run is never passed over |
| `SchedulerRuns.EveryThreadRuns` | arch/x86/libs/thread_x86/srcs/thread_x86.c:445-496 | in a run of yields and ticks every such thread runs within as many calls as ring and timer queue are long together |
| `SchedulerRuns.EveryThreadGetsToRun` | arch/x86/libs/thread_x86/srcs/thread_x86.c:445-496 | and in any run, with threads that wait, are taken out, end and are made ready, when there are that many calls and one more for each thread made ready |
| `SchedulerRuns.EveryWaitEnds` | arch/x86/libs/thread_x86/srcs/thread_x86.c:394-420 | a waiting thread whose deadline has come runs within as many calls as threads wait |
| `SchedulerRuns.TimerSafety` | arch/x86/libs/thread_x86/srcs/thread_x86.c:394-432 | over all runs a thread stops waiting only when the deadline it began to wait for has come, as the only one and none earlier, and then it runs |
| `SchedulerRuns.RunKeepsOk` | arch/x86/libs/thread_x86/srcs/thread_x86.c:283-366 | over all runs the idle thread is first on the ring, no thread is on it twice, and none on it waits |
| `SchedulerRuns.ReadyRunsNext` | arch/x86/libs/thread_x86/srcs/thread_x86.c:316-339 | a thread that is made ready runs next when the running one yields and no timer is due |
| `Scheduler.ThreadScheduler.TimerScheduler` | arch/x86/libs/thread_x86/srcs/thread_x86.c:394-420 | at most one thread leaves the queue, only when its deadline has come and none is earlier, and it runs; when none is due the slice is cut at the earliest deadline |
| `Scheduler.ThreadScheduler.FindNext` | arch/x86/libs/thread_x86/srcs/thread_x86.c:460-480 | the pick, with or without the running thread's removal, is the one Scheduling.Picked says |
| `Scheduler.ThreadScheduler.Schedule` | arch/x86/libs/thread_x86/srcs/thread_x86.c:445-496 | the new ring, queue and running thread are those of one Scheduling.Call; the timer deadline is now plus the slice or, if that is earlier and none is due, the earliest deadline; afterwards no thread is both in the ring and in the queue |
| `Scheduler.ThreadScheduler.WaitUntil` | arch/x86/libs/thread_x86/srcs/thread_x86.c:425-432 | the running thread joins the queue with its deadline and leaves the ring, as the event Wait of SchedulerRuns says, and the timer deadline is set |
| `Scheduler.ThreadScheduler.Exit` | arch/x86/libs/thread_x86/srcs/thread_x86.c:614-616 | the running thread becomes a zombie, and nothing else changes |
| `Scheduler.ThreadScheduler.Idle` | arch/x86/libs/thread_x86/srcs/thread_x86.c:677-683 | a turn of the idle thread removes the zombies and keeps ring and queue apart |
| `Scheduler.ThreadScheduler.MakeReady` | arch/x86/libs/thread_x86/srcs/thread_x86.c:840-842 | any thread comes after the running one, or 1 when it is linked; ring and queue stay apart exactly when it does not wait for the timer |
| `Scheduler.WakeWaiting` | arch/x86/libs/thread_x86/srcs/thread_x86.c:840-842 | a waiting thread that is made ready ends in both |
| `Scheduler.ThreadScheduler.SnapshotIsOk` | arch/x86/libs/thread_x86/srcs/thread_x86.c:394-496 | the states the methods leave are those the run theorems start from |
| `Scheduler.SliceRuns` | arch/x86/libs/thread_x86/srcs/thread_x86.c:482-490 | what Schedule and WaitUntil ensure: when now plus the slice stays in 64 bits the timer deadline is that sum if a waiting thread was due or none waits for an earlier time, and else the earliest time that one waits for |
| `Scheduler.TimerIsLaterIff` | arch/x86/libs/thread_x86/srcs/thread_x86.c:483 | when no waiting thread is due the timer is set to later than now exactly when the slice is positive and the sum stays in 64 bits |
| `Time.DivRoundsToNearestIff` | libs/incs/ac_intmath.h:25-29 | for 64-bit operands the macro rounds to nearest, halves up, exactly when its sum does not wrap |
| `Time.DivRoundsUpIff` | libs/incs/ac_intmath.h:22-29 | for 64-bit operands it is the ceiling its comment promises exactly when the division is exact, or the remainder is at least half and the sum does not wrap |
| `Time.NotRoundedUp` | libs/incs/ac_intmath.h:22-29 | 11 / 10 is not rounded up, nor (2^64 - 1) / 2^63, whose answer is 0 |
| `Time.ConvertRounds` | libs/ac_time/srcs/ac_time.c:37-58 | a conversion is the nearest integer to the exact value |
| `Time.NanosRoundTrip` | libs/ac_time/srcs/ac_time.c:37-58 | nanoseconds survive ticks when the frequency is at least 10^9 |
| `Time.TicksRoundTrip` | libs/ac_time/srcs/ac_time.c:37-58 | ticks survive nanoseconds when it is at most 10^9 |
| `Time.SecondsConvert` | libs/ac_time/srcs/ac_time.c:37-58 | k seconds are k times 1000000000 nanoseconds and k times the frequency in ticks, both ways |
| `Time.RoundTicks` | libs/ac_time/srcs/ac_time.c:60-74 | the ticks plus half a unit of the precision; the wrapped divisor is never zero |
| `Time.PrintedIsClose` | libs/ac_time/srcs/ac_time.c:60-74 | the printed number is within 3/4 of a unit in its last place of ticks / freq |
| `Time.PrintedIsFloor` | libs/ac_time/srcs/ac_time.c:60-74 | for a frequency too coarse for the precision it is the time rounded down |
| `Time.LongDivisionDivides` | libs/ac_time/srcs/ac_time.c:83-94 | the digits are decimal and denote the fraction rounded down |
| `Time.SubSecToStr` | libs/ac_time/srcs/ac_time.c:80-101 | for any frequency the loops write the digits of the division in 64-bit words and a terminating zero, also when nothing is left early |
| `Time.WordDivisionIsLongIff` | libs/ac_time/srcs/ac_time.c:83-94 | these are the right digits exactly when tenfold no remainder wraps |
| `Time.HalfIsOneTenth` | libs/ac_time/srcs/ac_time.c:83-94 | half a second of a frequency of 2^63 prints as .1 |
| `Time.Split` | libs/ac_time/srcs/ac_time.c:138-153 | the one form of years, days, hours, minutes and seconds in range that makes the seconds |
| `Time.PrintedIsWhole` | libs/ac_time/srcs/ac_time.c:127-187 | seconds and fraction together denote floor((ticks + h) * 10^p / freq) |
| `PrintfText.DigitsDenote` | libs/ac_printf/srcs/ac_printf.c:100-107 | the digits of a value denote it, without a leading zero |
| `PrintfText.UvalTextDenotes` | libs/ac_printf/srcs/ac_printf.c:90-146 | write_uval's text is blanks, sign, digits that denote the value, blanks, and as long as the larger of the width and digits with sign, or as those alone for a width of 2^63 more than they are |
| `PrintfText.GetNumberInverts` | libs/ac_printf/srcs/ac_printf.c:186-196 | get_number reads back the digits of any 64-bit value and stops after them |
| `PrintfText.TruncatedAppend` | libs/ac_time/srcs/ac_time.c:158-187 | appending truncated pieces truncates the whole |
| `PrintfMeaning.NumberIsPrinted` | libs/ac_printf/srcs/ac_printf.c:233-377 | for every flag, width and precision, written or from a "*", and any format around it: the text of %b %d %u %x %i %v %y %p and of their l and ll forms is blanks, sign, digits, blanks whose digits denote the word given, modulo 2^32 or in two's complement of 32 or 64 bits, in radix 2, 10 or 16 |
| `PrintfMeaning.NumberHasOneText` | libs/ac_printf/srcs/ac_printf.c:90-146 | flags, width, value and radix leave no choice: there is one such text |
| `PrintfMeaning.TextIsPrinted` | libs/ac_printf/srcs/ac_printf.c:297-315 | %s prints its text and %% a percent sign, in any format |
| `PrintfMeaning.CharIsPrinted` | libs/ac_printf/srcs/ac_printf.c:302-309 | %c prints the characters 0x20 to 0x7F and 0xFF for all others |
| `PrintfMeaning.OtherLettersEcho` | libs/ac_printf/srcs/ac_printf.c:445-473 | any other letter is printed after a percent sign |
| `PrintfMeaning.NameIsPrinted` | libs/ac_printf/srcs/ac_printf.c:380-443 | an unknown type name of up to 31 characters is printed with its braces |
| `PrintfMeaning.UnfinishedEnds` | libs/ac_printf/srcs/ac_printf.c:240-296 | a format that ends inside a conversion ends the output there |
| `PrintfMeaning.HexOf255` | libs/ac_pci/srcs/ac_pci_print.c:41 | "0x%x" with 255 prints 0xff |
| `Printf.Writer.WriteParam` | libs/ac_printf/srcs/ac_printf.c:571-577 | with its count in 32 bits, the buffer holds what fits of all that was written, and no character outside it changes |
| `Printf.Writer.WriteUval` | libs/ac_printf/srcs/ac_printf.c:90-146 | whenever the text fits the buffer of 65 characters, its reversed content is the text, and it comes out between the blanks |
| `Printf.FitsBufferIff` | libs/ac_printf/srcs/ac_printf.c:93-122 | for every value, radix and sign what is built fits that buffer exactly when it is not zero padded, to no more than 65, or to so much that the signed count is negative |
| `Printf.WideZerosOverrun` | libs/ac_printf/srcs/ac_printf.c:108-122 | 7 zero padded to 66 does not fit, and to 2^64 - 1 is not padded |
| `Printf.NegativeWidthIsIgnored` | libs/ac_printf/srcs/ac_printf.c:110-132 | "%*d" with -5 and 7 prints 7 |
| `Printf.Writer.WriteSval` | libs/ac_printf/srcs/ac_printf.c:159-166 | the same for signed values, with a size of its own for a radix that is not valid |
| `Printf.ReadNumber` | libs/ac_printf/srcs/ac_printf.c:186-196 | the loop reads what PrintfText.GetNumber says and stops at the character after it |
| `Printf.Writer.Formatter` | libs/ac_printf/srcs/ac_printf.c:217-481 | the output grows by PrintfText.Render of the format up to its zero, whose meaning PrintfMeaning gives; no character after that zero is read |
| `Printf.RestIsIgnored` | libs/ac_printf/srcs/ac_printf.c:217-481 | what stands after the zero does not matter |
| `Printf.Snprintf` | libs/ac_printf/srcs/ac_printf.c:605-634 | the buffer holds the whole text and a zero, or its first n - 1 characters and a zero when it is longer; the rest of it is unchanged, and the answer is how many they are |
| `TimeText.RenderLd` | libs/ac_printf/srcs/ac_printf.c:344-362 | "%ld" and a unit print the decimal digits and the unit |
| `TimeText.Append` | libs/ac_time/srcs/ac_time.c:161-185 | an append at the end of what is there; the length left never underflows |
| `TimeText.TicksToDurationStr` | libs/ac_time/srcs/ac_time.c:118-188 | what fits of the duration text of the rounded ticks; its numbers are floor((ticks + h) * 10^p / freq), within 3/4 of a unit in the last place for precisions that the frequency can give and rounded down for others |
| `TimeText.TicksToSecondsStr` | libs/ac_time/srcs/ac_time.c:215-242 | what fits of the seconds, the fraction and the units, which denote the same |
| `TimeText.StringIsTime` | libs/ac_time/srcs/ac_time.c:60-101 | the whole seconds and the value of the digits printed denote the time that the ticks are, rounded |
| `TimeText.TextDenotes` | libs/ac_time/srcs/ac_time.c:83-94 | the printed characters denote the number that the digits of the division do |
| `TimeReading.DurationTokens` | libs/ac_time/srcs/ac_time.c:155-185 | the duration text is a row of numbers and unit letters, in order, from the first unit that is not zero, or from years when zeros are to be printed |
| `TimeReading.DurationReadsBack` | libs/ac_time/srcs/ac_time.c:118-188 | reading the numbers and letters back, a year as 31536000 seconds, gives the seconds of the duration and the digits of the fraction |
| `TimeReading.ThreeYears` | libs/ac_time/srcs/ac_time.c:104-105 | the example of the documentation: 3y5d1h7m3.201s |
| `TimeReading.SecondsAreNumeral` | libs/ac_time/srcs/ac_time.c:231-237 | the seconds text is a numeral whose part before its one point denotes the seconds and whose part after it is the fraction |
| `TimeReading.FractionIsDecimal` | libs/ac_time/srcs/ac_time.c:122-124 | the digits of the fraction are decimal and as many as asked for, up to 31 |

## Left out

- RingTheorems.FifoOverAllRuns: assumes that no producer's snapshot of add_idx is older than 2^31 less the ring size, the condition under which the 32-bit differences mean what they say; memory is sequentially consistent and compare-exchange never fails spuriously.
- RingBuff.AcMpscRingBuff.Init: a ring of 2^31 cells is built but not said to work, as its size leaves no room for stale snapshots; the allocation of the cells succeeds: the code reads the cells before it checks for AC_NULL.
- PoolMachine.PoolConserved: the messages of one pool, returned at most once per get, and snapshots of add_idx as fresh as RingTheorems.FifoOverAllRuns asks for.
- MsgPool.AcMsgPool.Init: for fewer than 2^31 messages; memory is a map from addresses to messages, so overlapping messages after a wrapped element size are not followed byte by byte.
- LinkListMachine.StepKeepsInv: a thread adds only a message that is free, and the nodes outlive the lists; AcMpscLinkList_deinit and AcMsgPool_deinit are not modelled.
- LinkList.AcMpscLinkList.Rmv: at each yield one of the stopped producers stores and no other call is made; LinkListTheorems.SpinIsHelped has every interleaving.
- PageMapper.PagePool.MapLinToPhy: a call that takes a page outside the pool for a table ends as `Strayed`; what the processor would do there is not followed.  free_phylin_4k_page, the multiboot memory map and the control registers are left out.
- PageTheorems.MapIsCorrect: for whole pages below the recursive slot 511 that nothing is mapped at, and caching modes 1 to 8; PageBits.UnknownModeNeverMaps has the other modes, PageRemap.MappedAgainResets the pages that are mapped, and calls for the recursive slot are covered by PageMapper.PagePool.MapLinToPhy alone.
- PageRemap.MappedAgainResets: for no larger leaf in the way; what the code writes when it takes a large page inside the pool for a table is not followed.
- DispatcherMachine.RunKeepsInv: one dispatching and one removing thread, and no add of a component while a removal looks for the same component; the protocol does not hold beyond that.  AcDispatcher_ret and use of a component after it is freed are not modelled.
- Dispatcher.AcDispatcher.Dispatch: does not model calls of the dispatcher from inside process_msg.
- WaitingTcbs.WaitQueue.Add: for a queue with room for one more; the assertion in the code is one too generous, and waiting_tcbs_update_max is left out.
- SchedulerRuns.TimerSafety: thread_make_not_ready of a thread that does not run is not an event, and none is made ready while it waits.
- Time.NanosRoundTrip: without 64-bit overflow in either conversion.
- Time.PrintedIsClose: for precisions up to 18 with 2 * 10^p at most the frequency; Time.PrintedIsFloor has smaller frequencies.
- PrintfMeaning.NumberIsPrinted: for widths below 2^63, which the code reads as signed; PrintfText.UvalTextDenotes has the others.
- RingProgress.AddEnds: for rings of at least two cells, as a ring of one cell overwrites; PoolProgress.ReturnedIsBack has pools of every size.
- DispatcherProgress.RemovalEnds: from the exchange on; while the scan before it reads DC_PROCESSING it waits for the dispatcher, as the code does.
- Printf.Writer.Formatter: no format procedures are registered; arguments are tagged values, and reading one that is not there gives 0 or an empty string.  Zero padded widths are at most 65, the size of the code's buffer, or more than 2^63 + 64, where nothing is padded.
- Printf.Writer.WriteUval: text that overruns the code's buffer is excluded, and the one width for which the code decrements the least signed word.
- Printf.Writer.WriteParam: for buffers of at most 2^32 characters; beyond that the code's 32-bit count would wrap.
- The receptors, the component manager, the ARM scheduler, drivers, interrupts and the string and memory helpers are not part of this model.
