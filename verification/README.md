# A verified model of the Pastoral kernel's core

Pastoral is a small x86-64 kernel. This project models, in Dafny, the parts of it that hold its state together: virtual
memory with copy-on-write, the two allocators, the hash table and the region tree that everything is indexed by, the
scheduler, the program stack built by exec, descriptors and pipes, paths, and timers. Each part is proved against
something simpler than itself.

`dafny verify dfyconfig.toml` checks everything. Nothing was executed: all claims are proofs about the model.

## How the model is built

Code that changes things in place is a class, or methods over objects and sequences, with a specification function or
state machine beside it. Each method is proved to perform the corresponding step, and the laws are proved about the steps
and about whole runs of them.

| file | what it models | main results |
|---|---|---|
| `CopyOnWrite.dfy`, `EntryBits.dfy`, `CowKernel.dfy` | anonymous faults, fork and write faults of all processes | every run is indistinguishable from one whose forks copy every page; reference cells count their holders; a writable page has one owner; user access is what the first region granted |
| `RadixTree.dfy`, `PageTable.dfy`, `PageEntries.dfy` | the 4-level page table (section 4.5 of the Intel SDM, volume 3A) and the records' pointers into it | the tree is a flat map from pages to entries; map and unmap change one page or one 2 MiB range; who may use and run each page; every record points at the entry of its page |
| `ProcessTables.dfy` | records and page tables of all processes together | through faults and forks the processor's walk of each process's tables finds, for every page of the lower half, exactly the entry of the copy-on-write state |
| `Pmm.dfy` | the physical page allocator | runs are aligned, free before and disjoint; failure exactly when nothing fits behind the hint; set bits are live pages |
| `Slab.dfy`, `KernelHeap.dfy` | slabs, caches, `alloc` and `free` | three well-linked lists with at most one open slab; over every run of `alloc`, `free` and stores from boot, what is held is large enough, never overlaps, and has its holder's bytes and zeroes elsewhere |
| `HashTable.dfy` | open addressing with nested growth | growth ends; over every run the table answers as a finite map exactly if every operation is harmless, and a run that goes wrong |
| `RegionTree.dfy`, `Mmap.dfy` | the region tree, its lookups and mmap's placement | deletion by re-insertion removes one element of the in-order sequence; descent agrees with a scan; exactly when a placed region overlaps another |
| `Scheduler.dfy` | the aging scheduler on one core | one running task; a yielded task stays off the core until it is requeued; bounded waiting, in dispatches and in ticks, from any counter value |
| `ExecStack.dfy` | the initial stack (sections 3.4.1 and 3.4.3 of the System V AMD64 psABI) | decoding the image gives back argc, argv, envp and the auxiliary vector |
| `Descriptors.dfy`, `FdTable.dfy` | descriptors and file handles across tasks | over every run with numbers below the bitmap's size field each count is the number of descriptors naming the handle; exactly which calls keep the bitmaps right |
| `Pipe.dfy` | pipes | first in, first out, over every interleaving |
| `Timers.dfy` | the timer list | no timer is early, none is later than the timers ahead of it explain, each fires once |
| `Paths.dfy` | path printing and walking | each undoes the other |
| `Arith.dfy`, `Bits.dfy`, `Common.dfy` | rounding, bit and power-of-two macros, shared definitions | least multiple, single-bit update, least power of two |

Locks are taken as atomic steps on one core, since the timer is not started on the others (`kernel/sched/smp.c:29`).
Addresses, counts and capacities are unbounded integers except where a proof is about the machine word: page-table entries
and indices, flag words, request sizes and the scheduler's 64-bit counters wrap as the code's do. What `pmm_alloc` and
`alloc` return to other components is a parameter, required to be unused.

## What the proofs show about the code

Several properties one would expect hold only on part of the input. The model keeps the code as it is and states the part.

- `hash_table_push` of a key stored behind a freed slot leaves it in two slots. Push a, push b, delete a, push b, delete b: a search for b then finds its first value (`HashTables.StaleAnswer`). `HashTables.ReplayAny` says for every run when the table is right: deletes must be of a key in one slot at most, and growth must meet no key whose first and last copies differ.
- A 4 KiB mapping under a present 2 MiB entry is written into the 2 MiB page and maps nothing (`PageTables.PageTable.MapPage`). 2 MiB at 0 and then 4 KiB at 0x1000 is such a run (`PageTables.SmallUnderHuge`). If that page begins with a leaf table of the tree, another page is remapped (`PageTables.AliasedWrite`).
- The copy-on-write branch of the fault handler masks with `0x1ff`, so the page also loses its no-execute bit (`EntryBits.OwnBits`).
- That page is executable from then on in this process, but no-execute again in every child forked later, since fork builds the child's entry from the record (`CopyOnWrite.NoExecReturns`).
- `vmm_map_page` gives a new table the user access of the mapping it was made for, and never widens it: a user page mapped beside an earlier kernel page is out of reach of user code (`PageTables.SupervisorFirst`).
- The fault handler grants write access to every present page: a store that a region without PROT_WRITE denies succeeds after the fault, exactly if the page was present (`CowKernel.Vmm.PageFaultAt`).
- `vmm_copy_region_tree` copies the parent links as they are. They are right exactly in a tree of at most one region; below the root they lead into the old tree (`Mmap.CopiedParents`).
- `pmm_module_alloc` looks only behind its hint: after one page was handed out and freed it refuses two pages of a module with two free pages (`Pmm.HintRun`).
- A slab that has been full is searched by `free` but never allocated from again; this keeps at most one slab open (`Slabs.Cache.AllocObj`).
- `pow2_roundup` gives the least power of two exactly for arguments from 1 to 2^63 whose predecessor has no 32 zero bits in a row below its highest bit: 2^33 is rounded right, 2^33 + 1 is not (`Bits.Pow2Roundup`).
- `alloc` of a size with the top bit set and no 32 zero bits in a row gets a 32-byte object (`KernelHeap.LargeRequests`).
- `BST_GENERIC_DELETE` of a node with exactly one child leaves that child's parent link stale (`RegionTree.DeleteNode`).
- `validate_region` tests only the base of a new region, so a region placed by the kernel overlaps exactly if an older one starts inside it (`Mmap.AddressSpace.Map`); a fixed page and a later mapping do (`Mmap.FixedThenBump`).
- `mmap_search_region` treats a region's end as part of it (`Mmap.ClosedDescent`).
- `sched_requeue` sets the counters to their maximum, as if to prefer what it requeues, but the increment before the comparison wraps them to 0; the thread counter's wrap can cost a tick (`Scheduler.FirstTicks`, `Scheduler.LostTickShrinks`).
- `bitmap_free` compares a bit number with a size in bytes. Close of a number above the size field leaves its bit set, and a second dup2 onto the number would close a missing handle: open, dup2 onto 600, close 600 (`Descriptors.StaleBit`, `Descriptors.HighNumbersAreLost`).
- `bitmap_dup` copies an eighth of the bytes. The child's bitmap is the parent's exactly if the memory behind the copy already agrees (`FdTables.Bitmap.Dup`); with a size of 512 the first number lost is 512: open, dup2 onto 512, fork (`Descriptors.LostBit`).
- A pipe's buffer is not reused: it carries 64 KiB in its life. The first write after that returns -1 with the lock held. The waits and wake-ups of the pipe are never reached (`Pipes.WritesEnd`, `Pipes.Pipe.PipeRead`).
- Removing an expired timer makes the scan pass over the next one (`Timers.ScanAt`).

## Model

| member | source | states |
|---|---|---|
| Arith.AlignUpLeast | kernel/lib/string.h:5-6 | ALIGN_UP gives the least multiple at or above its argument |
| Bits.SetUpdatesView | kernel/lib/string.h:9 | BIT_SET turns on one bit of the whole array and no other |
| Bits.ClearUpdatesView | kernel/lib/string.h:10 | BIT_CLEAR turns off one bit of the whole array and no other |
| Bits.Pow2Roundup | kernel/lib/string.h:13-22 | the result is the least power of two at or above the argument exactly for arguments from 1 to 2^63 whose predecessor has no 32 zero bits in a row below its highest bit |
| Bits.RoundUpIsLeast | kernel/lib/string.h:13-22 | for those arguments the result is a power of two, at least the argument, and half of it is not |
| Bits.RoundUpMissesLow | kernel/lib/string.h:13-22 | a gap of 32 zeros that begins in bits 0 to 15 makes the result no power of two |
| Bits.RoundUpMissesHigh | kernel/lib/string.h:13-22 | so does a gap that begins in bits 16 to 31 |
| Bits.SmallGapless | kernel/lib/string.h:13-22 | every argument up to 2^32 is rounded right, and 2^33, but not 2^33 + 1 |
| CopyOnWrite.AnonMapKeeps | kernel/mm/vmm.c:462-509 | an anonymous fault keeps the whole reference invariant |
| CopyOnWrite.AnonMapView | kernel/mm/vmm.c:462-509 | an anonymous fault gives the process one zeroed page and changes no other page of anyone |
| CopyOnWrite.AnonMapAccess | kernel/mm/vmm.c:462-509 | entry and record of the fresh page have the flags of its region, and no other page changes |
| CopyOnWrite.ForkPageKeeps | kernel/mm/vmm.c:388-410 | one round of the fork loop keeps counts, pairing of frames with cells, and the rule that shared entries are marked and not writable |
| CopyOnWrite.ForkPagesKeep | kernel/mm/vmm.c:383-419 | the whole loop keeps the invariant, keeps every frame, and gives the child exactly the parent's pages on the parent's frames |
| CopyOnWrite.ForkPagesNext | kernel/mm/vmm.c:388-410 | every round meets a live record of the parent and is one step of the loop's specification |
| CopyOnWrite.ForkPageAccess | kernel/mm/vmm.c:388-410 | after a fork round neither side is writable and both are marked; the parent keeps presence, user access and no-execute, and the child has those of the parent's record |
| CopyOnWrite.ForkKeeps | kernel/mm/vmm.c:383-419 | a fork into a new process keeps the invariant |
| CopyOnWrite.ForkRefines | kernel/mm/vmm.c:383-419 | a copy-on-write fork, seen through the page tables, equals copying every page |
| CopyOnWrite.FaultKeeps | kernel/mm/vmm.c:536-567 | a write fault, copying or not, keeps the reference invariant |
| CopyOnWrite.FaultView | kernel/mm/vmm.c:536-567 | a write fault changes no byte that any process sees |
| CopyOnWrite.FaultAccess | kernel/mm/vmm.c:536-567 | a write fault keeps presence and user access; no-execute is dropped exactly if the page was marked; the record's flags and all other pages stay |
| CopyOnWrite.FaultGrantsWrite | kernel/mm/vmm.c:536-567 | afterwards the faulting entry is writable and not marked, user access is as before, and the count is 1, so the store can be retried |
| CopyOnWrite.WritableIsAlone | kernel/mm/vmm.c:536-567 | a writable entry is the only entry of its frame, which makes the final fall-through safe |
| CopyOnWrite.WritableCountsOne | kernel/mm/vmm.c:536-567 | the count of a writable entry is 1 |
| CopyOnWrite.StoreView | kernel/mm/vmm.c:383-419 | a store through a writable entry changes one byte of one process and nothing else |
| CopyOnWrite.StepRefines | kernel/mm/vmm.c:383-568 | every step keeps the invariant and is one step of the eager machine |
| CopyOnWrite.RunRefines | kernel/mm/vmm.c:383-568 | over every run of faults, forks and stores by any number of processes, all see the memory they would see had each fork copied every page |
| CopyOnWrite.LoadsAgree | kernel/mm/vmm.c:383-568 | in every reachable state each load gives the eager machine's byte |
| CopyOnWrite.AccessRefines | kernel/mm/vmm.c:383-568 | over every run, user code may use a page exactly if the region it was first mapped for, in the process or an ancestor, lets it, and a no-execute entry means that region denies execution |
| CopyOnWrite.NoExecReturns | kernel/mm/vmm.c:383-568 | a page that lost no-execute in a write fault is no-execute again in a child forked later, and only there |
| EntryBits.ProtectBits | kernel/mm/vmm.c:392-397 | the fork loop's masks remove write permission, set the mark and move nothing else |
| EntryBits.ProtectMarks | kernel/mm/vmm.c:392-397 | of the whole word only RW and the mark change |
| EntryBits.MapBits | kernel/mm/vmm.c:406 | joining address and flags loses neither |
| EntryBits.MapPermits | kernel/mm/vmm.c:470-490 | an entry permits writing, use by user code and execution exactly if the protection does |
| EntryBits.OwnBits | kernel/mm/vmm.c:554 | the fault handler's entry keeps presence and user access, grants writing, and drops the mark and no-execute |
| EntryBits.OwnResolved | kernel/mm/vmm.c:554 | for a marked entry: writable, unmarked, executable, and the other low nine bits, user access with them, as before |
| EntryBits.WriteBits | kernel/mm/vmm.c:566 | the fall-through sets RW only |
| EntryBits.WriteResolved | kernel/mm/vmm.c:566 | for an entry without the mark: writable, and every other bit as before |
| CowKernel.Protected | kernel/mm/vmm.c:392-397 | the parent's record and entry decode to the shared mapping |
| CowKernel.ChildCopy | kernel/mm/vmm.c:403-406 | the child's record decodes to the parent's, with the entry that map_page writes |
| CowKernel.Unshared | kernel/mm/vmm.c:554-561 | the rebuilt record decodes to a sole, writable mapping of the frame; of the entry's other low bits, user access with them, none changes |
| CowKernel.Writable | kernel/mm/vmm.c:566 | the fall-through record decodes to the same mapping with write permission; no other bit changes |
| CowKernel.AnonWord | kernel/mm/vmm.c:470-475 | the flags of a fresh page permit exactly what the protection of its region permits |
| CowKernel.SharePair | kernel/mm/vmm.c:391-406 | parent's and child's records after a round: both marked and not writable, all other bits from the parent's entry and from its record |
| CowKernel.Vmm.AnonMap | kernel/mm/vmm.c:470-498 | on the kernel's words and records, performs the anonymous-fault step; entry and record permit exactly what the protection does |
| CowKernel.Vmm.ShareWith | kernel/mm/vmm.c:391-409 | performs one fork step on the words of the pair, and changes no other page |
| CowKernel.Vmm.ForkLoop | kernel/mm/vmm.c:388-410 | performs the fork steps of the whole record table in order |
| CowKernel.Vmm.ForkPageTable | kernel/mm/vmm.c:383-419 | performs the fork step, keeps the invariant, and equals an eager copy for every observer |
| CowKernel.Vmm.PageFault | kernel/mm/vmm.c:516-568 | an absent page is mapped if a region has it, with its protection, and refused otherwise; a present page is resolved without a visible change and becomes writable, with user access as before; no other page changes |
| CowKernel.Vmm.PageFaultAt | kernel/mm/vmm.c:462-568 | the same for the page of a faulting address, with the region descent: an absent page is mapped exactly if the descent finds a region, and with its protection; the entry exceeds that protection exactly if the page was present and the region denies writing |
| CowKernel.Vmm.ResolveFault | kernel/mm/vmm.c:536-567 | performs the write-fault step: the entry becomes writable, keeps user access, and only this page changes |
| CowKernel.Vmm.Unshare | kernel/mm/vmm.c:542-561 | the count falls by one, the frame is copied exactly if it was still shared, and the new record has a cell of its own |
| RadixTree.IndicesInRange | kernel/mm/vmm.c:27-37 | every index is below 512 |
| RadixTree.IndicesCompose | kernel/mm/vmm.c:27-37 | the four indices, each shifted to the range its level selects, put together the page number of the address modulo 2^48 |
| RadixTree.IndicesArePages | kernel/mm/vmm.c:27-37 | two addresses have the same indices exactly when they are on one page modulo 2^48 |
| RadixTree.IndicesAreHuge | kernel/mm/vmm.c:27-37 | the upper three agree exactly within one 2 MiB range modulo 2^48 |
| RadixTree.AddressInjective | kernel/mm/vmm.c:41-74 | words of page-aligned tables coincide only as the same entry of the same table |
| RadixTree.LinkBits | kernel/mm/vmm.c:45-47 | a link to a new table is present, writable, not a 2 MiB leaf and leads to the table; it lets user code pass exactly if the mapping's flags do, and never denies execution |
| RadixTree.LeafOwned | kernel/mm/vmm.c:117-151 | the lowest-level entry lies in the table that serves that part of the address space |
| RadixTree.LeavesDistinct | kernel/mm/vmm.c:117-151 | two addresses reach one entry only on one page, or in one 2 MiB range |
| RadixTree.LeafDecidesWrite | kernel/mm/vmm.c:41-74 | write permission over the whole walk is the leaf's own bit, since links keep RW |
| RadixTree.AccessDecided | kernel/mm/vmm.c:41-74 | user code may use, and may run, a page exactly if its entry and all tables on the way let it |
| RadixTree.KeptAccess | kernel/mm/vmm.c:41-74 | a page whose entry stays and whose tables are kept can be used and run as before |
| RadixTree.LinkKept | kernel/mm/vmm.c:45-65 | filling an absent entry replaces no table on the way to any page |
| RadixTree.LeafTrail | kernel/mm/vmm.c:69 | writing a leaf entry changes the tables on the way to no page |
| RadixTree.HugeTrail | kernel/mm/vmm.c:57-61 | a 2 MiB entry is on the way to its own 512 pages only |
| RadixTree.LeafWriteFlat | kernel/mm/vmm.c:69 | writing a leaf entry changes the flat map at one page |
| RadixTree.HugeWriteFlat | kernel/mm/vmm.c:57-61 | writing a 2 MiB entry changes the flat map on its 512 pages only |
| RadixTree.LinkWf | kernel/mm/vmm.c:45-65 | linking a fresh table keeps the tree well formed; tables never alias |
| RadixTree.LinkFlat | kernel/mm/vmm.c:45-65 | linking a fresh table maps nothing and moves nothing |
| PageTables.PageTable.constructor | kernel/mm/vmm.c:337 | a new table maps nothing |
| PageTables.PageTable.EnsureTable | kernel/mm/vmm.c:45-49 | one level of the descent: a missing table is created and linked, open to user code exactly if the flags say so; a table that was there keeps its link; no page changes |
| PageTables.PageTable.Descend | kernel/mm/vmm.c:45-55 | the first two levels, with no page changed |
| PageTables.PageTable.MapHuge | kernel/mm/vmm.c:57-61 | 512 pages map to the entry, the others are untouched |
| PageTables.PageTable.MapLeaf | kernel/mm/vmm.c:69-73 | one page maps to the entry, the others are untouched |
| PageTables.SmallAccessAll | kernel/mm/vmm.c:41-74 | after a 4 KiB mapping user code may use the page exactly if the entry, the flags of each table made and the links of each table found let it; likewise for execution; all other pages keep both |
| PageTables.HugeAccessAll | kernel/mm/vmm.c:57-61 | the same for the 512 pages of a 2 MiB mapping |
| PageTables.FirstMapping | kernel/mm/vmm.c:41-74 | where no table was on the way, the flags alone decide who may use and run the page |
| PageTables.SupervisorFirst | kernel/mm/vmm.c:41-74 | a kernel page at 0x1000, then a user page at 0x2000: the second is mapped, and user code may not use it |
| PageTables.AliasedWrite | kernel/mm/vmm.c:63-73 | when the 2 MiB page begins with a leaf table of the tree, the page served by the word written is remapped and no other |
| PageTables.SmallUnderHuge | kernel/mm/vmm.c:41-74 | 2 MiB mapped at 0, then 4 KiB at 0x1000: an entry is returned, and the page still maps to the large one |
| PageTables.PageTable.Scribble | kernel/mm/vmm.c:63-73 | under a 2 MiB entry one word of the 2 MiB page is written; nothing is mapped or unmapped unless that page begins with a table |
| PageTables.PageTable.MapSmall | kernel/mm/vmm.c:63-73 | the 4 KiB branch with nothing in the way |
| PageTables.PageTable.MapPage | kernel/mm/vmm.c:41-74 | the page, or 2 MiB range, of the address maps to paddr joined with flags and every other page is as before, exactly unless a present 2 MiB entry covers a 4 KiB request; then one word of the 2 MiB page is written. Who may use and run the page follows from its flags and the tables on the way; all other pages keep theirs |
| PageTables.PageTable.UnmapPage | kernel/mm/vmm.c:76-115 | P of the one entry that maps the address is cleared and nothing else changes; the result is the size of the range, 0 if there is none |
| PageEntries.AllStillPoint | kernel/mm/vmm.c:403-406 | when one page gets an entry, every other record still points at the entry of its page, which is unchanged |
| PageEntries.PointsIntoLeaf | kernel/mm/vmm.c:117-151 | what a record points at lies in a leaf table |
| PageEntries.Records.constructor | kernel/mm/vmm.c:337 | a new table has no records |
| PageEntries.Records.Add | kernel/mm/vmm.c:403-406 | the pointer that map_page returns is the word that lowest_level finds for the page, all older pointers stay right, and no other page changes |
| PageEntries.Records.Write | kernel/mm/vmm.c:392-397 | a store through a record's pointer changes the entry of its page and of no other, and all pointers stay right |
| ProcessTables.SamePage | kernel/mm/vmm.c:27-37 | two pages of the lower half with the same indices are the same page |
| ProcessTables.AgreeSet | kernel/mm/vmm.c:388-410 | a record and its word changed together keep the words of all processes equal to the entries of all records |
| ProcessTables.WordHasRecord | kernel/mm/vmm.c:388-410 | a process has a word for a page only if it has a record for it |
| ProcessTables.MappedWord | kernel/mm/vmm.c:117-151 | when a table maps exactly its records, the walk of a page gives its recorded word, or nothing |
| ProcessTables.AddPage | kernel/mm/vmm.c:403-406 | map_page for an unmapped page: the table maps exactly its records with the new one |
| ProcessTables.WritePage | kernel/mm/vmm.c:392-397 | a store through pml_entry changes one word, and the table still maps exactly its records |
| ProcessTables.AnonMap | kernel/mm/vmm.c:462-509 | record and entry of an anonymous page: the copy-on-write step, with words and records equal in all processes |
| ProcessTables.Share | kernel/mm/vmm.c:388-410 | one fork round on records and both tables: the fork step, with words and records equal |
| ProcessTables.Resolve | kernel/mm/vmm.c:536-567 | the write-fault step, with words and records equal |
| ProcessTables.ForkLoop | kernel/mm/vmm.c:388-410 | the whole loop, on both tables |
| ProcessTables.PageFault | kernel/mm/vmm.c:516-568 | for any number of processes: the fault step, keeping the invariant, a table of its own per process and tables that map exactly the records; a resolved fault changes no byte anyone sees |
| ProcessTables.Fork | kernel/mm/vmm.c:383-419 | the fork step with the child's new table, keeping the same and equal to an eager copy for every observer |
| ProcessTables.Begins | kernel/mm/vmm.c:324-367 | processes whose tables map nothing in the lower half satisfy that invariant |
| ProcessTables.Translated | kernel/mm/vmm.c:117-151 | in every state that satisfies it the walk of any page of the lower half finds the entry of its record, and nothing if there is no record |
| ProcessTables.WalkSeesView | kernel/mm/vmm.c:117-151 | the frame the walk leads to holds the page of the machine whose forks copy at once |
| HashTables.MaskIsMod | kernel/lib/hash.c:24 | for a power of two, masking with capacity - 1 is the remainder |
| HashTables.HomeIsMod | kernel/lib/hash.c:24 | the slot a probe starts from is the hash modulo the capacity |
| HashTables.RoomForAll | kernel/lib/hash.c:43-72 | with capacity for all hashes and all filled slots, a free slot follows every home slot, which makes the nested growth end |
| HashTables.FilledIsKeys | kernel/lib/hash.c:43-72 | in a table without duplicates the filled slots are as many as the keys |
| HashTables.ProbeFindsKey | kernel/lib/hash.c:43-53 | the probe stops at the key's own slot exactly when no free slot precedes it |
| HashTables.FillDense | kernel/lib/hash.c:43-53 | filling the probed slot leaves no key behind a free slot |
| HashTables.DeleteAgrees | kernel/lib/hash.c:75-91 | freeing the first copy leaves the map without the key exactly if the key was in one slot |
| HashTables.PutAgrees | kernel/lib/hash.c:43-53 | filling the probed slot updates the map, duplicates or not |
| HashTables.GrowAgrees | kernel/lib/hash.c:55-65 | re-inserting slot by slot keeps the map exactly if no other key has different first and last copies |
| HashTables.TwoCopies | kernel/lib/hash.c:43-53 | a key stored behind a free slot is pushed into a second slot, which searches find first; freeing that one uncovers the old copy |
| HashTables.HashTable.Locate | kernel/lib/hash.c:17-33 | the slot of the first copy of the key, or none |
| HashTables.HashTable.constructor | kernel/lib/hash.c:35-41 | a new table is the empty map |
| HashTables.HashTable.Search | kernel/lib/hash.c:17-33 | the data of the first copy, whatever the table; without duplicates the map's value, or nothing |
| HashTables.HashTable.Delete | kernel/lib/hash.c:75-91 | frees the first copy; without duplicates it removes the key from the map and changes no other |
| HashTables.HashTable.Probe | kernel/lib/hash.c:43-53 | the first slot from home on that is free or holds the key, or none |
| HashTables.HashTable.FirstUse | kernel/lib/hash.c:36-41 | sixteen free slots, the same empty map |
| HashTables.HashTable.Put | kernel/lib/hash.c:48-52 | fills the probed slot; a map update if the key was absent or had no free slot before it |
| HashTables.HashTable.Push | kernel/lib/hash.c:35-73 | on any table, for any hash function: either the probed slot is filled, or, exactly if no slot from home on is free or holds the key, each key is kept once with its last copy; a map update under the condition of Put |
| HashTables.HashTable.Grow | kernel/lib/hash.c:55-72 | through any number of nested growths the grown table holds the last copy of each key and the new key, each once, and no key is behind a free slot |
| HashTables.HashTable.Expand | kernel/lib/hash.c:55-72 | the expanded table stands for that map |
| HashTables.HashTable.Rehash | kernel/lib/hash.c:55-65 | re-inserting every slot, through nested growths, gives the map of the last copies |
| HashTables.Perform | kernel/lib/hash.c:17-91 | one operation updates the map and replies as the map does |
| HashTables.Replay | kernel/lib/hash.c:17-91 | over every run whose pushes are on absent keys or precede the first delete, the searches answer as a finite map's |
| HashTables.PushDeleteSearch | kernel/lib/hash.c:17-91 | after a push and a delete of a key, a search finds it exactly if it was stored behind a free slot, and then with the old value |
| HashTables.StaleAnswer | kernel/lib/hash.c:17-91 | a run of six operations whose search is answered with a deleted value |
| HashTables.PushAny | kernel/lib/hash.c:35-73 | a push on any table that agrees with the map leaves one that agrees with the updated map exactly if it is harmless; a push that grows the table leaves each key once, with its last copy and no free slot before it |
| HashTables.DeleteAny | kernel/lib/hash.c:75-91 | the same for a delete |
| HashTables.PerformAny | kernel/lib/hash.c:17-91 | one operation on any table: its effect on the slots, the map's reply while the table is right, and that it stays right exactly if the operation is harmless |
| HashTables.ReplayAny | kernel/lib/hash.c:17-91 | over every run and for every hash function: the table agrees with the finite map at all times exactly if all operations are harmless, and then every search is answered as the map does |
| Pmm.Module.constructor | kernel/mm/pmm.c:29-40 | a new module has no live run and no set bit |
| Pmm.Module.RunIsFree | kernel/mm/pmm.c:54-60 | true exactly if the whole run is free |
| Pmm.Module.FindRun | kernel/mm/pmm.c:45-60 | the first aligned free run at or after the hint and its address, or the proof that there is none |
| Pmm.Module.Claim | kernel/mm/pmm.c:60-74 | the run's bits are set and the hint moves to the first free page behind it, or to 0 |
| Pmm.Module.Alloc | kernel/mm/pmm.c:42-84 | fails exactly if no aligned free run starts at or after the hint; otherwise the least such run becomes live, disjoint from all others, at an aligned address |
| Pmm.Module.Free | kernel/mm/pmm.c:86-94 | freeing a live run clears exactly its bits; set bits stay equal to live pages |
| Pmm.AllocAny | kernel/mm/pmm.c:163-180 | the run comes from the first module that has an aligned free run behind its hint, was free there, and no other module changes; fails exactly if all modules refuse |
| Pmm.AllocAccounts | kernel/mm/pmm.c:60-72 | after a claim the live runs are disjoint, cover exactly the set bits, and add up to their number |
| Pmm.FreeAccounts | kernel/mm/pmm.c:86-94 | the same after a free |
| Pmm.FirstCandidate | kernel/mm/pmm.c:45-46 | the rounded-up start address is the first aligned page at or after the hint |
| Pmm.NextCandidate | kernel/mm/pmm.c:48-57 | stepping by the alignment skips no aligned page |
| Pmm.FreeUndoesAlloc | kernel/mm/pmm.c:42-94 | freeing a run just handed out restores the bitmap |
| Pmm.HintHidesFreeRun | kernel/mm/pmm.c:45-60 | a free run before the hint is not found |
| Pmm.HintRun | kernel/mm/pmm.c:42-94 | that state is reached: alloc of one page, its free, and alloc of two pages is refused with both pages free |
| Slabs.LayoutFits | kernel/mm/slab.c:40-56 | for every object size the objects of both layouts stay inside the slab's pages and clear of header, bitmap and cache record |
| Slabs.FewestPages | kernel/mm/slab.c:200-203 | a slab takes the fewest pages that hold header, bitmap and objects |
| Slabs.RootGivesUp | kernel/mm/slab.c:212-213 | the first slab of a cache gives up the fewest objects whose number times the record's size reaches the object size |
| Slabs.IndexOfObject | kernel/mm/slab.c:165-188 | the index computed when freeing is the one computed when allocating |
| Slabs.Slab.constructor | kernel/mm/slab.c:40-56 | a new slab has every bit clear and all objects available |
| Slabs.Slab.Root | kernel/mm/slab.c:199-220 | the first slab, with the cache record before the objects |
| Slabs.Slab.Alloc | kernel/mm/slab.c:88-99 | takes the lowest clear bit; fails exactly if no object is available; the counter stays the number of clear bits |
| Slabs.Slab.Release | kernel/mm/slab.c:165-188 | clears the object's bit and no other |
| Slabs.Unlink | kernel/mm/slab.c:62-67 | the list without the slab, consistently linked |
| Slabs.PushFront | kernel/mm/slab.c:69-85 | the list with the slab in front, consistently linked |
| Slabs.MoveSlab | kernel/mm/slab.c:58-86 | moves the slab between lists, or does nothing if the source list is empty |
| Slabs.FreeInList | kernel/mm/slab.c:165-188 | frees in the slab of the list whose range holds the object, or changes nothing |
| Slabs.Cache.constructor | kernel/mm/slab.c:199-220 | a new cache has one empty slab on the given pages, with every bit clear and the cache record before its objects |
| Slabs.Cache.AllocSlab | kernel/mm/slab.c:40-56 | a new empty slab on fresh pages, with the list shape kept |
| Slabs.Cache.PickSlab | kernel/mm/slab.c:106-115 | a slab with an object available, new if none was open |
| Slabs.Cache.MoveToFull | kernel/mm/slab.c:119-120 | the exhausted slab moves to the full list and the cache stays valid |
| Slabs.Cache.MoveToPartial | kernel/mm/slab.c:121-122 | the first allocation moves an empty slab to the partial list; a partial slab at that count stays, instead of being linked to itself |
| Slabs.Cache.Settle | kernel/mm/slab.c:119-123 | after an allocation the three lists partition the slabs, and empty and partial hold at most one |
| Slabs.Cache.AllocFrom | kernel/mm/slab.c:101-128 | one clear bit of the chosen slab is set, its object is zeroed, nothing else changes |
| Slabs.Cache.AllocObj | kernel/mm/slab.c:101-128 | never comes back empty while pages remain; a zeroed object whose bit was clear; every other bit stays; the slab was not full, and the full list only grows |
| Slabs.Cache.FreeObj | kernel/mm/slab.c:190-197 | clears exactly the bit of a live object, or changes nothing for an address in no slab |
| Slabs.Cache.OwnerOf | kernel/mm/slab.c:165-197 | only the slab that handed an object out has it in its range, and that slab is searched |
| Slabs.ObjectsDisjoint | kernel/mm/slab.c:40-56 | objects that share a byte are the same bit of the same slab; every byte is inside the slab's pages, clear of header and bitmap |
| Slabs.ClearOfRecord | kernel/mm/slab.c:199-220 | no byte of an object of any slab lies in the record of a cache, which stays where it was created |
| Slabs.Ram.Memset8 | kernel/mm/slab.c:93 | the object's bytes are set and no others |
| KernelHeap.SmallRequests | kernel/mm/slab.c:222-228 | 1 to 16383 bytes get the smallest class strictly larger than the request |
| KernelHeap.LargeRequests | kernel/mm/slab.c:222-241 | larger requests get no cache exactly unless the top bit is set and no 32 bits in a row are zero, and then 32 bytes |
| KernelHeap.HugeRequestWraps | kernel/mm/slab.c:222-228 | the largest request gets 32 bytes |
| KernelHeap.ServedHasClass | kernel/mm/slab.c:222-238 | the rounded size is a class exactly for the requests served |
| KernelHeap.FindCache | kernel/mm/slab.c:230-238 | the walk over the caches finds one exactly if the size is a class, and the cache of that size |
| KernelHeap.ChooseCache | kernel/mm/slab.c:222-241 | from the request: a cache is found exactly for 1 to 16383 bytes and the wrapping sizes, the smallest class strictly larger than the request |
| KernelHeap.ClassSize | kernel/main.c:191-200 | the class found has the rounded size |
| KernelHeap.AllocClass | kernel/mm/slab.c:222-241 | a zeroed object whose bit was clear; all caches stay valid and apart, and no other object changes |
| KernelHeap.Alloc | kernel/mm/slab.c:222-241 | answered exactly for the requests served, with a zeroed object of the smallest class strictly larger than the request that was not live; the ledger of live objects gains it, and stays equal to the set bits of all caches |
| KernelHeap.LiveFreeable | kernel/mm/slab.c:165-255 | a live object is found in its own slab, at its own bit, and in no other slab of any cache, so every live object can be freed |
| KernelHeap.Free | kernel/mm/slab.c:243-255 | the bit of a live object is cleared in its own slab and nowhere else; an address in no slab is ignored |
| KernelHeap.Release | kernel/mm/slab.c:243-255 | free of any live object clears exactly the bit that alloc set, and the ledger loses it |
| KernelHeap.LiveDisjoint | kernel/mm/slab.c:40-56 | two live objects of the whole heap share no byte, and lie clear of header and bitmap |
| KernelHeap.LiveClear | kernel/mm/slab.c:40-56 | no byte of a live object lies in the pages of another slab, in a header or bitmap, or in the record of any cache |
| KernelHeap.Create | kernel/mm/slab.c:199-220 | a cache for any object size is added in front of the list; the heap stays valid and nothing is live in it |
| KernelHeap.Boot | kernel/main.c:191-200 | the ten calls leave the list that alloc walks, a valid heap, and no live object |
| KernelHeap.HeldDisjoint | kernel/mm/slab.c:101-255 | what a run holds at the same time never overlaps |
| KernelHeap.IntactGet | kernel/mm/slab.c:88-128 | an answered request zeroes its own object and no byte that another holder has |
| KernelHeap.IntactStore | kernel/mm/slab.c:88-128 | a store by a holder shows in its own object only |
| KernelHeap.Serve | kernel/mm/slab.c:101-255 | over every run of alloc, free and stores by the holders: each request is answered as alloc promises, held is exactly what was served and not given back since, exactly that is live beyond what was live before, and each has the bytes its holder stored and zeroes elsewhere |
| KernelHeap.ServeFromBoot | kernel/main.c:191-200 | the same from boot, where nothing is live: exactly what is held is live, in objects that do not overlap |
| RegionTree.GraftSearch | kernel/lib/bst.h:15-42 | insertion keeps the search order |
| RegionTree.GraftNodes | kernel/lib/bst.h:15-42 | insertion adds exactly the inserted nodes |
| RegionTree.FindParent | kernel/lib/bst.h:24-31 | the last node on the descent for the key |
| RegionTree.Insert | kernel/lib/bst.h:15-42 | the pointer structure becomes the grafted tree with right parent links, and nodes elsewhere keep their links |
| RegionTree.InsertNew | kernel/lib/bst.h:15-42 | inserting a new node keeps a tree intact |
| RegionTree.GraftReturns | kernel/lib/bst.h:44-83 | the right subtree lands exactly where the deleted node was |
| RegionTree.TwoChildren | kernel/lib/bst.h:44-83 | the left subtree lands under the right subtree's minimum |
| RegionTree.DeleteInorder | kernel/lib/bst.h:44-83 | the in-order sequence loses the node and nothing else |
| RegionTree.DeleteSearch | kernel/lib/bst.h:44-83 | what is left is a search tree |
| RegionTree.Splice | kernel/lib/bst.h:52-71 | redirecting one link replaces the subtree; parent links stay right exactly if nothing is promoted |
| RegionTree.DeleteTwo | kernel/lib/bst.h:72-80 | the two-child branch leaves the deleted tree, with all parent links right |
| RegionTree.DeleteNode | kernel/lib/bst.h:44-83 | the pointers become the deleted tree; parent links are right exactly unless the node had one child |
| Mmap.DescentIsScan | kernel/mm/mmap.c:12-32 | for disjoint regions the descent finds a region exactly if a scan of all regions does, and the same one |
| Mmap.ClosedDescent | kernel/mm/mmap.c:34-50 | the closed-end descent differs exactly if a region on the way ends at the address, and then gives that region |
| Mmap.ValidateRegion | kernel/mm/mmap.c:12-32 | -1 if the base is in no region, otherwise a step past the end of the region found |
| Mmap.SearchRegion | kernel/mm/mmap.c:34-50 | the answer of the closed-end descent |
| Mmap.CopyTree | kernel/mm/vmm.c:369-381 | a fresh tree of the same shape and regions, each node with the parent link of the node it was copied from |
| Mmap.CopiedParents | kernel/mm/vmm.c:369-381 | the parent links of the copy are right exactly if the tree has at most one node |
| Mmap.AlikeAnswers | kernel/mm/vmm.c:369-381 | a copied tree answers every lookup alike |
| Mmap.PlacedApart | kernel/mm/mmap.c:173-187 | a tree with a region added at a free base is disjoint exactly if no older region starts inside the new one |
| Mmap.AddressSpace.constructor | kernel/mm/vmm.c:366 | a new address space has no region |
| Mmap.AddressSpace.FindBase | kernel/mm/mmap.c:173-187 | the search loop ends, at a base in no region: the bump pointer if that is free, otherwise a length behind the end of a region, the first such if that is free |
| Mmap.AddressSpace.AddRegion | kernel/mm/mmap.c:189-254 | the new region is added to the tree and no other changes |
| Mmap.AddressSpace.Map | kernel/mm/mmap.c:165-254 | placement, the error cases, the bump pointer and the tree after a mapping; without MAP_FIXED disjoint regions stay disjoint exactly if none starts inside the new one |
| Mmap.FixedThenBump | kernel/mm/mmap.c:165-254 | a fixed page and then a mapping of four pages: they overlap |
| Mmap.AddDisjoint | kernel/mm/mmap.c:189-254 | regions stay disjoint exactly if the new one is apart from each |
| Mmap.BumpStaysDisjoint | kernel/mm/mmap.c:173-187 | with bump placement only, regions stay disjoint and below the pointer |
| Scheduler.StepKeeps | kernel/sched/sched.c:48-161 | ticks, new tasks, dequeue, requeue and exit keep the invariant of tasks and core |
| Scheduler.OneRunning | kernel/sched/sched.c:99-161 | at most one task is running, the core's own |
| Scheduler.StatusAfter | kernel/sched/sched.c:48-264 | the status of every task after every event: a requeue alone ends a yield; a tick starts only a waiting task, and puts the one it replaces back to waiting unless that one has yielded |
| Scheduler.IdleAfterEvent | kernel/sched/sched.c:48-264 | its counter: 0 when started, the maximum when requeued, one more, wrapping, at each tick |
| Scheduler.ThreadAfter | kernel/sched/sched.c:48-264 | the same for its thread, whose counter is aged only when its task is chosen |
| Scheduler.Population | kernel/sched/sched.c:48-264 | tasks come by creation and go by exit only |
| Scheduler.StaysOff | kernel/sched/sched.c:48-264 | along every run a task that has yielded stays off the core until it is requeued |
| Scheduler.DequeuedStaysOff | kernel/sched/sched.c:229-236 | a dequeued task is not started again before a requeue, along every run |
| Scheduler.DispatchShrinks | kernel/sched/sched.c:68-86 | a dispatch of another task takes it out of those ahead of a waiting one and lets none in |
| Scheduler.LostTickShrinks | kernel/sched/sched.c:48-66 | a tick that dispatches nothing was spent on a wrapped thread counter, and uses it up |
| Scheduler.OtherShrinks | kernel/sched/sched.c:229-264 | nothing between ticks puts a task ahead of a waiting one |
| Scheduler.FirstTicks | kernel/sched/sched.h:180 | a requeued task wraps to 0 on its first tick and is passed over; a task at 0 is started or left at 1 |
| Scheduler.LeadBound | kernel/sched/sched.c:48-161 | the ticks until a counter is clear of its wrap: one from 0, two from the maximum, at most twice the tasks and two from any value |
| Scheduler.StartsFromAny | kernel/sched/sched.c:48-161 | along every run a waiting task with any counter is started, after those ticks, within as many dispatches as there are tasks then, and within twice as many ticks |
| Scheduler.StartsWithin | kernel/sched/sched.c:48-161 | with at most n tasks, within 4n + 2 ticks from any counter, and within 2n + 2 from 0, where new tasks start, and from the maximum, where requeued ones do |
| Scheduler.RequeuedStarts | kernel/sched/sched.c:254-264 | a requeued task that is then left alone is started within 2n + 2 ticks |
| Scheduler.SpawnedStarts | kernel/sched/sched.c:48-161 | so is a new task that is to wait |
| Scheduler.ReplacedStarts | kernel/sched/sched.c:99-161 | a running task that a tick replaces is started again within 4n + 2 ticks |
| Scheduler.ScanThreads | kernel/sched/sched.c:48-66 | the loop ages every thread of the table and picks the first waiting one with the greatest counter; none exactly if each waiting one wrapped to 0 |
| Scheduler.Core.FindNextTask | kernel/sched/sched.c:68-86 | ages every task and picks the first waiting one with the greatest counter |
| Scheduler.Core.FindNextThread | kernel/sched/sched.c:48-66 | for a table of one thread: ages it; found exactly if it waits with a counter that did not wrap |
| Scheduler.Core.SwitchTo | kernel/sched/sched.c:122-161 | the last task waits again unless it has yielded, and then stays so; the next one runs with its counters at 0; all others are as before |
| Scheduler.Core.Reschedule | kernel/sched/sched.c:99-161 | is one tick of the state machine, and tells whether another context is loaded; the task switched to runs with its counters at 0, and who has yielded is not put back |
| Scheduler.Core.Dequeue | kernel/sched/sched.c:229-236 | performs the dequeue event: task and thread have yielded, and nobody else changes |
| Scheduler.Core.Requeue | kernel/sched/sched.c:254-264 | performs the requeue event: task and thread wait with their counters at the maximum, and nobody else changes |
| ExecStack.Image.Strcpy | kernel/sched/sched.c:344-354 | the string and its terminator, and no other byte |
| ExecStack.Image.PlaceStrings | kernel/sched/sched.c:344-354 | every string lies below the one before it |
| ExecStack.Image.PlacePointers | kernel/sched/sched.c:373-376 | the second pass over the strings computes the addresses of the first |
| ExecStack.Image.PlaceTables | kernel/sched/sched.c:362-386 | argument count, two terminated pointer tables and the auxiliary vector, in order |
| ExecStack.Alignment | kernel/sched/sched.c:356-360 | the padding makes the stack pointer a multiple of 16, whatever the number of pointers |
| ExecStack.ImageDecodes | kernel/sched/sched.c:341-389 | decoding by the rules of the ABI gives back argc, argv, envp and the auxiliary pairs |
| ExecStack.AuxValues | kernel/sched/sched.c:362-368 | looking up each type in the auxiliary vector gives its own value, and there is no other type |
| ExecStack.Image.ArgPlacement | kernel/sched/sched.c:341-389 | for every list that fits: an aligned stack pointer whose image decodes to exactly the input, each auxiliary type found with its own value, and no byte outside it changed |
| Descriptors.OpenCounts | kernel/fs/fd.c:427-448 | opening keeps the counts right |
| Descriptors.OpenNames | kernel/fs/fd.c:427-448 | after an open the number returned names the new handle, with one reference, and no other descriptor or count changes |
| Descriptors.CloseCounts | kernel/fs/fd.c:452-462 | closing keeps them, and frees the handle exactly if no other descriptor names it |
| Descriptors.CloseForgets | kernel/fs/fd.c:452-462 | after a close only that descriptor is gone, and its handle has one reference less or is gone |
| Descriptors.DupCounts | kernel/fs/fd.c:555-580 | duplicating keeps them |
| Descriptors.DupNames | kernel/fs/fd.c:555-580 | the new number names the handle of the old one, which has one reference more; nothing else changes |
| Descriptors.Dup2OnAlias | kernel/fs/fd.c:582-615 | onto an alias, dup2 changes nothing, and the handle is not freed in between |
| Descriptors.Dup2IsCloseDup | kernel/fs/fd.c:582-615 | otherwise dup2 is a close of the target followed by a dup |
| Descriptors.Dup2Counts | kernel/fs/fd.c:582-615 | dup2 keeps them |
| Descriptors.Dup2Names | kernel/fs/fd.c:582-615 | the number given names the handle of the old one; what it named before has one reference less; no other descriptor changes |
| Descriptors.ForkCounts | kernel/sched/sched.c:978-988 | the child names exactly what the parent names, the counts stay right, and the child's bitmap is what bitmap_dup leaves |
| Descriptors.StepCounts | kernel/fs/fd.c:427-615 | every call, failing ones included, keeps the counts right as long as each descriptor has its bit set |
| Descriptors.StepTracks | kernel/fs/fd.c:427-615 | after a call the bitmaps still are the sets of descriptors held exactly unless it closed a number above the size field, or forked with other bits in the memory behind the copy |
| Descriptors.StepLow | kernel/fs/fd.c:427-615 | all descriptors stay below the size field, with right bits there and right counts, exactly if the call names or is given a number below it |
| Descriptors.LowTargets | kernel/fs/fd.c:582-615 | in such a state dup2 onto any number below the size field finds a handle wherever it closes one |
| Descriptors.Conserved | kernel/fs/fd.c:427-615 | over every run whose numbers stay below the size field, each count is the number of descriptors naming the handle in all tasks, a handle exists as long as one does, and below the size field a bit is set exactly for the descriptors held |
| Descriptors.ConservedSafe | kernel/fs/fd.c:427-615 | the same in the whole bitmap and for all numbers, over every run without such closes and forks |
| Descriptors.HighBitsStick | kernel/lib/bitmap.c:29-35 | closing a number above the size field leaves its bit set without a descriptor, and a dup2 onto it has no handle to close |
| Descriptors.HighNumbersAreLost | kernel/lib/bitmap.c:29-35 | every unused number above the size field is lost by a dup2 onto it and a close |
| Descriptors.StaleBit | kernel/lib/bitmap.c:29-35 | the run open, dup2 onto 600, close 600 leaves the bit of 600 set without a descriptor |
| Descriptors.ForkLosesHigh | kernel/lib/bitmap.c:37-43 | a fork over clear memory loses the bit of every descriptor behind the bytes copied |
| Descriptors.LostBit | kernel/lib/bitmap.c:37-43 | the run open, dup2 onto 512, fork leaves the child with descriptor 512 and its bit clear |
| FdTables.Bitmap.Alloc | kernel/lib/bitmap.c:11-27 | the lowest number not in use, added to the set in use, after growing if there is none; fails exactly if it is full and cannot grow |
| FdTables.Bitmap.Free | kernel/lib/bitmap.c:29-35 | takes the number out of the set in use, exactly unless it is above the size field |
| FdTables.Bitmap.Dup | kernel/lib/bitmap.c:37-43 | the copy has the bits of size/8 bytes, rounded up, and behind them what the memory held; it equals the original exactly if that agrees |
| FdTables.FdSpace.FdOpen | kernel/fs/fd.c:427-448 | on the tables and a bitmap object per task, performs the open call: the lowest number not in use is returned and names the new handle, with one reference |
| FdTables.FdSpace.FdClose | kernel/fs/fd.c:465-486 | performs the close call, EBADF included, with bitmap_free as it is: one descriptor fewer and one reference less |
| FdTables.FdSpace.FdDup | kernel/fs/fd.c:555-580 | performs the dup call, EBADF included: the lowest number not in use names the same handle, with one reference more |
| FdTables.FdSpace.FdDup2 | kernel/fs/fd.c:582-615 | performs the dup2 call, EBADF and the no-op included: the number given names the same handle |
| FdTables.FdSpace.ForkDescriptors | kernel/sched/sched.c:978-988 | the loop over the parent's table and bitmap_dup perform the fork step: the child's numbers name what the parent's do |
| Pipes.Fifo | kernel/fs/fd.c:196-337 | over every interleaving, what was read is exactly the start of what was accepted, at most 64 KiB |
| Pipes.Drained | kernel/fs/fd.c:283-303 | a read that asks for enough completes the transfer: nothing accepted is lost |
| Pipes.WritesEnd | kernel/fs/fd.c:305-311 | a write is refused only after 64 KiB, and none follows it |
| Pipes.ReadLength | kernel/fs/fd.c:283-303 | a read returns the next unread bytes, as many as it asks for or as there are, whichever is less |
| Pipes.EachCall | kernel/fs/fd.c:196-337 | the same for each call of every run: a read takes exactly those bytes and adds none; a write that still fits is taken whole, any other not at all, and takes nothing out |
| Pipes.Pipe.constructor | kernel/fs/fd.c:953-1013 | a new pipe is empty |
| Pipes.Pipe.PipeRead | kernel/fs/fd.c:283-303 | returns min(request, unread) and exactly those bytes; the wait is never reached |
| Pipes.Pipe.PipeWrite | kernel/fs/fd.c:305-337 | taken whole, not at all, or refused with the lock held; what was there before stays; the wake-up is never reached |
| Pipes.Pipe.FdRead | kernel/fs/fd.c:238-281 | performs the read step of the queue, with that length and those bytes, and moves the position by as much |
| Pipes.Pipe.FdWrite | kernel/fs/fd.c:196-236 | performs the write step of the queue: all bytes behind those accepted before, or none; -1 exactly if 64 KiB have been accepted |
| Timers.TimespecAdd | kernel/drivers/pit.c:21-33 | exact on total nanoseconds |
| Timers.TimespecSub | kernel/drivers/pit.c:35-52 | subtraction of total nanoseconds, stopping at zero |
| Timers.NeedShrinks | kernel/drivers/pit.c:63-65 | each countdown takes one off the ticks needed, and expires exactly at one |
| Timers.ScanConserves | kernel/drivers/pit.c:60-77 | a scan neither loses nor repeats a timer |
| Timers.ScanAt | kernel/drivers/pit.c:60-77 | a timer fires if its time is up and its predecessor does not fire, is passed over exactly if its predecessor fires, and is counted down otherwise |
| Timers.ClocksExact | kernel/drivers/pit.c:57-58 | over every run both clocks advance by one interval per tick |
| Timers.Tracked | kernel/drivers/pit.c:54-78 | every tick brings a timer nearer to the front of the list or to its end |
| Timers.FiresOnTime | kernel/drivers/pit.c:54-78 | over every run: never before max(1, D/1ms rounded up) ticks, at most as many ticks late as timers were ahead, and once |
| Timers.ArmedLast | kernel/sched/sched.c:581-595 | arming puts the timer behind all others with its whole duration, and moves none |
| Timers.FiresAfterArm | kernel/sched/sched.c:581-595 | counted from the call that armed it: never before max(1, D/1ms rounded up) ticks, at most as many ticks later as timers were on the list, once |
| Timers.Pit.Handler | kernel/drivers/pit.c:54-78 | the loop that removes from the list it walks performs the tick: both clocks advance, the scan is computed and expired timers are counted |
| Timers.Pit.Create | kernel/sched/sched.c:581-595 | performs the arm step on the same list |
| Timers.ArmKeeps | kernel/sched/sched.c:581-595 | arming a new timer keeps every timer once, on the list or fired |
| Paths.Split | kernel/fs/vfs.c:187-200 | the pointer loops compute the components of the path |
| Paths.ComponentsFirst | kernel/fs/vfs.c:187-200 | splitting undoes joining with slashes |
| Paths.SearchPath | kernel/fs/vfs.c:180-222 | the descending loop computes the walk |
| Paths.UpUndoesDown | kernel/fs/vfs.c:102-107 | "name/.." from a directory is that directory, and "name/." is the one named |
| Paths.NothingAbove | kernel/fs/vfs.c:102-107 | ".." of the root is not found |
| Paths.LinkItself | kernel/fs/vfs.c:109-127 | a link that is not to be followed is the answer itself |
| Paths.AbsoluteLink | kernel/fs/vfs.c:109-127 | a link that holds the printed path of a node leads there from every directory |
| Paths.RelativeLink | kernel/fs/vfs.c:109-127 | a link that holds a plain name leads to the entry beside it |
| Paths.OnlyThroughDirectories | kernel/fs/vfs.c:205-217 | a walk does not go on through what is not a directory |
| Paths.AbsolutePath | kernel/fs/vfs.c:224-249 | the text printed from the chain of parents, without its first character |
| Paths.PathText | kernel/fs/vfs.c:224-249 | the printed path begins with a slash, has no two in a row, and ends with one exactly for a directory |
| Paths.PathComponents | kernel/fs/vfs.c:224-249 | the printed path has the names below the root as components |
| Paths.WalkUndoesPrint | kernel/fs/vfs.c:102-249 | walking the printed path of a visible node gives the node, through mounts too, and for the root |
| Paths.TreeRoundTrip | kernel/fs/vfs.c:102-249 | in every tree with proper, unique sibling names and no mounts, that holds for every node |
| Paths.PrintUndoesWalk | kernel/fs/vfs.c:102-249 | printing what a walk without dots and links found gives a path with the same components |

## Left out

- Paths.AbsolutePath: requires that the text fits the 4096-byte buffer, which the code does not check.
- Paths.SearchPath: links are followed up to a bound given as a parameter, because the code recurses without one; the round-trip results hold for every bound, 0 included.
- Paths.TreeRoundTrip: the "." and ".." entries of each directory are left out of its children, since a search by name never reaches them.
- FdTables.FdSpace.FdDup2: the number must lie in the data of its bitmap, and where its bit is set there must be a descriptor to close; what the code does outside is reading or following memory that the model does not have.
- FdTables.Bitmap.Dup: the copy and the memory behind it are as long as the original; the code allocates the bytes copied and reads on past them.
- Scheduler.StartsFromAny: the state machine has one thread per task; the loop over several is `Scheduler.ScanThreads`, and waiting between the threads of one task is not modelled.
- KernelHeap.Serve: pages come from a supply that does not run out, and giving back or storing into what is not held is skipped.
- ProcessTables.Fork: each process's tables lie in a memory of their own, so that tables of two processes share no page is not derived from the allocator; faults and forks are for pages of the lower half, and the kernel's own mappings in the upper half are arbitrary.
- PageTables.AliasedWrite: for a 2 MiB page that begins with an upper table only the word written is stated.
- RegionTree.DeleteNode: does not cover deleting a root that has children, which the macro would relink through a missing parent.
- PageTables.PageTable.MapPage: flags must include P; mappings without it create intermediate tables that are not present.
- Timers.FiresOnTime: durations are normalised timespecs; nothing normalises a negative one.
- Pipes.Pipe.FdRead: counts are non-negative, the descriptor is open and its access mode allows the call; the EBADF, EISDIR and ENODEV branches are not part of the model.
- Pmm.Module.Free: takes a live run; pmm_free's choice of the module is not modelled, because its test does not bound the end of the block.
- munmap and its splitting of regions (`kernel/mm/mmap.c:258-340`), whose partial cases have no clean meaning, and chains of deletions after a stale parent link.
- Page release in syscall_exit (`kernel/sched/sched.c:747-763`), which frees on a count above 1 and keeps on 1, and the handle move of execve.
- The 5-level page-table functions and the kernel mappings of vmm_default_table.
- File-backed and shared mappings: they depend on file I/O.
- PROT_NONE needs no case: it is 0 and adds no flag.
- Trimming of the boot memory map in pmm_init, zeroing in pmm_alloc, and callers that do not check an allocator's failure.
- realloc and object-size queries (`kernel/mm/slab.c:130-163`, `kernel/mm/slab.c:257-283`): realloc returns the object if its class is large enough and otherwise is alloc, a copy and free, whose effects are those of the two calls modelled.
- The hash function itself (any function below the bound will do) and overflow of the table's capacity; keys are values, while the code stores pointers to them.
- Bitmaps of the allocators are sequences of booleans; `Bits.dfy` proves that the byte macros act on such a sequence.
- Event waiting and firing, signals, sessions and process groups, permissions, priority_heap.c (unused).
- TLB and cr3 handling, interrupts, drivers, the boot protocol and assembly.
