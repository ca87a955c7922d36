# A verified model of the kernel's in-memory state machines

The kernel keeps its state in a few hand-written data structures: 4-level page tables in a page pool, a ring of
threads, a bitmap heap, a console back buffer, the firmware memory map, and the text routines that feed the console.
This project models them in Dafny, with the branches, constants and failure cases of the C++ code, and proves what
they are for.

Code that works in place is modelled in place: `PageTables.PageTable`, `SList.Head`, `Threads.KernelCore`,
`Bitmap.ConstBitmap`, `HeapManager.Allocator`, `KernelThreads.Kernel`, `Console.Buffers` and `MemoryMap.Map` are
classes over arrays and linked objects, and `Utf8.Decode`, `Numbers.Itoa`, `Format.Strlcpy` and `Format.Vsnprintf` are
loops over arrays. Each method is proved equal to a function on values (`State() == MapPageSpec(old(State()), …)`),
and the theorems are about those functions, so they hold for the in-place code.

Verify with `dafny verify dfyconfig.toml` (Dafny 4.11).

## What is proved

**Page tables** (`Paging`, `HardwareWalk`, `AccessRights`, `Mapping`, `KernelWindow`, `PageTables`). The paging
structures always form a tree: every non-zero entry above the leaves is present, has the page-size bit clear and leads
to a page of the pool that is in use, one level down, which no other entry leads to; every page not handed out is
zero. On a tree `MapPage` is a map update. It succeeds if and only if both addresses are aligned and the pool still
has as many pages as tables are missing on the path; then the leaf of the mapped page changes and no other, and a
failed call changes no translation. The same is proved of the processor's own walk (Intel SDM, volume 3A, section
4.5), which is defined separately, with large pages and reserved bits. User mode reaches a mapped page if and only if
that was asked for and every upper entry that already existed lets it through; a run of user mappings in a part of the
address space of its own opens exactly its pages. `MapPages` stops only when the pool is exhausted. `MapPagesInRegion`
keeps the mapped part of its region a prefix. All regions of `va.h` together need a pool of exactly 221 pages: page 0,
one PML4, one PDPT, one page directory and 217 page tables.

**Boot** (`MemoryMap`, `BootMapping`, `Boot`, `KernelSections`). The mapping sequence of `OsInitialize` cannot run out
of table pages and fails if and only if the back buffer is too large for its region. The table that it leaves is
described for every canonical address: image, page-table pool, frame buffer, back buffer, heap and devices translate
to their physical blocks, each device at the address reported for it, the UEFI region translates exactly where a
runtime descriptor covers it, and nothing else is mapped; user mode reaches none of it. Compacting the memory map
keeps every page with its type and attribute, in order; it leaves nothing to merge, a second pass changes nothing, and
the runtime mapping made from the compacted map is the same table. `FinalizeKernelMapping` discards and write-protects
exactly the pages of the sections that ask for it; after boot it cannot break down, and every other translation
survives it.

**Scheduler** (`Scheduler`, `SchedulerRuns`, `SList`, `Threads`). The steps are the timer interrupt, yield, delay,
exit, create, and the start of the idle loop. Every step keeps the invariant that only the current thread runs. A
selected thread could run; idle is chosen or kept only when no ring thread could. Waiting is bounded: a thread at ring
distance d runs within d selections, plus one for each thread created meanwhile, whatever other threads do; ten timer
interrupts contain a selection. A thread that delays does not run before its deadline, the idle core wakes at the
first check at or after a deadline, and a thread resumes with the context that was saved for it. The ring of linked
entries is one cycle through exactly the registered threads; both ring scans and all list searches terminate; the
double-free check in `FreeThread` never fires.

**Heap** (`Bitmap`, `HeapModel`, `HeapManager`, `ThreadLife`, `KernelThreads`). `Allocate` is exactly first fit, and
panics if and only if no run of free blocks is long enough, unless the size of the request wraps around: skipping full
words changes nothing, and the test of `total_free` never rejects a request that the scan could serve. Live
allocations are disjoint, the bitmap is exactly their union, and the counters agree with the bitmap over all runs of
allocating, freeing and writing; `Free` undoes its `Allocate` whatever happened in between. Creating threads and
letting them exit leaks nothing.

**Console** (`Console`). After any code points the back buffer, read through `PhysicalLine`, is the end of an
unbounded text document, and after `Present` the frame buffer is that screen, on the two-piece copy and on the
dirty-range copy. What each code point does to the document is spelled out: return, line feed, tab, a glyph with and
without room on its line, and a missing glyph.

**Text** (`Utf8`, `Numbers`, `Format`, `Printing`). `ssfn_utf8` inverts the encoding of RFC 3629, section 3, for every
scalar value, the loop of `Print` recovers every encoded string, and on arbitrary bytes it never passes the
terminator. Printed numbers read back; the local buffer of `i64toa` and `i32toa` is large enough for everything except
the smallest signed value in radix 2. The text of every directive is pinned to its argument: numbers read back as the
argument or as its 32-bit or 64-bit word. `vsnprintf` leaves exactly the first n - 1 characters of the unbounded text,
and `Print` shows that text, or its message when the text fits no buffer, and leaves the heap as it found it.

## Where the code does less than it promises

* `MapPage` sets the user flag of an upper entry only when it makes the entry.  `AccessRights.MapPageUserAccess` proves
  that a page mapped for user mode is reachable if and only if every upper entry that already existed has the flag;
  `AccessRights.KernelTableHidesUserPage` gives the calls that leave it out of reach.
* `Allocate` adds the header in 64-bit arithmetic.  `HeapModel.AllocateIsFirstFit` proves that it serves its request
  if and only if the sum does not wrap around or no block is free; `HeapModel.WrappingRequest` is an input where it
  does not.
* `FinalizeKernelMapping` uses the result of `GetPresentPte` unchecked.  `KernelSections.FinalizeSucceeds` proves that
  this is safe if and only if the leaf tables of the kept read-only sections exist, as they do after boot.
* `vsnprintf` stops one letter early in `%ld` and `%lld` and then prints that letter.  The model does the same;
  `Format.FaithfulWithoutSignedLongs` proves that the output is the intended one if and only if neither directive
  occurs; `Format.SignedLongPrintsLetter` is an example.
* `Delay` computes its deadline modulo 2^64.  `SchedulerRuns.DelayBlocks` proves that the call blocks if and only if
  the delay is not zero and the sum does not wrap around; `SchedulerRuns.WrappingDelay` is an example.
* The local buffer of `i64toa` and `i32toa` has one character per bit, and none for the sign of the smallest value in
  radix 2; `Numbers.FitsBuffer` proves that this is the only value that does not fit, and
  `Numbers.SmallestDoesNotFit` that it does not.

## Conventions

Entries, flags, words and bytes are numbers; masks and shifts by constants are divisions and remainders by powers of
two. A CPU context is an opaque number, and a context switch stores one and loads another. Functions named `…Spec` are
what a method computes, on values; `Valid`, `Tree` and `Good` are the invariants. A panic is the result `None`, `null`
or `false`.

## Model

| member | source | states |
|---|---|---|
| VirtualAddress.SizeToPages | kernel/common/va.h:21-24 | the result is the least number of pages that holds the size |
| VirtualAddress.RegionsTileKva | kernel/common/va.h:43-65 | the seven regions are disjoint and together fill the kernel window |
| Paging.EntryLayout | kernel/common/mm.h:274-309 | the field assignments of `MapPage` leave the frame and exactly the flags present, writable and, if asked for, user; the processor reads the frame back reduced to 52 bits |
| Paging.IndicesSelectPage | kernel/common/mm.h:216-226 | two addresses have the same four table indices if and only if they have the same 36-bit page number |
| Paging.CanonicalPages | kernel/common/mm.h:216-226 | canonical addresses with the same page number are on the same page, so distinct pages have distinct index paths |
| Paging.IndicesAreDigits | kernel/common/mm.h:11-21 | the four indices and the page offset are the digits of the low 48 address bits |
| Paging.LinkChild | kernel/common/mm.h:266-302 | in a tree a non-zero entry above the leaves is present, has the page-size bit clear, and leads to the pool page whose parent it is |
| Paging.AllocateSpec | kernel/common/mm.h:177-192 | allocating takes the next page that was never handed out, or fails exactly when all are in use; the tree is kept |
| Paging.LinkKeepsTree | kernel/common/mm.h:266-278 | linking a fresh zero page below an empty entry keeps the tree: no page gets two parents |
| Paging.TableAtLevel | kernel/common/mm.h:228-243 | a walk meets only tables of the expected level, inside the used part of the pool |
| Paging.PathUnique | kernel/common/mm.h:216-226 | two addresses that reach the same table agree in all indices above it |
| Paging.SameLeafSlot | kernel/common/mm.h:228-243 | two addresses share a leaf entry if and only if they are on the same page |
| Paging.GrownTables | kernel/common/mm.h:266-302 | a new table changes only walks through its own slot |
| Paging.EnsureStep | kernel/common/mm.h:266-278 | one block of `MapPage` changes no leaf entry, fails exactly when the table is missing and the pool is exhausted, and uses one page per missing table |
| Paging.DescendEffect | kernel/common/mm.h:266-304 | the descent changes no leaf entry and fails exactly when fewer pages are left than tables are missing |
| Paging.MapPageSpec | kernel/common/mm.h:259-312 | every call, successful or not, keeps the tree and the shape of the pool; what it writes is `MapPageUpdates` and `AccessRights.MapPageEntries` |
| Paging.MapPageUpdates | kernel/common/mm.h:259-312 | succeeds if and only if both addresses are aligned and the pool covers the missing tables; then exactly the leaf of that page becomes the new entry; a failed call changes no leaf |
| Paging.UpdateLeafEffect | kernel/common/mm.h:228-257 | changing a flag of a present leaf entry changes that leaf alone and no table |
| Paging.FlagSet | kernel/common/mm.h:98-122 | a written flag reads back, and writing the old value back restores the entry |
| Paging.FlagOthers | kernel/common/mm.h:98-122 | writing one flag leaves every other flag as it is |
| Paging.FlagKeepsFrame | kernel/common/mm.h:98-122 | writing an attribute flag keeps the frame and the present flag |
| HardwareWalk.HardwareAgrees | kernel/common/mm.h:216-243 | on a tree the processor walk of the Intel SDM, with its large pages and reserved bits, finds what the kernel walk finds |
| HardwareWalk.MapPageTranslates | kernel/common/mm.h:259-312 | after a successful call every address of the page translates into the frame at its offset, every other canonical address translates as before; a failed call changes no translation |
| HardwareWalk.UnmapPageTranslates | kernel/common/mm.h:251-257 | the page has no translation any more, all others are unchanged, and the result tells whether there was a leaf table |
| HardwareWalk.FlagKeepsTranslation | kernel/core/init.cc:305-307 | setting an attribute flag (PAT, cache disable, writable) changes no translation |
| HardwareWalk.DataPagesAreInvisible | kernel/common/mm.h:177-192 | allocating pages, and writing to pages handed out as plain memory, changes no translation and keeps the tree |
| AccessRights.RootGrants | kernel/common/mm.h:216-243 | the processor grants user mode or writing exactly if all four entries are present and carry the right |
| AccessRights.MapPageEntries | kernel/common/mm.h:264-302 | of the entries above the leaves a successful `MapPage` writes exactly those on the path of its address that were zero: present, writable, and open to user mode exactly as asked for |
| AccessRights.MapPageUserAccess | kernel/common/mm.h:259-312 | after a successful `MapPage` user mode reaches the page if and only if that was asked for and every upper entry that already existed lets user mode through; access to all other pages is unchanged |
| AccessRights.KernelTableHidesUserPage | kernel/common/mm.h:264-302 | a kernel mapping hides user mappings made later below the same new entry |
| AccessRights.MapPageKeepsUserSlot | kernel/common/mm.h:264-302 | mappings for user mode, and mappings under another top index, never close a slot to user mode |
| AccessRights.MapAllOpens | kernel/core/thread.cc:188-200 | over any run of mappings that are all for user mode under one top index, starting where nothing there keeps user mode out, user mode gains exactly the pages that were mapped |
| AccessRights.LeafDecidesWriting | kernel/common/mm.h:274-309 | entries above the leaves never forbid writing, so a page can be written exactly if its leaf is present and writable |
| Mapping.MapPagesUpdates | kernel/common/mm.h:314-326 | the pages of the run up to where it stops are mapped one to one; no other leaf changes |
| Mapping.MapPagesStops | kernel/common/mm.h:314-326 | it succeeds exactly when it reaches the end of its run; an aligned call that stops earlier has exhausted the pool |
| Mapping.RegionGrows | kernel/common/mm.h:330-353 | with the mapped part of the region a prefix, the run goes right behind it or nothing happens; the new range was wholly unmapped, maps contiguously, the mapped part is a prefix again, other leaves survive, and only exhaustion cuts the run short |
| KernelWindow.MapPageTables | kernel/common/mm.h:266-302 | a successful `MapPage` adds exactly the tables on the path of its address |
| KernelWindow.ReserveStep | kernel/common/va.h:43-65 | a mapping inside the kernel window takes from the tables still needed exactly the pages it uses, and never needs more than those |
| KernelWindow.FreshIsEmpty | kernel/common/mm.h:152-160 | a constructed pool is a tree with only its root, at the page behind `phys`, with the addresses it was given |
| KernelWindow.WindowRun | kernel/common/mm.h:259-312 | over any run inside the kernel window, pages in use plus tables still needed stay constant, and the run cannot fail while the pool covers them |
| KernelWindow.PagesForKernelWindow | kernel/common/va.h:43-65 | 221 pool pages serve every run of mappings inside the regions, and a run that touches all 217 windows succeeds if and only if the pool has that many |
| PageTables.PageTable.constructor | kernel/common/mm.h:152-160 | on a zeroed pool: page 0 and the root in use, nothing mapped; the addresses and the page count are the arguments |
| PageTables.PageTable.AllocatePhysical | kernel/common/mm.h:177-192 | the in-place search takes the lowest free page, as `AllocateSpec`, or returns 0 |
| PageTables.PageTable.AllocatePhysicalPages | kernel/common/mm.h:194-208 | the first of `count` consecutive pages, at least one, or 0 if the pool runs out on the way, which has then taken all that were left |
| PageTables.PageTable.GetPresentPte | kernel/common/mm.h:228-243 | the slot of the leaf entry if the three tables above it are present, else none |
| PageTables.PageTable.IsPagePresent | kernel/common/mm.h:245-249 | whether the leaf of the address is present |
| PageTables.PageTable.UpdatePte | kernel/core/init.cc:239-247 | writes one flag of the leaf entry, as `UpdateLeafSpec` |
| PageTables.PageTable.UnmapPage | kernel/common/mm.h:251-257 | clears the present flag of the leaf; tells whether there was a leaf table |
| PageTables.PageTable.MapPage | kernel/common/mm.h:259-312 | the whole new pool, as `MapPageSpec`, and the success flag; so all that `MapPageUpdates`, `MapPageTranslates`, `MapPageEntries` and `MapPageUserAccess` say |
| PageTables.PageTable.MapPages | kernel/common/mm.h:314-326 | the loop computes `MapPagesSpec` |
| PageTables.PageTable.MapPagesInRegion | kernel/common/mm.h:330-353 | the loop computes `MapInRegionSpec`: the address mapped at, or none |
| MemoryMap.CoalesceKeepsPages | kernel/core/init.cc:56-88 | every page keeps its type and attribute, in order, so the page count is kept |
| MemoryMap.CoalesceIsComplete | kernel/core/init.cc:67-84 | no two neighbours of the result have the same type and attribute and touch |
| MemoryMap.CoalesceFixpoint | kernel/core/init.cc:56-88 | a map without mergeable neighbours is left as it is |
| MemoryMap.CoalesceIdempotent | kernel/core/init.cc:56-88 | a second pass changes nothing |
| MemoryMap.CoalesceKeepsRuntime | boot/entry.cc:486-491 | with the placement rule of the boot loader the runtime pages keep their virtual-to-physical pairs, in order |
| MemoryMap.ReclaimFrees | kernel/core/init.cc:41-54 | boot service code and data and loader code without the runtime attribute become conventional memory; every other descriptor is as before |
| MemoryMap.ReclaimCounts | kernel/core/init.cc:41-54 | the number returned is the number of descriptors that changed |
| MemoryMap.ReclaimKeepsRuntime | kernel/core/init.cc:41-54 | reclaiming changes no page address, no attribute and no runtime pair |
| MemoryMap.Map.ReclaimBootPages | kernel/core/init.cc:41-54 | the loop computes `ReclaimAll` and its count; entries past the end stay |
| MemoryMap.Map.Keep | kernel/core/init.cc:70-83 | one step of the compaction: merged into the last descriptor kept, or moved behind it |
| MemoryMap.Map.CoalesceMemoryDescriptors | kernel/core/init.cc:56-88 | the in-place compaction leaves exactly `Coalesce` of the old descriptors and counts the merged ones |
| BootMapping.MapPagesAdds | kernel/core/init.cc:293-294 | inside the kernel window `MapPages` cannot fail, and the table shows the new run in front of the earlier ones |
| BootMapping.RegionAdds | kernel/core/init.cc:298-303 | a run that fits behind the mapped prefix of its region is mapped there, and everything else stays |
| BootMapping.MapRuntimeAdds | kernel/core/init.cc:90-100 | runtime descriptors inside the UEFI region are all mapped, without failure |
| BootMapping.RuntimeMapsPairs | kernel/core/init.cc:90-100 | `MapUefiRuntime` maps exactly the runtime pairs of its map, one after the other |
| BootMapping.CoalesceKeepsRuntimeMapping | kernel/core/init.cc:90-100 | mapping from the coalesced map gives the same page table as mapping from the original one |
| Boot.MapDeviceUncached | kernel/core/init.cc:233-249 | the next pages of the device region with caching disabled, flagged from the last page to the first; none, and no change, exactly if the block is unaligned or does not fit; a request for no page changes nothing |
| Boot.MapUefiRuntime | kernel/core/init.cc:90-100 | the loop computes `MapRuntimeSpec` |
| Boot.MapImageAndScreen | kernel/core/init.cc:293-298 | kernel image, page-table pool and frame buffer are mapped in this order |
| Boot.MapBackBuffer | kernel/core/init.cc:300-307 | fails exactly if the back buffer is larger than its region; otherwise it is mapped and every page of the frame buffer is marked write-combining |
| Boot.MapDevices | kernel/core/init.cc:309-316 | each device takes the next page of the region unless it is absent or unaligned; the local APIC is mapped only behind the I/O APIC, and the APIC is used only if both are mapped |
| Boot.MapKernelSpace | kernel/core/init.cc:287-320 | the whole sequence on a fresh table: never out of table pages, fails if and only if the back buffer does not fit, and leaves exactly the runs listed in `BootRuns`; the page reported for the timer, the I/O APIC and the local APIC translates to that device, uncached |
| Boot.BootDevices | kernel/core/init.cc:309-316 | every address of a page reported for a device translates into the page of that device, with caching disabled |
| Boot.BootKeepsUserOut | kernel/core/init.cc:287-323 | no address of the kernel address space is accessible from user mode, and everything that is mapped can be written |
| Boot.RuntimeHit | kernel/core/init.cc:90-100 | under the placement rule of the boot loader the entry of a runtime page does not depend on which of several overlapping descriptors was mapped last |
| Boot.BootUefi | kernel/core/init.cc:318 | in the UEFI region exactly the pages of the runtime descriptors are mapped, each to the page it was placed by |
| Boot.KernelSpaceTranslates | kernel/core/init.cc:287-323 | in the finished table every block translates to where it is, with the frame buffer write-combining and devices uncached; UEFI addresses translate back by the placement rule exactly where a runtime descriptor covers them; every other canonical address, inside the kernel window or not, is unmapped |
| Boot.RuntimeOfFirmwareMap | kernel/core/init.cc:277-318 | booting with the reclaimed and compacted map makes exactly the runtime memory of the map of the firmware accessible |
| Boot.PoolMapsItself | kernel/common/mm.h:211-214 | the address that `GetPoolEntryVa` computes for a pool page translates to that page after all boot mappings |
| KernelSections.SectionProtection | kernel/core/init.cc:162-181 | a page of a discardable section is unmapped; of a read-only one it keeps its frame and loses the right to write; of a writable one it is unchanged |
| KernelSections.OutsideSections | kernel/core/init.cc:154-184 | pages outside all sections keep their entry |
| KernelSections.ProtectSucceeds | kernel/core/init.cc:173-181 | the write-protecting loop succeeds if and only if the leaf table of every page it looks up exists, and then clears the flag on each |
| KernelSections.FinalizeSucceeds | kernel/core/init.cc:150-185 | the whole function succeeds if and only if the leaf tables of all kept read-only sections exist; otherwise it dereferences a null pointer; it never changes which tables exist |
| KernelSections.UnmappedSectionFails | kernel/core/init.cc:173-178 | one read-only section on a table that maps nothing is such an input |
| KernelSections.FinalizeEffect | kernel/core/init.cc:150-185 | if it succeeds, every leaf of the table is what the sections say, for any list of disjoint sections |
| KernelSections.ImageIsReachable | kernel/core/init.cc:293 | after boot every page of the kernel image has its leaf table |
| KernelSections.FinalKernelSpace | kernel/core/init.cc:287-344 | after boot finalising sections of the kernel image never breaks down; discarded pages are unmapped, every other translation is the one made at boot, of the sections kept exactly the writable ones can be written, and user mode stays out |
| KernelSections.FinalPoolMapsItself | kernel/common/mm.h:211-214 | the pool is still mapped onto itself after finalising |
| KernelSections.DiscardPages | kernel/core/init.cc:162-171 | the loop unmaps the pages of a section, whether or not they were mapped |
| KernelSections.ProtectPages | kernel/core/init.cc:173-181 | the loop computes `ProtectFrom`; false where it dereferences a null pointer |
| KernelSections.FinalizeKernelMapping | kernel/core/init.cc:150-185 | the loops over sections and pages compute `FinalizeSpec`, page table and success |
| SList.Head.Last | kernel/lib/ec/list.h:30-32 | the search for the last entry goes once around and ends |
| SList.Head.Push | kernel/lib/ec/list.h:21-37 | the new entry comes first; the ring stays one cycle through exactly the entries |
| SList.Head.Pop | kernel/lib/ec/list.h:39-56 | the first entry is gone; an empty list stays empty |
| SList.Head.Previous | kernel/lib/ec/list.h:63-70 | the entry before the given one, or null exactly when it is not in the ring |
| SList.Head.Remove | kernel/lib/ec/list.h:58-82 | the entry is taken out of the sequence; an absent entry leaves every link unchanged |
| Scheduler.SelectIsSafe | kernel/core/thread.cc:227-304 | a selected ring thread could run; idle is selected or kept only if no ring thread could; a running thread is kept only if no other can run; a false return changes nothing; no third thread is touched |
| Scheduler.SelectsNextInRing | kernel/core/thread.cc:242-286 | the thread selected is the first one behind the current thread, around the ring, that is ready or whose deadline has been reached; from idle, the first one of the ring |
| Scheduler.SelectKeepsValid | kernel/core/thread.cc:288-303 | selecting restores the invariant that only the current thread runs |
| Scheduler.LowestFreeId | kernel/core/thread.cc:106-127 | the lowest id below 512 that no live thread has; none exactly when all are taken |
| Scheduler.CreateKeepsValid | kernel/core/thread.cc:129-170 | a created thread keeps the invariant: distinct ids, ready, on the ring |
| Scheduler.CreateCases | kernel/core/thread.cc:158-170 | the new thread is ready, has the lowest free id and comes first on the ring; no thread is created exactly when no id is free |
| Scheduler.DelayEffect | kernel/core/thread.cc:330-339 | the deadline is the 64-bit sum of clock and delay, or the old one for a delay of zero; the thread waits unless it was selected again |
| Scheduler.ExitSwitches | kernel/core/thread.cc:70-77 | the terminating thread is never selected again, so `ExitThread` always switches |
| Scheduler.ExitKeepsValid | kernel/core/thread.cc:63-90 | afterwards another thread is current with its context loaded, the exiting one is off the ring and its id free, and the others are as selected |
| Scheduler.Next | kernel/core/thread.cc:227-339 | every step of every run keeps the invariant, and the clock never goes back |
| Scheduler.NextKeepsThreads | kernel/core/thread.cc:227-339 | only creating and exiting change which threads are live or the order of the ring |
| SchedulerRuns.WaitStep | kernel/core/thread.cc:250-286 | per step a waiting runnable thread gets the processor, or stays runnable and is closer by one if the step selected, at most one further if it created a thread |
| SchedulerRuns.DistanceIs | kernel/core/thread.cc:250-286 | the ring distance is how far a thread is ahead of the current one around the ring, and its place on the ring while the core idles |
| SchedulerRuns.BoundedWaiting | kernel/core/thread.cc:227-304 | a runnable thread at ring distance d runs within d selections, plus one for each thread created meanwhile, whatever the others do |
| SchedulerRuns.WaitsAtMostOneRound | kernel/core/thread.cc:227-304 | without creations, ring-length selections are always enough, also when starting from idle |
| SchedulerRuns.TimersSelect | kernel/hw/cpu/intctrl.cc:105-110 | once preemption is allowed, every ten timer interrupts of a run contain a selection |
| SchedulerRuns.WaitsBoundedTime | kernel/hw/cpu/intctrl.cc:105-134 | a runnable thread runs within ten timer interrupts for each place of its distance and each thread created meanwhile |
| SchedulerRuns.SleepStep | kernel/core/thread.cc:242-286 | no step wakes or selects a thread whose deadline is ahead |
| SchedulerRuns.DelayBlocks | kernel/core/thread.cc:330-339 | `Delay` blocks if and only if the delay is not zero and the 64-bit sum does not wrap |
| SchedulerRuns.WrappingDelay | kernel/core/thread.cc:334-336 | a delay of one tick at the last tick of the 64-bit range does not block |
| SchedulerRuns.SleepsAtLeast | kernel/core/thread.cc:330-339 | a thread that calls `Delay(n)` does not run again until n ticks have passed, over any run |
| SchedulerRuns.IdleTimer | kernel/hw/cpu/intctrl.cc:105-134 | a timer interrupt on the idle core wakes it if it is a check and some thread can run, and otherwise only counts the tick |
| SchedulerRuns.IdleWakes | kernel/hw/cpu/intctrl.cc:105-134 | over any run, with threads created in it or not, the idle core leaves idle at the latest at the interrupt that sees the first multiple of ten at or after a deadline |
| SchedulerRuns.ContextStep | kernel/hw/cpu/intctrl.cc:110-118 | a thread that loses the processor has its context saved, one that gets it has its context loaded, the others keep theirs |
| SchedulerRuns.ResumesSavedContext | kernel/core/thread.cc:306-322 | over any run a thread resumes with exactly the context that was saved for it |
| Threads.KernelCore.constructor | kernel/core/thread.cc:172-180 | after `StartScheduler`: the idle thread with id 0 is current, the ring is empty, one id is marked |
| Threads.KernelCore.FindFromIdle | kernel/core/thread.cc:248-264 | the scan from idle finds the first thread of the ring that can run, or null exactly when none can; it ends |
| Threads.KernelCore.FindFromCurrent | kernel/core/thread.cc:270-284 | the scan from behind the current thread, once around, finds the first that can run, or null exactly when none can; it ends |
| Threads.KernelCore.SelectNextThread | kernel/core/thread.cc:227-304 | on the linked objects it computes `SelectSpec`, and tells whether it selected |
| Threads.KernelCore.Yield | kernel/core/thread.cc:306-328 | selection and context switch: the step `Yield` |
| Threads.KernelCore.Delay | kernel/core/thread.cc:330-339 | state, deadline and yield: the step `Delay` |
| Threads.KernelCore.TimerInterrupt | kernel/hw/cpu/intctrl.cc:100-134 | preemption on every tenth tick, then the tick: the step `Timer` |
| Threads.KernelCore.StartIdle | kernel/core/thread.cc:24-30 | preemption starts when the idle thread runs |
| Threads.KernelCore.AllocateThreadId | kernel/core/thread.cc:106-127 | the word-wise search, skipping full words, marks the lowest clear bit, or finds all 512 set |
| Threads.KernelCore.CreateThreadInternal | kernel/core/thread.cc:137-139 | a new thread object under the lowest free id, its bit set; null exactly when no id is free |
| Threads.KernelCore.RegisterThread | kernel/core/thread.cc:32-38 | the thread is first on the ring |
| Threads.KernelCore.CreateThread | kernel/core/thread.cc:158-170 | a new ready thread, first on the ring, as `CreateSpec`; null, and nothing changed, where the kernel panics for lack of ids |
| Threads.KernelCore.UnregisterThread | kernel/core/thread.cc:40-46 | the thread is off the ring |
| Threads.KernelCore.FreeThread | kernel/core/thread.cc:52-55 | the id is given back; the double-free panic is unreachable |
| Threads.KernelCore.ExitThread | kernel/core/thread.cc:63-90 | the step `Exit`: a different thread is current, and the exiting one is no longer live |
| ThreadLife.AllocateBlock | kernel/core/alloc.cc:72-139 | a new block that was not live, with every other allocation unchanged; none exactly when no free run is long enough |
| ThreadLife.StartIsValid | kernel/core/thread.cc:172-180 | the idle thread owns one new allocation, its object; all others are untouched |
| ThreadLife.CreateKeepsValid | kernel/core/thread.cc:129-156 | the new thread owns two new allocations of its own, stack and object; nobody else is affected |
| ThreadLife.ExitKeepsValid | kernel/core/thread.cc:48-61 | exactly the stack and the object of the exiting thread are freed, both of them live until then |
| ThreadLife.MemoryKeepsValid | kernel/core/alloc.cc:72-168 | every heap operation that does not free an allocation of a thread leaves the threads their stacks and objects |
| ThreadLife.RunKeepsOthers | kernel/core/thread.cc:48-170 | over any run of creating, scheduling and exiting, allocations that belong to no thread stay exactly as they are |
| ThreadLife.LiveDeterminesHeap | kernel/core/alloc.cc:46-58 | the live allocations determine bitmap and counters |
| ThreadLife.HeapReturns | kernel/core/thread.cc:48-170 | a run that ends with the threads it began with leaves bitmap, counters and live allocations as they were: nothing leaks |
| ThreadLife.CreateThenExit | kernel/core/thread.cc:48-163 | creating a thread and letting it exit, however scheduled in between, restores bitmap, counters, live allocations and ids |
| KernelThreads.Kernel.StartScheduler | kernel/core/thread.cc:172-180 | in place: the idle thread with its object on the heap, as `ThreadLife.Start`; null where the allocator panics |
| KernelThreads.Kernel.AllocateBytes | kernel/core/alloc.cc:72-139 | allocating leaves every thread, the ring and the ids as they are |
| KernelThreads.Kernel.FreeBytes | kernel/core/alloc.cc:141-168 | freeing leaves every thread, the ring and the ids as they are |
| KernelThreads.Kernel.CreateThread | kernel/core/thread.cc:129-170 | in place: stack, object, id and ring, as `ThreadLife.Create`; null exactly where the kernel panics for lack of memory or ids |
| KernelThreads.Kernel.ExitThread | kernel/core/thread.cc:48-90 | in place: another thread takes over, and the id, the stack and the object are given back, as `ThreadLife.Exit` |
| Bitmap.WithBitEffect | kernel/lib/ec/bitmap.h:12-25 | setting or clearing a bit changes that bit of the word and no other |
| Bitmap.WordIsFull | kernel/core/alloc.cc:94 | a 64-bit word is all ones if and only if all its bits are set |
| Bitmap.ConstBitmap.HasBit | kernel/lib/ec/bitmap.h:12-15 | the bit of the whole bitmap |
| Bitmap.ConstBitmap.SetBit | kernel/lib/ec/bitmap.h:17-20 | exactly this bit of the whole bitmap is set |
| Bitmap.ConstBitmap.ClearBit | kernel/lib/ec/bitmap.h:22-25 | exactly this bit of the whole bitmap is cleared |
| Bitmap.ConstBitmap.FullWord | kernel/core/alloc.cc:94-98 | a word of all ones covers only set bits, and any other word covers a clear one |
| HeapModel.BlocksFor | kernel/core/alloc.cc:76-77 | the least number of blocks that holds the request and its header |
| HeapModel.FirstFit | kernel/core/alloc.cc:89-114 | the lowest start of a free run of the wanted length, or none if there is no such run |
| HeapModel.RunFitsFree | kernel/core/alloc.cc:79-83 | the test of `total_free` never rejects a request that the scan could serve |
| HeapModel.BlocksNeededCases | kernel/core/alloc.cc:76-85 | the 64-bit sums give the least sufficient number of blocks, except that they give none where the rounding wraps around and one where the header does |
| HeapModel.AllocateIsFirstFit | kernel/core/alloc.cc:72-139 | takes the lowest free run that holds the request, and panics if and only if there is none; this holds if and only if adding the header does not wrap around, or no block is free |
| HeapModel.WrappingRequest | kernel/core/alloc.cc:76 | a request of 2^64 - 7 bytes on an empty heap is given one block |
| HeapModel.AllocateKeepsValid | kernel/core/alloc.cc:72-139 | live allocations stay disjoint, the bitmap their union, the counters in agreement, all headers in place |
| HeapModel.AllocateHandsOut | kernel/core/alloc.cc:60-70 | the new allocation lies in the pool, its address follows its header, it holds the request unless the sums wrap around, and its memory is zero if asked for and otherwise untouched; no other memory changes |
| HeapModel.FreeRemovesLive | kernel/core/alloc.cc:141-168 | an address that `Allocate` returned gives up exactly that allocation; null and outside addresses are ignored |
| HeapModel.FreedKeepsValid | kernel/core/alloc.cc:141-168 | freeing keeps the invariant |
| HeapModel.FreeUndoesAllocate | kernel/core/alloc.cc:72-168 | freeing right after allocating restores bitmap, counters and live allocations; zeroing stayed inside the new run |
| HeapModel.Step | kernel/core/alloc.cc:72-168 | every allocation, release and write of an owner keeps the invariant |
| HeapModel.StepKeepsAllocation | kernel/core/alloc.cc:46-168 | an allocation survives every operation but its own release, and only its owner changes its memory |
| HeapModel.RunKeepsAllocation | kernel/core/alloc.cc:46-168 | over any run an allocation that is not released keeps its place and size |
| HeapModel.FreeAfterRun | kernel/core/alloc.cc:141-168 | whatever happened since, releasing clears exactly the blocks that were allocated, leaves all else, and moves the counters by their size |
| HeapManager.ScanUsed | kernel/core/alloc.cc:94-98 | skipping used blocks, one or a whole word, passes no run that could be taken |
| HeapManager.ScanFree | kernel/core/alloc.cc:104-114 | one more free block either completes the first fit or keeps the scan exact |
| HeapManager.Allocator.constructor | kernel/core/alloc.cc:38-44 | empty bitmap, everything free |
| HeapManager.Allocator.SetAllocationState | kernel/core/alloc.cc:46-58 | exactly the blocks of the allocation are set or cleared |
| HeapManager.Allocator.FindBlocks | kernel/core/alloc.cc:89-138 | the nested scan with the full-word shortcut returns exactly the first fit; a run of no block is never found |
| HeapManager.Allocator.Allocate | kernel/core/alloc.cc:72-139 | the whole new heap, as `AllocateSpec`, or none where the kernel panics; so all that `AllocateIsFirstFit` and `AllocateHandsOut` say |
| HeapManager.Allocator.Free | kernel/core/alloc.cc:141-168 | the whole new heap, as `FreeSpec` |
| Console.ControlCodes | kernel/hw/gfx/output.cc:89-93 | carriage return goes back to the start of the line, line feed starts a new blank line |
| Console.PutDraws | kernel/hw/gfx/output.cc:103-115 | any other code point but the tab is drawn at the cursor if a cell is left on the line, else at the start of a new line; the cursor moves by a cell; one without a glyph draws nothing |
| Console.TextIsTyped | kernel/hw/gfx/output.cc:103-115 | a text that fits the line is typed into it cell after cell, and nothing else changes |
| Console.ScreenIsEnd | kernel/hw/gfx/output.cc:15-17 | the screen is the end of the document, filled up with blank lines |
| Console.WriteConcat | kernel/hw/gfx/output.cc:179-180 | writing two texts after each other is writing their concatenation |
| Console.WriteKeepsHistory | kernel/hw/gfx/output.cc:69-116 | the cursor stays on the display, and lines above it are never changed again |
| Console.TextFillsCells | kernel/hw/gfx/output.cc:103-115 | text wraps after the last column and leaves no cell out: n characters fill n cells |
| Console.TabGoesToNextStop | kernel/hw/gfx/output.cc:94-101 | a tab moves to the least multiple of eight cells ahead, or breaks the line exactly when no character fits at any stop ahead |
| Console.ScrollsScreen | kernel/hw/gfx/output.cc:79-82 | clearing the physical top line and advancing `top` makes the ring show the document with a blank line added |
| Console.ScreenBreak | kernel/hw/gfx/output.cc:69-83 | a new line scrolls a full screen and leaves any other as it is |
| Console.Buffers.constructor | kernel/hw/gfx/output.cc:236-263 | both buffers cleared, nothing dirty: the screen of the empty document |
| Console.Buffers.NewLine | kernel/hw/gfx/output.cc:69-83 | the document gets a blank line, and the ring shows its end |
| Console.Buffers.MarkDirty | kernel/hw/gfx/output.cc:61-67 | the dirty range is extended to the line |
| Console.Buffers.PutCodepoint | kernel/hw/gfx/output.cc:85-116 | the document takes one code point, as `Put`, so as `ControlCodes`, `TabGoesToNextStop` and `PutDraws` say, and the ring shows its end |
| Console.Buffers.PhysicalLineIsScreenLine | kernel/hw/gfx/output.cc:45-48 | a physical line is the line of the screen it stands for |
| Console.Buffers.CopyLines | kernel/hw/gfx/output.cc:56-59 | the lines are copied and no others change |
| Console.Buffers.CopyAll | kernel/hw/gfx/output.cc:120-126 | two pieces, split at `top`, give the screen in order |
| Console.Buffers.CopyDirty | kernel/hw/gfx/output.cc:127-131 | copying the dirty range is enough |
| Console.Buffers.Present | kernel/hw/gfx/output.cc:118-136 | the frame buffer is the screen, on either path, and nothing is left dirty |
| Console.Buffers.PutString | kernel/hw/gfx/output.cc:179-182 | a NUL-terminated string appends its code points to the document, then the frame buffer is the screen |
| Console.Buffers.PutChar | kernel/hw/gfx/output.cc:188-200 | one character and a copy, or nothing for NUL |
| Utf8.Decode | kernel/hw/gfx/ssfn.h:264-283 | the code point and position of `DecodeAt`; from a byte that is not NUL it moves forward and not past the terminator |
| Utf8.StaysInside | kernel/hw/gfx/ssfn.h:256-260 | on arbitrary NUL-terminated bytes a call moves forward and not past the terminator |
| Utf8.CutShort | kernel/hw/gfx/ssfn.h:277-281 | a sequence cut short gives 0 and leaves the position on the byte that cut it |
| Utf8.DecodeBytes | kernel/hw/gfx/ssfn.h:264-283 | what arbitrary bytes decode to: single bytes, stray continuation bytes, complete sequences, overlong or not |
| Utf8.DecodeCutShort | kernel/hw/gfx/ssfn.h:277-281 | a sequence cut short after k continuation bytes gives 0 and ends at the byte that cut it |
| Utf8.DecodeEncode | kernel/hw/gfx/ssfn.h:264-283 | decoding inverts the RFC 3629 encoding of every scalar value, wherever it stands |
| Utf8.DecodeAllEncoded | kernel/hw/gfx/output.cc:179-180 | the loop recovers every encoded string without NUL |
| Numbers.DigitTable | kernel/lib/libc/print.cc:9-11 | the digits are those of the table, and read back as their place in it |
| Numbers.DigitsReadBack | kernel/lib/libc/print.cc:25-29 | the digits of a number read back as the number |
| Numbers.DigitsAreDigits | kernel/lib/libc/print.cc:9-11 | each character is a digit of the radix, and there is no leading zero |
| Numbers.DigitCount | kernel/lib/libc/print.cc:25-29 | a number has at most n digits if and only if it is below the n-th power of the radix |
| Numbers.TextReadsBack | kernel/lib/libc/print.cc:7-42 | the text reads back as the value, or as the unsigned value if no sign was asked for, in every radix |
| Numbers.UnsignedReadsBack | kernel/lib/libc/print.cc:7-42 | without a sign the digits stand for the word modulo its size |
| Numbers.TextIsNumeral | kernel/lib/libc/print.cc:7-42 | the text is a minus sign for a negative value, then digits of the radix without a leading zero |
| Numbers.FitsBuffer | kernel/lib/libc/print.cc:15-34 | the text fits the local buffer if and only if it is not the smallest signed value in radix 2 or below |
| Numbers.SmallestDoesNotFit | kernel/lib/libc/print.cc:15-34 | -2^63 in radix 2 takes 65 characters |
| Numbers.Itoa | kernel/lib/libc/print.cc:7-80 | both functions: the output is the text and a NUL, and the rest of the output buffer is unchanged |
| Format.Strlcpy | kernel/lib/libc/str.cc:190-213 | at most n bytes are written: as much of the source as fits and a NUL; the length of the source is returned |
| Format.NumberText | kernel/lib/libc/print.cc:151-163 | the local buffer of `vsnprintf` holds every number it prints |
| Format.Vsnprintf | kernel/lib/libc/print.cc:131-200 | memory holds the first n - 1 characters of the unbounded text, or all of it, and a NUL; nothing else changes; the length is returned exactly if the text was not cut |
| Format.ParsesDirective | kernel/lib/libc/print.cc:96-129 | each supported directive is recognised, and all of it is consumed except the last letter of `%ld` and `%lld` |
| Format.SignedDirectives | kernel/lib/libc/print.cc:148-163 | `%d`, `%ld` and `%lld` print the decimal number that reads back as the argument; the last two print a `d` behind it |
| Format.WordDirectives | kernel/lib/libc/print.cc:148-163 | `%u` and `%lu` print the argument modulo 2^32 in decimal, `%x` and `%lx` in radix 16 |
| Format.LongDirectives | kernel/lib/libc/print.cc:148-163 | `%llu` prints the argument modulo 2^64 in decimal, `%llx` and `%p` in radix 16 |
| Format.CharDirectives | kernel/lib/libc/print.cc:165-178 | `%c` prints the byte, `%b` a `1` exactly if the argument is not zero, `%s` the characters up to the terminator |
| Format.PlainCharacters | kernel/lib/libc/print.cc:180-188 | other characters are printed as they are, `%%` is a percent sign, an unknown directive is dropped; none takes an argument |
| Format.PrintsInContext | kernel/lib/libc/print.cc:131-200 | a directive other than `%ld` and `%lld` prints the same text wherever it stands in a format |
| Format.PrintsMeaning | kernel/lib/libc/print.cc:131-200 | a spelled list of directives prints the texts of its directives one after the other, longer by one letter for each `%ld` and `%lld`; the text of each is `SignedDirectives` to `PlainCharacters` |
| Format.FaithfulWithoutSignedLongs | kernel/lib/libc/print.cc:131-200 | the text is the meaning of the directives if and only if neither `%ld` nor `%lld` is among them |
| Format.SignedLongPrintsLetter | kernel/lib/libc/print.cc:138-148 | `%ld` with the argument 5 prints `5d` |
| Printing.DecodesUpToTerminator | kernel/hw/gfx/output.cc:179-180 | what the loop decodes depends only on the bytes up to the terminator |
| Printing.Prepare | kernel/hw/gfx/output.cc:149-177 | the buffer handed to the console holds the whole text if it fits 512 bytes, or 2048 once there is a heap, and otherwise a message; the longer one is allocated first, and a failing allocation panics |
| Printing.GiveBack | kernel/hw/gfx/output.cc:149 | freeing the longer buffer restores bitmap, counters and live allocations |
| Printing.Print | kernel/hw/gfx/output.cc:143-186 | from format to screen: the document gets the code points of that text, the frame buffer is the screen, and the heap is left as it was found; it fails exactly if the longer buffer is needed and cannot be allocated |
| Printing.EncodedTextIsShown | kernel/hw/gfx/output.cc:143-186 | if the text of a format is an encoded string that fits, what `Print` adds to the document are exactly its code points |

## Left out

- Device effects: interrupt controllers, TLB flushes, CR3, MSRs, ports and UEFI calls; the contents of a CPU context.
- Glyph rasterising: `ssfn_putc` is an unknown function on one text line that advances the cursor by the cell width or reports a missing glyph; the rest of `ssfn.h` is not part of this model.
- Console.Buffers: a text line is one value, so copying by 8-byte words and filling by pixels are not modelled; a display of at least one cell and one line is required, and coordinates are assumed to stay below 2^32.
- Printing.Print: the characters in the longer buffer are kept apart from the words of the heap.
- The address change of the console buffers when CR3 is loaded (`SetFrameBufferAddress`), and the keyboard.
- The page-table constructor with a firmware CR3: those tables lie outside the pool.
- PageTables.PageTable: page 0 of the pool, which holds the page flags, is kept as a separate array of flags, and a pool page is a sequence of 512 entries; the pool must be zeroed, as the boot loader leaves it.
- Address overflow near 2^64 in `MapPages` and `MapPagesInRegion`: addresses are unbounded, and the theorems about translations require canonical ranges.
- Paging.MapPageUpdates: leaves and success only; the entries above the leaves are `AccessRights.MapPageEntries`, and what user mode can reach is `AccessRights.MapPageUserAccess`.
- AccessRights.CanWrite: the entries of a table decide; write protection switched off in CR0 is not modelled.
- Boot.KernelSpaceTranslates: assumes what the boot loader provides, aligned blocks that fit their regions and runtime memory inside the UEFI region.
- KernelSections.FinalizeKernelMapping: sections are given as a list instead of being read from the image, and the zeroing of discarded sections is left out.
- MemoryMap.Map: descriptors are a typed array; the firmware's descriptor stride and the byte copy are not modelled.
- Scheduler.Next: `Delay` is one step, so preemption between its two writes is not modelled; the tick counter is unbounded, apart from the sum that `Delay` makes.
- Threads.KernelCore.CreateThreadInternal: only the object and its id; the allocations are added by `KernelThreads.Kernel.CreateThread`, and the initial register values are one opaque context. The id is chosen before the object exists, because it is a constant of the object.
- Threads.KernelCore.FreeThread: only the id; stack and object are freed by `KernelThreads.Kernel.ExitThread`.
- ThreadLife.Create: models kernel threads whose stack comes from the heap; user threads, their page mappings and the boot stack of the idle thread are left out.
- Concurrent use of the heap and of the scheduler, and more than one core.
- Clearing by the initialisers, which is given an element count instead of a byte count: the model starts from zeroed storage.
- HeapModel.FreeSpec: defined for what `Allocate` returned, null and addresses outside the pool; a pointer into the pool that was not returned is a caller error.
- `AlignUp` only appears as the rounding to heap blocks.
- The element count `slist_entry::size`, which nothing uses.
- Format.Vsnprintf: a format that ends inside a directive, n = 0, and arguments that do not fit their directive are excluded; they read or write out of bounds in the code.
- `ec::string`, `format.h`, PE headers, ACPI tables: these would add easier members or depend on external data.
