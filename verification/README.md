# A verified model of a RISC-V teaching kernel

This project models five parts of the kernel and proves what each of them promises. Every size is a
parameter: any power-of-two buddy size, any number of tasks and processes, any file length.

* **Copy-on-write fork, demand paging, Sv39 page tables.** `Sv39` holds the three-level tables as 64-bit
  entries in frames, `create_mapping` and `find_pte` as methods of `PageTables`, and shows that they
  behave as one flat map per address space. `Vmas` holds the doubly linked area list. `Cow` is the
  machine of frames, reference counts, areas and page tables, `CowRuns` its steps (load, fetch, store,
  page fault, fork, kernel allocation), `CowKernel` the same steps as code on the state. `CowRefinement`
  and `CowTheorems` compare it with a kernel that copies every page at fork, which is what the
  commented-out block at `arch/riscv/kernel/proc.c:281-287` does; `CowMemory` compares both with one
  private byte memory per process. `CowEntries` gives the bit patterns behind the model's entries,
  `CowTables` runs the machine on the three-level tables, `CowSpaces` follows the kernel's half of every
  space through those runs, `CowFrames` runs the machine on the buddy allocator. `Sv39Dense` and `CowNull`
  say when `find_pte` answers null inside fork, `CowReserved` what happens in areas that may be written
  but not read, `CowExamples` holds concrete runs.
* **Buddy allocator.** `BuddyTree` says what every tree node must hold as a function of the live blocks,
  `BuddyNodes` lays the tree out in the array, `BuddyAllocator.Buddy` is the allocator on its arrays,
  `BuddyRuns` treats whole request sequences. `Bits` covers the bit tricks of `fixsize`.
* **Scheduler.** `Scheduling` has timer interrupts and fork as a state machine with the books of a run
  (ticks consumed, refills), and the class `Scheduler` with the loops of the code.
* **FAT32 files.** `FatLayout` maps bytes to sectors, `FatFile` has read, write and seek as the nested
  cluster and sector loops over the sector buffers, `FatOps` composes operations. `FatImage` describes a
  volume byte by byte, as the format lays it out, and shows that the code works on the file stored there.
* **Number formatting and parsing.** `Format` has `strtol` and digit strings, `Printk` has
  `print_dec_int`, the hexadecimal branch and the directive loop of `vprintfmt`, `PrintkC` the text that
  `printf` of C prints for the same number conversions. `Numerals` gives digit strings in closed form and
  what `strtol` makes of a numeral, `Conversions` compares whole format strings with C.

`Basics` holds what several modules share.

Code that updates arrays, lists, buffers or fields in loops is written as methods of classes with the
same loops, each proved equal to a function; the theorems are about those functions.

## What the proofs say about the code

Where a property one would expect does not hold, a contract gives the exact condition, and a lemma a
concrete input unless the condition names the inputs itself.

* A store to a page that is shared copy-on-write but to an address outside every area (the slack of a
  partly covered page) panics, because `find_vma` is asked first; with eager copying it succeeds. A run
  behaves as under eager copying if and only if it has no such store (`RunRefines`, for one access
  `AccessRefines`). `SlackRun` is a three-step run from boot that has one.
* Bytes of a file-backed area beyond `vm_filesz` are copied from the image, not cleared. A process reads
  zero there if and only if the image holds zero (`BssReadsZeroIff`, `BssIsZeroIff` for the whole page);
  `BssReadsImage` is a machine whose first load there reads 7.
* `do_fork` dereferences the answer of `find_pte` unchecked (`arch/riscv/kernel/proc.c:277-278`). It reads
  through null if and only if some page it visits lies in a 2 MiB region in which the parent has mapped
  nothing yet (`ForkReadsNullIff`); forking before the first access does (`ForkAtOnceReadsNull`).
* The loader accepts a segment that may be written but not read (`arch/riscv/kernel/proc.c:49-51`). The entry
  `do_page_fault` builds for it is a reserved encoding, so an access it grants goes through if and only if
  the area is not of that kind (`FaultOk`); otherwise it faults for ever, and every fault after the first
  loses a frame for good (`Endless`).
* With fork, a waiting task need not hold either 0 or its full slice: it does if and only if the parent
  forks before its first tick (`ForkKeepsFullOrSpent`, concrete run in `ForkBreaksFullOrSpent`).
  Conservation of ticks survives fork (`RunConserves`), and the timetable of the new task set begins at
  the next refill (`TimetableResumes`).
* `strtol` overflows `long` exactly when the magnitude it reads is 2^63 or more: of what `print_dec_int`
  and `%#lx` print, that is the minimum and everything from 2^63 on (`DecRoundTrip`, `HexRoundTrip`;
  `MinimumOverflows` is the constant text kept for the minimum).
* `print_dec_int` prints the text of C's `printf` (section 7.21.6.1 of ISO C) unless it prints the minimum in
  a wide field or with a long precision, or a zero with precision 0 that should still be padded or signed,
  or a sign together with more precision than digits, or a field that a negative width or precision from
  `*` should pad otherwise; and then never (`DecText`). The hexadecimal branch departs only for the padded
  zero and such negative values (`HexText`). `WidthMisses` and `NegativePrecisionMisses` name calls.
* `%u` without a length letter reads its argument as an int and prints it as an unsigned long, so it prints
  C's text only below 2^31 (`UnsignedMatches`; `UnsignedMisprints` is a call). `%s` and `%c` ignore width and
  precision (`StringKept`). Outside these and the cases above, every format made of text and of conversions
  with flags, width, precision and length letters prints as in C (`PrintsAsC`), and a single conversion only
  then (`OneDirective`).
* `fixsize` wraps to 0 exactly above 2^63 pages (`FixSize`).
* `create_mapping` gives up if and only if fewer frames are left than the range misses tables
  (`CreateMapping`); `NoFrameLeft` is a space on which it does.
* Every allocation sets the reference count to 1, so `free_pages` on a live block does nothing
  (`Buddy.BuddyFree`). Release is therefore stated through `put_page`.

## Model

| member | source | states |
|---|---|---|
| `Bits.FixSize` | arch/riscv/kernel/mm.c:27-36 | the smearing shifts give the least power of two that is at least n, and 0 exactly when none fits in 64 bits |
| `Bits.RoundUpIsLeastPow2` | arch/riscv/kernel/mm.c:27-36 | the rounded size is a power of two, at least n, and no smaller one is |
| `Bits.PowerOf2Test` | arch/riscv/kernel/mm.c:21 | the x & (x - 1) test decides "is a power of two", both directions |
| `Bits.MultipleIsMod` | arch/riscv/kernel/mm.c:129 | alignment as used in the block invariants is divisibility |
| `BuddyTree.LongestIsLargestFreeRun` | arch/riscv/kernel/mm.c:100-104 | a node's value is at least n if and only if an aligned free run of n frames lies beneath it |
| `BuddyTree.TakeKeepsWellFormed` | arch/riscv/kernel/mm.c:127-136 | taking a free run keeps all live blocks aligned and pairwise disjoint |
| `BuddyTree.DropKeepsWellFormed` | arch/riscv/kernel/mm.c:92-105 | releasing a block keeps them so and makes exactly its frames a free run |
| `BuddyTree.FramesConserved` | arch/riscv/kernel/mm.c:78-139 | free frames plus frames of live blocks are all frames |
| `BuddyNodes.FrameFormula` | arch/riscv/kernel/mm.c:129 | (index + 1) * node_size - size is the first frame of the node |
| `BuddyNodes.CanonicalIsLongest` | arch/riscv/kernel/mm.c:94-105 | local consistency of the array pins every node to the free-run value of its frames |
| `BuddyNodes.CanonicalIsUnique` | arch/riscv/kernel/mm.c:78-139 | the array is a function of the set of live blocks alone |
| `BuddyNodes.EmptyIsCanonical` | arch/riscv/kernel/mm.c:52-56 | with nothing live, the canonical array is the one `buddy_init` builds, and no other |
| `BuddyAllocator.LevelStart` | arch/riscv/kernel/mm.c:54 | node sizes halve exactly where i + 1 is a power of two |
| `BuddyAllocator.StopsAtHead` | arch/riscv/kernel/mm.c:87-90 | a zero met on the way up from a live head is that block's own node |
| `BuddyAllocator.RootHasRoom` | arch/riscv/kernel/mm.c:118 | the root test fails if and only if no aligned free run of the size exists |
| `BuddyAllocator.DescentStep` | arch/riscv/kernel/mm.c:120-125 | the descent never reaches a node without room and skips no lower run |
| `BuddyAllocator.Buddy.constructor` | arch/riscv/kernel/mm.c:38-56 | any page count gives a valid allocator with nothing live and full node values |
| `BuddyAllocator.Buddy.FillLevels` | arch/riscv/kernel/mm.c:52-56 | the level loop writes each node's size |
| `BuddyAllocator.Buddy.AllocatedNode` | arch/riscv/kernel/mm.c:81-90 | the upward search stops at exactly the node that was allocated, with its size |
| `BuddyAllocator.Buddy.BuddyFree` | arch/riscv/kernel/mm.c:78-106 | nothing happens while the head is counted; otherwise exactly that block goes and the array is canonical again |
| `BuddyAllocator.Buddy.RaiseCombine` | arch/riscv/kernel/mm.c:94-105 | the merging loop restores every ancestor |
| `BuddyAllocator.Buddy.BuddyAlloc` | arch/riscv/kernel/mm.c:108-139 | succeeds if and only if an aligned free run of the rounded size exists, and takes the lowest; on failure 0 and nothing changes |
| `BuddyAllocator.Buddy.RoundPages` | arch/riscv/kernel/mm.c:113-116 | requests become the least power of two, 0 pages becomes 1 |
| `BuddyAllocator.Buddy.Descend` | arch/riscv/kernel/mm.c:120-125 | ends at the node of the lowest suitable free run |
| `BuddyAllocator.Buddy.Take` | arch/riscv/kernel/mm.c:127-136 | adds exactly one live block, counts its head once, array canonical |
| `BuddyAllocator.Buddy.RaiseMax` | arch/riscv/kernel/mm.c:133-136 | after an allocation the plain maximum restores every ancestor |
| `BuddyAllocator.Buddy.GetPage` | arch/riscv/kernel/mm.c:141-149 | adds one reference if and only if the frame heads a live block |
| `BuddyAllocator.Buddy.PutPage` | arch/riscv/kernel/mm.c:68-76 | drops one reference; the block is released exactly with its last one |
| `BuddyRuns.StepKeepsConsistent` | arch/riscv/kernel/mm.c:66-139 | counts stay positive exactly on the heads of aligned, disjoint live blocks |
| `BuddyRuns.RunConservesFrames` | arch/riscv/kernel/mm.c:78-139 | no run of requests loses or duplicates a frame |
| `BuddyRuns.AllocThenPut` | arch/riscv/kernel/mm.c:68-139 | releasing what was just allocated restores blocks and counts exactly |
| `BuddyRuns.ReleaseAllInAnyOrder` | arch/riscv/kernel/mm.c:78-106 | dropping every reference to every block, in any order and interleaving, shared blocks included, leaves nothing live |
| `BuddyRuns.Reserve` | arch/riscv/kernel/mm.c:58-60 | the boot loop takes frames 0 .. k-1, one page each, and counts each once |
| `BuddyRuns.ReservedFramesStay` | arch/riscv/kernel/mm.c:118 | no run that never releases boot frames hands one out, so result 0 means failure only |
| `BuddyRuns.Perform` | arch/riscv/kernel/mm.c:66-139 | one request on the arrays is one step of the abstract allocator |
| `BuddyRuns.Execute` | arch/riscv/kernel/mm.c:66-139 | so is every legal sequence of requests; the array is what it was whenever the live blocks are, and the one `buddy_init` built when none is left |
| `BuddyRuns.AllocateAndRelease` | arch/riscv/kernel/mm.c:68-139 | an allocation followed by its release leaves every array entry as it was |
| `BuddyRuns.ReleaseAll` | arch/riscv/kernel/mm.c:68-106 | dropping every reference in any order brings back the array and counts `buddy_init` built |
| `Scheduling.PickIsUnique` | arch/riscv/kernel/proc.c:222-229 | largest counter, lowest index on ties, idle when all are 0: this determines the choice |
| `Scheduling.StepConserves` | arch/riscv/kernel/proc.c:198-248 | every timer interrupt and fork keeps ticks consumed + counter = inherited + refills since birth * priority |
| `Scheduling.RunConserves` | arch/riscv/kernel/proc.c:198-256 | the law holds after every sequence of interrupts and forks |
| `Scheduling.NeverIdleAgain` | arch/riscv/kernel/proc.c:198-248 | once started, the current task is never idle and has ticks left, whatever follows |
| `Scheduling.Timetable` | arch/riscv/kernel/proc.c:198-248 | after e epochs and t ticks, the running task is the one whose slot contains t, everyone before is spent, everyone after is full |
| `Scheduling.TimetableFrom` | arch/riscv/kernel/proc.c:198-248 | the same from the start of any epoch, for any task set |
| `Scheduling.StateAtIs` | arch/riscv/kernel/proc.c:198-213 | tick t of epoch e is consumed after e * epoch + t + 1 interrupts from boot |
| `Scheduling.RunsExactlyInSlot` | arch/riscv/kernel/proc.c:198-248 | task i runs at tick t of any epoch if and only if t lies in its slot |
| `Scheduling.SlotsAreDisjoint` | arch/riscv/kernel/proc.c:222-229 | slots follow descending priority, ties by index, without overlap |
| `Scheduling.WaitIsSumOfOthers` | arch/riscv/kernel/proc.c:198-248 | task i runs at no tick between its slots in epochs e and e + 1, runs right before and right after, and the ticks in between are as many as the other priorities add up to |
| `Scheduling.EpochsAreFair` | arch/riscv/kernel/proc.c:198-248 | after e whole epochs each task has run exactly e times its priority |
| `Scheduling.AfterIsRun` | arch/riscv/kernel/proc.c:198-213 | the timetable's states are those of n timer interrupts |
| `Scheduling.ExpectedOrder` | arch/riscv/kernel/proc.c:137 | with priorities 7, 10, 4, 1 the timetable is the self-test's expected string |
| `Scheduling.ForkBreaksFullOrSpent` | arch/riscv/kernel/proc.c:253-256 | a run of three events after which a waiting task is neither full nor spent |
| `Scheduling.ForkKeepsFullOrSpent` | arch/riscv/kernel/proc.c:253-256 | fork keeps waiting tasks full or spent if and only if the parent's slice is untouched |
| `Scheduling.TimerKeepsFullOrSpent` | arch/riscv/kernel/proc.c:198-213 | a timer interrupt keeps waiting tasks full or spent and a task running |
| `Scheduling.TimetableResumes` | arch/riscv/kernel/proc.c:198-256 | from any running state, whatever forks did to the counters, the tasks use up exactly what they hold and then the timetable of the present task set begins |
| `Scheduling.Scheduler.constructor` | arch/riscv/kernel/proc.c:75-98 | idle is current, all counters are 0 |
| `Scheduling.Scheduler.LargestCounter` | arch/riscv/kernel/proc.c:218-229 | the scan returns the task that the rule determines, idle exactly when every counter is 0 |
| `Scheduling.Scheduler.DoSchedule` | arch/riscv/kernel/proc.c:215-248 | the task chosen has the largest counter, after a refill exactly when all were spent; at most two scans |
| `Scheduling.Scheduler.Refill` | arch/riscv/kernel/proc.c:232-238 | the reset loop gives every task its priority and leaves idle at 0 |
| `Scheduling.Scheduler.DoTimer` | arch/riscv/kernel/proc.c:198-213 | one interrupt of the code is one tick of the state machine |
| `Scheduling.Scheduler.DoFork` | arch/riscv/kernel/proc.c:250-256 | the child gets the parent's priority and remaining ticks, everybody else keeps theirs, the parent stays current |
| `Scheduling.ForkAddsWhatIsLeft` | arch/riscv/kernel/proc.c:253-256 | the child is born with exactly the ticks the parent has left, its account says so, and all tasks together hold that much more |
| `Scheduling.ChoiceIsPick` | arch/riscv/kernel/proc.c:198-248 | in every state, whatever forks left: the running task goes on while it has ticks, then the largest counter is next, lowest index first, and when all are spent the largest priority |
| `Sv39.AddTableKeepsValid` | arch/riscv/kernel/vm.c:100-124 | linking a fresh table keeps table frames distinct, typed and tree-shaped |
| `Sv39.AddTableKeepsLookup` | arch/riscv/kernel/vm.c:100-124 | and changes no translation of any address space |
| `Sv39.LeafIsOwned` | arch/riscv/kernel/vm.c:107-130 | a last-level table serves one region of one space, kernel regions aside |
| `Sv39.SetEntryLookup` | arch/riscv/kernel/vm.c:139 | writing one last-level entry changes one translation and no other |
| `Sv39.BootSpaceIsValid` | arch/riscv/kernel/vm.c:144-145 | the cleared `swapper_pg_dir` satisfies the table invariants |
| `Sv39.PageTables.NextTable` | arch/riscv/kernel/vm.c:100-111 | follows a valid entry, links a fresh table, or fails leaving the bad entry the code writes |
| `Sv39.BadEntryIs` | arch/riscv/kernel/vm.c:101-105 | the entry written when kalloc fails is the valid entry made of the physical address 0 - PA2VA_OFFSET |
| `Sv39.MapPageLinks` | arch/riscv/kernel/vm.c:98-130 | mapping a page takes exactly the tables missing on its way from the pool and links nothing else |
| `Sv39.PageTables.MapOne` | arch/riscv/kernel/vm.c:86-141 | one iteration remaps exactly one page of one space, if and only if the tables missing on its way are to be had |
| `Sv39.PageTables.CreateMapping` | arch/riscv/kernel/vm.c:72-142 | the page of va + off gets the frame of pa + off and the permissions, for off = 0, 4096, ... below the size, so the last page too when the range ends inside it; every other page of every space translates as before; it gives up if and only if the pool is smaller than the number of distinct tables missing on the range |
| `Sv39.NoFrameLeft` | arch/riscv/kernel/vm.c:72-142 | a valid space and a page for which it gives up |
| `Sv39.PageTables.FindPte` | arch/riscv/kernel/vm.c:332-363 | returns the page's own slot, entry va / 4096 mod 512 of its last-level table, null exactly when a table is missing |
| `Sv39.SlotIsThePages` | arch/riscv/kernel/proc.c:298 | a write through that slot changes this page's translation and no other |
| `Sv39.HardwareAgrees` | arch/riscv/kernel/vm.c:332-363 | the walk of section 4.3.2 of the RISC-V Privileged Architecture manual translates as the entry that `find_pte` finds |
| `Sv39.CopyRootValid` | arch/riscv/kernel/proc.c:114-117 | a root copied from `swapper_pg_dir` keeps the invariants and translates as the kernel does |
| `Sv39.MapPageKeepsKernel` | arch/riscv/kernel/vm.c:293-319 | user mappings leave every root's kernel half and `swapper_pg_dir` alone |
| `Sv39.BootMapKeepsKernel` | arch/riscv/kernel/vm.c:147-173 | kernel mappings made while there is only `swapper_pg_dir` leave it free of user pages |
| `Sv39.StepRefines` | arch/riscv/kernel/proc.c:261-265 | creating a space or mapping a user page is the same step on independent flat maps |
| `Sv39.RunRefines` | arch/riscv/kernel/vm.c:72-142 | so is every run of such steps |
| `Sv39.SpacesAreSeparate` | arch/riscv/kernel/proc.c:261-265 | over every run, mappings in other spaces change no translation of this one, and kernel translations never change |
| `Sv39.FreshSpaceHasNoUserTables` | arch/riscv/kernel/proc.c:277-278 | in a fresh space `find_pte` answers null for every user page |
| `Sv39Dense.MapPageIsDense` | arch/riscv/kernel/vm.c:98-139 | mapping a user page keeps every user last-level table inhabited by a valid entry |
| `Sv39Dense.NullIffEmpty` | arch/riscv/kernel/vm.c:332-363 | in such tables `find_pte` answers null for a user page if and only if its 2 MiB region has no valid entry |
| `Vmas.FindInReversed` | arch/riscv/kernel/proc.c:268-272 | head insertion reverses the child's list, yet every address finds the same area |
| `Vmas.PageDisjointIsDisjoint` | arch/riscv/kernel/vm.c:193-202 | areas on different pages share no address, so the lookup order does not matter |
| `Vmas.Mm.DoMmap` | arch/riscv/kernel/vm.c:214-241 | the new area becomes the head; next and prev stay mutually inverse and acyclic |
| `Vmas.Mm.FindVma` | arch/riscv/kernel/vm.c:193-202 | the walk returns the first area containing the address, null exactly when there is none |
| `Vmas.CopyAreas` | arch/riscv/kernel/proc.c:258-304 | the child's list is the parent's reversed, the parent's list is untouched |
| `Vmas.CopyStep` | arch/riscv/kernel/proc.c:269-304 | one iteration of that walk |
| `Cow.WritableMeansCountOne` | arch/riscv/kernel/proc.c:289-300 | an entry with W maps a frame with count 1 |
| `Cow.FreeMeansUnmapped` | arch/riscv/kernel/mm.c:68-76 | a frame's count is 0 exactly when the kernel does not hold it and no entry maps it |
| `Cow.TakeKernelFrameInv` | arch/riscv/kernel/mm.c:161-165 | kernel allocations keep the invariant |
| `Cow.MapFreshInv` | arch/riscv/kernel/vm.c:281-320 | demand filling keeps counts = number of mapping entries, and lone writers |
| `Cow.BreakShareInv` | arch/riscv/kernel/vm.c:286-295 | so does copying a shared page |
| `Cow.SharePageInv` | arch/riscv/kernel/proc.c:289-300 | so does sharing one page, in the middle of a fork |
| `Cow.WriteByteInv` | arch/riscv/kernel/vm.c:243-324 | so does a user store |
| `CowRuns.FillByte` | arch/riscv/kernel/vm.c:298-314 | byte va of a filled page is image byte vm_pgoff + (va - vm_start) inside the area, old frame content outside, for any alignment |
| `CowRuns.BssIsZeroIff` | arch/riscv/kernel/vm.c:302-314 | a filled page holds zeros beyond vm_filesz if and only if the image does |
| `CowRuns.FaultFillsInvalid` | arch/riscv/kernel/vm.c:255-320 | the non-copy branch only ever fills an invalid entry |
| `CowRuns.FaultOk` | arch/riscv/kernel/vm.c:243-324 | after the handler the access goes through if and only if the area is readable or not writable, and then the invariant holds |
| `CowReserved.FirstFault` | arch/riscv/kernel/vm.c:281-320 | in an area writable but not readable the first fault fills the page like any other |
| `CowReserved.Endless` | arch/riscv/kernel/vm.c:281-320 | after any number of faults there the access faults again, and every frame but the last is counted, unmapped and not the kernel's |
| `CowRuns.DoAccessInv` | arch/riscv/kernel/vm.c:243-324 | every user access that comes to an end keeps the invariant |
| `CowRuns.ForkPagesOk` | arch/riscv/kernel/proc.c:268-305 | the page loop keeps the invariant at every page and shares exactly the pages visited so far |
| `CowRuns.ForkShares` | arch/riscv/kernel/proc.c:268-305 | fork gives the child every mapped page of the parent, withholds W in both, and changes no other entry |
| `CowRefinement.AbsFork` | arch/riscv/kernel/proc.c:281-300 | sharing pages looks like copying all of them |
| `CowRefinement.AccessRefines` | arch/riscv/kernel/proc.c:281-300 | an access has the same result and effect as under eager copying, except exactly for a store to the slack of a shared page |
| `CowTheorems.StepInv` | arch/riscv/kernel/mm.c:66-76 | the counting invariant holds after every step |
| `CowTheorems.RunRefines` | arch/riscv/kernel/proc.c:268-305 | a run of forks and accesses has the outcomes it would have under eager copying if and only if it has no slack store, and then all memory is the same too |
| `CowTheorems.SlackOutcome` | arch/riscv/kernel/vm.c:248-251 | a slack store is refused and changes nothing, while eager copying performs it |
| `CowTheorems.SlackStoreDiverges` | arch/riscv/kernel/vm.c:248-251 | right after a fork every store to the slack of a page the parent could write is one |
| `CowMemory.RunAgrees` | arch/riscv/kernel/vm.c:243-324 | over every run, memory is the last byte stored by the process or an ancestor before the fork, else the image |
| `CowMemory.LoadSees` | arch/riscv/kernel/vm.c:273-320 | a load of a readable address always succeeds and returns that byte |
| `CowMemory.MemoryIsPrivateAndPersistent` | arch/riscv/kernel/proc.c:268-305 | both together, from the state boot leaves, for every run and whatever the fault order |
| `CowMemory.AccessInvisibleToOthers` | arch/riscv/kernel/vm.c:286-295 | no access of one process changes any page of another |
| `CowExamples.SlackRun` | arch/riscv/kernel/vm.c:248-251 | store, fork, store to the slack: legal from boot, and the third step is refused |
| `CowExamples.BssReadsZeroIff` | arch/riscv/kernel/vm.c:302-314 | after any run, an unwritten byte beyond vm_filesz is read as zero if and only if the image holds zero there |
| `CowExamples.BssReadsImage` | arch/riscv/kernel/vm.c:302-314 | a machine whose first load beyond vm_filesz reads 7 |
| `CowNull.NullIffUnmapped` | arch/riscv/kernel/vm.c:332-363 | on the tables the kernel builds, `find_pte` answers null for a user page if and only if the process maps nothing in its 2 MiB region |
| `CowNull.ForkReadsNullIff` | arch/riscv/kernel/proc.c:275-278 | some iteration of fork dereferences null if and only if it visits a page in such a region |
| `CowNull.NullWhenReached` | arch/riscv/kernel/proc.c:275-300 | the answer an iteration gets in the tables its predecessors leave is the one it would get before the loop |
| `CowNull.ForkAtOnceReadsNull` | arch/riscv/kernel/proc.c:275-278 | after boot, with one process and one area, a fork before the first access does |
| `CowKernel.Kernel.constructor` | arch/riscv/kernel/proc.c:114-125 | processes with areas and no page mapped satisfy the invariant |
| `CowKernel.Kernel.FindVma` | arch/riscv/kernel/vm.c:193-202 | the loop finds the first area containing the address |
| `CowKernel.Kernel.GetPage` | arch/riscv/kernel/mm.c:141-149 | refuses an uncounted frame, otherwise counts it once more |
| `CowKernel.Kernel.PutPage` | arch/riscv/kernel/mm.c:68-76 | takes one reference away |
| `CowKernel.Kernel.DoPageFault` | arch/riscv/kernel/vm.c:243-324 | the handler panics, changing nothing, or performs exactly the specified fault |
| `CowKernel.Kernel.BreakCow` | arch/riscv/kernel/vm.c:281-295 | copy, release, remap: the specified new state |
| `CowKernel.Kernel.FillDemand` | arch/riscv/kernel/vm.c:281-319 | allocate, copy byte by byte from the image, map: the specified new state |
| `CowKernel.Kernel.CopyFile` | arch/riscv/kernel/vm.c:313 | the copy replaces exactly the bytes of the area in the frame |
| `CowKernel.Kernel.UserAccess` | arch/riscv/kernel/vm.c:243-324 | access, trap, retry is the specified access and keeps the invariant |
| `CowKernel.Kernel.ForkPage` | arch/riscv/kernel/proc.c:276-302 | one page is shared, null read as unmapped; the "page that is not allocated" panic is unreachable |
| `CowKernel.Kernel.ForkArea` | arch/riscv/kernel/proc.c:275-302 | the address loop visits exactly the pages of the area |
| `CowKernel.Kernel.ForkProcess` | arch/riscv/kernel/proc.c:250-305 | inserting area by area at the head and sharing its pages performs exactly the specified fork and never panics |
| `CowEntries.RawFields` | arch/riscv/kernel/vm.c:139 | the written 64-bit entry holds frame and permissions where the hardware reads them |
| `CowEntries.ForkEntries` | arch/riscv/kernel/proc.c:298-300 | clearing W in the parent and rebuilding the child's entry from its low bits give the same entry |
| `CowEntries.FaultEntry` | arch/riscv/kernel/vm.c:284-295 | area flags without VM_ANON are the permission bits of the entry |
| `CowEntries.RawIsLeaf` | arch/riscv/kernel/vm.c:317-319 | the entry is a hardware leaf if and only if it allows read or execute and not write alone |
| `CowTables.MapPageStaysWithin` | arch/riscv/kernel/vm.c:100-124 | mapping a page makes tables of frames from the pool and of no others |
| `CowTables.AccessCouples` | arch/riscv/kernel/vm.c:281-319 | after any access the tables hold exactly the entries of the model, for every user page of every process; only a fault whose page misses tables needs frames for them |
| `CowTables.ShareCouples` | arch/riscv/kernel/proc.c:277-300 | so they do after the in-place clearing of W and the child's mapping, for any page; frames are needed exactly for the tables the child misses, and only if the parent has the page |
| `CowTables.ForkPagesCouple` | arch/riscv/kernel/proc.c:268-305 | so they do after every prefix of fork's page loop, as long as page by page the missing tables are to be had |
| `CowTables.PlentyIsStocked` | arch/riscv/kernel/proc.c:268-305 | two frames for every page visited are enough for the page loop |
| `CowTables.NewProcessCouples` | arch/riscv/kernel/proc.c:261-265 | a root copied from `swapper_pg_dir` is right for a process with nothing mapped |
| `CowTables.BootCouples` | arch/riscv/kernel/vm.c:144-145 | the cleared `swapper_pg_dir` is right before the first process |
| `CowTables.TakeCouples` | arch/riscv/kernel/mm.c:161-165 | a frame the kernel takes for a table is new to all tables and to the pool, and changes no translation |
| `CowTables.StepCouples` | arch/riscv/kernel/vm.c:72-142 | every step that finds the tables it misses keeps tables and model in step |
| `CowTables.RunTables` | arch/riscv/kernel/vm.c:72-142 | over every run in which no step fails for want of a table, however long, the tables the code writes hold exactly the model's entries; frames for tables are taken during the run, like all kernel frames |
| `CowTables.HardwareSeesModel` | arch/riscv/kernel/vm.c:332-363 | the hardware walk of a user page gives the frame of the model's entry, or a fault when there is none |
| `CowTables.UserAccessPasses` | arch/riscv/kernel/vm.c:281-319 | in user mode an access to a page below 2^38 passes the hardware's walk and its checks of the U, A, D, R, W and X bits if and only if the model says it hits, and reaches the model's frame; no user entry is global |
| `CowTables.TablesAreNeverMapped` | arch/riscv/kernel/vm.c:293-319 | after any run no user page translates to a frame that holds a table |
| `CowSpaces.StepKeeps` | arch/riscv/kernel/proc.c:250-305 | an access, a fork or a kernel allocation changes no translation of a kernel page in any space |
| `CowSpaces.RunKeeps` | arch/riscv/kernel/proc.c:250-305 | neither does any run of them |
| `CowSpaces.KernelIsTheSameEverywhere` | arch/riscv/kernel/proc.c:261-265 | after any run every space, those of children included, translates kernel pages as `swapper_pg_dir` did before |
| `CowSpaces.BootMapCouples` | arch/riscv/kernel/vm.c:147-173 | a kernel mapping made at boot keeps tables and model in step |
| `CowSpaces.BootMapsCouple` | arch/riscv/kernel/vm.c:147-173 | so does any sequence of them, which leads from the cleared root to the first process |
| `CowFrames.AllocTakesFirst` | arch/riscv/kernel/mm.c:118-139 | with single pages, allocation succeeds if and only if some count is 0, and returns the first such frame |
| `CowFrames.AccessLeads` | arch/riscv/kernel/vm.c:281-292 | an access asks the allocator for nothing, for a frame, or for a frame and one release, and both agree on all counts |
| `CowFrames.GetsLead` | arch/riscv/kernel/proc.c:290 | fork is one `get_page` per mapped page, none of them refused |
| `CowFrames.StepLeads` | arch/riscv/kernel/mm.c:66-139 | every step of the machine is a legal request sequence of the allocator |
| `CowFrames.RunLeads` | arch/riscv/kernel/mm.c:66-139 | so is every run, and both agree on every count at the end |
| `CowFrames.RunOnArrays` | arch/riscv/kernel/mm.c:66-149 | the requests of any run, put to the allocator's arrays, leave its live blocks and counts as the run says |
| `CowFrames.BootIsSingles` | arch/riscv/kernel/mm.c:58-60 | the frames `buddy_init` reserves are the counted frames of the machine before its first step |
| `CowFrames.FreeExactlyWhenUnmapped` | arch/riscv/kernel/mm.c:68-76 | after any run a frame is free in the allocator if and only if the kernel does not keep it and no entry maps it |
| `FatLayout.ClustersAreDisjoint` | fs/fat32.c:18-20 | distinct clusters occupy disjoint sector ranges |
| `FatLayout.SectorsDistinct` | fs/fat32.c:18-20 | a chain without repeated clusters has no repeated sectors |
| `FatLayout.OtherClusterOutside` | fs/fat32.c:18-20 | clusters outside a chain share no sector with it |
| `FatLayout.BeforeDataOutside` | fs/fat32.c:18-20 | neither does anything before the data area, the FAT included |
| `FatLayout.SliceOfSector` | fs/fat32.c:180-186 | a stretch of one sector is a stretch of the file |
| `FatLayout.SpliceSector` | fs/fat32.c:235-237 | rewriting that stretch rewrites it in the file and nothing else |
| `FatFile.FileSystem.ReadPart` | fs/fat32.c:179-189 | one sector's share arrives at the right place in the buffer, and the position advances |
| `FatFile.FileSystem.ReadCluster` | fs/fat32.c:170-190 | the sector loop delivers the bytes of one cluster that the request covers |
| `FatFile.FileSystem.Read` | fs/fat32.c:149-197 | returns exactly bytes [cfo, cfo + min(len, size - cfo)) of the chain, touches no other buffer byte, advances cfo by the count |
| `FatFile.FileSystem.WritePart` | fs/fat32.c:229-240 | one sector's share is replaced, nothing outside the file |
| `FatFile.FileSystem.WriteCluster` | fs/fat32.c:220-241 | the sector loop replaces what the request covers of one cluster |
| `FatFile.FileSystem.Write` | fs/fat32.c:199-248 | replaces exactly bytes [cfo, cfo + min(len, size - cfo)); every other byte of its clusters, past the size too, and every sector outside them (FAT, directory, other files) stay; advances cfo by the count |
| `FatFile.FileSystem.Lseek` | fs/fat32.c:120-143 | the position is offset, position + offset or size + offset for whence 0, 1, 2, clamped to [0, size]; any other whence moves nothing and yields no result |
| `FatFile.ChainExists` | fs/fat32.c:166-168 | a file whose walk along the FAT stays in some set of clusters on the disk has a chain as read and write need it, cyclic FATs included, so both end; other entries of the FAT do not matter |
| `FatFile.EndedChainIsClosed` | fs/fat32.c:166-168 | the clusters of a chain that ends are such a set |
| `FatFile.BytesAreUnique` | fs/fat32.c:166-168 | whichever chain is named, the file has the same bytes |
| `FatImage.U32Decodes` | fs/fat32.c:168 | a number is read if and only if its four bytes are there, low byte first |
| `FatImage.FatEntryDecodes` | fs/fat32.c:168 | the FAT entry of cluster c is bytes 4c to 4c + 3 of its sector |
| `FatImage.SizeDecodes` | include/fat32.h:46-60 | the size the code uses is the last field of the directory entry at the handle's index |
| `FatImage.DataAreaIsTiled` | fs/fat32.c:18-20 | clusters 2, 3, ... occupy the sectors from first_data_sec on, in order and without a gap |
| `FatImage.ByteIsAt` | fs/fat32.c:166-184 | byte (i * sec_per_cluster + s) * 512 + o of a file is byte o of sector (c - 2) * sec_per_cluster + first_data_sec + s, c being the i-th cluster |
| `FatImage.EndMarks` | fs/fat32.c:167 | a chain ends exactly at an entry of 0x0ffffff8 or more |
| `FatImage.StoredIsTheFile` | fs/fat32.c:149-248 | for a volume laid out as the format says, what read and write work on is the stored content, whole and in order |
| `FatImage.SliceIs` | fs/fat32.c:159-187 | the bytes a read delivers are those from the position on, as many as asked for and there are |
| `FatImage.OverlayIs` | fs/fat32.c:209-238 | a write changes those bytes to the data and no other |
| `FatOps.ApplyKeepsSane` | fs/fat32.c:120-248 | no operation moves the position out of [0, size] or changes the size |
| `FatOps.RunAll` | fs/fat32.c:120-248 | neither does any sequence of operations |
| `FatOps.Perform` | fs/fat32.c:120-248 | the code's operations are exactly those on the byte sequence |
| `FatOps.ReadSplits` | fs/fat32.c:149-197 | reading a then b bytes is reading a + b bytes |
| `FatOps.WriteThenRead` | fs/fat32.c:120-248 | seek, write, seek, read gives back what was written, as far as the file reaches |
| `FatOps.SeekFromEnd` | fs/fat32.c:133-135 | seeking -n from the end leaves exactly the last n bytes to read, none for 0 |
| `FatOps.SeekFromHere` | fs/fat32.c:131-132 | seeking d from here skips exactly d bytes, and seeking -d comes back |
| `FatOps.SeekStops` | fs/fat32.c:140-142 | beyond either end a seek stops at it |
| `FatOps.OtherFileKept` | fs/fat32.c:199-248 | a write leaves bytes and size of every file on other clusters as they were |
| `FatOps.Cat` | user/main.c:65-82 | chunked reading until 0 yields the rest of the file, each byte once |
| `Format.Blanks` | lib/printk.c:40-42 | the first loop of `strtol` skips exactly the leading white space |
| `Format.ParseDigits` | lib/printk.c:65-83 | the digit loop computes the value of the longest digit prefix, and says whether a step left the range of `long` |
| `Format.ParseLong` | lib/printk.c:35-90 | sign, prefix and digits together, with the rest of the string, and whether `long` overflowed |
| `Format.AccumulatorGrows` | lib/printk.c:81 | the accumulator only grows, so the loop overflows if and only if the final value does |
| `Format.ValueOfDigits` | lib/printk.c:65-83 | parsing the digits of a number gives the number |
| `Format.DigitCount` | lib/printk.c:120-128 | a number below base^k has at most k digits |
| `Format.BuffersAreTight` | lib/printk.c:123-213 | 20 decimal and 16 hexadecimal digits always suffice, and are needed |
| `Numerals.DigitsAre` | lib/printk.c:120-219 | digit i of a printed number is the character the place value asks for, in the letter case of the conversion |
| `Numerals.HowManyDigits` | lib/printk.c:120-219 | it has as many digits as it needs and no more |
| `Numerals.StrtolReads` | lib/printk.c:35-90 | white space, sign, prefix and a numeral in any base from 2 to 36, in letters of either case, read as its value, and reading stops behind it |
| `Numerals.WhiteInFront` | lib/printk.c:30-42 | exactly the white space of the C locale is skipped |
| `Printk.StoreDigits` | lib/printk.c:126-129 | the do-while loop stores the digits, low digit first, inside the buffer |
| `Printk.PutField` | lib/printk.c:137-155 | blanks, sign, zeros and digits in this order, counted as they go out |
| `Printk.PrintDecInt` | lib/printk.c:104-158 | prints the specified text and returns its length |
| `Printk.PrintHex` | lib/printk.c:194-241 | so does the hexadecimal branch |
| `Printk.Puts` | lib/printk.c:93-102 | prints the string and returns its length |
| `Printk.Vprintfmt` | lib/printk.c:160-283 | the output is the meaning of the format string, the returned count is the number of characters printed, and every %n stores the count so far in the argument it names |
| `Printk.CountIsStored` | lib/printk.c:247-255 | after text without directives, %n stores the length of the text |
| `Conversions.StoresWhatWasPrinted` | lib/printk.c:247-255 | a %n behind any text and directives stores how many characters were printed before it |
| `Printk.PlainText` | lib/printk.c:276-279 | text without directives is printed as it stands |
| `PrintkC.DecText` | lib/printk.c:104-158 | for every number, flag, width and precision the output is C's text of that number if and only if the call avoids the branches named above |
| `PrintkC.HexText` | lib/printk.c:194-241 | the same for the hexadecimal branch |
| `PrintkC.PlainHex` | lib/printk.c:205-237 | without width and precision %x and %X print the digits, behind 0x or 0X if and only if the # flag asks for it and the number is not 0 |
| `PrintkC.DefaultText` | lib/printk.c:104-241 | without a precision and with a width of 0 or more, the output is C's, except exactly for the minimum in a field wider than 20 |
| `PrintkC.LayoutIsUnique` | lib/printk.c:137-155 | a printed field determines its padding: two layouts of the same sign and digits agree only if all three runs of padding do |
| `PrintkC.DecWidth` | lib/printk.c:104-158 | with a width of 0 or more, even the length is C's only in those cases |
| `PrintkC.DefaultDecWidth` | lib/printk.c:104-158 | without precision the length is max(width, sign + digits), except exactly for the minimum in a field wider than 20 |
| `PrintkC.HexWidth` | lib/printk.c:194-241 | the same for hexadecimal, except exactly for a padded zero with precision 0 |
| `PrintkC.WidthMisses` | lib/printk.c:104-158 | calls that miss the width, one for each branch |
| `PrintkC.NegativePrecisionMisses` | lib/printk.c:133-139 | a call that has C's width but not C's text |
| `Conversions.SpecPrints` | lib/printk.c:166-283 | a directive is read to the flags, width, precision and length written in it, asterisks taking their arguments, and the loop goes on behind it |
| `Conversions.DirectiveMatches` | lib/printk.c:166-283 | what is printed for a directive is C's text of its argument if and only if the call is none of the misfits named above |
| `Conversions.StringKept` | lib/printk.c:256-259 | a string is C's text exactly when width and precision would change nothing |
| `Conversions.UnsignedMatches` | lib/printk.c:242-246 | %u is C's text exactly below 2^31, or with a length letter, and outside the branches of `DecText` |
| `Conversions.OneDirective` | lib/printk.c:160-283 | text, one directive, text: printed as in C exactly when the call is no misfit |
| `Conversions.PrintsAsC` | lib/printk.c:160-283 | so is every format made of text and directives when none of its calls is a misfit |
| `Conversions.StringPrints` | lib/printk.c:93-102 | %s prints its string between the texts around it, a null pointer as (null) |
| `Conversions.UnsignedMisprints` | lib/printk.c:242-246 | %u of 2147483648 prints something else |
| `Printk.MinimumOverflows` | lib/printk.c:35-108 | `strtol` overflows on the constant text for the minimum |
| `Printk.DecRoundTrip` | lib/printk.c:35-158 | `strtol` base 10 reads back every printed number, under every flag, width and precision, if and only if its magnitude is below 2^63; otherwise it overflows |
| `Printk.HexRoundTrip` | lib/printk.c:35-241 | `strtol` base 0 reads back every prefixed hexadecimal number if and only if it is below 2^63; otherwise it overflows |
| `Printk.LongRoundTrip` | lib/printk.c:35-283 | what `%ld` prints under any flags and width inside any text reads back as the number, parsing of flags and width included |
| `Printk.LongHexRoundTrip` | lib/printk.c:35-283 | the same for `%#lx` and `%#lX` |

## Left out

- `BuddyAllocator.Buddy.BuddyFree`: releasing a frame that heads no live block, which the code would also process, is not modelled; the caller's count protects it.
- `BuddyAllocator.Buddy.PutPage`: only for heads of live blocks; releasing a frame whose count is already 0 is not modelled.
- `CowKernel.Kernel.PutPage`: likewise, only for counted frames.
- `BuddyAllocator.Buddy.BuddyAlloc`: page counts above 2^63, where `fixsize` wraps to 0, are excluded.
- `BuddyAllocator.Buddy.RoundPages`: likewise.
- `Sv39.PageTables.CreateMapping`: when kalloc fails the code writes a valid entry with a meaningless frame before it returns; nothing is promised about the tables then.
- `Sv39.PageTables.NextTable`: kalloc does not clear frames although the code relies on zeroed tables; frames of the table pool are assumed zeroed.
- `CowKernel.Kernel.DoPageFault`: where it allocates, allocation is assumed to succeed (the code does not check it); the frame returned is a parameter, any frame with count 0.
- `CowKernel.Kernel.ForkPage`: a null answer of find_pte is read as "not mapped", as the comment in the code intends; what the code would find at address 0 is not modelled. `ForkReadsNullIff` says when that happens.
- `CowKernel.Kernel.ForkProcess`: the allocations for the child's task structure, root table and list nodes are separate kernel-allocation steps.
- `CowMemory.LoadSees`: anonymous memory that was never written shows whatever the frame held, because the code does not clear it.
- `CowTables.RunTables`: a step that finds no frame for a table ends the run, as the code then writes the bad entry named above; the frames a step needs for tables are taken just before it instead of in the middle; areas lie below USER_END and use only the four flags; a null answer inside fork is read as "not mapped".
- `CowRuns.DoAccessInv`: a granted access to an area writable but not readable never comes to an end; it is no step of a run, and `CowReserved.Endless` says what it does instead.
- `CowKernel.Kernel.UserAccess`: likewise.
- `CowFrames.RunLeads`: every live block is a single page, as all allocations of these steps are; the multi-page blocks taken when file and virtio state is set up (fs/fs.c:12, fs/virtio.c:36) are not part of this machine.
- `FatFile.FileSystem.Read`: only the first FAT sector is loaded by the code, so chain clusters are below 128; entries have a zero top nibble, since the code does not mask them; the directory entry is one of the 16 of its sector.
- `FatFile.FileSystem.Write`: needs a chain without repeated clusters that avoids the directory's cluster; 64-bit wrap-around of positions is not modelled.
- `Printk.Vprintfmt`: a missing argument is read as a default value, strings hold no NUL, widths and precisions written in a format that overflow `long` are taken as read, and `width` and `prec` are unbounded in the arithmetic on them.
- `Conversions.PrintsAsC`: arguments have the types C asks for; written widths and precisions are below 2^31, and a precision written as a dot alone is left to `Printk.Vprintfmt`. What C leaves undefined (unknown letters, a null string) or open (%p) is compared with the code's own choice.
- `Scheduling.Scheduler.DoFork`: the bound NR_TASKS is not modelled; at least one task besides idle exists.
- Areas of a process are assumed not to share a page (fork would count such a page twice), and file-backed areas to lie inside the image.
- TLB and its fences, satp, switch_to, registers and the trap frame, pids and open files: outside the C semantics or shallow.
- Macros between physical addresses, virtual addresses and frame numbers: frames are numbers.
- Early boot (`setup_vm`, linker symbols, the ranges `setup_vm_final` maps): only the use of create_mapping matters.
- ELF headers: the areas they lead to are the starting point.
- Virtio, MBR parsing, opening files, `next_cluster`, descriptors, system calls, UART, clock, the user shell, and `user/printf.c` (the same formatter): device I/O, shallow, or duplicated.
- `dummy` and its output buffer: only the order it is meant to show is stated (`ExpectedOrder`).
