# PeachOS kernel model

A Dafny model of the parts of PeachOS, a small 32-bit kernel, whose state and arithmetic are hard to
get right, with proofs about them. `dafny verify dfyconfig.toml` checks all of it.

The model follows the code: objects that the C code updates in place are classes with `modifies`
clauses, loops are loops with invariants, and each method is proved against a specification over
values; lemmas then prove what the specification means. 32-bit wrap-around, signed division, bit masks
and 8-bit truncation are written out where they matter.

## How it is organised

Memory manager

- `Words` is 32-bit arithmetic and the bit masks. `HeapTable` is the flag-byte table of the block
  allocator as a value, `Heap` the allocator itself, `HeapHistory` whole runs of it, `KernelHeap` the one
  kernel heap together with the RAM it hands out. `BelowTable` is what a free of address 0 does to the bytes
  in front of the table and to the table, `NullFree` what a sequence of frees with null pointers among them does.
- `PageTables` is physical memory as frames of 1024 words and the flat page map a two-level table stands
  for. `Paging` edits and reads tables, `AddressSpaces` builds one out of heap frames, `SpaceRelease`
  gives it back, `OneChunk` is the variant in a single allocation.
- `Ownership` states who owns which heap run and what each process can write; `OwnershipSteps` proves
  that each kind of change keeps it. `ProcessState` is the whole system as a value with the steps of processes,
  `KernelSteps` adds those of the kernel itself and of termination, `SystemRuns` the theorems over every run;
  `Process` and `System` are the code whose effects are those steps.
- `Elf` maps a program's segments; `ElfOwnership` says when that keeps a process inside its own memory;
  `ElfBounds` is the address range recorded for a loaded file.
- `KernelRuns` is what the kernel holds while it does other things, `ProgramImage` what loading asks for and what
  the program then sees, `Loader` the loading of a process from its file to its pages, in the code's order.
- `MemoryBytes`, `CopyString` and `TaskString` are the bytes of RAM, `strncpy` through a mapping, and
  fetching a string from a user task.

Files

- `Streamer` reads bytes from a disk of sectors. `Fat32` walks cluster chains and reads files,
  `FatDirectory` resolves paths, `Names83` converts 8.3 names both ways.

Parsers, printers and the scheduler

- `Strtok` and `Command` are the in-place tokenizer and the command line built on it, `PathParser` the
  path parser with its heap allocations, `Itoa` the integer printer, `TaskList` the round-robin list.

Main results, hardest first: `SystemRuns.SlotsAreSound` and `SystemRuns.ProcessesAreIsolated` (ownership and
isolation over every run of spawning, taking over image and stack, mapping pages and programs, allocating,
freeing and terminating by several processes, and of the kernel's own allocations and writes, on one heap), with
the code that performs those steps in `System.Kernel`; `Loader.LoadProcess` with `ProgramImage.ElfIsSeen`;
`NullFree.FreeSlotsExactIff` and `System.Kernel.Terminate`; `SpaceRelease.BuildEditRelease`,
`TaskString.CopyStringFromTask`, `FatDirectory.Finder.GetPathDirectoryItem`, `Fat32.Fat.ReadInternal`,
`HeapHistory.HistoryIsSafe`, `PathParser.ParseThenFree`, `Command.ParseCommand`, `TaskList.Scheduler.Remove`,
`Names83.SameFormIff`.

## Where the code departs from its intent

Each is modelled as the code has it, with the exact condition under which the intended result holds.

- The block search returns the start of a trailing free run that is too short instead of an error
  (`HeapTable.SearchIsSoundIff`, `HeapTable.SearchMayOverrun`).
- Terminating a process passes the null pointers of its unused slots to `kfree`, and the block of address 0
  lies before the table. One such free leaves the table alone if and only if a byte in front of the table lacks
  HAS_NEXT or the first block is free (`BelowTable.NullFreeHarmlessIff`; `BelowTable.NullFreeStrikes` is an input
  where it does not, for which the boot signature must have been overwritten, `BelowTable.BootSignatureStops`). Freeing all slots, in any mix, frees the runs of the live ones and nothing else if and only
  if there is no null slot, that holds, or a live slot has the first run anyway (`NullFree.FreeSlotsExactIff`).
- The successor of a cluster is returned as one byte, and one of the eight end markers of a chain is
  recognised (`Fat32.NextIsSuccessorIff`, `Fat32.LargeClusterMissed`, `Fat32.OtherEndMarkerMissed`). A file's
  chain is the one its table entries mean; the code follows it if and only if every entry is such that the byte
  is right (`Fat32.ChainFollowedIff`). Reads ask for that only up to the end of the file
  (`Fat32.FileFollowedIff`), searches only up to the record that decides them.
- The two constructors of an address space agree in what they map and permit, but the directory entries of the
  one-chunk variant lack the writeable bit, so pages made writeable later stay closed to user mode there
  (`OneChunk.PermissionsAgreeIff`, `OneChunk.PermissionsDiffer`).
- Removing a task does not update the `prev` link of its successor. A removal leaves the list right if and only
  if the task's own `prev` link is right, or the task is the first and the link leads to no other task of the list
  (`TaskList.Scheduler.Remove`; `TaskList.SecondRemovalMisses` is a list where the second one does not). Even then
  it writes the `next` field of a task that was given back, if and only if the link is not right
  (`TaskList.RemovalWritesFreedTask`), and once that memory is a task again, it cuts off the tasks behind it
  (`TaskList.RecycledTaskDropsAnother`).
- A command line cut short by a failed allocation leaves the tokenizer in the middle of its string, so the next
  command goes on there and is not looked at itself (`Command.ParseCommand`, `Command.NextCommandIsLost`).
- A segment at virtual address 0 is taken for "no base yet" (`ElfBounds.BaseIsLowestIff`, `ElfBounds.SegmentAtZeroForgotten`).
- A segment whose memory size reaches past the blocks that hold the file maps blocks that belong to others;
  the code does not compare the two (`ElfOwnership.SegmentInRunIff`, `ElfOwnership.LongSegmentLeavesRun`).
- A segment whose address and file position differ modulo the page size is mapped, but is not seen
  where its header says (`Elf.SegmentVisibleIff`, `Elf.UnalignedSegmentMissed`).

## Model

| member | source | states |
|---|---|---|
| `HeapTable.StartBlockIsUnique` | src/memory/heap/heap.c:72-105 | the answer of the block search (leftmost fit, else the trailing free run, else -ENOMEM) is determined by the table and the request |
| `HeapTable.SearchIsSoundIff` | src/memory/heap/heap.c:99-105 | the search refuses or names a run that is wholly free exactly when a fitting run exists or the last block is taken |
| `HeapTable.SearchMayOverrun` | src/memory/heap/heap.c:99-104 | a concrete table where the search names a run reaching past the end |
| `HeapTable.RunShape` | src/memory/heap/heap.c:112-164 | in a well-formed table the chain of HAS_NEXT flags from any block stays inside the table and is followed only by tails |
| `HeapTable.RunsAreDisjoint` | src/memory/heap/heap.c:112-131 | the runs of a well-formed table are in range and pairwise disjoint |
| `HeapTable.RunIsTaken` | src/memory/heap/heap.c:112-131 | each run is FIRST, then HAS_NEXT up to its last block, all taken |
| `HeapTable.MarkTakenAddsRun` | src/memory/heap/heap.c:112-131 | marking a free stretch keeps the table well formed and adds exactly that run |
| `HeapTable.MarkFreeDropsRun` | src/memory/heap/heap.c:152-164 | freeing a run keeps the table well formed, drops exactly that run and leaves its blocks free |
| `HeapTable.TakenThenFree` | src/memory/heap/heap.c:112-164 | allocation followed by its free is the identity on the table |
| `HeapTable.Conservation` | src/memory/heap/heap.c:29-54 | blocks in live runs and free blocks together are all blocks |
| `HeapTable.TakenInBits` | src/memory/heap/heap.c:112-131 | a run of three blocks and one of a single block, in the bits of the table; a block is free if its low four bits are zero |
| `Heap.BlocksCoverSize` | src/memory/heap/heap.c:56-65 | how many blocks a size takes, tight on both sides, and none for 0 or a size that wraps |
| `Heap.Heap.Create` | src/memory/heap/heap.c:7-54 | accepted exactly for aligned bounds that match the table, which is then all free |
| `Heap.Heap.GetStartBlock` | src/memory/heap/heap.c:72-105 | the running counters compute the leftmost start of enough free blocks, else the trailing run, else -ENOMEM |
| `Heap.Heap.MarkBlocksTaken` | src/memory/heap/heap.c:112-131 | the loop writes FIRST, HAS_NEXT and the last flag over exactly the run |
| `Heap.Heap.MarkBlocksFree` | src/memory/heap/heap.c:152-164 | the loop clears the run up to the first entry without HAS_NEXT |
| `Heap.Heap.MarkBlocksFreeFrom` | src/memory/heap/heap.c:152-164 | started in front of the table, the loop clears the bytes there and goes on into the table, up to the first without HAS_NEXT |
| `Heap.Heap.Malloc` | src/memory/heap/heap.c:133-177 | succeeds exactly when the request is not empty and fits, and then takes one aligned free run; otherwise the table is unchanged |
| `Heap.Heap.Free` | src/memory/heap/heap.c:166-181 | the run that starts at the pointer's block is freed and nothing else changes |
| `Heap.Heap.FreeAny` | src/memory/heap/heap.c:166-181 | the same for any pointer, with the signed block index of one below the heap: the bytes in front of the table and the table are walked as one |
| `BelowTable.NullWalkIff` | src/memory/heap/heap.c:152-169 | the walk from address 0 stays in front of the table if and only if a byte there lacks HAS_NEXT |
| `BelowTable.NullFreeIs` | src/memory/heap/heap.c:152-181 | freeing address 0 clears bytes in front of the table only, or all of them and the run at block 0 |
| `BelowTable.NullFreeHarmlessIff` | src/memory/heap/heap.c:152-181 | the table is unchanged by it if and only if the walk ends in front of it or block 0 is free |
| `BelowTable.BootSignatureStops` | src/boot/boot.asm:206-208 | with the boot signature in place a byte in front of the table ends the walk |
| `BelowTable.NullFreeStrikes` | src/memory/heap/heap.c:152-181 | a concrete memory in which freeing address 0 frees the first block of the heap |
| `HeapHistory.StepKeepsTable` | src/memory/heap/heap.c:133-181 | each call changes the live runs by exactly the run it names |
| `HeapHistory.TableHoldsLiveRuns` | src/memory/heap/heap.c:133-181 | after any history the table is well formed and its runs are the allocations not yet freed |
| `HeapHistory.HistoryIsSafe` | src/memory/heap/heap.c:133-181 | over every history live runs are disjoint and in range, new runs avoid all of them, and live plus free blocks equal the total |
| `HeapHistory.RunPersists` | src/memory/heap/heap.c:133-181 | an allocation keeps its place and length until it is freed, whatever happens in between |
| `HeapHistory.FreeUndoesAllocation` | src/memory/heap/heap.c:152-181 | freeing a run after any calls in between changes exactly that run's entries, which were free before it was allocated |
| `KernelHeap.Memory.KMalloc` | src/memory/heap/kheap.c:26-29 | as the allocator, over the kernel heap: a granted run or a null pointer and no change |
| `KernelHeap.Memory.KZalloc` | src/memory/heap/kheap.c:31-39 | the same, and on success memory is as zeroing the requested bytes leaves it, which `KernelHeap.ZeroBytesAt` gives byte by byte |
| `KernelHeap.Memory.KFree` | src/memory/heap/kheap.c:42-44 | frees the run of the block the pointer is in |
| `KernelHeap.Memory.KFreeAny` | src/memory/heap/kheap.c:42-44 | the same, and for the null pointer clears from the byte that stands for address 0 on |
| `KernelHeap.ZeroBytesFrames` | src/memory/heap/kheap.c:31-39 | zeroing the bytes of a granted run leaves every frame outside it alone |
| `KernelHeap.ZeroBytesAt` | src/memory/heap/kheap.c:31-39 | zeroing makes the bytes of the range read as zero and leaves every other byte as it was |
| `Words.MaskIsPageStart` | src/memory/paging/paging.c:300-316 | masking with 0xFFFFF000 bit by bit gives the start of the page an entry points into |
| `Words.OrFlagsIntoPage` | src/memory/paging/paging.c:217-225 | or-ing flags below 4096 into a page address keeps the address and yields exactly those flags |
| `PageTables.SetEntry` | src/memory/paging/paging.c:284-307 | writing one table word changes that page of the flat map, no other page and no other frame |
| `PageTables.TreeIsLocal` | src/memory/paging/paging.c:284-317 | memory changes outside the frames of a table leave its flat map alone |
| `PageTables.SpaceKept` | src/memory/paging/paging.c:157-168 | leaf edits never alter the directory or the set of frames of an address space |
| `PageTables.SpaceIsLocal` | src/memory/paging/paging.c:157-168 | memory changes outside the 1026 frames of an address space leave its frames and entries alone |
| `PageTables.MapsRangeExtends` | src/memory/paging/paging.c:226-239 | mapping one more page extends a mapped range by exactly that page, modulo 2^32 |
| `PageTables.TranslationInWords` | src/memory/paging/paging.c:273-317 | the translation of an address and what user mode may do there, in words of memory: which two words decide and which of their bits |
| `Paging.PagingGetIndexes` | src/memory/paging/paging.c:183-198 | the two indexes recompose to the address; unaligned addresses are refused |
| `Paging.PagingSet` | src/memory/paging/paging.c:284-307 | one word of the table named by the directory is written, found by masking the directory entry |
| `Paging.PagingGet` | src/memory/paging/paging.c:309-317 | reads the flat map; an unaligned address reads page 0 |
| `Paging.PagingGetPhysicalAddress` | src/memory/paging/paging.c:273-278 | equals the hardware's translation of the address |
| `Paging.PagingMap` | src/memory/paging/paging.c:217-225 | sets the page's entry to the frame with the flags, or refuses an unaligned pair |
| `Paging.PagingMapRange` | src/memory/paging/paging.c:226-239 | page k of the range maps to frame k with the flags, both modulo 2^32, and every other page keeps its entry |
| `Paging.PagingMapTo` | src/memory/paging/paging.c:241-271 | accepted exactly for aligned addresses with start not above end; then maps that range, else changes nothing |
| `AddressSpaces.PagingNew4gb` | src/memory/paging/paging.c:109-149 | the new space maps every address to itself with the leaf flags, takes exactly 1026 free blocks and touches no other memory |
| `AddressSpaces.LastMemory` | src/memory/paging/paging.c:109-149 | with all 1024 tables entered, the frames form a space whose flat map is the identity |
| `AddressSpaces.SpaceBuilt` | src/memory/paging/paging.c:143-149 | the complete space: identity map, blocks accounted for, free count down by 1026 |
| `AddressSpaces.FillTable` | src/memory/paging/paging.c:121-128 | the inner loop identity-fills one table and leaves every other frame alone |
| `AddressSpaces.KZallocFrame` | src/memory/heap/kheap.c:31-39 | with a free block left, a small request takes exactly one free block |
| `SpaceRelease.PagingFree4gb` | src/memory/paging/paging.c:157-168 | the frames found through the entries are exactly those of the space, and all of them are freed |
| `SpaceRelease.FreedOneMore` | src/memory/paging/paging.c:160-164 | freeing one single-block run changes that block only |
| `SpaceRelease.ReleaseRestores` | src/memory/paging/paging.c:109-168 | whatever leaf edits happened, releasing the space gives back the earlier block table |
| `SpaceRelease.BuildEditRelease` | test/paging.c:27-57 | building gives a new space, each range mapping maps its range or, refused, changes nothing, and releasing gives back the block table that was there before |
| `OneChunk.PagingNew4gbOneChunk` | src/memory/paging/paging.c:67-102 | one run of 1026 blocks holds a space with the identity map; other memory is unchanged |
| `OneChunk.PagingFree4gbOneChunk` | src/memory/paging/paging.c:104-107 | frees the run the chunk starts |
| `OneChunk.BuildEditReleaseChunk` | src/memory/paging/paging.c:67-107 | the same for the variant in one chunk: an identity-mapped space, the edits one by one, and the block table as before |
| `OneChunk.ConstructorsAgree` | src/memory/paging/paging.c:67-149 | the fresh spaces of both constructors have the same entries at every page, the same translation at every address and the same pages open to user writes |
| `OneChunk.DirectoryFlagsKept` | src/memory/paging/paging.c:217-239 | leaf edits leave the permission bits of the directory as the constructor set them |
| `OneChunk.PermissionsAgreeIff` | src/memory/paging/paging.c:67-149 | for equal entries, edited or not, the two agree on user writes if and only if the flags are writeable, or not present and user, or the entry itself is closed |
| `OneChunk.PermissionsDiffer` | src/memory/paging/paging.c:67-149 | flags and an edited entry for which one space lets user mode write and the other does not |
| `OneChunk.OneChunkConserves` | src/memory/paging/paging.c:67-107 | the variant takes 1026 blocks and its free restores the table |
| `Ownership.SlotsNeverOverlap` | src/task/process.c:59-90 | under the invariant no two live slots of any processes share a frame, nor with a page table |
| `Ownership.WritesStayInside` | src/task/process.c:59-90 | under the invariant a page one process can write never reaches a page table or another process's runs |
| `OwnershipSteps.FillKeepsInv` | src/task/process.c:59-90 | filling an empty slot with a fresh run keeps the invariant of all processes |
| `OwnershipSteps.EmptyKeepsInv` | src/task/process.c:276-296 | emptying a slot, unmapping its pages and freeing its run keeps the invariant of all processes |
| `OwnershipSteps.BirthKeepsInv` | src/task/task.c:227-264 | a new process with a fresh address space keeps the invariant |
| `OwnershipSteps.ImageAdoptedKeepsInv` | src/task/process.c:505-537 | a run nobody accounts for, taken over as image or stack, keeps the invariant |
| `OwnershipSteps.ImageMapKeepsInv` | src/task/process.c:373-448 | mapping image pages away from the live slots keeps the invariant |
| `ProcessState.MallocKeepsOk` | src/task/process.c:59-90 | the effect of an allocation keeps heap table, page tables and slots in agreement |
| `ProcessState.FreeKeepsOk` | src/task/process.c:276-296 | the effect of a free keeps them in agreement, also for a pointer no slot holds |
| `ProcessState.SpawnKeepsOk` | src/task/task.c:227-264 | the effect of creating a process keeps them in agreement |
| `ProcessState.MapKeepsOk` | src/task/process.c:373-448 | the effect of mapping image, stack or the screen keeps them in agreement |
| `KernelSteps.WriteKeepsOk` | src/task/process.c:59-113 | writes outside all page tables keep the system invariant |
| `KernelSteps.TakeKeepsOk` | src/memory/heap/kheap.c:26-29 | an allocation of the kernel's own keeps it |
| `KernelSteps.ReleaseKeepsOk` | src/memory/heap/kheap.c:42-44 | freeing a run that no process accounts for keeps it |
| `KernelSteps.AdoptKeepsOk` | src/task/process.c:505-537 | making a run the kernel holds the image or the stack of a process keeps it |
| `KernelRuns.SpawnLoadedIs` | src/task/process.c:519-537 | the process that `task_new` makes for a loaded image and stack is a creation followed by two such steps |
| `KernelRuns.SpawnKeepsRun` | src/task/process.c:505-537 | a run the kernel holds keeps its place, its length and its content while an address space is made |
| `KernelSteps.ForgetKeepsOk` | src/task/process.c:180-188 | taking a process off the list keeps it |
| `SystemRuns.RunIsOk` | src/task/process.c:59-296 | every state of every run of processes and kernel satisfies the system invariant |
| `SystemRuns.SlotsAreSound` | src/task/process.c:59-113 | after any run a live slot is exactly one live heap run, identity-mapped in its own process and open to user writes at both levels, disjoint from all other live slots and from all page tables |
| `SystemRuns.GrantedIsZero` | src/task/process.c:59-90 | each byte of a granted allocation reads as zero through its process's translation and may be written there: nothing of what the blocks held is left |
| `SystemRuns.FreedIsClosed` | src/task/process.c:276-296 | once freed, the blocks of an allocation are free and its process can read no byte of it any more |
| `SystemRuns.ProcessesAreIsolated` | src/task/process.c:59-113 | after any run an address a process can write translates to the screen at 0xB8000 or into its own image, stack or live slots, and so into no page table, free block, run of the kernel, memory of another process or other memory outside the heap |
| `Process.Process.FindFreeAllocationIndex` | src/task/process.c:44-57 | the first empty slot, or -ENOMEM exactly when all are in use |
| `Process.Process.GetAllocationByAddr` | src/task/process.c:115-124 | the first slot with the address, or none exactly when no slot holds it |
| `Process.Process.AllocationUnjoin` | src/task/process.c:103-113 | every slot with the pointer is emptied and no other |
| `Process.ProcessMalloc` | src/task/process.c:59-90 | on success one slot, one fresh zeroed run and its identity mapping; on failure all three are as before, with the run given back |
| `Process.ProcessFree` | src/task/process.c:276-296 | unmaps the slot's pages, empties the slot and frees the run; a foreign pointer changes nothing; null goes through to `kfree` |
| `System.TaskInit` | src/task/task.c:227-264 | a new process has a fresh address space, readable and not writeable, and empty slots |
| `System.Kernel.Malloc` | src/task/process.c:59-90 | the code performs the allocation step on the whole system and keeps its invariant |
| `System.Kernel.FreePointer` | src/task/process.c:276-296 | whatever the state of the block table, the slots with the pointer are emptied and the bytes up to and in the table change as one `kfree` does, or not at all |
| `System.Kernel.Free` | src/task/process.c:276-296 | the code performs the free step on the whole system and keeps its invariant, unless a null free reaches the table |
| `System.Kernel.Spawn` | src/task/task.c:227-264 | the code performs the creation step and takes exactly 1026 blocks |
| `System.Kernel.TakeZeroed` | src/task/process.c:505-524 | the code takes a zeroed run for the kernel itself, or changes nothing |
| `System.Kernel.SpawnLoaded` | src/task/process.c:532-537 | the new process has the two runs as image and stack, and the invariant holds |
| `System.Kernel.Abandon` | src/task/process.c:551-563 | a process that could not be mapped loses address space and task structure and leaves the list; exactly those runs are dropped |
| `ProgramImage.SegmentStays` | src/task/process.c:401-409 | a segment that ends within the blocks of the file maps frames of the file only |
| `ProgramImage.BinaryIsSeen` | src/task/process.c:373-379 | a binary program sees its file from 0x400000 on, byte for byte, and user mode may write there, as the entries of both levels say |
| `ProgramImage.ElfIsSeen` | src/task/process.c:393-416 | an ELF program sees the bytes of its file at the addresses of its headers: user mode may read each of them, at both levels, and write exactly those of segments with PF_W; also with the stack mapped |
| `ProgramImage.StackIsSeen` | src/task/process.c:440-445 | the 16384 bytes from 0x3FB000 on are those of the stack's run, open to user writes |
| `ProgramImage.ScreenIsSeen` | src/task/process.c:373-448 | a binary program may write the 3200 bytes of the screen, where they are |
| `ProgramImage.RestIsShown` | src/task/process.c:373-448 | every other address of a binary program leads to itself, where user mode may read and not write |
| `Loader.LoadData` | src/task/process.c:346-371 | the file is in a run of its own, read as ELF first and again if it is none; an empty one is refused |
| `Loader.TakeFile` | src/task/process.c:346-371 | a run of as many blocks as the file needs, with its bytes |
| `Loader.Prepare` | src/task/process.c:505-524 | structure, file, stack and task are distinct runs of the kernel, the file with its bytes |
| `Loader.MapMemory` | src/task/process.c:418-448 | page by page, program, screen and stack are mapped as the file says, or the first refused segment ends it |
| `Loader.LoadProcess` | src/task/process.c:492-565 | either one more process with its file in its image, its pages mapped and 1035 blocks and those of the file taken, or the list as before; the error codes with their causes; the invariant of all processes holds in both cases |
| `System.Kernel.MapImage` | src/task/process.c:373-448 | the code performs the mapping step or changes nothing |
| `System.Kernel.FreeSlot` | src/task/process.c:126-134 | one turn of the loop empties its slot and does to the bytes up to and in the table what one `kfree` does |
| `System.Kernel.TerminateAllocations` | src/task/process.c:126-134 | for any mix of live and null slots, all end up empty and the table is what the frees in turn make of it; it lacks the runs of the live slots and nothing else if and only if the frees are exact, and then the invariant holds |
| `NullFree.FreeSlotsIs` | src/task/process.c:126-134 | freeing the slots in turn clears the runs of the live ones, and the run at block 0 exactly when a null slot comes up and the walk from address 0 reaches the table |
| `NullFree.FreeSlotsExactIff` | src/task/process.c:126-134 | the frees clear the runs of the live slots and nothing else if and only if no slot is null, the walk does not reach the table, or a live slot has that run |
| `NullFree.ClearedRuns` | src/task/process.c:126-134 | the table with those runs cleared is well formed and has exactly the other runs |
| `System.Kernel.Take` | src/memory/heap/kheap.c:26-29 | the code performs the kernel's own allocation and keeps the invariant |
| `System.Kernel.Release` | src/memory/heap/kheap.c:42-44 | the code frees a run no process accounts for and keeps the invariant |
| `System.Kernel.Terminate` | src/task/process.c:190-215 | if the frees of the slots are exact, allocations, image, stack and address space of the process go back, exactly its runs are dropped, and the invariant holds for the others |
| `Elf.ProcessMapElf` | src/task/process.c:393-416 | maps the segments in order and fails exactly at the first that the range check refuses |
| `Elf.ElfMappedStep` | src/task/process.c:398-413 | one more segment overrides exactly the pages it covers |
| `Elf.SegmentVisibleIff` | src/task/process.c:393-416 | with page-disjoint segments, a segment is seen at its addresses if and only if its address is congruent to its place in memory modulo 4096 |
| `Elf.UnalignedSegmentMissed` | src/task/process.c:409-409 | a header whose segment is mapped, and the address at which the program sees the wrong byte |
| `Elf.SegmentByte` | src/task/process.c:401-409 | each address of a segment translates to its byte of the image, in a page entry that is present and user, and writeable exactly when PF_W is set |
| `Elf.ProgramVisible` | src/task/process.c:393-416 | congruent page-disjoint segments are all seen correctly, present and user with the right write permission; pages outside them and the directory are unchanged |
| `ElfOwnership.EntryOrigin` | src/task/process.c:393-416 | every page entry after loading is the old one or comes from a segment that covers the page |
| `ElfOwnership.ElfMapKeepsOk` | src/task/process.c:393-416 | segments that avoid live slots and are writeable only inside the image keep the system invariant |
| `ElfOwnership.SegmentInRunIff` | src/task/process.c:409-409 | a segment maps only blocks of the run that holds the file if and only if its offset and memory size end within that run |
| `ElfOwnership.LongSegmentLeavesRun` | src/task/process.c:409-409 | a header with a memory size of two pages in a file of one block, and the foreign block it maps |
| `System.Kernel.MapElf` | src/task/process.c:393-416 | the loader maps the segments up to the first refused one and keeps the invariant of all processes |
| `ElfBounds.ElfFile.ProcessHeaders` | src/loader/formats/elfloader.c:126-151 | the bounds are those of all loadable headers in order; other headers are ignored |
| `ElfBounds.BoundsAreAttained` | src/loader/formats/elfloader.c:110-125 | recorded base and end are those of loadable segments, with matching file positions |
| `ElfBounds.WidenKeeps` | src/loader/formats/elfloader.c:110-125 | one more header leaves either end that of the new segment or of an earlier one |
| `ElfBounds.EndIsHighest` | src/loader/formats/elfloader.c:118-123 | the recorded end is the highest 32-bit end of a loadable segment |
| `ElfBounds.BaseIsLowestIff` | src/loader/formats/elfloader.c:112-116 | the recorded base is the lowest address if and only if no segment starts at 0 or the last loadable one does |
| `ElfBounds.SegmentAtZeroForgotten` | src/loader/formats/elfloader.c:112-116 | two headers for which the base misses the segment at 0 |
| `MemoryBytes.PutByteAt` | src/string/string.c:89-102 | a byte stored is read back and every other byte and frame is unchanged |
| `MemoryBytes.WordIsBytes` | src/string/string.c:89-102 | a word is its four bytes, the low-order one at the lowest address |
| `CopyString.Strncpy` | src/string/string.c:89-102 | the loop through the current mapping equals the copy function |
| `CopyString.CopyStores` | src/string/string.c:89-102 | for a buffer and a source apart from each other and from the page tables, exactly the string seen at the source and a zero are stored |
| `CopyString.StoreBytes` | src/string/string.c:89-102 | storing a text changes exactly its bytes |
| `CopyString.SeenIs` | src/string/string.c:89-102 | the string seen at an address is its bytes up to the first zero or the limit |
| `TaskString.SourceKept` | src/task/task.c:162-165 | mapping the temporary page does not change the string seen at the source |
| `TaskString.EntryRestored` | src/task/task.c:161-168 | after the old entry is put back only the temporary frame differs from what memory was |
| `TaskString.StoredIsSeen` | src/task/task.c:175-175 | what was stored in the temporary block is what the second copy reads |
| `TaskString.FetchThrough` | src/task/task.c:160-168 | the block ends up holding the string the user task sees, and all other memory is as before |
| `TaskString.CopyStringFromTask` | src/task/task.c:146-181 | delivers the string of at most max - 1 bytes seen through the user task's translation and writes nothing else but the temporary block; page entries and block table are as before; refuses max of 4096 or more and reports a full heap |
| `TaskString.AbcIsDelivered` | src/task/task.c:146-181 | a task that holds the word 0x00636261 has that word delivered: the string "abc" and its zero |
| `Streamer.Stream.ReadSector` | src/disk/disk.c:58-65 | delivers one sector of the disk |
| `Streamer.Stream.Read` | src/disk/streamer.c:26-58 | writes the disk bytes at the position into the output, advances by the total and terminates, for any split over sectors |
| `Streamer.DeliveredIsSlice` | src/disk/streamer.c:26-58 | on the disk, what is delivered is the slice of the flat byte disk |
| `Streamer.Stream.ReadTwice` | src/disk/streamer.c:26-58 | reading a and then b bytes has the effect of reading a + b, on the output and on the position |
| `Fat32.ClusterStartIsProduct` | src/fs/fat/fat32.c:172-181 | the recursive cluster position is the multiplication the code writes |
| `Fat32.NextIsSuccessorIff` | src/fs/fat/fat32.c:198-208 | the one-byte successor is the one the file system means if and only if the entry is 0x0FFFFFF8 or names a cluster below 256 |
| `Fat32.LargeClusterMissed` | src/fs/fat/fat32.c:198-208 | the entry 300 leads to cluster 44 |
| `Fat32.OtherEndMarkerMissed` | src/fs/fat/fat32.c:198-208 | the end marker 0x0FFFFFFF leads to cluster 255 |
| `Fat32.EntryIsItsBytes` | src/fs/fat/fat32.c:183-193 | a table entry is the number whose base-256 digits its bytes on the disk are, lowest first |
| `Fat32.SuccessorMeans` | src/fs/fat/fat32.c:183-208 | the successor meant is the low 28 bits of the entry, unless they are one of the eight highest values |
| `Fat32.TwoClusterFile` | src/fs/fat/fat32.c:183-208 | on a concrete disk, a chain of two clusters and the content of its file, from the bytes of the table |
| `Fat32.Fat.GetClusterDataDiskPos` | src/fs/fat/fat32.c:172-181 | the disk position of a cluster in 32-bit arithmetic |
| `Fat32.Fat.GetClusterValue` | src/fs/fat/fat32.c:183-193 | the little-endian table entry of the cluster |
| `Fat32.Fat.GetNextClusterId` | src/fs/fat/fat32.c:198-208 | the truncated successor of the entry, 0 at the end marker |
| `Fat32.ChainFollowedIff` | src/fs/fat/fat32.c:198-208 | the code follows a chain of the table to its end if and only if every entry of it names a cluster below 256 or is 0x0FFFFFF8 |
| `Fat32.FileFollowedIff` | src/fs/fat/fat32.c:411-424 | the code follows a chain as far as a file goes if and only if no entry up to there is truncated |
| `Fat32.ChainIsUnique` | src/fs/fat/fat32.c:198-208 | a first cluster has at most one chain |
| `Fat32.ContentIs` | src/fs/fat/fat32.c:388-434 | the content of a chain is its clusters' data, one after the other |
| `Fat32.ContentSlice` | src/fs/fat/fat32.c:402-410 | bytes inside one cluster are the same bytes of the content |
| `Fat32.Fat.ReadChunk` | src/fs/fat/fat32.c:402-410 | the part read from one cluster is the next slice of the content |
| `Fat32.Fat.Advance` | src/fs/fat/fat32.c:411-424 | the cursor invariant is kept when a cluster is used up, and at the end of the file whatever entry comes there |
| `Fat32.Fat.ReadInternal` | src/fs/fat/fat32.c:388-434 | copies exactly the content from the position to the smaller of position + size and the file size, returns 1 exactly when all bytes were there, keeps the cursor and terminates |
| `Fat32.Fat.Read` | src/fs/fat/fat32.c:436-452 | returns the number of whole items available and delivers the bytes up to the end of the file |
| `FatDirectory.ScanHitsFirst` | src/fs/fat/fat32.c:291-320 | the record found is the first of the name before the end record |
| `FatDirectory.HitIsFirst` | src/fs/fat/fat32.c:291-320 | and conversely a record found is the first of that name |
| `FatDirectory.ScanAppend` | src/fs/fat/fat32.c:277-335 | scanning cluster by cluster is scanning the directory as a whole |
| `FatDirectory.SameName` | src/string/string.c:72-87 | the bounded comparison decides equality of 11-byte names |
| `FatDirectory.Finder.ScanOneCluster` | src/fs/fat/fat32.c:291-325 | the inner loop decides hit, end record or continue for the rest of the directory |
| `FatDirectory.Finder.FindInDirectory` | src/fs/fat/fat32.c:277-335 | the search along the chain finds exactly what the directory's content has |
| `FatDirectory.Finder.GetPathDirectoryItem` | src/fs/fat/fat32.c:264-343 | equals the pure path resolver: first match in each directory, descending through directories only, zeros otherwise; terminates |
| `FatDirectory.ResolveIsUnique` | src/fs/fat/fat32.c:264-343 | what a path resolves to does not depend on which other directories are listed |
| `FatDirectory.TargetIsItsBytes` | src/fs/fat/fat32.c:249-253 | a record leads to the cluster whose base-256 digits are its bytes 26, 27, 20 and 21 |
| `FatDirectory.DirectoryBit` | src/fs/fat/fat32.c:255-258 | a record is a directory exactly when the bit of value 16 in its byte 11 is set |
| `FatDirectory.MissingIsZero` | src/fs/fat/fat32.c:264-343 | a path whose first part is in no record resolves to 32 zeros |
| `FatDirectory.FoundIsFollowed` | src/fs/fat/fat32.c:264-343 | else it resolves to the first such record, if that ends it, to what the rest resolves to from its cluster, if it is a directory, and to zeros otherwise |
| `FatDirectory.SmallDiskResolves` | src/fs/fat/fat32.c:264-343 | on a concrete disk, the path dir/file leads through the record of the directory to the record of the file |
| `FatDirectory.DotRecordsAreNeverHit` | src/fs/fat/fat32.c:210-247 | no path finds the "." and ".." records of a directory |
| `Names83.TransformFilenameToFat` | src/fs/fat/fat32.c:210-247 | the loop computes the 11-byte form, whatever the name |
| `Names83.FatNameIs` | src/fs/fat/fat32.c:210-247 | for an 8.3 name that form is the upper-cased base and extension, each padded with blanks |
| `Names83.FatNameInGeneral` | src/fs/fat/fat32.c:210-247 | for any name: up to eleven characters before the first dot, then the others without dots over places 8 to 10 |
| `Names83.UpperOfLetters` | src/fs/fat/fat32.c:210-247 | upper case is 65 to 90 for the letters 97 to 122 and the character itself otherwise |
| `Names83.ToProperString` | src/fs/fat/fat16.c:306-323 | copies a field up to its first blank or zero and ends it with a zero |
| `Names83.GetFullRelativeFilename` | src/fs/fat/fat16.c:325-335 | prints base, dot and extension, and clears the rest of the buffer |
| `Names83.PrintedIs` | src/fs/fat/fat16.c:306-335 | what is printed are the two fields up to their first zero or blank, and no dot without an extension |
| `Names83.RoundTrip` | src/fs/fat/fat16.c:306-335 | printing the form of an 8.3 name gives the upper-cased name |
| `Names83.SameFormIff` | src/fs/fat/fat32.c:210-247 | two 8.3 names have the same form if and only if they are equal ignoring case |
| `Strtok.Tokenizer.Next` | programs/stdlib/src/string.c:121-175 | one call returns the next piece in place, changes the byte behind it only and leaves the static pointer at the rest, or null at the end |
| `Strtok.Tokenizer.SkipDelimiters` | programs/stdlib/src/string.c:132-149 | the first loop stops at the first character that is no delimiter |
| `Strtok.Tokenizer.CutPiece` | programs/stdlib/src/string.c:156-173 | the second loop cuts the piece at its delimiter and changes one byte |
| `Strtok.CutTexts` | programs/stdlib/src/string.c:156-173 | after the cut both the piece and the rest are strings of their own |
| `Strtok.PiecesPartitionText` | programs/stdlib/src/string.c:121-175 | the pieces are non-empty, free of delimiters and together are the text without its delimiters |
| `Strtok.PiecesOfWord` | programs/stdlib/src/string.c:121-175 | the pieces are maximal: a word between delimiters is one whole piece |
| `Command.Strncpy` | programs/stdlib/src/string.c:96-109 | at most count - 1 characters and always a zero |
| `Command.ParseCommand` | programs/stdlib/src/peachos.c:14-57 | the list holds the pieces of the first 1024 characters, or of what an earlier command left, each cut to 511; when allocations run out it is a prefix, one more piece is lost, and the tokenizer stands before the rest |
| `Command.NextCommandIsLost` | programs/stdlib/src/peachos.c:14-57 | two commands, with one allocation for the first, of which the second is not parsed |
| `Command.ParseRest` | programs/stdlib/src/peachos.c:38-53 | the loop appends every further piece in order until an allocation fails |
| `PathParser.PrintThenParse` | src/fs/pparser.c:97-134 | parsing the printed form of a drive digit and non-empty slash-free parts gives them back, up to 108 characters |
| `PathParser.ParseExample` | src/fs/pparser.c:97-134 | 0:/bin/a is drive 0 with the parts bin and a |
| `PathParser.PartsArePrefix` | src/fs/pparser.c:37-81 | in general the parts are those before the first empty one, and joined they are a prefix of the path |
| `PathParser.CopyPart` | src/fs/pparser.c:41-46 | copies to the next slash or the end and stays inside the 108-byte buffer |
| `PathParser.GetPathPart` | src/fs/pparser.c:37-61 | the next part in a block of its own, or null with the block given back |
| `PathParser.ParsePathPart` | src/fs/pparser.c:63-81 | a node behind the last one, taking two blocks; for an empty part nothing changes |
| `PathParser.HeldMeans` | src/fs/pparser.c:83-95 | the blocks a parsed path accounts for are different, were free before and are taken now |
| `PathParser.Parse` | src/fs/pparser.c:97-134 | a root exactly for a well-formed path of at most 108 characters, with the drive number, the parts in order and their blocks accounted for |
| `PathParser.PathparserFree` | src/fs/pparser.c:83-95 | every block of the path goes back: the table is the one before |
| `PathParser.ParseThenFree` | src/fs/pparser.c:83-134 | parsing any path gives a root exactly for a valid one, with its drive, and freeing it restores the block table |
| `TaskList.Scheduler.Add` | src/task/task.c:26-62 | the new task is last in the list, which stays in order; stale `prev` links stay apart from it exactly if none names its memory |
| `TaskList.Scheduler.GetNext` | src/task/task.c:64-75 | the cyclic successor of the current task |
| `TaskList.Scheduler.Next` | src/task/task.c:112-122 | moves to the cyclic successor and leaves the list alone |
| `TaskList.Scheduler.Steps` | src/task/task.c:112-122 | any number of steps visits the tasks in cyclic order; in every window as long as the list each task comes up exactly once, and a full round ends at the same task |
| `TaskList.WindowVisitsEach` | src/task/task.c:64-122 | the visits of any such window are the tasks of the list, as a multiset |
| `TaskList.Scheduler.Remove` | src/task/task.c:77-110 | the list is right without the task if and only if its `prev` link is right, or it is the first and the link leads to no other task; it writes tasks of the list only if and only if the link is right; no `prev` link is updated |
| `TaskList.SecondRemovalMisses` | src/task/task.c:77-100 | a list of three in which the second of two removals leaves its task linked |
| `TaskList.RemovalWritesFreedTask` | src/task/task.c:77-110 | a list of two whose second removal is right but overwrites a word of the memory the first task had |
| `TaskList.RecycledTaskDropsAnother` | src/task/task.c:77-110 | a stale link to recycled memory, and the task that the removal cuts off |
| `Itoa.Itoa` | programs/stdlib/src/stdlib.c:4-29 | for every 32-bit value the text decodes to it, has no leading zero, ends with a zero byte and starts inside the 12-byte buffer |
| `Itoa.DigitMoved` | programs/stdlib/src/stdlib.c:14-21 | each round moves the last digit of the number into the text without changing the value |
| `Itoa.DecodeExample` | programs/stdlib/src/stdlib.c:4-29 | the text -120 denotes minus one hundred and twenty |
| `Itoa.FewDigits` | programs/stdlib/src/stdlib.c:6-21 | a number up to 2^31 has at most ten digits |

## Left out

- Port I/O, ATA commands, control registers, interrupts, register save and restore, all assembly: a disk
  read is a read from a byte sequence, and switching address spaces is a choice of translation.
- Terminal, keyboard, VGA and `print` output, with the walk over a new space that only prints
  (src/memory/paging/paging.c:10-65).
- FAT16 chain walking and reads, `fat32_seek`, long names and deleted entries: no clean refinement holds.
- Disk reads that fail: the code's read of a block has no error path the callers see.
- The descriptor table and file system dispatch (src/fs/file.c), the process table of 12 entries,
  IDT, GDT and the keyboard ring: small, single-branch members.
- Frees of interior pointers and of pointers below the heap other than null, except where a lemma says what
  they do. The bytes in front of the block table are kept apart from the words of RAM.
- Allocation failure where the code does not look (new address spaces, the path parser): enough free
  blocks are required. `struct process`, `struct task` and file handles take heap blocks that the system
  model does not count as runs of a process.
- The task list after a removal that left it wrong.
- System.Kernel.Terminate: the invariant is stated before and after, not between the single frees; the task and
  process structures are runs of the kernel's own, which `System.Kernel.Release` gives back.
- `process_inject_arguments`: it would add writes of strings into allocations already covered.
- ELF headers and part names are values of their own, not words of RAM; the segment type is not looked at,
  as in `process_map_elf`, and `ElfBounds` takes the headers as a sequence.
- Fat32.Fat.Read: the multiplication of item size and count is repeated addition, and the output buffer
  must hold all items.
- Fat32.Fat.ReadInternal: requires a chain that the code can follow up to the end of the file, as
  `Fat32.FileFollowedIff` gives it; of the other chains it is only said that the code leaves them.
- FatDirectory.Finder.GetPathDirectoryItem: requires such a chain of each directory the path visits, up to the
  cluster that decides the search, and part names below 256 characters.
- Names83.TransformFilenameToFat: names below 256 characters, as the code counts positions in one byte.
- TaskString.CopyStringFromTask: requires that the pages of the string are present, that neither they nor the
  frames behind them are the temporary block, that the string is in no page table of the user task, that the
  destination is apart from both, and that the limit is at least 1. Page faults are not modelled.
- Heap.Heap.AddressToBlock: requires a heap below address 0x8000_0000, where the signed difference of two of its
  addresses does not wrap.
- Process.ProcessMalloc: requires that the heap ends below the last page of the address space, where the
  rounded end of an allocation would wrap.
- System.Kernel.MapImage: requires that no page of a live slot is remapped and that writeable pages are those of
  the process's own image or stack or of the screen, which the code does not check.
- System.Kernel.MapElf: requires the same of every segment; `ElfOwnership.SegmentInRunIff` says when it holds.
- KernelHeap.Memory.KMalloc: requires a request the search answers soundly (`HeapTable.SearchIsSoundIff`), here
  and in its callers; otherwise the code marks blocks behind the table.
- Loader.LoadProcess: requires that the heap serves the requests in turn, where the code looks at their results
  and where it does not, and that writeable segments end within the blocks of the file; opening, `fstat` and
  checking the headers are parameters, and reading the file does not fail.
- Command.ParseCommand: the buffer of a command cut short lies on the stack; it is taken to keep its bytes.
