/**
 Loading a process (`process_load_for_slot` in `process.c`): its structure, the file, the stack and the
 task are heap runs of the kernel's own before there is an address space for them.
 */
module Loader {
  import opened Words
  import opened HeapTable
  import opened PageTables
  import opened KernelHeap
  import opened AddressSpaces
  import opened Ownership
  import opened ProcessState
  import opened ElfOwnership
  import opened KernelSteps
  import opened KernelRuns
  import opened ProgramImage
  import opened Process
  import opened System
  import opened MemoryBytes
  import opened CopyString
  import E = Elf
  import H = Heap
  import P = Paging

  // ---------- Runs for the file, the stack and the structures ----------

  /** `kzalloc`, the first of the requests left. */
  method TakeRun(k: Kernel, size: Word, ghost checked: bool, ghost rest: seq<Request>) returns (ptr: Word)
    requires k.Valid() && Servable(k.mem.Blocks(), [Run(size, checked)] + rest)
    modifies k.mem.heap.entries, k.mem.ram
    ensures k.Valid() && k.processes == old(k.processes)
    ensures ptr == 0 ==> checked && k.Now() == old(k.Now())
    ensures ptr != 0 ==>
      && TakeZeroStep(old(k.Now()), k.Now(), size, ptr) && Servable(k.mem.Blocks(), rest)
      && HoldsRun(k.Now(), ptr, size)
      && FreeCount(k.mem.Blocks()) == old(FreeCount(k.mem.Blocks())) - H.Blocks(size)
  {
    ghost var s := k.Now();
    ServedFirst(s.table, size, checked, rest);
    ptr := k.TakeZeroed(size);
    if ptr != 0 {
      ServedRest(s.base, s.table, size, checked, rest, ptr, k.mem.Blocks());
      TakenIsKernels(s, k.Now(), size, ptr);
      FreeCountMarkTaken(s.table, Frame(ptr) - s.base, H.Blocks(size));
    }
  }

  /** The bytes of the file, into physical memory from `ptr` on. */
  method ReadBytes(ram: array<Word>, ptr: Word, data: FileBytes)
    requires ram.Length == RAM_WORDS && ptr + |data| <= 0x1_0000_0000 && data != []
    modifies ram
    ensures BytesAt(ram[..], ptr, data)
    ensures SameOutside(old(ram[..]), ram[..], Frame(ptr), Frame(ptr + |data| - 1))
  {
    var i := 0;
    ghost var m: Ram := ram[..];
    while i < |data|
      invariant 0 <= i <= |data|
      invariant forall j: nat :: j < i ==> GetByte(ram[..], ptr + j) == data[j]
      invariant SameOutside(m, ram[..], Frame(ptr), Frame(ptr + |data| - 1))
    {
      ghost var n: Ram := ram[..];
      PutByteAt(n, ptr + i, data[i]);
      WriteByte(ram, Identical, ptr + i, data[i]);
      SameOutsideTrans(m, n, ram[..], Frame(ptr), Frame(ptr + |data| - 1));
      i := i + 1;
    }
  }

  /** `fread` of the whole file into its run. */
  method ReadFile(k: Kernel, ptr: Word, data: FileBytes)
    requires k.Valid() && HoldsRun(k.Now(), ptr, |data|) && data != []
    modifies k.mem.ram
    ensures k.Valid() && k.processes == old(k.processes)
    ensures WriteStep(old(k.Now()), k.Now()) && HoldsFile(k.Now(), ptr, data)
  {
    ghost var s := k.Now();
    RunFits(s, ptr, |data|);
    ReadBytes(k.mem.ram, ptr, data);
    ghost var t := k.Now();
    assert t.procs == s.procs;
    WriteInRun(s, t, ptr, |data|);
    WriteKeepsOk(s, t);
    WriteKeepsRun(s, t, Frame(ptr), H.Blocks(|data|));
  }

  /** The blocks of a run have room for the bytes it was taken for. */
  lemma RunFits(s: State, ptr: Word, size: Word)
    requires Ok(s) && HoldsRun(s, ptr, size) && size >= 1
    ensures size <= PAGE_SIZE * H.Blocks(size) && ptr + size <= PAGE_SIZE * (s.base + |s.table|) <= 0x1_0000_0000
    ensures Frame(ptr + size - 1) < Frame(ptr) + H.Blocks(size)
  {
    RunIsTaken(s.table, Frame(ptr) - s.base);
    H.BlocksCoverSize(size);
    PagesFit(ptr, Frame(ptr), H.Blocks(size), size, s.base + |s.table|);
  }

  /** What is written into a run of the kernel's own touches no page table. */
  lemma WriteInRun(s: State, t: State, ptr: Word, size: Word)
    requires Ok(s) && HoldsRun(s, ptr, size) && t == s.(ram := t.ram) && 1 <= size && ptr + size <= 0x1_0000_0000
    requires Frame(ptr + size - 1) < Frame(ptr) + H.Blocks(size)
    requires SameOutside(s.ram, t.ram, Frame(ptr), Frame(ptr + size - 1))
    ensures WriteStep(s, t)
  {
    forall j, f: nat |
      0 <= j < |s.procs| && s.procs[j].chunk < FRAMES && f < FRAMES && f in Frames(s.ram, s.procs[j].chunk)
      ensures SameFrame(s.ram, t.ram, f)
    {
      KernelRunInNoTable(s, Frame(ptr), H.Blocks(size), j, f);
    }
  }

  lemma KernelRunInNoTable(s: State, f: nat, n: nat, j: nat, x: nat)
    requires Ok(s) && KernelRun(s, f, n) && j < |s.procs| && s.procs[j].chunk < FRAMES
    requires x in Frames(s.ram, s.procs[j].chunk)
    ensures !(f <= x < f + n)
  {
    var h, vs := PoolOf(s.base, s.table), Views(s.ram, s.procs);
    assert vs[j] == ViewOf(s.ram, s.procs[j]) && ViewOk(h, vs[j]) && x in Owned(vs[j]);
    RunsApart(h, f, x, x);
  }

  // ---------- The file ----------

  /** The blocks of the file in memory; those of the first reading of a binary stay taken. */
  function FileBlocks(file: Program): nat {
    if file.Binary? then 2 * H.Blocks(|file.data|) else H.Blocks(|file.data|)
  }

  /**
   `process_load_data`: a file that is no ELF program is read again, and the runs of the first attempt stay
   taken. Reading an empty file fails; `kzalloc(0)` marks no block.
   */
  method LoadData(k: Kernel, file: Program, ghost rest: seq<Request>) returns (res: int, program: Word)
    requires k.Valid() && Servable(k.mem.Blocks(), DataRequests(file, rest))
    modifies k.mem.heap.entries, k.mem.ram
    ensures k.Valid() && k.processes == old(k.processes)
    ensures res == 0 || res == -ENOMEM || res == -EINVARG
    ensures res == -EINVARG <==> file.data == []
    ensures res == 0 ==> Servable(k.mem.Blocks(), rest) && HoldsFile(k.Now(), program, file.data)
    ensures res == 0 ==> FreeCount(k.mem.Blocks()) == old(FreeCount(k.mem.Blocks())) - 1 - FileBlocks(file)
  {
    program := 0;
    SizesInBlocks();
    ghost var all := DataRequests(file, rest);
    var elfFile := TakeRun(k, ELF_FILE_SIZE, false, all[1..]);
    if file.data == [] {
      return -EINVARG, 0;
    }
    ghost var others := if file.Binary? then [Run(|file.data|, true)] + rest else rest;
    assert all[1..] == [Run(|file.data|, false)] + others;
    program := TakeFile(k, file.data, false, others);
    if file.Binary? {
      program := TakeFile(k, file.data, true, rest);
      if program == 0 {
        return -ENOMEM, 0;
      }
    }
    res := 0;
  }

  /** A run for the file, and its bytes. */
  method TakeFile(k: Kernel, data: FileBytes, ghost checked: bool, ghost rest: seq<Request>) returns (ptr: Word)
    requires k.Valid() && data != [] && Servable(k.mem.Blocks(), [Run(|data|, checked)] + rest)
    modifies k.mem.heap.entries, k.mem.ram
    ensures k.Valid() && k.processes == old(k.processes)
    ensures ptr == 0 ==> checked
    ensures ptr != 0 ==>
      && Servable(k.mem.Blocks(), rest) && HoldsFile(k.Now(), ptr, data)
      && FreeCount(k.mem.Blocks()) == old(FreeCount(k.mem.Blocks())) - H.Blocks(|data|)
  {
    ptr := TakeRun(k, |data|, checked, rest);
    if ptr != 0 {
      ghost var s := k.Now();
      ReadFile(k, ptr, data);
      assert k.mem.Blocks() == s.table;
    }
  }

  /** All runs are there: the file in memory, the stack and the task structure, and room for an address space. */
  ghost predicate Prepared(s: State, data: FileBytes, program: Word, stack: Word, task: Word) {
    && data != [] && HoldsFile(s, program, data) && HoldsRun(s, stack, STACK_SIZE) && HoldsRun(s, task, TASK_SIZE)
    && Frame(program) != Frame(stack) && Frame(program) != Frame(task) && Frame(stack) != Frame(task)
  }

  lemma FileKept(s: State, t: State, size: Word, ptr: Word, program: Word, data: FileBytes)
    requires Ok(s) && TakeZeroStep(s, t, size, ptr) && HoldsFile(s, program, data)
    ensures HoldsFile(t, program, data) && Frame(program) != Frame(ptr)
  {
    TakeZeroKeepsRun(s, t, size, ptr, Frame(program), H.Blocks(|data|));
    BytesStay(s.ram, t.ram, program, data, Frame(program), H.Blocks(|data|));
  }

  lemma SizesInBlocks()
    ensures H.Blocks(PROCESS_SIZE) == 3 && H.Blocks(ELF_FILE_SIZE) == 1
    ensures H.Blocks(STACK_SIZE) == 4 && H.Blocks(TASK_SIZE) == 1
  {
  }

  /** The requests behind the file. */
  function LastRequests(): seq<Request> {
    [Run(TASK_SIZE, false)] + [SpaceFrames]
  }

  /** The part of `process_load_for_slot` up to the allocation of the task. */
  method Prepare(k: Kernel, file: Program) returns (res: int, program: Word, stack: Word, task: Word)
    requires k.Valid() && Servable(k.mem.Blocks(), Requests(file))
    modifies k.mem.heap.entries, k.mem.ram
    ensures k.Valid() && k.processes == old(k.processes)
    ensures res == 0 || res == -ENOMEM || res == -EINVARG
    ensures res == 0 ==>
      && Prepared(k.Now(), file.data, program, stack, task) && FreeCount(k.mem.Blocks()) >= SPACE_FRAMES
      && FreeCount(k.mem.Blocks()) == old(FreeCount(k.mem.Blocks())) - 9 - FileBlocks(file)
    ensures res == -EINVARG ==> file.data == []
  {
    stack, task := 0, 0;
    ghost var rest := [Run(STACK_SIZE, true)] + LastRequests();
    res, program := PrepareFile(k, file, rest);
    if res == 0 {
      res, stack, task := PrepareStack(k, file.data, program);
    }
  }

  /** The process structure and the file. */
  method PrepareFile(k: Kernel, file: Program, ghost rest: seq<Request>) returns (res: int, program: Word)
    requires k.Valid() && Servable(k.mem.Blocks(), [Run(PROCESS_SIZE, true)] + DataRequests(file, rest))
    modifies k.mem.heap.entries, k.mem.ram
    ensures k.Valid() && k.processes == old(k.processes)
    ensures res == 0 || res == -ENOMEM || res == -EINVARG
    ensures res == 0 ==>
      && file.data != [] && Servable(k.mem.Blocks(), rest) && HoldsFile(k.Now(), program, file.data)
      && FreeCount(k.mem.Blocks()) == old(FreeCount(k.mem.Blocks())) - 4 - FileBlocks(file)
    ensures res == -EINVARG ==> file.data == []
  {
    program := 0;
    SizesInBlocks();
    var process := TakeRun(k, PROCESS_SIZE, true, DataRequests(file, rest));
    if process == 0 {
      return -ENOMEM, 0;
    }
    res, program := LoadData(k, file, rest);
  }

  /** The stack and the task structure. */
  method PrepareStack(k: Kernel, ghost data: FileBytes, ghost program: Word)
    returns (res: int, stack: Word, task: Word)
    requires k.Valid() && data != [] && HoldsFile(k.Now(), program, data)
    requires Servable(k.mem.Blocks(), [Run(STACK_SIZE, true)] + LastRequests())
    modifies k.mem.heap.entries, k.mem.ram
    ensures k.Valid() && k.processes == old(k.processes) && (res == 0 || res == -ENOMEM)
    ensures res == 0 ==>
      && Prepared(k.Now(), data, program, stack, task) && FreeCount(k.mem.Blocks()) >= SPACE_FRAMES
      && FreeCount(k.mem.Blocks()) == old(FreeCount(k.mem.Blocks())) - 5
  {
    SizesInBlocks();
    ghost var s := k.Now();
    task := 0;
    stack := TakeRun(k, STACK_SIZE, true, LastRequests());
    if stack == 0 {
      return -ENOMEM, 0, 0;
    }
    ghost var t := k.Now();
    FileKept(s, t, STACK_SIZE, stack, program, data);
    task := TakeRun(k, TASK_SIZE, false, [SpaceFrames]);
    FileKept(t, k.Now(), TASK_SIZE, task, program, data);
    TakeZeroKeepsRun(t, k.Now(), TASK_SIZE, task, Frame(stack), H.Blocks(STACK_SIZE));
    res := 0;
  }

  // ---------- The process ----------

  /** `task_new`: the address space is made, and image and stack become those of the process. */
  method Create(k: Kernel, data: FileBytes, program: Word, stack: Word, task: Word) returns (p: Process)
    requires k.Valid() && Prepared(k.Now(), data, program, stack, task)
    requires FreeCount(k.mem.Blocks()) >= SPACE_FRAMES
    modifies k, k.mem.heap.entries, k.mem.ram
    ensures k.Valid() && k.processes == old(k.processes) + [p] && fresh(p)
    ensures FreeCount(k.mem.Blocks()) == old(FreeCount(k.mem.Blocks())) - SPACE_FRAMES
    ensures Placed(k.Now(), |old(k.processes)|, data, program, stack) && KernelRun(k.Now(), Frame(task), 1)
    ensures Identity(k.mem.ram[..], p.Chunk(), PRESENT + ACCESS_FROM_ALL)
  {
    ghost var s := k.Now();
    p := k.SpawnLoaded(program, stack);
    ghost var t := k.Now();
    assert t.procs[|s.procs|] == ProcOf(p);
    PlacedAtFirst(s, t, data, program, stack, task);
  }

  lemma PlacedAtFirst(s: State, t: State, data: FileBytes, program: Word, stack: Word, task: Word)
    requires Ok(s) && Prepared(s, data, program, stack, task)
    requires SpawnLoadedStep(s, t, Frame(program), Frame(stack))
    ensures Placed(t, |s.procs|, data, program, stack) && KernelRun(t, Frame(task), 1)
    ensures t.procs[|s.procs|].chunk < FRAMES
    ensures Identity(t.ram, t.procs[|s.procs|].chunk, PRESENT + ACCESS_FROM_ALL)
  {
    var f, g := Frame(program), Frame(stack);
    SpawnLoadedKeepsRun(s, t, f, g, Frame(task), 1);
    FileAtFirst(s, t, data, program, f, g);
    StackAtFirst(s, t, stack, f, g);
    NewAtFirst(s, t, f, g);
  }

  lemma StackAtFirst(s: State, t: State, stack: Word, f: nat, g: nat)
    requires Ok(s) && SpawnLoadedStep(s, t, f, g) && HoldsRun(s, stack, STACK_SIZE)
    ensures IsRun(t, stack, STACK_SIZE)
  {
    SpawnLoadedKeepsBytes(s, t, f, g, Frame(stack), H.Blocks(STACK_SIZE));
  }

  lemma NewAtFirst(s: State, t: State, f: nat, g: nat)
    requires SpawnLoadedStep(s, t, f, g)
    ensures
      var p := t.procs[|s.procs|];
      && p.chunk < FRAMES && Identity(t.ram, p.chunk, PRESENT + ACCESS_FROM_ALL) && p.image == {f, g}
      && forall k :: 0 <= k < |p.slots| ==> p.slots[k] == EMPTY_SLOT
  {
    assert Bare(t).procs[|s.procs|].slots == t.procs[|s.procs|].slots;
  }

  lemma FileAtFirst(s: State, t: State, data: FileBytes, program: Word, f: nat, g: nat)
    requires Ok(s) && SpawnLoadedStep(s, t, f, g) && HoldsFile(s, program, data)
    ensures IsRun(t, program, |data|) && BytesAt(t.ram, program, data)
  {
    SpawnLoadedKeepsBytes(s, t, f, g, Frame(program), H.Blocks(|data|));
    BytesStay(s.ram, t.ram, program, data, Frame(program), H.Blocks(|data|));
  }

  // ---------- Its pages ----------

  /** `paging_map_to` of a run of the image or of the screen, present, writeable and user. */
  method MapRun(k: Kernel, i: nat, virt: Word, ptr: Word, size: Word, ghost data: FileBytes, ghost program: Word,
      ghost stack: Word)
    requires k.Valid() && Placed(k.Now(), i, data, program, stack)
    requires virt % PAGE_SIZE == 0 && ptr % PAGE_SIZE == 0 && size >= 1 && H.Blocks(size) >= 1
    requires Frame(virt) + H.Blocks(size) <= FRAMES && Frame(ptr) + H.Blocks(size) < FRAMES
    requires (ptr == program && size == |data|) || (ptr == stack && size == STACK_SIZE)
      || (Frame(ptr) == VIDEO && H.Blocks(size) == 1)
    modifies k.mem.ram
    ensures k.Valid() && k.processes == old(k.processes) && k.Now() == old(k.Now()).(ram := k.mem.ram[..])
    ensures Placed(k.Now(), i, data, program, stack)
    ensures
      var m: Ram := old(k.mem.ram[..]);
      MapsRange(m, k.mem.ram[..], Dir(m, k.processes[i].Chunk()), Frame(virt), Frame(ptr), H.Blocks(size), USER_DATA)
  {
    ghost var s := k.Now();
    assert ProcOk(s.ram, s.procs[i]) && s.procs[i] == ProcOf(k.processes[i]);
    EndOfAllocation(ptr, size);
    var end := P.AlignAddress(Wrap(ptr + size));
    MayMapPlaced(s, i, data, program, stack, Frame(virt), ptr, H.Blocks(size));
    var res := k.MapImage(i, virt, ptr, end, USER_DATA);
    PlacedKept(s, k.Now(), i, data, program, stack);
  }

  /** The bytes of the screen that a binary program is given. */
  const VIDEO_SIZE: Word := 20 * 80 * 2

  lemma PlacedFits(s: State, i: nat, data: FileBytes, program: Word, stack: Word)
    requires Ok(s) && Placed(s, i, data, program, stack) && s.base + |s.table| <= 0x80000
    ensures Frame(program) + H.Blocks(|data|) <= 0x80000 && Frame(stack) + STACK_PAGES <= 0x80000
    ensures H.Blocks(|data|) >= 1 && H.Blocks(STACK_SIZE) == STACK_PAGES && H.Blocks(VIDEO_SIZE) == 1
  {
    RunIsTaken(s.table, Frame(program) - s.base);
    RunIsTaken(s.table, Frame(stack) - s.base);
  }

  /** Writeable segments that end within the blocks of the file are segments the process may have. */
  lemma InsideIsAllowed(s: State, i: nat, file: Program, program: Word, stack: Word)
    requires Ok(s) && Placed(s, i, file.data, program, stack) && s.base + |s.table| <= 0x80000
    requires SegmentsInside(file) && file.ElfProgram?
    ensures ElfAllowed(s, i, program, file.phs)
  {
    var h, v := PoolOf(s.base, s.table), ViewOf(s.ram, s.procs[i]);
    PlacedFits(s, i, file.data, program, stack);
    forall k, p: nat | 0 <= k < |file.phs| && p < FRAMES && E.Mappable(program, file.phs[k])
      ensures PageAllowed(h, v, program, file.phs[k], p)
    {
      NoLiveSlot(s, i, p);
      if E.Covers(program, file.phs[k], p) && E.WantsWrite(file.phs[k]) {
        SegmentStays(h, Frame(program), program, file.phs[k], p);
        assert Frame(program) in v.image;
      }
    }
  }

  /** `process_map_binary` and the stack. */
  method MapBinary(k: Kernel, i: nat, ghost file: Program, size: Word, program: Word, stack: Word)
    requires k.Valid() && file.Binary? && size == |file.data| && Placed(k.Now(), i, file.data, program, stack)
    requires Identity(k.mem.ram[..], k.processes[i].Chunk(), PRESENT + ACCESS_FROM_ALL)
    modifies k.mem.ram
    ensures k.Valid() && k.Now() == old(k.Now()).(ram := k.mem.ram[..])
    ensures Placed(k.Now(), i, file.data, program, stack)
    ensures Loaded(old(k.mem.ram[..]), k.mem.ram[..], k.processes[i].Chunk(), file, program, stack)
  {
    ghost var m: Ram := k.mem.ram[..];
    assert ProcOk(k.Now().ram, k.Now().procs[i]);
    PlacedFits(k.Now(), i, file.data, program, stack);
    MapRun(k, i, PAGE_SIZE * PROGRAM_PAGE, program, size, file.data, program, stack);
    ghost var j: Ram := k.mem.ram[..];
    MapRun(k, i, PAGE_SIZE * VIDEO, PAGE_SIZE * VIDEO, VIDEO_SIZE, file.data, program, stack);
    ghost var n: Ram := k.mem.ram[..];
    MapRun(k, i, PAGE_SIZE * STACK_PAGE, stack, STACK_SIZE, file.data, program, stack);
    BinaryThenStack(m, j, n, k.mem.ram[..], k.processes[i].Chunk(), file, program, stack);
  }

  /** `process_map_elf` and the stack; the first refused segment ends it. */
  method MapElfProgram(k: Kernel, i: nat, file: Program, program: Word, stack: Word) returns (res: int)
    requires k.Valid() && file.ElfProgram? && Placed(k.Now(), i, file.data, program, stack) && SegmentsInside(file)
    requires Identity(k.mem.ram[..], k.processes[i].Chunk(), PRESENT + ACCESS_FROM_ALL)
    modifies k.mem.ram
    ensures k.Valid() && k.Now() == old(k.Now()).(ram := k.mem.ram[..])
    ensures Placed(k.Now(), i, file.data, program, stack)
    ensures (res == 0 <==> FileMappable(file, program)) && (res == 0 || res == -EINVARG)
    ensures EditsLeaves(old(k.mem.ram[..]), k.mem.ram[..], Dir(old(k.mem.ram[..]), k.processes[i].Chunk()))
    ensures res == 0 ==>
      Loaded(old(k.mem.ram[..]), k.mem.ram[..], k.processes[i].Chunk(), file, program, stack)
  {
    ghost var s := k.Now();
    assert ProcOk(s.ram, s.procs[i]);
    PlacedFits(s, i, file.data, program, stack);
    InsideIsAllowed(s, i, file, program, stack);
    ghost var done;
    res, done := k.MapElf(i, program, file.phs);
    ghost var t := k.Now();
    PlacedKept(s, t, i, file.data, program, stack);
    if res == 0 {
      assert file.phs[..done] == file.phs;
      MapRun(k, i, PAGE_SIZE * STACK_PAGE, stack, STACK_SIZE, file.data, program, stack);
      ElfThenStack(s.ram, t.ram, k.mem.ram[..], k.processes[i].Chunk(), file, program, stack);
    }
  }

  /** `process_map_memory` */
  method MapMemory(k: Kernel, i: nat, file: Program, program: Word, stack: Word) returns (res: int)
    requires k.Valid() && Placed(k.Now(), i, file.data, program, stack) && SegmentsInside(file)
    requires Identity(k.mem.ram[..], k.processes[i].Chunk(), PRESENT + ACCESS_FROM_ALL)
    modifies k.mem.ram
    ensures k.Valid() && k.Now() == old(k.Now()).(ram := k.mem.ram[..])
    ensures Placed(k.Now(), i, file.data, program, stack)
    ensures (res == 0 <==> FileMappable(file, program)) && (res == 0 || res == -EINVARG)
    ensures EditsLeaves(old(k.mem.ram[..]), k.mem.ram[..], Dir(old(k.mem.ram[..]), k.processes[i].Chunk()))
    ensures res == 0 ==>
      Loaded(old(k.mem.ram[..]), k.mem.ram[..], k.processes[i].Chunk(), file, program, stack)
  {
    if file.ElfProgram? {
      res := MapElfProgram(k, i, file, program, stack);
    } else {
      MapBinary(k, i, file, |file.data|, program, stack);
      res := 0;
    }
  }

  // ---------- The whole call ----------

  lemma WithoutLast(ps: seq<Process>, p: Process)
    ensures (ps + [p])[..|ps|] + (ps + [p])[|ps| + 1..] == ps
  {
  }

  /** The address space of a process that could not be mapped goes back, and the list is `before` again. */
  method AbandonLast(k: Kernel, ghost before: seq<Process>, ghost p: Process, task: Word)
    requires k.Valid() && k.processes == before + [p] && KernelRun(k.Now(), Frame(task), 1)
    modifies k, k.mem.heap.entries
    ensures k.Valid() && k.processes == before
  {
    WithoutLast(before, p);
    k.Abandon(|k.processes| - 1, task);
  }

  /** `process_load_for_slot`, from the mapping on. */
  method MapOrAbandon(k: Kernel, ghost before: seq<Process>, p: Process, file: Program, program: Word, stack: Word,
      task: Word)
    returns (res: int)
    requires k.Valid() && k.processes == before + [p] && SegmentsInside(file)
    requires Placed(k.Now(), |before|, file.data, program, stack) && KernelRun(k.Now(), Frame(task), 1)
    requires Identity(k.mem.ram[..], p.Chunk(), PRESENT + ACCESS_FROM_ALL)
    modifies k, k.mem.heap.entries, k.mem.ram
    ensures k.Valid() && (res == 0 <==> FileMappable(file, program)) && (res == 0 || res == -EINVARG)
    ensures res != 0 ==> k.processes == before
    ensures res == 0 ==>
      && k.processes == before + [p] && k.mem.Blocks() == old(k.mem.Blocks())
      && Placed(k.Now(), |before|, file.data, program, stack)
      && Loaded(old(k.mem.ram[..]), k.mem.ram[..], p.Chunk(), file, program, stack)
  {
    ghost var s := k.Now();
    res := MapMemory(k, |k.processes| - 1, file, program, stack);
    if res != 0 {
      EditKeepsRun(s, k.Now(), |before|, Frame(task), 1);
      AbandonLast(k, before, p, task);
    }
  }

  /**
   `process_load_for_slot`: either there is one more process, with image, stack and pages as its file says and
   the file's bytes in its image, or the list is as before; what a failed load took of the heap stays taken.
   A process takes 3 blocks for its structure, 1 for that of its file, 4 for the stack, 1 for the task and 1026
   for the address space, and those of the file.
   */
  method LoadProcess(k: Kernel, file: Program)
    returns (res: int, p: Process?, program: Word, stack: Word, ghost m: Ram)
    requires k.Valid() && SegmentsInside(file) && Servable(k.mem.Blocks(), Requests(file))
    modifies k, k.mem.heap.entries, k.mem.ram
    ensures k.Valid() && (res == 0 || res == -3 || res == -2)
    ensures res != 0 ==> k.processes == old(k.processes)
    ensures res == 0 ==>
      && p != null && fresh(p) && k.processes == old(k.processes) + [p]
      && Placed(k.Now(), |old(k.processes)|, file.data, program, stack)
      && Loaded(m, k.mem.ram[..], p.Chunk(), file, program, stack)
      && FreeCount(k.mem.Blocks()) == old(FreeCount(k.mem.Blocks())) - 1035 - FileBlocks(file)
    ensures res == -2 ==> file.data == [] || !FileMappable(file, program)
  {
    p := null;
    ghost var before := k.processes;
    var task;
    res, program, stack, task := Prepare(k, file);
    m := k.mem.ram[..];
    if res < 0 {
      return;
    }
    p := Create(k, file.data, program, stack, task);
    m := k.mem.ram[..];
    res := MapOrAbandon(k, before, p, file, program, stack, task);
  }
}
