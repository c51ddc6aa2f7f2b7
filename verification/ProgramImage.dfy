/**
 A program as it is loaded: what loading asks of the heap, which pages the process then has, and what
 it sees there (`process_load_for_slot` and `process_map_memory` in `process.c`).
 */
module ProgramImage {
  import opened Words
  import opened HeapTable
  import opened PageTables
  import opened KernelHeap
  import opened AddressSpaces
  import opened Ownership
  import opened ProcessState
  import opened Elf
  import opened ElfOwnership
  import opened KernelRuns
  import opened MemoryBytes
  import P = Paging
  import H = Heap

  /** The sizes of `struct process`, `struct elf_file` and `struct task`, and of the stack. */
  const PROCESS_SIZE: Word := 9364
  const ELF_FILE_SIZE: Word := 132
  const TASK_SIZE: Word := 64
  const STACK_SIZE: Word := 16384

  const PROGRAM_PAGE: nat := 0x400
  const STACK_PAGE: nat := 0x3FB
  const STACK_PAGES: nat := 4

  type FileBytes = d: seq<Byte> | |d| < 0x1_0000_0000

  /** A file with its program headers if it is an ELF program. */
  datatype Program = Binary(data: FileBytes) | ElfProgram(data: FileBytes, phs: seq<Phdr>)

  // ---------- What loading asks of the heap ----------

  /** A `kzalloc`, whose null result the code may or may not look at, or a new address space. */
  datatype Request = Run(size: Word, checked: bool) | SpaceFrames

  /**
   The heap serves the requests in turn: the search never answers a run that is too short, and where
   the code does not look at the result there is one. What follows a refused request does not matter.
   */
  ghost predicate Servable(s: Table, rs: seq<Request>)
    decreases |rs|
  {
    if rs == [] then true
    else match rs[0] {
      case SpaceFrames => FreeCount(s) >= SPACE_FRAMES
      case Run(size, checked) =>
        var n := H.Blocks(size);
        && ServesRequest(s, n) && (checked || (n >= 1 && Fits(s, n)))
        && forall b: nat, t: Table :: Step(s, Allocated(b, n), t) ==> Servable(t, rs[1..])
    }
  }

  lemma ServedFirst(s: Table, size: Word, checked: bool, rest: seq<Request>)
    requires Servable(s, [Run(size, checked)] + rest)
    ensures ServesRequest(s, H.Blocks(size)) && (checked || (H.Blocks(size) >= 1 && Fits(s, H.Blocks(size))))
  {
  }

  lemma ServedRest(base: nat, s: Table, size: Word, checked: bool, rest: seq<Request>, ptr: Word, t: Table)
    requires Servable(s, [Run(size, checked)] + rest) && Granted(base, s, ptr, size, t)
    ensures Servable(t, rest)
  {
    assert ([Run(size, checked)] + rest)[1..] == rest;
    assert Step(s, Allocated(Frame(ptr) - base, H.Blocks(size)), t);
  }

  /** `process_load_data`: every file is read as ELF first; `rest` is what comes after it. */
  function DataRequests(file: Program, rest: seq<Request>): seq<Request> {
    [Run(ELF_FILE_SIZE, false)] +
      if file.data == [] then []
      else [Run(|file.data|, false)] + if file.Binary? then [Run(|file.data|, true)] + rest else rest
  }

  function Requests(file: Program): seq<Request> {
    [Run(PROCESS_SIZE, true)] +
      DataRequests(file, [Run(STACK_SIZE, true)] + ([Run(TASK_SIZE, false)] + [SpaceFrames]))
  }

  // ---------- Where the program is ----------

  /** The writeable segments of the file end within the blocks that hold it. */
  predicate SegmentsInside(file: Program) {
    file.ElfProgram? ==> forall k :: 0 <= k < |file.phs| && WantsWrite(file.phs[k]) ==>
      0 <= file.phs[k].offset && file.phs[k].offset + file.phs[k].memsz <= PAGE_SIZE * H.Blocks(|file.data|)
  }

  /** An aligned run of the kernel's own. */
  ghost predicate HoldsRun(s: State, ptr: Word, size: Word) {
    ptr % PAGE_SIZE == 0 && KernelRun(s, Frame(ptr), H.Blocks(size))
  }

  ghost predicate HoldsFile(s: State, program: Word, data: FileBytes) {
    HoldsRun(s, program, |data|) && |data| <= PAGE_SIZE * H.Blocks(|data|) && BytesAt(s.ram, program, data)
  }

  ghost predicate IsRun(s: State, ptr: Word, size: Word) {
    && ptr % PAGE_SIZE == 0 && IsStart(PoolOf(s.base, s.table), Frame(ptr))
    && RunLength(PoolOf(s.base, s.table), Frame(ptr)) == H.Blocks(size)
  }

  /** Process `i` has no allocations yet, and its image and stack are the runs at `program` and `stack`. */
  ghost predicate Placed(s: State, i: nat, data: FileBytes, program: Word, stack: Word) {
    && i < |s.procs| && (forall k :: 0 <= k < |s.procs[i].slots| ==> s.procs[i].slots[k] == EMPTY_SLOT)
    && s.procs[i].image == {Frame(program), Frame(stack)} && Frame(program) != Frame(stack)
    && IsRun(s, program, |data|) && IsRun(s, stack, STACK_SIZE)
    && data != [] && |data| <= PAGE_SIZE * H.Blocks(|data|) && BytesAt(s.ram, program, data)
  }

  /** The image of a process is in no page table, so edits of page entries leave it alone. */
  lemma PlacedKept(s: State, t: State, i: nat, data: FileBytes, program: Word, stack: Word)
    requires Ok(s) && Placed(s, i, data, program, stack) && t == s.(ram := t.ram) && s.procs[i].chunk < FRAMES
    requires EditsLeaves(s.ram, t.ram, Dir(s.ram, s.procs[i].chunk))
    ensures Placed(t, i, data, program, stack)
  {
    var d, n := Dir(s.ram, s.procs[i].chunk), H.Blocks(|data|);
    forall g: nat | Frame(program) <= g < Frame(program) + n && g < FRAMES
      ensures SameFrame(s.ram, t.ram, g)
    {
      ImageInNoTable(s, i, Frame(program), g);
      assert g !in Tables(s.ram, d);
    }
    BytesStay(s.ram, t.ram, program, data, Frame(program), n);
  }

  lemma ImageInNoTable(s: State, i: nat, g: nat, x: nat)
    requires Ok(s) && i < |s.procs| && g in s.procs[i].image && InRun(PoolOf(s.base, s.table), g, x)
    ensures s.procs[i].chunk < FRAMES && x !in Frames(s.ram, s.procs[i].chunk)
  {
    var h, vs := PoolOf(s.base, s.table), Views(s.ram, s.procs);
    assert vs[i] == ViewOf(s.ram, s.procs[i]) && ProcOk(s.ram, s.procs[i]) && ViewOk(h, vs[i]);
    RunsApart(h, g, x, x);
  }

  lemma NoLiveSlot(s: State, i: nat, p: nat)
    requires i < |s.procs| && s.procs[i].chunk < FRAMES
    requires forall k :: 0 <= k < |s.procs[i].slots| ==> s.procs[i].slots[k] == EMPTY_SLOT
    ensures !InLiveSlot(PoolOf(s.base, s.table), ViewOf(s.ram, s.procs[i]), p)
  {
  }

  /** Pages may be mapped to the runs of the image, and to the screen. */
  lemma MayMapPlaced(s: State, i: nat, data: FileBytes, program: Word, stack: Word, v: nat, ptr: Word, count: nat)
    requires Placed(s, i, data, program, stack) && s.procs[i].chunk < FRAMES
    requires (ptr == program && count == H.Blocks(|data|)) || (ptr == stack && count == H.Blocks(STACK_SIZE))
      || (Frame(ptr) == VIDEO && count == 1)
    ensures MayMap(s, i, v, Frame(ptr), count, USER_DATA)
  {
    var h, w := PoolOf(s.base, s.table), ViewOf(s.ram, s.procs[i]);
    forall p: nat | v <= p < v + count
      ensures !InLiveSlot(h, w, p)
    {
      NoLiveSlot(s, i, p);
    }
    forall g: nat | Frame(ptr) <= g < Frame(ptr) + count
      ensures IsDevice(g) || InImage(h, w, g)
    {
      assert Frame(ptr) != VIDEO ==> Frame(ptr) in w.image && InRun(h, Frame(ptr), g);
    }
  }

  /** A segment that ends within the blocks of the file's run maps frames of that run only. */
  lemma SegmentStays(h: Pool, g: nat, elfMemory: Word, ph: Phdr, p: nat)
    requires PoolOk(h) && IsStart(h, g) && elfMemory == PAGE_SIZE * g && g + RunLength(h, g) <= 0x80000
    requires 0 <= ph.offset && ph.offset + ph.memsz <= PAGE_SIZE * RunLength(h, g)
    requires Mappable(elfMemory, ph) && p < FRAMES && Covers(elfMemory, ph, p)
    ensures InRun(h, g, MappedFrame(elfMemory, ph, p))
  {
    var a, n := elfMemory + ph.offset, Ahead(ph.vaddr / PAGE_SIZE, p);
    SegmentEnd(a, ph.memsz, g + RunLength(h, g));
    assert PhysAddress(elfMemory, ph) == a;
    assert FirstFrame(elfMemory, ph) == a / PAGE_SIZE;
    assert g <= a / PAGE_SIZE;
    SmallModulo(a / PAGE_SIZE + n);
  }

  lemma SegmentEnd(a: Word, size: nat, end: nat)
    requires a + size <= PAGE_SIZE * end && end <= 0x80000
    ensures
      var e := P.AlignAddress(Wrap(a + size));
      P.AlignToLowerPage(a) <= e ==> a / PAGE_SIZE + (e - P.AlignToLowerPage(a)) / PAGE_SIZE <= end
  {
  }

  // ---------- What the process sees ----------

  predicate IsStackPage(q: nat) {
    STACK_PAGE <= q < STACK_PAGE + STACK_PAGES
  }

  predicate IsProgramPage(data: FileBytes, q: nat) {
    PROGRAM_PAGE <= q < PROGRAM_PAGE + H.Blocks(|data|)
  }

  ghost predicate FileMappable(file: Program, program: Word) {
    file.ElfProgram? ==> AllMappable(program, file.phs)
  }

  /** The entry of page `q` once all is mapped; `m` is the memory before that. */
  function LoadedEntry(m: Ram, d: nat, file: Program, program: Word, stack: Word, q: nat): Word
    requires d < FRAMES && q < FRAMES && (file.ElfProgram? ==> AllMappable(program, file.phs))
  {
    if IsStackPage(q) then PAGE_SIZE * ((Frame(stack) + (q - STACK_PAGE)) % FRAMES) + USER_DATA
    else match file
      case ElfProgram(_, phs) => ElfEntry(m, d, program, phs, q)
      case Binary(data) =>
        if q == VIDEO then PAGE_SIZE * VIDEO + USER_DATA
        else if IsProgramPage(data, q) then PAGE_SIZE * ((Frame(program) + (q - PROGRAM_PAGE)) % FRAMES) + USER_DATA
        else Entry(m, d, q)
  }

  /** Space `c` as `task_init` leaves it. */
  ghost predicate Fresh(m: Ram, c: nat) {
    && c < FRAMES && Space(m, c) && Identity(m, c, PRESENT + ACCESS_FROM_ALL) && DirectoryFlags(m, c, USER_DATA)
  }

  /** Memory `n` is `m` with the program and the stack of process space `c` mapped, and nothing else changed. */
  ghost predicate Loaded(m: Ram, n: Ram, c: nat, file: Program, program: Word, stack: Word) {
    && Fresh(m, c) && FileMappable(file, program)
    && EditsLeaves(m, n, Dir(m, c))
    && forall q: nat :: q < FRAMES ==> Entry(n, Dir(m, c), q) == LoadedEntry(m, Dir(m, c), file, program, stack, q)
  }

  lemma ElfThenStack(m: Ram, k: Ram, n: Ram, c: nat, file: Program, program: Word, stack: Word)
    requires Fresh(m, c) && file.ElfProgram?
    requires ElfMapped(m, k, Dir(m, c), program, file.phs)
    requires MapsRange(k, n, Dir(m, c), STACK_PAGE, Frame(stack), STACK_PAGES, USER_DATA)
    ensures Loaded(m, n, c, file, program, stack)
  {
    var d := Dir(m, c);
    EditsLeavesCompose(m, k, n, d);
    forall q: nat | q < FRAMES
      ensures Entry(n, d, q) == LoadedEntry(m, d, file, program, stack, q)
    {
      assert Entry(n, d, q) == RangeEntry(k, d, STACK_PAGE, Frame(stack), STACK_PAGES, USER_DATA, q);
    }
  }

  lemma BinaryThenStack(m: Ram, j: Ram, k: Ram, n: Ram, c: nat, file: Program, program: Word, stack: Word)
    requires Fresh(m, c) && file.Binary?
    requires PROGRAM_PAGE + H.Blocks(|file.data|) <= FRAMES
    requires MapsRange(m, j, Dir(m, c), PROGRAM_PAGE, Frame(program), H.Blocks(|file.data|), USER_DATA)
    requires MapsRange(j, k, Dir(m, c), VIDEO, VIDEO, 1, USER_DATA)
    requires MapsRange(k, n, Dir(m, c), STACK_PAGE, Frame(stack), STACK_PAGES, USER_DATA)
    ensures Loaded(m, n, c, file, program, stack)
  {
    var d := Dir(m, c);
    EditsLeavesCompose(m, j, k, d);
    EditsLeavesCompose(m, k, n, d);
    forall q: nat | q < FRAMES
      ensures Entry(n, d, q) == LoadedEntry(m, d, file, program, stack, q)
    {
      assert Entry(j, d, q) == RangeEntry(m, d, PROGRAM_PAGE, Frame(program), H.Blocks(|file.data|), USER_DATA, q);
      assert Entry(k, d, q) == RangeEntry(j, d, VIDEO, VIDEO, 1, USER_DATA, q);
      assert Entry(n, d, q) == RangeEntry(k, d, STACK_PAGE, Frame(stack), STACK_PAGES, USER_DATA, q);
    }
  }

  /** Of a loaded space the page entries decide what user mode may do. */
  lemma LeafDecides(m: Ram, n: Ram, c: nat, file: Program, program: Word, stack: Word, q: nat)
    requires Loaded(m, n, c, file, program, stack) && q < FRAMES
    ensures ShownToUser(Entry(n, Dir(m, c), q)) <==> UserReads(n, Dir(m, c), q)
    ensures OpenToUser(Entry(n, Dir(m, c), q)) <==> UserWrites(n, Dir(m, c), q)
  {
    var d, i := Dir(m, c), q / 1024;
    DirectoryUntouched(m, n, d);
    FlagsDecide(TableAt(m, d, i), USER_DATA);
    assert At(n, d, i) == At(m, d, i) == PAGE_SIZE * TableAt(m, d, i) + USER_DATA;
  }

  /** A page mapped to frame `f` for the user: where its addresses lead, and that they may be written. */
  lemma UserPage(m: Ram, n: Ram, c: nat, file: Program, program: Word, stack: Word, v: Word, f: nat)
    requires Loaded(m, n, c, file, program, stack) && f < FRAMES
    requires Entry(n, Dir(m, c), v / PAGE_SIZE) == PAGE_SIZE * f + USER_DATA
    ensures Translate(n, Dir(m, c), v) == PAGE_SIZE * f + v % PAGE_SIZE
    ensures UserWrites(n, Dir(m, c), v / PAGE_SIZE)
  {
    UserDataEntry(f);
    FlagsDecide(f, USER_DATA);
    LeafDecides(m, n, c, file, program, stack, v / PAGE_SIZE);
  }

  /** A binary program sees its file from address 0x40_0000 on, byte for byte, and may write it. */
  lemma BinaryIsSeen(m: Ram, n: Ram, c: nat, file: Program, program: Word, stack: Word, j: nat)
    requires Loaded(m, n, c, file, program, stack) && file.Binary? && BytesAt(n, program, file.data)
    requires program % PAGE_SIZE == 0 && j < |file.data| <= PAGE_SIZE * H.Blocks(|file.data|)
    requires 0x40_0000 + |file.data| <= 0x1_0000_0000
    ensures GetByte(n, Translate(n, Dir(m, c), 0x40_0000 + j)) == file.data[j]
    ensures UserWrites(n, Dir(m, c), (0x40_0000 + j) / 0x1000)
  {
    var f, q := Frame(program) + j / PAGE_SIZE, PROGRAM_PAGE + j / PAGE_SIZE;
    assert program + j < 0x1_0000_0000;
    assert q == (0x40_0000 + j) / PAGE_SIZE && !IsStackPage(q) && IsProgramPage(file.data, q);
    SmallModulo(f);
    assert Entry(n, Dir(m, c), q) == PAGE_SIZE * f + USER_DATA;
    UserPage(m, n, c, file, program, stack, 0x40_0000 + j, f);
    assert PAGE_SIZE * f + j % PAGE_SIZE == program + j;
  }

  /** The stack is seen in the 16384 bytes from 0x3F_B000 on, which end where the stack pointer starts. */
  lemma StackIsSeen(m: Ram, n: Ram, c: nat, file: Program, program: Word, stack: Word, j: nat)
    requires Loaded(m, n, c, file, program, stack) && stack % 0x1000 == 0 && stack + 0x4000 <= 0x1_0000_0000
    requires j < 0x4000
    ensures Translate(n, Dir(m, c), 0x3F_B000 + j) == stack + j
    ensures UserWrites(n, Dir(m, c), (0x3F_B000 + j) / 0x1000)
  {
    var f, q := Frame(stack) + j / PAGE_SIZE, STACK_PAGE + j / PAGE_SIZE;
    assert q == (0x3F_B000 + j) / PAGE_SIZE && IsStackPage(q);
    SmallModulo(f);
    assert Entry(n, Dir(m, c), q) == PAGE_SIZE * f + USER_DATA;
    UserPage(m, n, c, file, program, stack, 0x3F_B000 + j, f);
  }

  /** All other pages of a binary program lead to the same address, and are shown but not open to it. */
  lemma RestIsShown(m: Ram, n: Ram, c: nat, file: Program, program: Word, stack: Word, v: Word)
    requires Loaded(m, n, c, file, program, stack) && file.Binary?
    requires !(0x3F_B000 <= v < 0x3F_F000) && !(0xB_8000 <= v < 0xB_9000)
    requires !(0x40_0000 <= v < 0x40_0000 + 0x1000 * H.Blocks(|file.data|))
    ensures Translate(n, Dir(m, c), v) == v
    ensures UserReads(n, Dir(m, c), v / 0x1000) && !UserWrites(n, Dir(m, c), v / 0x1000)
  {
    var q := v / PAGE_SIZE;
    assert !IsStackPage(q) && q != VIDEO && !IsProgramPage(file.data, q);
    assert Entry(n, Dir(m, c), q) == PAGE_SIZE * q + 5;
    FlagsDecide(q, 5);
    LeafDecides(m, n, c, file, program, stack, q);
  }

  /** A binary program may write to the screen where it is. */
  lemma ScreenIsSeen(m: Ram, n: Ram, c: nat, file: Program, program: Word, stack: Word, j: nat)
    requires Loaded(m, n, c, file, program, stack) && file.Binary? && j < 20 * 80 * 2
    ensures Translate(n, Dir(m, c), 0xB_8000 + j) == 0xB_8000 + j
    ensures UserWrites(n, Dir(m, c), (0xB_8000 + j) / 0x1000)
  {
    assert (0xB_8000 + j) / PAGE_SIZE == VIDEO && !IsStackPage(VIDEO);
    UserPage(m, n, c, file, program, stack, 0xB_8000 + j, VIDEO);
  }

  lemma UserDataEntry(f: nat)
    requires f < FRAMES
    ensures Frame(PAGE_SIZE * f + USER_DATA) == f
  {
  }

  /**
   An ELF program sees the bytes of its file at the addresses its headers give, when the segments share no
   page with one another or with the stack and their addresses are congruent to their places in memory.
   */
  lemma ElfIsSeen(m: Ram, n: Ram, c: nat, file: Program, program: Word, stack: Word, k: nat, v: Word)
    requires Loaded(m, n, c, file, program, stack) && file.ElfProgram? && BytesAt(n, program, file.data)
    requires PageDisjoint(program, file.phs) && k < |file.phs| && InRange(program, file.phs[k])
    requires
      var ph := file.phs[k];
      && (program + ph.offset) % PAGE_SIZE == ph.vaddr % PAGE_SIZE && ph.vaddr <= v < ph.vaddr + ph.memsz
      && ph.offset + (v - ph.vaddr) < |file.data|
    requires !IsStackPage(v / PAGE_SIZE)
    ensures GetByte(n, Translate(n, Dir(m, c), v)) == file.data[file.phs[k].offset + (v - file.phs[k].vaddr)]
    ensures UserReads(n, Dir(m, c), v / 0x1000)
    ensures UserWrites(n, Dir(m, c), v / 0x1000) <==> file.phs[k].flags / 2 % 2 == 1
  {
    var d, ph := Dir(m, c), file.phs[k];
    var f := (program + ph.offset) / PAGE_SIZE + (v / PAGE_SIZE - ph.vaddr / PAGE_SIZE);
    AddressIsCovered(program, ph, v);
    ElfPage(m, n, c, file, program, stack, k, v / PAGE_SIZE, f);
    EntryParts(f, ph);
    LeafDecides(m, n, c, file, program, stack, v / PAGE_SIZE);
    SameOffset(program + ph.offset, ph.vaddr, v);
    assert Translate(n, d, v) == program + (ph.offset + (v - ph.vaddr));
  }

  /** The entry of a page that segment `k` covers. */
  lemma ElfPage(m: Ram, n: Ram, c: nat, file: Program, program: Word, stack: Word, k: nat, q: nat, f: nat)
    requires Loaded(m, n, c, file, program, stack) && file.ElfProgram? && PageDisjoint(program, file.phs)
    requires k < |file.phs| && q < FRAMES && Covers(program, file.phs[k], q) && !IsStackPage(q)
    requires f == FirstFrame(program, file.phs[k]) + Ahead(file.phs[k].vaddr / PAGE_SIZE, q) < FRAMES
    ensures Entry(n, Dir(m, c), q) == PAGE_SIZE * f + PageFlags(file.phs[k])
  {
    CoveredEntry(m, Dir(m, c), program, file.phs, k, q);
    SmallModulo(f);
  }
}
