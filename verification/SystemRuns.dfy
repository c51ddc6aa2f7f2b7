/**
 Every run of the system: processes are created, loaded, mapped, allocate, free and go, and the kernel
 takes and gives back memory of its own and writes to it, in any order.
 */
module SystemRuns {
  import opened Words
  import opened HeapTable
  import opened PageTables
  import opened AddressSpaces
  import opened Ownership
  import opened ProcessState
  import opened KernelHeap
  import opened MemoryBytes
  import opened KernelSteps
  import opened KernelRuns
  import opened ElfOwnership
  import E = Elf
  import H = Heap

  datatype Call =
    | Spawn
    | Adopt(i: nat, frame: nat)
    | MapPages(i: nat, page: nat, frame: nat, count: nat, flags: nat)
    | MapElf(i: nat, elfMemory: Word, phs: seq<E.Phdr>)
    | Malloc(i: nat, size: Word, ptr: Word)
    | Free(i: nat, ptr: Word)
    | Write
    | Take(size: Word, ptr: Word)
    | Release(frame: nat)
    | Forget(i: nat)

  ghost predicate CallStep(s: State, call: Call, t: State) {
    match call
    case Spawn => SpawnStep(s, t)
    case Adopt(i, f) => AdoptStep(s, t, i, f)
    case MapPages(i, v, f, count, flags) => MapStep(s, t, i, v, f, count, flags)
    case MapElf(i, elfMemory, phs) => ElfStep(s, t, i, elfMemory, phs)
    case Malloc(i, size, ptr) => MallocStep(s, t, i, size, ptr)
    case Free(i, ptr) => FreeStep(s, t, i, ptr)
    case Write => WriteStep(s, t)
    case Take(size, ptr) => TakeStep(s, t, size, ptr)
    case Release(f) => ReleaseStep(s, t, f)
    case Forget(i) => ForgetStep(s, t, i)
  }

  lemma CallKeepsOk(s: State, call: Call, t: State)
    requires Ok(s) && CallStep(s, call, t)
    ensures Ok(t)
  {
    match call
    case Spawn => SpawnKeepsOk(s, t);
    case Adopt(i, f) => AdoptKeepsOk(s, t, i, f);
    case MapPages(i, v, f, count, flags) => MapKeepsOk(s, t, i, v, f, count, flags);
    case MapElf(i, elfMemory, phs) => ElfMapKeepsOk(s, t, i, elfMemory, phs);
    case Malloc(i, size, ptr) => MallocKeepsOk(s, t, i, size, ptr);
    case Free(i, ptr) => FreeKeepsOk(s, t, i, ptr);
    case Write => WriteKeepsOk(s, t);
    case Take(size, ptr) => TakeKeepsOk(s, t, size, ptr);
    case Release(f) => ReleaseKeepsOk(s, t, f);
    case Forget(i) => ForgetKeepsOk(s, t, i);
  }

  /** A heap in which some runs may already be taken, and no process yet. */
  ghost predicate Initial(s: State) {
    VIDEO < s.base && s.base + |s.table| <= FRAMES && WellFormed(s.table) && s.procs == []
  }

  ghost predicate Run(states: seq<State>, calls: seq<Call>) {
    && |states| == |calls| + 1
    && Initial(states[0])
    && forall k :: 0 <= k < |calls| ==> CallStep(states[k], calls[k], states[k + 1])
  }

  lemma {:induction false} RunIsOk(states: seq<State>, calls: seq<Call>, k: nat)
    requires Run(states, calls) && k <= |calls|
    ensures Ok(states[k])
  {
    if k == 0 {
      PoolOfTable(states[0].base, states[0].table);
    } else {
      RunIsOk(states, calls, k - 1);
      CallKeepsOk(states[k - 1], calls[k - 1], states[k]);
    }
  }

  /**
   A granted allocation is zero, byte by byte, as its process reads it, and the process may write it: nothing of
   what the blocks held before is left.
   */
  lemma GrantedIsZero(s: State, t: State, i: nat, size: Word, ptr: Word, j: nat)
    requires Ok(s) && MallocStep(s, t, i, size, ptr) && ptr != 0 && j < size
    ensures i < |t.procs| && t.procs[i].chunk < FRAMES && ptr + j < 0x1_0000_0000
    ensures
      var d := Dir(t.ram, t.procs[i].chunk);
      && GetByte(t.ram, Translate(t.ram, d, ptr + j)) == 0
      && UserWrites(t.ram, d, (ptr + j) / 0x1000)
  {
    GrantedIsOpen(s, t, i, size, ptr, j);
    ClearedIsSeen(s.ram, t.ram, Dir(t.ram, t.procs[i].chunk), ptr, size, ptr + j);
  }

  lemma GrantedIsOpen(s: State, t: State, i: nat, size: Word, ptr: Word, j: nat)
    requires Ok(s) && MallocStep(s, t, i, size, ptr) && ptr != 0 && j < size
    ensures i < |t.procs| && t.procs[i].chunk < FRAMES && ptr % 4 == 0 && ptr + size <= 0x1_0000_0000
    ensures
      var d, x := Dir(t.ram, t.procs[i].chunk), Frame(ptr + j);
      && Entry(t.ram, d, x) == PAGE_SIZE * x + USER_DATA && UserWrites(t.ram, d, x)
      && SameFrame(ZeroBytes(s.ram, ptr, size), t.ram, x)
  {
    var k := GrantedSlot(s, t, i, size, ptr);
    var x := Frame(ptr + j);
    H.BlocksCoverSize(size);
    GrantedFits(s.base, s.table, ptr, size, t.table);
    MallocKeepsOk(s, t, i, size, ptr);
    assert SlotCovers(t, i, k, x);
    SlotIsRun(t, i, k, x);
    SlotIsSound(t, i, k, i, k, x);
    GrantedFrames(s, t, i, size, ptr, x);
  }

  /** A cleared byte of a frame at its own page. */
  lemma ClearedIsSeen(m: Ram, n: Ram, d: nat, ptr: Word, size: nat, v: Word)
    requires ptr % 4 == 0 && ptr + size <= 0x1_0000_0000 && ptr <= v < ptr + size && d < FRAMES
    requires SameFrame(ZeroBytes(m, ptr, size), n, Frame(v))
    requires Entry(n, d, Frame(v)) == PAGE_SIZE * Frame(v) + USER_DATA
    ensures v / 0x1000 == Frame(v) && GetByte(n, Translate(n, d, v)) == 0
  {
    assert (PAGE_SIZE * Frame(v) + USER_DATA) / PAGE_SIZE == Frame(v);
    ZeroBytesAt(m, ptr, size, v);
    SameFrameBytes(ZeroBytes(m, ptr, size), n, Frame(v), v);
  }

  lemma GrantedSlot(s: State, t: State, i: nat, size: Word, ptr: Word) returns (k: nat)
    requires Ok(s) && MallocStep(s, t, i, size, ptr) && ptr != 0
    ensures i < |t.procs| && k < |t.procs[i].slots| && t.procs[i].slots[k] == Slot(ptr, size)
    ensures t.procs[i].chunk == s.procs[i].chunk && Granted(s.base, s.table, ptr, size, t.table)
  {
    k :| FirstEmpty(s.procs[i].slots, k)
      && t.procs == s.procs[i := s.procs[i].(slots := s.procs[i].slots[k := Slot(ptr, size)])]
      && MallocGranted(s.base, s.table, t.table, s.ram, t.ram, s.procs[i].chunk, size, ptr,
                       s.procs[i].slots, t.procs[i].slots, k);
  }

  /** Frames apart from the page tables of the process hold what zeroing the run left. */
  lemma GrantedFrames(s: State, t: State, i: nat, size: Word, ptr: Word, x: nat)
    requires Ok(s) && MallocStep(s, t, i, size, ptr) && ptr != 0 && x < FRAMES
    requires s.procs[i].chunk < FRAMES && x !in Frames(t.ram, s.procs[i].chunk)
    ensures SameFrame(ZeroBytes(s.ram, ptr, size), t.ram, x)
  {
  }

  /** Once freed, the blocks of a slot are free and its process can no longer read any byte of them there. */
  lemma FreedIsClosed(s: State, t: State, i: nat, ptr: Word, k: nat, j: nat)
    requires Ok(s) && FreeStep(s, t, i, ptr) && ptr != 0
    requires FirstWith(s.procs[i].slots, ptr, k) && j < s.procs[i].slots[k].size
    ensures i < |t.procs| && t.procs[i].chunk < FRAMES && ptr + j < 0x1_0000_0000
    ensures !UserReads(t.ram, Dir(t.ram, t.procs[i].chunk), (ptr + j) / 0x1000)
    ensures t.base <= (ptr + j) / 0x1000 < t.base + |t.table| && t.table[(ptr + j) / 0x1000 - t.base] == 0
  {
    ByteInSlot(s, i, k, j);
    FreedPage(s, t, i, ptr, k, Frame(ptr + j));
  }

  lemma FreedPage(s: State, t: State, i: nat, ptr: Word, k: nat, x: nat)
    requires Ok(s) && FreeStep(s, t, i, ptr) && ptr != 0
    requires FirstWith(s.procs[i].slots, ptr, k) && SlotCovers(s, i, k, x)
    ensures i < |t.procs| && t.procs[i].chunk < FRAMES && x < FRAMES
    ensures !UserReads(t.ram, Dir(t.ram, t.procs[i].chunk), x)
    ensures t.base <= x < t.base + |t.table| && t.table[x - t.base] == FREE
  {
    SlotIsRun(s, i, k, x);
    MarkFreeDropsRun(s.table, Frame(ptr) - s.base);
    assert !IsPresent(PAGE_SIZE * x);
  }

  lemma SlotInHeap(s: State, i: nat, k: nat)
    requires Ok(s) && i < |s.procs| && k < |s.procs[i].slots| && Live(s.procs[i].slots[k])
    ensures
      var slot := s.procs[i].slots[k];
      && slot.ptr % PAGE_SIZE == 0 && H.Blocks(slot.size) >= 1
      && Frame(slot.ptr) + H.Blocks(slot.size) <= s.base + |s.table| <= FRAMES
  {
    var h, vs := PoolOf(s.base, s.table), Views(s.ram, s.procs);
    assert vs[i] == ViewOf(s.ram, s.procs[i]) && ViewOk(h, vs[i]) && SlotOk(h, vs[i], vs[i].slots[k]);
  }

  lemma ByteInSlot(s: State, i: nat, k: nat, j: nat)
    requires Ok(s) && i < |s.procs| && k < |s.procs[i].slots| && Live(s.procs[i].slots[k])
    requires j < s.procs[i].slots[k].size
    ensures s.procs[i].slots[k].ptr + j < 0x1_0000_0000
    ensures SlotCovers(s, i, k, Frame(s.procs[i].slots[k].ptr + j))
  {
    SlotInHeap(s, i, k);
    H.BlocksCoverSize(s.procs[i].slots[k].size);
    InsidePages(s.procs[i].slots[k].ptr, s.procs[i].slots[k].size, H.Blocks(s.procs[i].slots[k].size), j);
  }

  lemma InsidePages(ptr: Word, size: Word, n: nat, j: nat)
    requires ptr % PAGE_SIZE == 0 && j < size <= PAGE_SIZE * n && Frame(ptr) + n <= FRAMES
    ensures ptr + j < 0x1_0000_0000 && Frame(ptr) <= Frame(ptr + j) < Frame(ptr) + n
  {
    assert ptr == PAGE_SIZE * Frame(ptr);
  }

  /** Slot `a` of process `i` is in use and frame `x` is one of its blocks. */
  ghost predicate SlotCovers(s: State, i: nat, a: nat, x: nat) {
    && i < |s.procs| && a < |s.procs[i].slots| && Live(s.procs[i].slots[a])
    && Frame(s.procs[i].slots[a].ptr) <= x < Frame(s.procs[i].slots[a].ptr) + H.Blocks(s.procs[i].slots[a].size)
  }

  lemma SlotIsRun(s: State, i: nat, a: nat, x: nat)
    requires Ok(s) && SlotCovers(s, i, a, x)
    ensures
      var slot := s.procs[i].slots[a];
      && slot.ptr % PAGE_SIZE == 0 && Frame(slot.ptr) >= s.base
      && Frame(slot.ptr) - s.base in Runs(s.table) && Runs(s.table)[Frame(slot.ptr) - s.base] == H.Blocks(slot.size)
    ensures InRun(PoolOf(s.base, s.table), Frame(s.procs[i].slots[a].ptr), x)
    ensures x < s.base + |s.table| && s.procs[i].chunk < FRAMES
    ensures Entry(s.ram, Dir(s.ram, s.procs[i].chunk), x) == PAGE_SIZE * x + USER_DATA
    ensures UserWrites(s.ram, Dir(s.ram, s.procs[i].chunk), x)
  {
    var h, vs := PoolOf(s.base, s.table), Views(s.ram, s.procs);
    assert vs[i] == ViewOf(s.ram, s.procs[i]) && ViewOk(h, vs[i]) && SlotOk(h, vs[i], vs[i].slots[a]);
    assert ProcOk(s.ram, s.procs[i]);
    RunIsTaken(s.table, Frame(s.procs[i].slots[a].ptr) - s.base);
    assert vs[i].entries[x] == PAGE_SIZE * x + USER_DATA;
    PageIsOpen(s.ram, s.procs[i].chunk, x);
  }

  lemma PageIsOpen(m: Ram, c: nat, x: nat)
    requires c < FRAMES && x < FRAMES && DirectoryFlags(m, c, USER_DATA)
    requires Entry(m, Dir(m, c), x) == PAGE_SIZE * x + USER_DATA
    ensures UserWrites(m, Dir(m, c), x)
  {
    UserDataIsOpen(x);
    UserDataIsOpen(TableAt(m, Dir(m, c), x / 1024));
  }

  lemma UserDataIsOpen(f: nat)
    ensures OpenToUser(PAGE_SIZE * f + USER_DATA)
  {
    var e := PAGE_SIZE * f + USER_DATA;
    Odd(2048 * f + 3);
    Odd(1024 * f + 1);
    Odd(512 * f);
    assert e / WRITEABLE == 2048 * f + 3;
    assert e / ACCESS_FROM_ALL == (e / 2) / 2 == 1024 * f + 1;
  }

  lemma Odd(k: nat)
    ensures (2 * k + 1) % 2 == 1 && (2 * k + 1) / 2 == k
  {
  }

  /** What the invariant says of frame `x` of slot `a` of process `i`, and of process `j`. */
  lemma SlotIsSound(s: State, i: nat, a: nat, j: nat, b: nat, x: nat)
    requires Ok(s) && SlotCovers(s, i, a, x) && j < |s.procs|
    ensures (i, a) != (j, b) ==> !SlotCovers(s, j, b, x)
    ensures s.procs[j].chunk < FRAMES && x !in Frames(s.ram, s.procs[j].chunk)
  {
    SlotIsRun(s, i, a, x);
    var h, vs := PoolOf(s.base, s.table), Views(s.ram, s.procs);
    assert vs[i] == ViewOf(s.ram, s.procs[i]) && vs[j] == ViewOf(s.ram, s.procs[j]) && ProcOk(s.ram, s.procs[j]);
    if SlotCovers(s, j, b, x) {
      SlotIsRun(s, j, b, x);
      SlotsNeverOverlap(h, vs, i, a, j, b, x);
    }
    OneSlotAvoidsTables(h, vs, i, a, j, x);
  }

  /**
   After any run, a live slot of any process is exactly a live run of the heap: it is page aligned,
   every page of it is identity-mapped present, writeable and user in its own process, at both levels of
   its page tables, and it shares no frame with another live slot nor with a page table of any process.
   */
  lemma SlotsAreSound(states: seq<State>, calls: seq<Call>, k: nat, i: nat, a: nat, j: nat, b: nat, x: nat)
    requires Run(states, calls) && k <= |calls| && SlotCovers(states[k], i, a, x)
    requires j < |states[k].procs|
    ensures
      var s, slot := states[k], states[k].procs[i].slots[a];
      && slot.ptr % PAGE_SIZE == 0 && Frame(slot.ptr) >= s.base
      && Frame(slot.ptr) - s.base in Runs(s.table) && Runs(s.table)[Frame(slot.ptr) - s.base] == H.Blocks(slot.size)
      && x < s.base + |s.table| <= FRAMES && s.procs[i].chunk < FRAMES
      && Entry(s.ram, Dir(s.ram, s.procs[i].chunk), x) == PAGE_SIZE * x + USER_DATA
      && UserWrites(s.ram, Dir(s.ram, s.procs[i].chunk), x)
    ensures (i, a) != (j, b) ==> !SlotCovers(states[k], j, b, x)
    ensures states[k].procs[j].chunk < FRAMES && x !in Frames(states[k].ram, states[k].procs[j].chunk)
  {
    RunIsOk(states, calls, k);
    SlotIsRun(states[k], i, a, x);
    SlotIsSound(states[k], i, a, j, b, x);
  }

  lemma OneSlotAvoidsTables(h: Pool, vs: seq<View>, i: nat, a: nat, j: nat, x: nat)
    requires Inv(h, vs) && i < |vs| && j < |vs| && a < |vs[i].slots| && Live(vs[i].slots[a])
    requires InRun(h, Frame(vs[i].slots[a].ptr), x)
    ensures x !in vs[j].frames
  {
    assert ViewOk(h, vs[i]) && ViewOk(h, vs[j]) && SlotOk(h, vs[i], vs[i].slots[a]);
    SlotStartIsOwned(vs[i], a);
    RunsApart(h, Frame(vs[i].slots[a].ptr), x, x);
    OwnersApart(h, vs, i, j, x);
  }

  lemma SlotStartIsOwned(v: View, a: nat)
    requires a < |v.slots| && Live(v.slots[a])
    ensures Frame(v.slots[a].ptr) in SlotStarts(v.slots)
  {
  }

  /** Frame `x` is in a run of the image or the stack of process `i`. */
  ghost predicate ImageCovers(s: State, i: nat, x: nat) {
    i < |s.procs| && exists g :: g in s.procs[i].image && InRun(PoolOf(s.base, s.table), g, x)
  }

  /** Frame `x` is memory of process `i`: its image, its stack or one of its allocations. */
  ghost predicate OwnMemory(s: State, i: nat, x: nat) {
    ImageCovers(s, i, x) || exists a: nat :: SlotCovers(s, i, a, x)
  }

  /** A page with the writeable bit maps to the screen or to the process's own memory. */
  lemma WriteReachesOwn(s: State, i: nat, v: Word)
    requires Ok(s) && i < |s.procs| && s.procs[i].chunk < FRAMES
    requires IsWriteable(Entry(s.ram, Dir(s.ram, s.procs[i].chunk), v / PAGE_SIZE))
    ensures
      var x := Frame(Translate(s.ram, Dir(s.ram, s.procs[i].chunk), v));
      IsDevice(x) || OwnMemory(s, i, x)
  {
    var h, vs := PoolOf(s.base, s.table), Views(s.ram, s.procs);
    var p := v / PAGE_SIZE;
    assert vs[i] == ViewOf(s.ram, s.procs[i]) && ViewOk(h, vs[i]) && MayWrite(h, vs[i], p);
    var x := Frame(vs[i].entries[p]);
    assert Frame(Translate(s.ram, Dir(s.ram, s.procs[i].chunk), v)) == x;
    if !IsDevice(x) && !InImage(h, vs[i], x) {
      var a :| 0 <= a < |vs[i].slots| && Live(vs[i].slots[a]) && InRun(h, Frame(vs[i].slots[a].ptr), p);
      assert SlotOk(h, vs[i], vs[i].slots[a]);
      assert SlotCovers(s, i, a, x);
    }
  }

  /** The memory of one process is in no page table, in no free block and in no memory of another. */
  lemma OwnMemoryIsApart(s: State, i: nat, j: nat, x: nat)
    requires Ok(s) && i < |s.procs| && j < |s.procs| && OwnMemory(s, i, x)
    ensures s.procs[j].chunk < FRAMES && x !in Frames(s.ram, s.procs[j].chunk)
    ensures j != i ==> !OwnMemory(s, j, x)
    ensures !FreeFrame(s.base, s.table, x)
  {
    var h, vs := PoolOf(s.base, s.table), Views(s.ram, s.procs);
    assert vs[j] == ViewOf(s.ram, s.procs[j]) && ProcOk(s.ram, s.procs[j]) && ViewOk(h, vs[j]);
    var g := OwnRun(s, i, x);
    RunIsNotFree(s.base, s.table, g, x);
    if x in vs[j].frames {
      RunsApart(h, g, x, x);
      OwnersApart(h, vs, i, j, g);
    }
    if OwnMemory(s, j, x) {
      var f := OwnRun(s, j, x);
      RunsApart(h, f, g, x);
      OwnersApart(h, vs, i, j, g);
    }
  }

  /** The run of process `i` that frame `x` is in. */
  lemma OwnRun(s: State, i: nat, x: nat) returns (g: nat)
    requires Ok(s) && i < |s.procs| && OwnMemory(s, i, x)
    ensures s.procs[i].chunk < FRAMES && g in Starts(ViewOf(s.ram, s.procs[i]))
    ensures InRun(PoolOf(s.base, s.table), g, x)
  {
    var h, vs := PoolOf(s.base, s.table), Views(s.ram, s.procs);
    assert vs[i] == ViewOf(s.ram, s.procs[i]) && ProcOk(s.ram, s.procs[i]) && ViewOk(h, vs[i]);
    if ImageCovers(s, i, x) {
      g :| g in s.procs[i].image && InRun(h, g, x);
    } else {
      var a: nat :| SlotCovers(s, i, a, x);
      SlotIsRun(s, i, a, x);
      SlotStartIsOwned(vs[i], a);
      g := Frame(s.procs[i].slots[a].ptr);
    }
  }

  ghost predicate InNoTable(s: State, x: nat) {
    forall j :: 0 <= j < |s.procs| ==> s.procs[j].chunk < FRAMES && x !in Frames(s.ram, s.procs[j].chunk)
  }

  ghost predicate NotOfOthers(s: State, i: nat, x: nat) {
    forall j :: 0 <= j < |s.procs| && j != i ==> !OwnMemory(s, j, x)
  }

  ghost predicate NotOfKernel(s: State, x: nat) {
    forall f: nat :: Unowned(s, f) ==> !InRun(PoolOf(s.base, s.table), f, x)
  }

  /** Frame `x` is memory of process `i` only: in no page table, no free block, no other run of the heap. */
  ghost predicate OnlyOwn(s: State, i: nat, x: nat) {
    && OwnMemory(s, i, x) && s.base <= x < s.base + |s.table| && !FreeFrame(s.base, s.table, x)
    && InNoTable(s, x) && NotOfOthers(s, i, x) && NotOfKernel(s, x)
  }

  lemma OwnIsNotOfKernel(s: State, i: nat, x: nat)
    requires Ok(s) && i < |s.procs| && OwnMemory(s, i, x)
    ensures NotOfKernel(s, x)
  {
    var g := OwnRun(s, i, x);
    assert g in Owned(ViewOf(s.ram, s.procs[i]));
    forall f: nat | Unowned(s, f)
      ensures !InRun(PoolOf(s.base, s.table), f, x)
    {
      NotUnowned(s, i, g, f);
      RunsApart(PoolOf(s.base, s.table), g, f, x);
    }
  }

  lemma NotUnowned(s: State, i: nat, g: nat, f: nat)
    requires i < |s.procs| && s.procs[i].chunk < FRAMES && g in Owned(ViewOf(s.ram, s.procs[i])) && Unowned(s, f)
    ensures f != g
  {
  }

  lemma OwnIsInNoTable(s: State, i: nat, x: nat)
    requires Ok(s) && i < |s.procs| && OwnMemory(s, i, x)
    ensures InNoTable(s, x) && NotOfOthers(s, i, x)
  {
    forall j | 0 <= j < |s.procs|
      ensures s.procs[j].chunk < FRAMES && x !in Frames(s.ram, s.procs[j].chunk)
      ensures j != i ==> !OwnMemory(s, j, x)
    {
      OwnMemoryIsApart(s, i, j, x);
    }
  }

  lemma OwnIsOnlyOwn(s: State, i: nat, x: nat)
    requires Ok(s) && i < |s.procs| && OwnMemory(s, i, x)
    ensures OnlyOwn(s, i, x)
  {
    var g := OwnRun(s, i, x);
    RunsApart(PoolOf(s.base, s.table), g, g, x);
    OwnMemoryIsApart(s, i, i, x);
    OwnIsInNoTable(s, i, x);
    OwnIsNotOfKernel(s, i, x);
  }

  /**
   Isolation after any run: an address that process `i` can write translates to the screen or to its own
   image, stack or allocations, and so into no page table, no free block, no memory of another process, no
   run of the kernel's own and nothing else outside the heap.
   */
  lemma ProcessesAreIsolated(states: seq<State>, calls: seq<Call>, k: nat, i: nat, v: Word)
    requires Run(states, calls) && k <= |calls| && i < |states[k].procs|
    requires states[k].procs[i].chunk < FRAMES
    requires IsWriteable(Entry(states[k].ram, Dir(states[k].ram, states[k].procs[i].chunk), v / PAGE_SIZE))
    ensures
      var s := states[k];
      var x := Frame(Translate(s.ram, Dir(s.ram, s.procs[i].chunk), v));
      x == 0xB8 || OnlyOwn(s, i, x)
  {
    RunIsOk(states, calls, k);
    WriteIsIsolated(states[k], i, v);
  }

  lemma WriteIsIsolated(s: State, i: nat, v: Word)
    requires Ok(s) && i < |s.procs| && s.procs[i].chunk < FRAMES
    requires IsWriteable(Entry(s.ram, Dir(s.ram, s.procs[i].chunk), v / PAGE_SIZE))
    ensures
      var x := Frame(Translate(s.ram, Dir(s.ram, s.procs[i].chunk), v));
      x == 0xB8 || OnlyOwn(s, i, x)
  {
    var x := Frame(Translate(s.ram, Dir(s.ram, s.procs[i].chunk), v));
    WriteReachesOwn(s, i, v);
    if !IsDevice(x) {
      OwnIsOnlyOwn(s, i, x);
    }
  }
}
