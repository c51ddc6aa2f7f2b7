/**
 The memory of a running system as one value: block table, physical memory and processes; the calls
 made on behalf of a process; and the proof that each keeps ownership in order.
 */
module ProcessState {
  import opened Words
  import opened HeapTable
  import opened PageTables
  import opened KernelHeap
  import opened AddressSpaces
  import opened Ownership
  import Steps = OwnershipSteps
  import H = Heap

  /** A process: the frame of its page directory chunk, its allocation slots, its image and stack runs. */
  datatype Proc = Proc(chunk: nat, slots: seq<Slot>, image: set<nat>)

  datatype State = State(base: nat, table: Table, ram: Ram, procs: seq<Proc>)

  const SLOTS := 1024

  // ---------- The view of module Ownership that a state gives ----------

  ghost function PoolOf(base: nat, s: Table): Pool {
    Pool(base, |s|, Runs(s))
  }

  ghost function EntriesOf(m: Ram, c: nat): seq<Word>
    requires c < FRAMES
  {
    seq(FRAMES, p requires 0 <= p < FRAMES => Entry(m, Dir(m, c), p))
  }

  ghost function ViewOf(m: Ram, p: Proc): View
    requires p.chunk < FRAMES
  {
    View(Frames(m, p.chunk), EntriesOf(m, p.chunk), p.slots, p.image)
  }

  /** Every directory entry of a process's space lets user mode write; the page entries decide. */
  ghost predicate ProcOk(m: Ram, p: Proc) {
    Space(m, p.chunk) && |p.slots| == SLOTS && DirectoryFlags(m, p.chunk, USER_DATA)
  }

  ghost predicate ProcsOk(m: Ram, ps: seq<Proc>) {
    forall i :: 0 <= i < |ps| ==> ProcOk(m, ps[i])
  }

  ghost function Views(m: Ram, ps: seq<Proc>): seq<View>
    requires ProcsOk(m, ps)
  {
    seq(|ps|, i requires 0 <= i < |ps| => assert ProcOk(m, ps[i]); ViewOf(m, ps[i]))
  }

  ghost predicate Ok(s: State) {
    && VIDEO < s.base && s.base + |s.table| <= FRAMES
    && WellFormed(s.table)
    && ProcsOk(s.ram, s.procs)
    && Inv(PoolOf(s.base, s.table), Views(s.ram, s.procs))
  }

  lemma PoolOfTable(base: nat, s: Table)
    requires VIDEO < base && base + |s| <= FRAMES && WellFormed(s)
    ensures PoolOk(PoolOf(base, s))
  {
    forall b | b in Runs(s)
      ensures Runs(s)[b] >= 1 && b + Runs(s)[b] <= |s|
    {
      RunIsTaken(s, b);
    }
    forall b, c | b in Runs(s) && c in Runs(s) && b < c
      ensures b + Runs(s)[b] <= c
    {
      RunsAreDisjoint(s, b, c);
    }
  }

  /** A one-block run is flagged as such in the table. */
  lemma SpaceIsLive(base: nat, s: Table, m: Ram, p: Proc)
    requires WellFormed(s) && p.chunk < FRAMES
    requires forall f :: f in Frames(m, p.chunk) ==> IsStart(PoolOf(base, s), f) && RunLength(PoolOf(base, s), f) == 1
    ensures SpaceLive(base, s, m, p.chunk)
  {
    forall f | f in Frames(m, p.chunk)
      ensures base <= f < base + |s| && s[f - base] == SINGLE
    {
      RunIsTaken(s, f - base);
      assert s[f - base] == RunFlag(0, 1);
    }
  }

  /** Memory changes outside the frames of a process's page tables leave its view alone. */
  lemma ViewIsLocal(m: Ram, n: Ram, p: Proc)
    requires ProcOk(m, p)
    requires forall f: nat :: f < FRAMES && f in Frames(m, p.chunk) ==> SameFrame(m, n, f)
    ensures ProcOk(n, p) && ViewOf(n, p) == ViewOf(m, p)
  {
    SpaceIsLocal(m, n, p.chunk);
    assert Dir(m, p.chunk) in Frames(m, p.chunk);
    DirectoryKept(m, n, p.chunk, USER_DATA);
    assert EntriesOf(n, p.chunk) == EntriesOf(m, p.chunk);
  }

  // ---------- The calls ----------

  ghost predicate FirstEmpty(slots: seq<Slot>, k: nat) {
    k < |slots| && !Live(slots[k]) && forall j :: 0 <= j < k ==> Live(slots[j])
  }

  ghost predicate FirstWith(slots: seq<Slot>, ptr: Word, k: nat) {
    k < |slots| && slots[k].ptr == ptr && forall j :: 0 <= j < k ==> slots[j].ptr != ptr
  }

  /** A null answer: nothing changed but the contents of free blocks. */
  ghost predicate MallocRefused(base: nat, s: Table, t: Table, m: Ram, n: Ram, size: Word, slots: seq<Slot>) {
    && t == s
    && (forall f: nat :: f < FRAMES && !FreeFrame(base, s, f) ==> SameFrame(m, n, f))
    && (!(H.Blocks(size) >= 1 && Fits(s, H.Blocks(size))) || forall k :: 0 <= k < |slots| ==> Live(slots[k]))
  }

  /**
   A successful call: the run is recorded in the first empty slot, its pages are identity-mapped
   for the user, its bytes are zero, and no other page, slot or frame of memory changed.
   */
  ghost predicate MallocGranted(base: nat, s: Table, t: Table, m: Ram, n: Ram, c: nat, size: Word, ptr: Word,
                                slots: seq<Slot>, slots2: seq<Slot>, k: nat)
    requires Space(m, c)
  {
    && FirstEmpty(slots, k) && slots2 == slots[k := Slot(ptr, size)]
    && ptr != 0 && Granted(base, s, ptr, size, t)
    && Space(n, c) && Dir(n, c) == Dir(m, c) && Frames(n, c) == Frames(m, c) && SameFrame(m, n, Dir(m, c))
    && (forall p: nat :: p < FRAMES ==>
      Entry(n, Dir(n, c), p) ==
        if Frame(ptr) <= p < Frame(ptr) + H.Blocks(size) then PAGE_SIZE * p + USER_DATA else Entry(m, Dir(m, c), p))
    && (forall f: nat :: f < FRAMES && f !in Frames(m, c) ==> SameFrame(ZeroBytes(m, ptr, size), n, f))
  }

  ghost predicate MallocStep(s: State, t: State, i: nat, size: Word, ptr: Word) {
    && i < |s.procs| && t.base == s.base && Space(s.ram, s.procs[i].chunk)
    && if ptr == 0 then
      t.procs == s.procs && MallocRefused(s.base, s.table, t.table, s.ram, t.ram, size, s.procs[i].slots)
    else
      exists k: nat ::
        && FirstEmpty(s.procs[i].slots, k)
        && t.procs == s.procs[i := s.procs[i].(slots := s.procs[i].slots[k := Slot(ptr, size)])]
        && MallocGranted(s.base, s.table, t.table, s.ram, t.ram, s.procs[i].chunk, size, ptr,
                         s.procs[i].slots, t.procs[i].slots, k)
  }

  /** Freeing the pointer of slot `k`: its run is freed and its pages keep their frames but no flags. */
  ghost predicate FreeDone(base: nat, s: Table, t: Table, m: Ram, n: Ram, c: nat,
      slots: seq<Slot>, slots2: seq<Slot>, k: nat)
    requires Space(m, c) && k < |slots|
  {
    var ptr := slots[k].ptr;
    && Frame(ptr) >= base && t == MarkFree(s, Frame(ptr) - base)
    && slots2 == slots[k := EMPTY_SLOT]
    && Space(n, c) && Dir(n, c) == Dir(m, c) && Frames(n, c) == Frames(m, c) && SameFrame(m, n, Dir(m, c))
    && (forall p: nat :: p < FRAMES ==>
      Entry(n, Dir(n, c), p) ==
        if Frame(ptr) <= p < Frame(ptr) + H.Blocks(slots[k].size) then PAGE_SIZE * p else Entry(m, Dir(m, c), p))
    && (forall f: nat :: f < FRAMES && f !in Frames(m, c) ==> SameFrame(m, n, f))
  }

  /** A pointer that no slot holds, or the null pointer, changes nothing. */
  ghost predicate FreeStep(s: State, t: State, i: nat, ptr: Word) {
    && i < |s.procs| && t.base == s.base && Space(s.ram, s.procs[i].chunk)
    && (ptr == 0 || (forall k :: 0 <= k < |s.procs[i].slots| ==> s.procs[i].slots[k].ptr != ptr) ==> t == s)
    && forall k: nat :: ptr != 0 && FirstWith(s.procs[i].slots, ptr, k) ==>
      && t.procs == s.procs[i := s.procs[i].(slots := s.procs[i].slots[k := EMPTY_SLOT])]
      && FreeDone(s.base, s.table, t.table, s.ram, t.ram, s.procs[i].chunk, s.procs[i].slots, t.procs[i].slots, k)
  }

  /** A new process: a fresh address space and empty slots. */
  ghost predicate SpawnStep(s: State, t: State) {
    && t.base == s.base && |t.procs| == |s.procs| + 1 && t.procs[..|s.procs|] == s.procs
    && var p := t.procs[|s.procs|];
    && p == Proc(p.chunk, seq(SLOTS, _ => EMPTY_SLOT), {})
    && NewSpace(s.base, s.table, t.table, s.ram, t.ram, p.chunk, PRESENT + ACCESS_FROM_ALL)
  }

  /**
   Mapping pages of the image or stack, or of the screen, away from the process's own allocations. A
   writeable mapping stays inside the process's image runs and the screen.
   */
  ghost predicate MapStep(s: State, t: State, i: nat, v: nat, f: nat, count: nat, flags: nat) {
    && i < |s.procs| && Space(s.ram, s.procs[i].chunk)
    && t == s.(ram := t.ram)
    && v + count <= FRAMES && f + count <= FRAMES && flags < PAGE_SIZE && v < FRAMES
    && MapsRange(s.ram, t.ram, Dir(s.ram, s.procs[i].chunk), v, f, count, flags)
    && MayMap(s, i, v, f, count, flags)
  }

  ghost predicate MayMap(s: State, i: nat, v: nat, f: nat, count: nat, flags: nat) {
    && i < |s.procs| && s.procs[i].chunk < FRAMES
    && var h, w := PoolOf(s.base, s.table), ViewOf(s.ram, s.procs[i]);
    && (forall p: nat :: v <= p < v + count ==> !InLiveSlot(h, w, p))
    && (IsWriteable(flags) ==>
      forall g: nat :: f <= g < f + count ==> IsDevice(g) || InImage(h, w, g))
  }

  // ---------- Every call keeps the invariant ----------

  lemma FreshRunIsNew(base: nat, s: Table, t: Table, ptr: Word, size: Word)
    requires WellFormed(s) && Granted(base, s, ptr, size, t)
    ensures WellFormed(t) && |t| == |s|
    ensures Runs(t) == Runs(s)[Frame(ptr) - base := H.Blocks(size)]
    ensures !IsStart(PoolOf(base, s), Frame(ptr))
    ensures forall f: nat :: Frame(ptr) <= f < Frame(ptr) + H.Blocks(size) ==> FreeFrame(base, s, f)
  {
    MarkTakenAddsRun(s, Frame(ptr) - base, H.Blocks(size));
    forall f: nat | Frame(ptr) <= f < Frame(ptr) + H.Blocks(size)
      ensures FreeFrame(base, s, f)
    {
      assert WellFormedAt(s, f - base) && IsFree(s[f - base]);
    }
  }

  /** Page-table frames are taken, so changes to free blocks never reach them. */
  lemma TablesAreNotFree(s: State, i: nat)
    requires Ok(s) && i < |s.procs|
    ensures SpaceLive(s.base, s.table, s.ram, s.procs[i].chunk)
    ensures forall f :: f in Frames(s.ram, s.procs[i].chunk) ==> !FreeFrame(s.base, s.table, f)
  {
    var vs := Views(s.ram, s.procs);
    assert ViewOk(PoolOf(s.base, s.table), vs[i]);
    assert vs[i].frames == Frames(s.ram, s.procs[i].chunk);
    SpaceIsLive(s.base, s.table, s.ram, s.procs[i]);
  }

  lemma SpacesApart(s: State, i: nat, j: nat)
    requires Ok(s) && i < |s.procs| && j < |s.procs| && i != j
    ensures Frames(s.ram, s.procs[i].chunk) !! Frames(s.ram, s.procs[j].chunk)
  {
    var vs := Views(s.ram, s.procs);
    assert i < j ==> Owned(vs[i]) !! Owned(vs[j]);
    assert j < i ==> Owned(vs[j]) !! Owned(vs[i]);
    assert vs[i].frames == Frames(s.ram, s.procs[i].chunk) && vs[j].frames == Frames(s.ram, s.procs[j].chunk);
  }

  /** Between `m` and `n` only the frames of space `c` and free blocks may differ. */
  ghost predicate Confined(base: nat, s: Table, m: Ram, n: Ram, c: nat)
    requires c < FRAMES
  {
    forall f: nat :: f < FRAMES && f !in Frames(m, c) && !FreeFrame(base, s, f) ==> SameFrame(m, n, f)
  }

  lemma OtherViewsKept(s: State, n: Ram, i: nat)
    requires Ok(s) && i < |s.procs| && Confined(s.base, s.table, s.ram, n, s.procs[i].chunk)
    ensures forall j :: 0 <= j < |s.procs| && j != i ==>
      ProcOk(n, s.procs[j]) && ViewOf(n, s.procs[j]) == ViewOf(s.ram, s.procs[j])
  {
    forall j | 0 <= j < |s.procs| && j != i
      ensures ProcOk(n, s.procs[j]) && ViewOf(n, s.procs[j]) == ViewOf(s.ram, s.procs[j])
    {
      SpacesApart(s, i, j);
      TablesAreNotFree(s, j);
      assert ProcOk(s.ram, s.procs[j]);
      FramesInRange(s.ram, s.procs[j].chunk);
      ViewIsLocal(s.ram, n, s.procs[j]);
    }
  }

  /** If process `i` becomes `p` and the others keep their views, only its view changes. */
  lemma ViewsUpdated(s: State, n: Ram, i: nat, p: Proc)
    requires Ok(s) && i < |s.procs| && ProcOk(n, p)
    requires forall j :: 0 <= j < |s.procs| && j != i ==>
      ProcOk(n, s.procs[j]) && ViewOf(n, s.procs[j]) == ViewOf(s.ram, s.procs[j])
    ensures ProcsOk(n, s.procs[i := p])
    ensures Views(n, s.procs[i := p]) == Views(s.ram, s.procs)[i := ViewOf(n, p)]
  {
    var ps := s.procs[i := p];
    forall j | 0 <= j < |ps|
      ensures ProcOk(n, ps[j])
    {
      assert j != i ==> ps[j] == s.procs[j];
    }
  }

  /** Changes to free blocks only leave every process as it is. */
  lemma FreeBlocksOnly(s: State, n: Ram)
    requires Ok(s)
    requires forall f: nat :: f < FRAMES && !FreeFrame(s.base, s.table, f) ==> SameFrame(s.ram, n, f)
    ensures ProcsOk(n, s.procs) && Views(n, s.procs) == Views(s.ram, s.procs)
  {
    forall j | 0 <= j < |s.procs|
      ensures ProcOk(n, s.procs[j]) && ViewOf(n, s.procs[j]) == ViewOf(s.ram, s.procs[j])
    {
      TablesAreNotFree(s, j);
      assert ProcOk(s.ram, s.procs[j]);
      FramesInRange(s.ram, s.procs[j].chunk);
      ViewIsLocal(s.ram, n, s.procs[j]);
    }
  }

  lemma GrantedIsConfined(base: nat, s: Table, t: Table, m: Ram, n: Ram, c: nat, size: Word, ptr: Word)
    requires WellFormed(s) && Granted(base, s, ptr, size, t) && c < FRAMES
    requires forall f: nat :: f < FRAMES && f !in Frames(m, c) ==> SameFrame(ZeroBytes(m, ptr, size), n, f)
    ensures Confined(base, s, m, n, c)
  {
    FreshRunIsNew(base, s, t, ptr, size);
    GrantedFits(base, s, ptr, size, t);
    ZeroBytesFrames(m, Frame(ptr), H.Blocks(size), size);
    var z := ZeroBytes(m, ptr, size);
    forall f: nat | f < FRAMES && f !in Frames(m, c) && !FreeFrame(base, s, f)
      ensures SameFrame(m, n, f)
    {
      assert SameFrame(m, z, f) && SameFrame(z, n, f);
    }
  }

  lemma MallocFillsSlot(s: State, t: State, i: nat, size: Word, ptr: Word, k: nat)
    requires Ok(s) && i < |s.procs| && t.base == s.base && k < |s.procs[i].slots|
    requires MallocGranted(s.base, s.table, t.table, s.ram, t.ram, s.procs[i].chunk, size, ptr,
                           s.procs[i].slots, s.procs[i].slots[k := Slot(ptr, size)], k)
    ensures
      var p := s.procs[i].(slots := s.procs[i].slots[k := Slot(ptr, size)]);
      && ProcOk(t.ram, p)
      && Steps.SlotFilled(PoolOf(s.base, s.table), PoolOf(t.base, t.table), ViewOf(s.ram, s.procs[i]), ViewOf(t.ram, p),
                          k, Slot(ptr, size))
  {
    FreshRunIsNew(s.base, s.table, t.table, ptr, size);
    H.BlocksCoverSize(size);
    assert ProcOk(s.ram, s.procs[i]);
    DirectoryKept(s.ram, t.ram, s.procs[i].chunk, USER_DATA);
  }

  lemma MallocKeepsOk(s: State, t: State, i: nat, size: Word, ptr: Word)
    requires Ok(s) && MallocStep(s, t, i, size, ptr)
    ensures Ok(t)
  {
    if ptr == 0 {
      FreeBlocksOnly(s, t.ram);
    } else {
      var k: nat :| FirstEmpty(s.procs[i].slots, k)
        && t.procs == s.procs[i := s.procs[i].(slots := s.procs[i].slots[k := Slot(ptr, size)])]
        && MallocGranted(s.base, s.table, t.table, s.ram, t.ram, s.procs[i].chunk, size, ptr,
                         s.procs[i].slots, t.procs[i].slots, k);
      var c := s.procs[i].chunk;
      GrantedIsConfined(s.base, s.table, t.table, s.ram, t.ram, c, size, ptr);
      OtherViewsKept(s, t.ram, i);
      MallocFillsSlot(s, t, i, size, ptr, k);
      ViewsUpdated(s, t.ram, i, t.procs[i]);
      FreshRunIsNew(s.base, s.table, t.table, ptr, size);
      PoolOfTable(t.base, t.table);
      Steps.FillKeepsInv(PoolOf(s.base, s.table), PoolOf(t.base, t.table), Views(s.ram, s.procs), i,
                         ViewOf(t.ram, t.procs[i]), k, Slot(ptr, size));
    }
  }

  lemma FreedProcOk(s: State, t: State, i: nat, k: nat)
    requires ProcsOk(s.ram, s.procs) && i < |s.procs| && k < SLOTS && ProcOk(s.ram, s.procs[i])
    requires FreeDone(s.base, s.table, t.table, s.ram, t.ram, s.procs[i].chunk, s.procs[i].slots,
                      s.procs[i].slots[k := EMPTY_SLOT], k)
    ensures ProcOk(t.ram, s.procs[i].(slots := s.procs[i].slots[k := EMPTY_SLOT]))
  {
    DirectoryKept(s.ram, t.ram, s.procs[i].chunk, USER_DATA);
  }

  lemma FreeEmptiesSlot(s: State, t: State, i: nat, k: nat)
    requires Ok(s) && i < |s.procs| && t.base == s.base && k < SLOTS && Live(s.procs[i].slots[k])
    requires FreeDone(s.base, s.table, t.table, s.ram, t.ram, s.procs[i].chunk, s.procs[i].slots,
                      s.procs[i].slots[k := EMPTY_SLOT], k)
    ensures
      var p := s.procs[i].(slots := s.procs[i].slots[k := EMPTY_SLOT]);
      && ProcOk(t.ram, p)
      && Steps.SlotEmptied(PoolOf(s.base, s.table), PoolOf(t.base, t.table),
        ViewOf(s.ram, s.procs[i]), ViewOf(t.ram, p), k)
    ensures WellFormed(t.table) && |t.table| == |s.table|
  {
    var v := ViewOf(s.ram, s.procs[i]);
    assert Views(s.ram, s.procs)[i] == v;
    assert SlotOk(PoolOf(s.base, s.table), v, v.slots[k]);
    FreedProcOk(s, t, i, k);
    MarkFreeDropsRun(s.table, Frame(v.slots[k].ptr) - s.base);
  }

  lemma FreeKeepsOk(s: State, t: State, i: nat, ptr: Word)
    requires Ok(s) && FreeStep(s, t, i, ptr)
    ensures Ok(t)
  {
    var slots := s.procs[i].slots;
    if ptr != 0 && exists k: nat :: k < |slots| && slots[k].ptr == ptr {
      var k := FirstSlotWith(slots, ptr);
      assert FirstWith(slots, ptr, k);
      var c := s.procs[i].chunk;
      FreeEmptiesSlot(s, t, i, k);
      OtherViewsKept(s, t.ram, i);
      ViewsUpdated(s, t.ram, i, t.procs[i]);
      Steps.EmptyKeepsInv(PoolOf(s.base, s.table), PoolOf(t.base, t.table), Views(s.ram, s.procs), i,
                          ViewOf(t.ram, t.procs[i]), k);
    }
  }

  lemma FirstSlotWith(slots: seq<Slot>, ptr: Word) returns (k: nat)
    requires exists k: nat :: k < |slots| && slots[k].ptr == ptr
    ensures FirstWith(slots, ptr, k)
  {
    k := 0;
    var last: nat :| last < |slots| && slots[last].ptr == ptr;
    while slots[k].ptr != ptr
      invariant k <= last && forall j :: 0 <= j < k ==> slots[j].ptr != ptr
      decreases last - k
    {
      k := k + 1;
    }
  }

  lemma SingleIsRun(t: Table, b: nat)
    requires b < |t| && t[b] == SINGLE
    ensures b in Runs(t) && Runs(t)[b] == 1
  {
    RunEndIs(t, b, b + 1);
  }

  lemma OldRunKept(base: nat, s: Table, fs: set<nat>, b: nat)
    requires WellFormed(s) && Holds(base, s, fs, FREE) && b in Runs(s)
    ensures b in Runs(Marked(base, s, fs, SINGLE)) && Runs(Marked(base, s, fs, SINGLE))[b] == Runs(s)[b]
  {
    var t := Marked(base, s, fs, SINGLE);
    RunIsTaken(s, b);
    forall i | b <= i < b + Runs(s)[b]
      ensures t[i] == s[i]
    {
      assert base + i in fs ==> s[base + i - base] == FREE;
    }
    RunIsLocal(s, t, b);
  }

  /** Flagging free blocks as single-block runs adds those runs. */
  lemma NewSingles(base: nat, s: Table, fs: set<nat>)
    requires Holds(base, s, fs, FREE)
    ensures
      var h, h2 := PoolOf(base, s), PoolOf(base, Marked(base, s, fs, SINGLE));
      forall f :: f in fs ==> !IsStart(h, f) && IsStart(h2, f) && RunLength(h2, f) == 1
  {
    var t := Marked(base, s, fs, SINGLE);
    forall f | f in fs
      ensures f - base !in Runs(s) && f - base in Runs(t) && Runs(t)[f - base] == 1
    {
      SingleIsRun(t, f - base);
    }
  }

  /** ... and keeps all others. */
  lemma OldRunsStay(base: nat, s: Table, fs: set<nat>)
    requires WellFormed(s) && Holds(base, s, fs, FREE)
    ensures
      var h, h2 := PoolOf(base, s), PoolOf(base, Marked(base, s, fs, SINGLE));
      forall f :: IsStart(h, f) ==> IsStart(h2, f) && RunLength(h2, f) == RunLength(h, f)
  {
    var h, h2 := PoolOf(base, s), PoolOf(base, Marked(base, s, fs, SINGLE));
    forall f: nat | IsStart(h, f)
      ensures IsStart(h2, f) && RunLength(h2, f) == RunLength(h, f)
    {
      OldRunKept(base, s, fs, f - base);
    }
  }

  lemma MarkedAt(base: nat, s: Table, fs: set<nat>, i: nat)
    requires WellFormed(s) && Holds(base, s, fs, FREE) && i < |s|
    ensures WellFormedAt(Marked(base, s, fs, SINGLE), i)
  {
    var t := Marked(base, s, fs, SINGLE);
    assert WellFormedAt(s, i);
    assert base + i in fs ==> s[base + i - base] == FREE;
    if i + 1 < |s| {
      assert WellFormedAt(s, i + 1);
      assert base + (i + 1) in fs ==> s[base + (i + 1) - base] == FREE;
      assert t[i + 1] == if base + (i + 1) in fs then SINGLE else s[i + 1];
    }
    if i > 0 {
      assert WellFormedAt(s, i - 1);
      assert base + (i - 1) in fs ==> s[base + (i - 1) - base] == FREE;
      assert t[i - 1] == if base + (i - 1) in fs then SINGLE else s[i - 1];
    }
  }

  lemma MarkedWellFormed(base: nat, s: Table, fs: set<nat>)
    requires WellFormed(s) && Holds(base, s, fs, FREE)
    ensures WellFormed(Marked(base, s, fs, SINGLE))
  {
    forall i | 0 <= i < |s|
      ensures WellFormedAt(Marked(base, s, fs, SINGLE), i)
    {
      MarkedAt(base, s, fs, i);
    }
  }

  lemma UserReadOnly(p: nat)
    ensures !IsWriteable(PAGE_SIZE * p + (PRESENT + ACCESS_FROM_ALL))
  {
  }

  lemma NewbornView(base: nat, s: Table, t: Table, m: Ram, n: Ram, p: Proc)
    requires WellFormed(s) && p == Proc(p.chunk, seq(SLOTS, _ => EMPTY_SLOT), {})
    requires NewSpace(base, s, t, m, n, p.chunk, PRESENT + ACCESS_FROM_ALL)
    ensures ProcOk(n, p) && WellFormed(t) && Steps.Born(PoolOf(base, s), PoolOf(base, t), ViewOf(n, p))
  {
    NewSingles(base, s, Frames(n, p.chunk));
    OldRunsStay(base, s, Frames(n, p.chunk));
    MarkedWellFormed(base, s, Frames(n, p.chunk));
    assert WithWriteable(PRESENT + ACCESS_FROM_ALL) == USER_DATA;
    forall q: nat | q < FRAMES
      ensures !IsWriteable(ViewOf(n, p).entries[q])
    {
      UserReadOnly(q);
      assert Entry(n, Dir(n, p.chunk), q) == PAGE_SIZE * q + (PRESENT + ACCESS_FROM_ALL);
    }
  }

  lemma ViewsPlus(m: Ram, ps: seq<Proc>, p: Proc)
    requires ProcsOk(m, ps) && ProcOk(m, p)
    ensures ProcsOk(m, ps + [p]) && Views(m, ps + [p]) == Views(m, ps) + [ViewOf(m, p)]
  {
    var qs := ps + [p];
    forall i | 0 <= i < |qs|
      ensures ProcOk(m, qs[i])
    {
      assert i < |ps| ==> ProcOk(m, ps[i]);
    }
  }

  lemma SpawnWritesFree(s: State, t: State)
    requires SpawnStep(s, t)
    ensures forall f: nat :: f < FRAMES && !FreeFrame(s.base, s.table, f) ==> SameFrame(s.ram, t.ram, f)
  {
    var c := t.procs[|s.procs|].chunk;
    forall f: nat | f < FRAMES && !FreeFrame(s.base, s.table, f)
      ensures f !in Frames(t.ram, c)
    {
    }
  }

  lemma SpawnViews(s: State, t: State)
    requires Ok(s) && SpawnStep(s, t)
    ensures
      var w := ViewOf(t.ram, t.procs[|s.procs|]);
      && ProcsOk(t.ram, t.procs) && Views(t.ram, t.procs) == Views(s.ram, s.procs) + [w]
      && Steps.Born(PoolOf(s.base, s.table), PoolOf(t.base, t.table), w)
    ensures WellFormed(t.table)
  {
    NewbornView(s.base, s.table, t.table, s.ram, t.ram, t.procs[|s.procs|]);
    SpawnWritesFree(s, t);
    FreeBlocksOnly(s, t.ram);
    ViewsPlus(t.ram, s.procs, t.procs[|s.procs|]);
    assert t.procs == s.procs + [t.procs[|s.procs|]];
  }

  lemma SpawnKeepsOk(s: State, t: State)
    requires Ok(s) && SpawnStep(s, t)
    ensures Ok(t)
  {
    SpawnViews(s, t);
    PoolOfTable(t.base, t.table);
    Steps.BirthKeepsInv(PoolOf(s.base, s.table), PoolOf(t.base, t.table), Views(s.ram, s.procs),
                        ViewOf(t.ram, t.procs[|s.procs|]));
  }

  lemma ZeroesFreeBlocks(base: nat, s: Table, t: Table, m: Ram, size: Word, ptr: Word)
    requires WellFormed(s) && Granted(base, s, ptr, size, t)
    ensures forall f: nat :: f < FRAMES && !FreeFrame(base, s, f) ==> SameFrame(m, ZeroBytes(m, ptr, size), f)
  {
    FreshRunIsNew(base, s, t, ptr, size);
    GrantedFits(base, s, ptr, size, t);
    ZeroBytesFrames(m, Frame(ptr), H.Blocks(size), size);
  }

  lemma MapKeepsOk(s: State, t: State, i: nat, v: nat, f: nat, count: nat, flags: nat)
    requires Ok(s) && MapStep(s, t, i, v, f, count, flags)
    ensures Ok(t)
  {
    var p := s.procs[i];
    var d := Dir(s.ram, p.chunk);
    SpaceKept(s.ram, t.ram, p.chunk);
    forall g: nat | g < FRAMES && g !in Frames(s.ram, p.chunk) && !FreeFrame(s.base, s.table, g)
      ensures SameFrame(s.ram, t.ram, g)
    {
      assert g !in Tables(s.ram, d);
    }
    OtherViewsKept(s, t.ram, i);
    assert ProcOk(s.ram, p);
    assert SameFrame(s.ram, t.ram, d);
    DirectoryKept(s.ram, t.ram, p.chunk, USER_DATA);
    ViewsUpdated(s, t.ram, i, p);
    assert s.procs[i := p] == s.procs;
    var h, w := PoolOf(s.base, s.table), ViewOf(t.ram, p);
    forall q: nat | q < FRAMES
      ensures q < v || q >= v + count ==> w.entries[q] == ViewOf(s.ram, p).entries[q]
      ensures v <= q < v + count ==> w.entries[q] == PAGE_SIZE * (f + (q - v)) + flags
    {
      assert Entry(t.ram, d, q) == RangeEntry(s.ram, d, v, f, count, flags, q);
    }
    forall q: nat | q < FRAMES && w.entries[q] != ViewOf(s.ram, p).entries[q] && IsWriteable(w.entries[q])
      ensures IsDevice(Frame(w.entries[q])) || InImage(h, w, Frame(w.entries[q]))
    {
      var g := f + (q - v);
      FlagsDecide(g, flags);
      assert InImage(h, ViewOf(s.ram, p), g) ==> InImage(h, w, g);
    }
    Steps.ImageMapKeepsInv(h, Views(s.ram, s.procs), i, w);
  }
}
