/**
 The allocations of a process (`process.c`): slots, heap runs and page tables kept in agreement.
 */
module Process {
  import opened Words
  import opened HeapTable
  import opened PageTables
  import opened KernelHeap
  import opened AddressSpaces
  import opened Ownership
  import opened ProcessState
  import P = Paging
  import H = Heap

  class Process {
    const pageDirectory: Word
    const allocations: array<Slot>
    ghost var image: set<nat>

    constructor (pageDirectory: Word, allocations: array<Slot>)
      ensures this.pageDirectory == pageDirectory && this.allocations == allocations && image == {}
    {
      this.pageDirectory, this.allocations, image := pageDirectory, allocations, {};
    }

    ghost predicate Valid() {
      allocations.Length == SLOTS && pageDirectory % PAGE_SIZE == 0
    }

    /** The slots are not stored where the block table or physical memory are. */
    ghost predicate Separate(mem: Memory)
      reads mem, mem.heap
    {
      && allocations as object != mem.ram && allocations as object != mem.heap.entries
      && allocations as object != mem.below
    }

    ghost function Chunk(): nat {
      Frame(pageDirectory)
    }

    /** `process_find_free_allocation_index` */
    method FindFreeAllocationIndex() returns (res: int)
      requires Valid()
      ensures res >= 0 ==> FirstEmpty(allocations[..], res)
      ensures res < 0 ==> res == -ENOMEM && forall k :: 0 <= k < |allocations[..]| ==> Live(allocations[..][k])
    {
      res := -ENOMEM;
      var i := 0;
      while i < SLOTS
        invariant 0 <= i <= SLOTS && res == -ENOMEM
        invariant forall j :: 0 <= j < i ==> Live(allocations[..][j])
      {
        if allocations[i].ptr == 0 {
          res := i;
          break;
        }
        i := i + 1;
      }
    }

    /** `process_get_allocation_by_addr`: the index of the slot, or -1 for a null result. */
    method GetAllocationByAddr(addr: Word) returns (index: int)
      requires Valid()
      ensures index >= 0 ==> FirstWith(allocations[..], addr, index)
      ensures index < 0 ==> index == -1 && forall k :: 0 <= k < |allocations[..]| ==> allocations[..][k].ptr != addr
    {
      var i := 0;
      while i < SLOTS
        invariant 0 <= i <= SLOTS
        invariant forall j :: 0 <= j < i ==> allocations[..][j].ptr != addr
      {
        if allocations[i].ptr == addr {
          return i;
        }
        i := i + 1;
      }
      index := -1;
    }

    /** `process_allocation_unjoin`: clears every slot that holds the pointer. */
    method AllocationUnjoin(ptr: Word)
      requires Valid()
      modifies allocations
      ensures forall k :: 0 <= k < SLOTS ==>
        allocations[k] == if old(allocations[k].ptr) == ptr then EMPTY_SLOT else old(allocations[k])
    {
      var i := 0;
      while i < SLOTS
        invariant 0 <= i <= SLOTS
        invariant forall k :: 0 <= k < SLOTS ==>
          allocations[k] == if k < i && old(allocations[k].ptr) == ptr then EMPTY_SLOT else old(allocations[k])
      {
        if allocations[i].ptr == ptr {
          allocations[i] := EMPTY_SLOT;
        }
        i := i + 1;
      }
    }
  }

  lemma AlignedUp(pages: nat, a: Word)
    requires 1 <= pages < FRAMES && PAGE_SIZE * (pages - 1) < a <= PAGE_SIZE * pages
    ensures P.AlignAddress(a) == PAGE_SIZE * pages
  {
    assert a < PAGE_SIZE * pages ==> a / PAGE_SIZE == pages - 1;
  }

  /** The end of an allocation, rounded up to a page, lies `Blocks(size)` pages above its start. */
  lemma EndOfAllocation(ptr: Word, size: Word)
    requires ptr % PAGE_SIZE == 0 && H.Blocks(size) >= 1 && Frame(ptr) + H.Blocks(size) < FRAMES
    ensures
      var end := P.AlignAddress(Wrap(ptr + size));
      && end % PAGE_SIZE == 0 && ptr <= end
      && (end - ptr) / PAGE_SIZE == H.Blocks(size)
  {
    H.BlocksCoverSize(size);
    AlignedUp(Frame(ptr) + H.Blocks(size), ptr + size);
  }

  /** The frames of the space are taken blocks, so zeroing a free run does not touch it. */
  lemma SpaceSurvivesZeroing(base: nat, s: Table, t: Table, m: Ram, c: nat, size: Word, ptr: Word)
    requires WellFormed(s) && Granted(base, s, ptr, size, t) && Space(m, c) && SpaceLive(base, s, m, c)
    ensures
      var z := ZeroBytes(m, ptr, size);
      && Space(z, c) && Dir(z, c) == Dir(m, c) && Frames(z, c) == Frames(m, c)
      && forall q: nat :: q < FRAMES ==> Entry(z, Dir(z, c), q) == Entry(m, Dir(m, c), q)
    ensures forall f: nat :: f < FRAMES && !FreeFrame(base, s, f) ==> SameFrame(m, ZeroBytes(m, ptr, size), f)
  {
    FreshRunIsNew(base, s, t, ptr, size);
    GrantedFits(base, s, ptr, size, t);
    ZeroBytesFrames(m, Frame(ptr), H.Blocks(size), size);
    SpaceIsLocal(m, ZeroBytes(m, ptr, size), c);
  }

  lemma DirectoryIsNotFree(base: nat, s: Table, m: Ram, c: nat)
    requires Space(m, c) && SpaceLive(base, s, m, c)
    ensures Dir(m, c) < FRAMES && !FreeFrame(base, s, Dir(m, c)) && Dir(m, c) !in Tables(m, Dir(m, c))
  {
    assert Dir(m, c) in Frames(m, c);
  }

  /** Mapping the granted run completes the effect of `process_malloc`. */
  lemma GrantedAndMapped(base: nat, s: Table, t: Table, m: Ram, n: Ram, c: nat, size: Word, ptr: Word,
                         slots: seq<Slot>, k: nat)
    requires WellFormed(s) && base + |s| < FRAMES && ptr != 0 && Granted(base, s, ptr, size, t)
    requires Space(m, c) && SpaceLive(base, s, m, c) && FirstEmpty(slots, k)
    requires Dir(m, c) < FRAMES
    requires MapsRange(ZeroBytes(m, ptr, size), n, Dir(m, c), Frame(ptr), Frame(ptr), H.Blocks(size), USER_DATA)
    ensures MallocGranted(base, s, t, m, n, c, size, ptr, slots, slots[k := Slot(ptr, size)], k)
  {
    var z := ZeroBytes(m, ptr, size);
    SpaceSurvivesZeroing(base, s, t, m, c, size, ptr);
    SpaceKept(z, n, c);
    DirectoryIsNotFree(base, s, m, c);
    var d, f, count := Dir(m, c), Frame(ptr), H.Blocks(size);
    assert SameFrame(m, z, d) && SameFrame(z, n, d);
    forall p: nat | p < FRAMES
      ensures Entry(n, d, p) == if f <= p < f + count then PAGE_SIZE * p + USER_DATA else Entry(m, d, p)
    {
      assert Entry(n, d, p) == RangeEntry(z, d, f, f, count, USER_DATA, p);
    }
  }

  lemma GrantUndone(base: nat, s: Table, t: Table, size: Word, ptr: Word)
    requires WellFormed(s) && Granted(base, s, ptr, size, t)
    ensures MarkFree(t, Frame(ptr) - base) == s
  {
    TakenThenFree(s, Frame(ptr) - base, H.Blocks(size));
  }

  /** `process_malloc`; `k` is the slot that a successful call fills. */
  method ProcessMalloc(mem: Memory, process: Process, size: Word) returns (ptr: Word, ghost k: nat)
    requires mem.Valid() && process.Valid() && process.Separate(mem) && WellFormed(mem.Blocks())
    requires mem.Base() + |mem.Blocks()| < FRAMES && ServesRequest(mem.Blocks(), H.Blocks(size))
    requires Space(mem.ram[..], process.Chunk()) && SpaceLive(mem.Base(), mem.Blocks(), mem.ram[..], process.Chunk())
    modifies mem.heap.entries, mem.ram, process.allocations
    ensures mem.Valid()
    ensures ptr == 0 ==>
      && process.allocations[..] == old(process.allocations[..])
      && MallocRefused(mem.Base(), old(mem.Blocks()), mem.Blocks(), old(mem.ram[..]), mem.ram[..], size,
                       old(process.allocations[..]))
    ensures ptr != 0 ==>
      MallocGranted(mem.Base(), old(mem.Blocks()), mem.Blocks(), old(mem.ram[..]), mem.ram[..], process.Chunk(),
                    size, ptr, old(process.allocations[..]), process.allocations[..], k)
  {
    ghost var s, m: Ram := mem.Blocks(), mem.ram[..];
    k := 0;
    ptr := mem.KZalloc(size);
    if ptr != 0 {
      ptr, k := RecordRun(mem, process, ptr, size, s, m);
    }
  }

  /** The part of `process_malloc` behind the allocation, which found table `s` and memory `m`. */
  method RecordRun(mem: Memory, process: Process, run: Word, size: Word, ghost s: Table, ghost m: Ram)
    returns (ptr: Word, ghost k: nat)
    requires mem.Valid() && process.Valid() && process.Separate(mem) && WellFormed(s)
    requires mem.Base() + |s| < FRAMES && Space(m, process.Chunk()) && SpaceLive(mem.Base(), s, m, process.Chunk())
    requires run != 0 && Granted(mem.Base(), s, run, size, mem.Blocks()) && mem.ram[..] == ZeroBytes(m, run, size)
    modifies mem.heap.entries, mem.ram, process.allocations
    ensures mem.Valid()
    ensures ptr == 0 ==>
      && process.allocations[..] == old(process.allocations[..])
      && MallocRefused(mem.Base(), s, mem.Blocks(), m, mem.ram[..], size, old(process.allocations[..]))
    ensures ptr != 0 ==>
      MallocGranted(mem.Base(), s, mem.Blocks(), m, mem.ram[..], process.Chunk(),
                    size, ptr, old(process.allocations[..]), process.allocations[..], k)
  {
    ghost var base, t, c, slots := mem.Base(), mem.Blocks(), process.Chunk(), process.allocations[..];
    ptr := run;
    SpaceSurvivesZeroing(base, s, t, m, c, size, ptr);
    var index := process.FindFreeAllocationIndex();
    if index < 0 {
      GrantUndone(base, s, t, size, ptr);
      mem.KFree(ptr);
      return 0, 0;
    }
    EndOfAllocation(ptr, size);
    var res := P.PagingMapTo(mem.ram, process.pageDirectory, ptr, ptr, P.AlignAddress(Wrap(ptr + size)), USER_DATA);
    GrantedAndMapped(base, s, t, m, mem.ram[..], c, size, ptr, slots, index);
    process.allocations[index] := Slot(ptr, size);
    assert process.allocations[..] == slots[index := Slot(ptr, size)];
    k := index;
  }

  /** Clearing the flags of the pages of slot `k` and freeing its run is the effect of `process_free`. */
  lemma UnmappedAndFreed(base: nat, s: Table, m: Ram, n: Ram, c: nat, slots: seq<Slot>, k: nat)
    requires base + |s| < FRAMES && k < |slots| && Space(m, c) && Dir(m, c) < FRAMES
    requires
      var f := Frame(slots[k].ptr);
      && base <= f && f + H.Blocks(slots[k].size) <= base + |s|
      && MapsRange(m, n, Dir(m, c), f, f, H.Blocks(slots[k].size), 0)
    ensures FreeDone(base, s, MarkFree(s, Frame(slots[k].ptr) - base), m, n, c, slots, slots[k := EMPTY_SLOT], k)
  {
    SpaceKept(m, n, c);
    assert SameFrame(m, n, Dir(m, c));
    var d, f, count := Dir(m, c), Frame(slots[k].ptr), H.Blocks(slots[k].size);
    forall p: nat | p < FRAMES
      ensures Entry(n, d, p) == if f <= p < f + count then PAGE_SIZE * p else Entry(m, d, p)
    {
      assert Entry(n, d, p) == RangeEntry(m, d, f, f, count, 0, p);
    }
  }

  /**
   What the slots must satisfy for `process_free`: each live pointer is the page-aligned start of its own
   blocks of the heap, and an unused slot is empty.
   */
  ghost predicate SlotsInRange(base: nat, total: nat, slots: seq<Slot>) {
    && (forall k :: 0 <= k < |slots| ==> SlotInRange(base, total, slots[k]))
    && (forall j, k :: 0 <= j < k < |slots| && Live(slots[j]) ==> slots[j].ptr != slots[k].ptr)
  }

  ghost predicate SlotInRange(base: nat, total: nat, x: Slot) {
    if Live(x) then
      && x.ptr % PAGE_SIZE == 0 && Frame(x.ptr) >= base && H.Blocks(x.size) >= 1
      && Frame(x.ptr) + H.Blocks(x.size) <= base + total
    else x == EMPTY_SLOT
  }

  lemma EmptiedInRange(base: nat, total: nat, slots: seq<Slot>, k: nat)
    requires SlotsInRange(base, total, slots) && k < |slots|
    ensures SlotsInRange(base, total, slots[k := EMPTY_SLOT])
  {
    var t := slots[k := EMPTY_SLOT];
    forall j | 0 <= j < |t|
      ensures SlotInRange(base, total, t[j])
    {
      assert SlotInRange(base, total, slots[j]);
    }
  }

  /** The slots after `process_free` has cleared those with the pointer. */
  ghost function Unjoined(slots: seq<Slot>, ptr: Word): seq<Slot> {
    seq(|slots|, k requires 0 <= k < |slots| => if slots[k].ptr == ptr then EMPTY_SLOT else slots[k])
  }

  lemma UnjoinedIs(base: nat, total: nat, slots: seq<Slot>, ptr: Word, k: nat)
    requires SlotsInRange(base, total, slots) && FirstWith(slots, ptr, k)
    ensures Unjoined(slots, ptr) == if ptr == 0 then slots else slots[k := EMPTY_SLOT]
  {
    assert forall j :: 0 <= j < |slots| ==> SlotInRange(base, total, slots[j]);
  }

  /**
   `process_free`. If a slot holds the pointer, `k` is the first such: its pages are unmapped, it is emptied
   and its run freed. The null pointer is that of the first unused slot, whose size is 0: then only `kfree`
   has an effect.
   */
  method ProcessFree(mem: Memory, process: Process, ptr: Word) returns (ghost found: bool, ghost k: nat)
    requires mem.Valid() && process.Valid() && process.Separate(mem)
    requires mem.Base() + |mem.Blocks()| < FRAMES && Space(mem.ram[..], process.Chunk())
    requires SlotsInRange(mem.Base(), |mem.Blocks()|, process.allocations[..])
    modifies mem.heap.entries, mem.below, mem.ram, process.allocations
    ensures mem.Valid()
    ensures found ==> FirstWith(old(process.allocations[..]), ptr, k)
    ensures !found ==>
      && (forall j :: 0 <= j < SLOTS ==> old(process.allocations[..])[j].ptr != ptr)
      && process.allocations[..] == old(process.allocations[..]) && mem.below[..] == old(mem.below[..])
      && mem.Blocks() == old(mem.Blocks()) && mem.ram[..] == old(mem.ram[..])
    ensures found ==> mem.below[..] + mem.Blocks() == MarkFree(old(mem.below[..] + mem.Blocks()), Frame(ptr))
    ensures found && ptr == 0 ==>
      process.allocations[..] == old(process.allocations[..]) && mem.ram[..] == old(mem.ram[..])
    ensures found && ptr != 0 ==>
      && mem.below[..] == old(mem.below[..])
      && FreeDone(mem.Base(), old(mem.Blocks()), mem.Blocks(), old(mem.ram[..]), mem.ram[..], process.Chunk(),
                  old(process.allocations[..]), process.allocations[..], k)
  {
    ghost var base, s := mem.Base(), mem.Blocks();
    ghost var m: Ram := mem.ram[..];
    ghost var slots := process.allocations[..];
    found, k := false, 0;
    var index := process.GetAllocationByAddr(ptr);
    if index < 0 {
      return;
    }
    found, k := true, index;
    var allocation := process.allocations[index];
    assert SlotInRange(base, |s|, slots[k]);
    UnmapSlot(mem.ram, process.pageDirectory, allocation, base, |s|);
    if ptr != 0 {
      UnmappedAndFreed(base, s, m, mem.ram[..], process.Chunk(), slots, k);
    }
    UnjoinedIs(base, |s|, slots, ptr, k);
    process.AllocationUnjoin(ptr);
    assert process.allocations[..] == Unjoined(slots, ptr);
    mem.KFreeAny(ptr);
  }

  /** The call of `paging_map_to` in `process_free`: no page for an unused slot. */
  method UnmapSlot(ram: array<Word>, directory: Word, allocation: Slot, ghost base: nat, ghost total: nat)
    requires ram.Length == RAM_WORDS && directory % PAGE_SIZE == 0 && Space(ram[..], Frame(directory))
    requires base + total < FRAMES && SlotInRange(base, total, allocation)
    modifies ram
    ensures !Live(allocation) ==> ram[..] == old(ram[..])
    ensures Live(allocation) ==>
      var m, f := old(ram[..]), Frame(allocation.ptr);
      MapsRange(m, ram[..], Dir(m, Frame(directory)), f, f, H.Blocks(allocation.size), 0)
  {
    if Live(allocation) {
      EndOfAllocation(allocation.ptr, allocation.size);
    }
    var res := P.PagingMapTo(ram, directory, allocation.ptr, allocation.ptr,
                             P.AlignAddress(Wrap(allocation.ptr + allocation.size)), 0);
  }
}
