/**
 The running kernel: one heap, physical memory and the process table. Its methods perform the calls
 of module ProcessState on the objects of module Process and keep the invariant.
 */
module System {
  import opened Words
  import opened HeapTable
  import opened PageTables
  import opened KernelHeap
  import opened AddressSpaces
  import opened Ownership
  import opened ProcessState
  import opened Process
  import opened ElfOwnership
  import opened KernelSteps
  import opened KernelRuns
  import opened SpaceRelease
  import opened BelowTable
  import opened NullFree
  import E = Elf
  import H = Heap
  import P = Paging

  ghost function ProcOf(p: Process): Proc
    reads p, p.allocations
  {
    Proc(p.Chunk(), p.allocations[..], p.image)
  }

  /** A process as `task_init` leaves it: a new address space, present and user, and unused slots. */
  method TaskInit(mem: Memory) returns (p: Process)
    requires mem.Valid() && WellFormed(mem.Blocks()) && FreeCount(mem.Blocks()) >= SPACE_FRAMES
    modifies mem.heap.entries, mem.ram
    ensures mem.Valid() && fresh(p) && fresh(p.allocations) && p.Valid() && p.allocations.Length == 1024
    ensures ProcOf(p) == Proc(p.Chunk(), seq(SLOTS, _ => EMPTY_SLOT), {})
    ensures NewSpace(mem.Base(), old(mem.Blocks()), mem.Blocks(), old(mem.ram[..]), mem.ram[..], p.Chunk(),
                     PRESENT + ACCESS_FROM_ALL)
    ensures FreeCount(mem.Blocks()) == old(FreeCount(mem.Blocks())) - SPACE_FRAMES
  {
    var chunk := PagingNew4gb(mem, PRESENT + ACCESS_FROM_ALL);
    var slots := new Slot[SLOTS](_ => EMPTY_SLOT);
    p := new Process(chunk, slots);
    assert slots[..] == seq(SLOTS, _ => EMPTY_SLOT);
  }

  class Kernel {
    const mem: Memory
    var processes: seq<Process>

    constructor (mem: Memory)
      requires mem.Valid() && VIDEO < mem.Base() && mem.Base() + |mem.Blocks()| < FRAMES && WellFormed(mem.Blocks())
      ensures this.mem == mem && processes == [] && Valid()
    {
      this.mem := mem;
      processes := [];
      new;
      PoolOfTable(mem.Base(), mem.Blocks());
    }

    ghost function Procs(): seq<Proc>
      reads this, processes, set p | p in processes :: p.allocations
    {
      var ps := processes;
      seq(|ps|, i requires 0 <= i < |ps| reads ps, set p | p in ps :: p.allocations => ProcOf(ps[i]))
    }

    ghost function Now(): State
      requires mem.Valid()
      reads this, mem, mem.heap, mem.heap.entries, mem.ram, processes, set p | p in processes :: p.allocations
    {
      State(mem.Base(), mem.Blocks(), mem.ram[..], Procs())
    }

    ghost predicate Distinct()
      reads this, mem, mem.heap, processes
    {
      && (forall i :: 0 <= i < |processes| ==> processes[i].Valid() && processes[i].Separate(mem))
      && (forall i, j :: 0 <= i < j < |processes| ==>
        processes[i] != processes[j] && processes[i].allocations != processes[j].allocations)
    }

    ghost predicate Valid()
      reads this, mem, mem.heap, mem.heap.entries, mem.ram, processes, set p | p in processes :: p.allocations
    {
      mem.Valid() && mem.Base() + |mem.Blocks()| < FRAMES && Distinct() && Ok(Now())
    }

    /** `process_malloc` on behalf of process `i`. */
    method Malloc(i: nat, size: Word) returns (ptr: Word)
      requires Valid() && i < |processes| && ServesRequest(mem.Blocks(), H.Blocks(size))
      modifies mem.heap.entries, mem.ram, processes[i].allocations
      ensures Valid() && processes == old(processes)
      ensures MallocStep(old(Now()), Now(), i, size, ptr)
    {
      ghost var s := Now();
      TablesAreNotFree(s, i);
      assert ProcOk(s.ram, s.procs[i]);
      ghost var k;
      ptr, k := ProcessMalloc(mem, processes[i], size);
      ghost var t := Now();
      assert forall j :: 0 <= j < |processes| && j != i ==> t.procs[j] == s.procs[j];
      assert t.procs == s.procs[i := s.procs[i].(slots := t.procs[i].slots)];
      assert ptr == 0 ==> t.procs == s.procs;
      if ptr != 0 {
        assert t.procs[i].slots == s.procs[i].slots[k := Slot(ptr, size)];
        assert FirstEmpty(s.procs[i].slots, k);
      }
      MallocKeepsOk(s, t, i, size, ptr);
    }

    /** What `process_free` relies on, whether or not the block table is in order. */
    ghost predicate Steady(i: nat)
      reads this, mem, mem.heap, mem.heap.entries, mem.ram, processes, set p | p in processes :: p.allocations
    {
      && i < |processes| && mem.Valid() && mem.Base() + |mem.Blocks()| < FRAMES && Distinct()
      && Space(mem.ram[..], processes[i].Chunk())
      && SlotsInRange(mem.Base(), |mem.Blocks()|, processes[i].allocations[..])
    }

    lemma ValidIsSteady(i: nat)
      requires Valid() && i < |processes|
      ensures Steady(i)
    {
      SlotsMatch(Now(), i);
      assert ProcOk(Now().ram, Now().procs[i]);
    }

    /** A free of the null pointer of an unused slot does not reach the table. */
    ghost predicate Harmless(i: nat, ptr: Word)
      requires i < |processes|
      reads this, mem, mem.heap, mem.heap.entries, mem.below, processes, processes[i].allocations
    {
      ptr == 0 && HasNull(processes[i].allocations[..]) ==> NullIsHarmless(mem.below[..], mem.Blocks())
    }

    /** `process_free` on behalf of process `i`, whether or not the block table is in order. */
    method FreePointer(i: nat, ptr: Word) returns (ghost found: bool, ghost k: nat)
      requires Steady(i)
      modifies mem.heap.entries, mem.below, mem.ram, processes[i].allocations
      ensures Steady(i) && processes == old(processes) && mem.Base() == old(mem.Base())
      ensures Procs() == old(Procs())[i := ProcOf(processes[i])] && processes[i].image == old(processes[i].image)
      ensures processes[i].allocations[..] == Unjoined(old(processes[i].allocations[..]), ptr)
      ensures found <==> HoldsPointer(old(processes[i].allocations[..]), ptr)
      ensures
        var w := old(mem.below[..] + mem.Blocks());
        mem.below[..] + mem.Blocks() == if found then MarkFree(w, Frame(ptr)) else w
      ensures Frames(mem.ram[..], processes[i].Chunk()) == old(Frames(mem.ram[..], processes[i].Chunk()))
      ensures FreeOutcome(old(Now()), Now(), i, ptr, found, k, NullIsHarmless(old(mem.below[..]), old(mem.Blocks())))
    {
      ghost var s, b, slots := Now(), mem.below[..], processes[i].allocations[..];
      found, k := ProcessFree(mem, processes[i], ptr);
      UnjoinedOf(mem.Base(), |s.table|, slots, ptr, found, k);
      NullFreeHarmlessIff(b, s.table);
      assert mem.Blocks() == (mem.below[..] + mem.Blocks())[mem.below.Length..];
      ghost var t := Now();
      assert forall j :: 0 <= j < |processes| && j != i ==> t.procs[j] == s.procs[j];
      assert t.procs == s.procs[i := ProcOf(processes[i])];
    }

    /**
     The same under the invariant, which is kept unless a null pointer is freed through bytes below the table
     that do not end the walk.
     */
    method Free(i: nat, ptr: Word)
      requires Steady(i)
      modifies mem.heap.entries, mem.below, mem.ram, processes[i].allocations
      ensures Steady(i) && processes == old(processes) && mem.Base() == old(mem.Base())
      ensures processes[i].allocations[..] == Unjoined(old(processes[i].allocations[..]), ptr)
      ensures
        var w := old(mem.below[..] + mem.Blocks());
        mem.below[..] + mem.Blocks() ==
          if HoldsPointer(old(processes[i].allocations[..]), ptr) then MarkFree(w, Frame(ptr)) else w
      ensures Frames(mem.ram[..], processes[i].Chunk()) == old(Frames(mem.ram[..], processes[i].Chunk()))
      ensures old(Valid() && Harmless(i, ptr)) ==> Valid() && FreeStep(old(Now()), Now(), i, ptr)
    {
      ghost var s, b, slots := Now(), mem.below[..], processes[i].allocations[..];
      ghost var ok := Valid() && Harmless(i, ptr);
      ghost var found, k := FreePointer(i, ptr);
      if ok {
        NullHeld(slots, ptr);
        OutcomeKeepsOk(s, Now(), i, ptr, found, k, NullIsHarmless(b, s.table));
      }
    }

    /** Puts a process on the list. */
    method Enter(p: Process)
      requires mem.Valid() && Distinct() && p.Valid() && p.Separate(mem)
      requires forall q :: q in processes ==> q != p && q.allocations != p.allocations
      modifies this
      ensures Distinct() && processes == old(processes) + [p] && Procs() == old(Procs()) + [ProcOf(p)]
    {
      processes := processes + [p];
    }

    /** `task_init` for a new process with no allocations. */
    method Spawn() returns (p: Process)
      requires Valid() && FreeCount(mem.Blocks()) >= SPACE_FRAMES
      modifies this, mem.heap.entries, mem.ram
      ensures Valid() && fresh(p) && processes == old(processes) + [p]
      ensures SpawnStep(old(Now()), Now())
      ensures FreeCount(mem.Blocks()) == old(FreeCount(mem.Blocks())) - SPACE_FRAMES
    {
      ghost var s := Now();
      p := TaskInit(mem);
      assert Procs() == s.procs;
      Enter(p);
      SpawnKeepsOk(s, Now());
    }

    /** The same for a process whose image and stack the kernel already holds. */
    method SpawnLoaded(program: Word, stack: Word) returns (p: Process)
      requires Valid() && FreeCount(mem.Blocks()) >= SPACE_FRAMES
      requires MayAdopt(Now(), Frame(program)) && MayAdopt(Now(), Frame(stack)) && Frame(program) != Frame(stack)
      modifies this, mem.heap.entries, mem.ram
      ensures Valid() && fresh(p) && processes == old(processes) + [p]
      ensures SpawnLoadedStep(old(Now()), Now(), Frame(program), Frame(stack))
      ensures FreeCount(mem.Blocks()) == old(FreeCount(mem.Blocks())) - SPACE_FRAMES
    {
      ghost var s := Now();
      p := TaskInit(mem);
      p.image := {Frame(program), Frame(stack)};
      assert Procs() == s.procs;
      Enter(p);
      SpawnLoadedKeepsOk(s, Now(), Frame(program), Frame(stack));
    }

    /** `kzalloc` for a structure of the kernel's own, or for what will be an image or a stack. */
    method TakeZeroed(size: Word) returns (ptr: Word)
      requires Valid() && ServesRequest(mem.Blocks(), H.Blocks(size))
      modifies mem.heap.entries, mem.ram
      ensures Valid() && processes == old(processes) && Procs() == old(Procs())
      ensures ptr == 0 ==> Now() == old(Now()) && !(H.Blocks(size) >= 1 && Fits(mem.Blocks(), H.Blocks(size)))
      ensures ptr != 0 ==> TakeZeroStep(old(Now()), Now(), size, ptr)
    {
      ghost var s := Now();
      ptr := mem.KZalloc(size);
      ghost var t := Now();
      assert t.procs == s.procs;
      if ptr == 0 {
        assert t == s;
      } else {
        TakeZeroKeepsOk(s, t, size, ptr);
      }
    }

    /** The run at `ptr` becomes the image or the stack of process `i`. */
    method Adopt(i: nat, ptr: Word)
      requires Valid() && i < |processes|
      requires IsStart(PoolOf(mem.Base(), mem.Blocks()), Frame(ptr)) && Unowned(Now(), Frame(ptr))
      modifies processes[i]
      ensures Valid()
      ensures AdoptStep(old(Now()), Now(), i, Frame(ptr))
      ensures processes[i].image == old(processes[i].image) + {Frame(ptr)}
    {
      ghost var s := Now();
      processes[i].image := processes[i].image + {Frame(ptr)};
      ghost var t := Now();
      assert forall j :: 0 <= j < |processes| && j != i ==> t.procs[j] == s.procs[j];
      assert t.procs == s.procs[i := s.procs[i].(image := s.procs[i].image + {Frame(ptr)})];
      AdoptKeepsOk(s, t, i, Frame(ptr));
    }

    /** `paging_map_to` for the image, the stack or the screen, on behalf of process `i`. */
    method MapImage(i: nat, virt: Word, phys: Word, physEnd: Word, flags: nat) returns (res: int)
      requires Valid() && i < |processes| && flags < PAGE_SIZE
      requires phys <= physEnd ==> virt / PAGE_SIZE + (physEnd - phys) / PAGE_SIZE <= FRAMES
      requires MayMap(Now(), i, virt / PAGE_SIZE, phys / PAGE_SIZE,
                      if phys <= physEnd then (physEnd - phys) / PAGE_SIZE else 0, flags)
      modifies mem.ram
      ensures Valid() && processes == old(processes)
      ensures res != 0 ==> Now() == old(Now())
      ensures res == 0 <==>
        virt % PAGE_SIZE == 0 && phys % PAGE_SIZE == 0 && physEnd % PAGE_SIZE == 0 && phys <= physEnd
      ensures res == 0 ==>
        MapStep(old(Now()), Now(), i, virt / PAGE_SIZE, phys / PAGE_SIZE, (physEnd - phys) / PAGE_SIZE, flags)
    {
      ghost var s := Now();
      assert s.procs[i] == ProcOf(processes[i]) && ProcOk(s.ram, s.procs[i]);
      res := P.PagingMapTo(mem.ram, processes[i].pageDirectory, virt, phys, physEnd, flags);
      ghost var t := Now();
      assert t.procs == s.procs;
      if res == 0 {
        MapKeepsOk(s, t, i, virt / PAGE_SIZE, phys / PAGE_SIZE, (physEnd - phys) / PAGE_SIZE, flags);
      } else {
        assert t == s;
      }
    }

    /** `process_map_elf` on behalf of process `i`: even if it stops early, the system stays in order. */
    method MapElf(i: nat, elfMemory: Word, phs: seq<E.Phdr>) returns (res: int, ghost done: nat)
      requires Valid() && i < |processes| && ElfAllowed(Now(), i, elfMemory, phs)
      modifies mem.ram
      ensures Valid() && processes == old(processes) && Now() == old(Now()).(ram := mem.ram[..])
      ensures (res == 0 <==> E.AllMappable(elfMemory, phs)) && (res == 0 || res == -EINVARG)
      ensures done <= |phs| && (res == 0 <==> done == |phs|)
      ensures
        var m: Ram := old(mem.ram[..]);
        E.ElfMapped(m, mem.ram[..], Dir(m, processes[i].Chunk()), elfMemory, phs[..done])
      ensures ElfStep(old(Now()), Now(), i, elfMemory, phs[..done])
    {
      ghost var s := Now();
      assert s.procs[i] == ProcOf(processes[i]) && ProcOk(s.ram, s.procs[i]);
      res, done := E.ProcessMapElf(mem.ram, processes[i].pageDirectory, elfMemory, phs);
      assert Now().procs == s.procs;
      ElfMapKeepsOk(s, Now(), i, elfMemory, phs[..done]);
    }

    /**
     One turn of the loop below: `process_free` of the pointer in slot `k`, null or not. But for the block table
     the system stays in order, with the table `sh` that it would have if null pointers did not reach it.
     */
    method FreeSlot(i: nat, k: nat, ghost sh: Table)
      requires Steady(i) && k < SLOTS && Ok(Now().(table := sh))
      modifies mem.heap.entries, mem.below, mem.ram, processes[i].allocations
      ensures Steady(i) && processes == old(processes) && mem.Base() == old(mem.Base())
      ensures processes[i].allocations[..] == old(processes[i].allocations[..])[k := EMPTY_SLOT]
      ensures mem.below[..] + mem.Blocks() ==
        MarkFree(old(mem.below[..] + mem.Blocks()), Frame(old(processes[i].allocations[k].ptr)))
      ensures Frames(mem.ram[..], processes[i].Chunk()) == old(Frames(mem.ram[..], processes[i].Chunk()))
      ensures Ok(Now().(table := ClearSlot(mem.Base(), sh, old(processes[i].allocations[k]))))
    {
      ghost var s, harmless := Now(), NullIsHarmless(mem.below[..], mem.Blocks());
      UnjoinedIsEmptied(mem.Base(), |mem.Blocks()|, processes[i].allocations[..], k);
      ghost var slot := processes[i].allocations[k];
      ghost var found, l := FreePointer(i, processes[i].allocations[k].ptr);
      OutcomeKeepsRest(s, Now(), i, slot, found, l, harmless, sh);
    }

    /**
     `process_terminate_allocations`: every slot is emptied, and the pointers of all of them, null ones
     included, go to `kfree` in turn. But for the block table the system stays in order, and the table is the
     one without the runs of the live slots if and only if the frees are exact.
     */
    method TerminateAllocations(i: nat)
      requires Valid() && i < |processes|
      modifies mem.heap.entries, mem.below, mem.ram, processes[i].allocations
      ensures Steady(i) && processes == old(processes) && mem.Base() == old(mem.Base())
      ensures forall k :: 0 <= k < SLOTS ==> processes[i].allocations[k] == EMPTY_SLOT
      ensures mem.below[..] + mem.Blocks() ==
        FreeSlots(old(mem.below[..] + mem.Blocks()), old(processes[i].allocations[..]))
      ensures Frames(mem.ram[..], processes[i].Chunk()) == old(Frames(mem.ram[..], processes[i].Chunk()))
      ensures
        var exact := SlotsCleared(mem.Base(), old(mem.Blocks()), old(processes[i].allocations[..]), false);
        && Ok(Now().(table := exact))
        && (mem.Blocks() == exact <==> old(FreesAreExact(mem.below[..], mem.Blocks(), processes[i].allocations[..])))
        && (mem.Blocks() == exact ==> Valid())
    {
      ghost var b, s, slots := mem.below[..], mem.Blocks(), processes[i].allocations[..];
      ValidIsSteady(i);
      SlotsMatch(Now(), i);
      EmptySlots(i);
      TerminatedTable(b, s, slots, mem.below[..], mem.Blocks());
      assert mem.Blocks() == SlotsCleared(|b|, s, slots, false) ==>
        Now() == Now().(table := SlotsCleared(|b|, s, slots, false));
    }

    /** The loop of it. */
    method EmptySlots(i: nat)
      requires Steady(i) && WellFormed(mem.Blocks()) && mem.Base() >= 1 && Ok(Now())
      requires SlotsAreRuns(mem.Base(), mem.Blocks(), processes[i].allocations[..])
      modifies mem.heap.entries, mem.below, mem.ram, processes[i].allocations
      ensures Steady(i) && processes == old(processes) && mem.Base() == old(mem.Base())
      ensures forall k :: 0 <= k < SLOTS ==> processes[i].allocations[k] == EMPTY_SLOT
      ensures mem.below[..] + mem.Blocks() ==
        FreeSlots(old(mem.below[..] + mem.Blocks()), old(processes[i].allocations[..]))
      ensures Frames(mem.ram[..], processes[i].Chunk()) == old(Frames(mem.ram[..], processes[i].Chunk()))
      ensures
        Ok(Now().(table := SlotsCleared(mem.Base(), old(mem.Blocks()), old(processes[i].allocations[..]), false)))
    {
      ghost var base, b, s, slots := mem.Base(), mem.below[..], mem.Blocks(), processes[i].allocations[..];
      assert slots[..0] == [];
      NoneCleared(base, s);
      var k := 0;
      while k < SLOTS
        invariant 0 <= k <= SLOTS && Steady(i) && processes == old(processes) && mem.Base() == base
        invariant processes[i].allocations[..] == EmptiedUpTo(slots, k)
        invariant Frames(mem.ram[..], processes[i].Chunk()) == old(Frames(mem.ram[..], processes[i].Chunk()))
        invariant mem.below[..] + mem.Blocks() == FreeSlots(b + s, slots[..k])
        invariant Ok(Now().(table := SlotsCleared(base, s, slots[..k], false)))
      {
        EmptiedStep(slots, k);
        OneMoreCleared(base, s, slots, k);
        FreeSlot(i, k, SlotsCleared(base, s, slots[..k], false));
        k := k + 1;
      }
      assert slots[..SLOTS] == slots;
    }

    /** `kmalloc` for a structure of the kernel's own. */
    method Take(size: Word) returns (ptr: Word)
      requires Valid() && ServesRequest(mem.Blocks(), H.Blocks(size))
      modifies mem.heap.entries
      ensures Valid() && processes == old(processes)
      ensures if ptr == 0 then Now() == old(Now()) else TakeStep(old(Now()), Now(), size, ptr)
    {
      ghost var s := Now();
      ptr := mem.KMalloc(size);
      assert Procs() == s.procs;
      if ptr != 0 {
        TakeKeepsOk(s, Now(), size, ptr);
      }
    }

    /** `kfree` of the start of a run that no process accounts for. */
    method Release(ptr: Word)
      requires Valid() && mem.Base() <= Frame(ptr) && Frame(ptr) - mem.Base() in Runs(mem.Blocks())
      requires Unowned(Now(), Frame(ptr))
      modifies mem.heap.entries
      ensures Valid() && processes == old(processes)
      ensures ReleaseStep(old(Now()), Now(), Frame(ptr))
      ensures DropsRuns(mem.Base(), old(mem.Blocks()), mem.Blocks(), {Frame(ptr)})
    {
      ghost var s := Now();
      ghost var t := s.(table := MarkFree(s.table, Frame(ptr) - s.base));
      ReleaseKeepsOk(s, t, Frame(ptr));
      FreeDropsFrame(s.base, s.table, Frame(ptr));
      mem.KFree(ptr);
      assert Now() == t by { assert Procs() == s.procs; }
    }

    /** `process_terminate` but for its last step: the memory of process `i` goes back to the heap. */
    method ReleaseMemory(i: nat, program: Word, stack: Word)
      requires Valid() && i < |processes|
      requires FreesAreExact(mem.below[..], mem.Blocks(), processes[i].allocations[..])
      requires processes[i].image == {Frame(program), Frame(stack)} && Frame(program) != Frame(stack)
      modifies mem.heap.entries, mem.below, mem.ram, processes[i].allocations
      ensures processes == old(processes) && mem.Valid() && mem.Base() == old(mem.Base()) && Distinct()
      ensures Ok(State(mem.Base(), mem.Blocks(), mem.ram[..], Procs()[..i] + Procs()[i + 1..]))
      ensures DropsRuns(mem.Base(), old(mem.Blocks()), mem.Blocks(),
        old(Owned(ViewOf(mem.ram[..], ProcOf(processes[i])))))
    {
      ghost var base, s, fs := mem.Base(), mem.Blocks(), SlotStarts(processes[i].allocations[..]);
      ReleaseAllocations(i);
      ghost var t, gs := mem.Blocks(), Owned(ViewOf(mem.ram[..], ProcOf(processes[i])));
      ReleaseRest(i, program, stack);
      DropsMore(base, s, t, mem.Blocks(), fs, gs);
    }

    /** The allocations of process `i`, which go back as runs when the frees are exact. */
    method ReleaseAllocations(i: nat)
      requires Valid() && i < |processes|
      requires FreesAreExact(mem.below[..], mem.Blocks(), processes[i].allocations[..])
      modifies mem.heap.entries, mem.below, mem.ram, processes[i].allocations
      ensures Valid() && processes == old(processes) && mem.Base() == old(mem.Base())
      ensures forall k :: 0 <= k < SLOTS ==> processes[i].allocations[k] == EMPTY_SLOT
      ensures DropsRuns(mem.Base(), old(mem.Blocks()), mem.Blocks(), old(SlotStarts(processes[i].allocations[..])))
      ensures old(Owned(ViewOf(mem.ram[..], ProcOf(processes[i])))) ==
        old(SlotStarts(processes[i].allocations[..])) + Owned(ViewOf(mem.ram[..], ProcOf(processes[i])))
    {
      ghost var v := ViewOf(mem.ram[..], ProcOf(processes[i]));
      assert Now().procs[i] == ProcOf(processes[i]);
      AllocationsCleared(Now(), i);
      TerminateAllocations(i);
      OwnedInTwoParts(v, ViewOf(mem.ram[..], ProcOf(processes[i])));
    }

    /** The part of it behind the allocations. */
    method ReleaseRest(i: nat, program: Word, stack: Word)
      requires Valid() && i < |processes|
      requires processes[i].image == {Frame(program), Frame(stack)} && Frame(program) != Frame(stack)
      requires forall k :: 0 <= k < SLOTS ==> processes[i].allocations[k] == EMPTY_SLOT
      modifies mem.heap.entries
      ensures processes == old(processes) && mem.Valid() && mem.Base() == old(mem.Base()) && Distinct()
      ensures Procs() == old(Procs())
      ensures Ok(State(mem.Base(), mem.Blocks(), mem.ram[..], Procs()[..i] + Procs()[i + 1..]))
      ensures DropsRuns(mem.Base(), old(mem.Blocks()), mem.Blocks(), Owned(ViewOf(mem.ram[..], ProcOf(processes[i]))))
    {
      ghost var t := Now();
      ReleaseAll(mem, processes[i].pageDirectory, program, stack, t, i);
      assert Procs() == t.procs;
    }

    /** `process_unlink` */
    method Leave(i: nat)
      requires i < |processes| && Distinct()
      modifies this
      ensures processes == old(processes[..i] + processes[i + 1..]) && Distinct()
      ensures Procs() == old(Procs()[..i] + Procs()[i + 1..])
    {
      ghost var ps := processes;
      processes := processes[..i] + processes[i + 1..];
      assert forall j :: 0 <= j < |processes| ==> processes[j] == ps[if j < i then j else j + 1];
    }

    /**
     `task_free` of a process that could not be loaded: its address space and its task structure go back, and
     it leaves the list. Its image and stack stay runs of the kernel's own.
     */
    method Abandon(i: nat, task: Word)
      requires Valid() && i < |processes| && KernelRun(Now(), Frame(task), 1)
      modifies this, mem.heap.entries
      ensures Valid() && processes == old(processes[..i] + processes[i + 1..])
      ensures DropsRuns(mem.Base(), old(mem.Blocks()), mem.Blocks(),
        old(Frames(mem.ram[..], processes[i].Chunk())) + {Frame(task)})
    {
      ghost var base, s, fs := mem.Base(), mem.Blocks(), Frames(mem.ram[..], processes[i].Chunk());
      ReleaseSpace(i, Frame(task));
      ghost var u := mem.Blocks();
      ghost var w := State(base, u, mem.ram[..], Procs()[..i] + Procs()[i + 1..]);
      Leave(i);
      assert Now() == w;
      Release(task);
      DropsMore(base, s, u, mem.Blocks(), fs, {Frame(task)});
    }

    /** `paging_free_4gb` of process `i`, which leaves the list next; the run at frame `f` is still the kernel's. */
    method ReleaseSpace(i: nat, ghost f: nat)
      requires Valid() && i < |processes| && KernelRun(Now(), f, 1)
      modifies mem.heap.entries
      ensures processes == old(processes) && mem.Valid() && mem.Base() == old(mem.Base()) && Distinct()
      ensures Procs() == old(Procs())
      ensures
        var w := State(mem.Base(), mem.Blocks(), mem.ram[..], Procs()[..i] + Procs()[i + 1..]);
        Ok(w) && KernelRun(w, f, 1)
      ensures DropsRuns(mem.Base(), old(mem.Blocks()), mem.Blocks(), Frames(mem.ram[..], processes[i].Chunk()))
    {
      ghost var t, fs := Now(), Frames(mem.ram[..], processes[i].Chunk());
      assert t.procs[i] == ProcOf(processes[i]);
      OwnedRuns(t, i);
      FreeSpace(i);
      SpaceForgotten(t, i, mem.Blocks(), fs, f);
    }

    method FreeSpace(i: nat)
      requires mem.Valid() && Distinct() && i < |processes| && Space(mem.ram[..], processes[i].Chunk())
      requires SpaceLive(mem.Base(), mem.Blocks(), mem.ram[..], processes[i].Chunk())
      modifies mem.heap.entries
      ensures mem.Valid() && mem.Base() == old(mem.Base()) && Procs() == old(Procs())
      ensures
        mem.Blocks() == Marked(mem.Base(), old(mem.Blocks()), Frames(mem.ram[..], processes[i].Chunk()), FREE)
    {
      ghost var ps := Procs();
      PagingFree4gb(mem, processes[i].pageDirectory);
      assert Procs() == ps;
    }

    /**
     `process_terminate`: the allocations, the program image, the stack and the address space of process `i`
     go back to the heap, and it leaves the process table. Of the heap exactly its runs are dropped.
     */
    method Terminate(i: nat, program: Word, stack: Word)
      requires Valid() && i < |processes|
      requires FreesAreExact(mem.below[..], mem.Blocks(), processes[i].allocations[..])
      requires processes[i].image == {Frame(program), Frame(stack)} && Frame(program) != Frame(stack)
      modifies this, mem.heap.entries, mem.below, mem.ram, processes[i].allocations
      ensures Valid() && processes == old(processes[..i] + processes[i + 1..])
      ensures DropsRuns(mem.Base(), old(mem.Blocks()), mem.Blocks(),
        old(Owned(ViewOf(mem.ram[..], ProcOf(processes[i])))))
    {
      ReleaseMemory(i, program, stack);
      Leave(i);
    }
  }

  /** What a process owns is what its slots hold and what it owns without them. */
  lemma OwnedInTwoParts(v: View, w: View)
    requires w.frames == v.frames && w.image == v.image
    requires forall k :: 0 <= k < |w.slots| ==> w.slots[k] == EMPTY_SLOT
    ensures Owned(v) == SlotStarts(v.slots) + Owned(w)
  {
    assert SlotStarts(w.slots) == {};
  }

  /** The part of `process_terminate` behind the allocations, for process `i` of state `t`, which has none left. */
  method ReleaseAll(mem: Memory, directory: Word, program: Word, stack: Word, ghost t: State, ghost i: nat)
    requires mem.Valid() && Ok(t) && t.base == mem.Base() && t.table == mem.Blocks() && t.ram == mem.ram[..]
    requires i < |t.procs| && t.procs[i].chunk == Frame(directory) && directory % PAGE_SIZE == 0
    requires t.procs[i].image == {Frame(program), Frame(stack)} && Frame(program) != Frame(stack)
    requires forall k :: 0 <= k < |t.procs[i].slots| ==> t.procs[i].slots[k] == EMPTY_SLOT
    modifies mem.heap.entries
    ensures mem.Valid()
    ensures DropsRuns(t.base, t.table, mem.Blocks(), Owned(ViewOf(t.ram, t.procs[i])))
    ensures Ok(State(t.base, mem.Blocks(), t.ram, t.procs[..i] + t.procs[i + 1..]))
  {
    ghost var v := ViewOf(t.ram, t.procs[i]);
    ghost var fs := {Frame(program), Frame(stack)};
    OwnedRuns(t, i);
    FreeTwo(mem, program, stack);
    ghost var u := mem.Blocks();
    LiveAfterDrop(t, i, u, fs);
    PagingFree4gb(mem, directory);
    SinglesDropped(t.base, u, v.frames);
    DropsMore(t.base, t.table, u, mem.Blocks(), fs, v.frames);
    assert SlotStarts(v.slots) == {};
    assert fs + v.frames == Owned(v);
    Forgotten(t, i, mem.Blocks(), Owned(v));
  }

  /** `kfree` of the start of a run. */
  method FreeOne(mem: Memory, a: Word)
    requires mem.Valid() && WellFormed(mem.Blocks())
    requires mem.Base() <= Frame(a) && Frame(a) - mem.Base() in Runs(mem.Blocks())
    modifies mem.heap.entries
    ensures mem.Valid()
    ensures DropsRuns(mem.Base(), old(mem.Blocks()), mem.Blocks(), {Frame(a)})
  {
    FreeDropsFrame(mem.Base(), mem.Blocks(), Frame(a));
    mem.KFree(a);
  }

  /** `kfree` of the program image and of the stack. */
  method FreeTwo(mem: Memory, a: Word, b: Word)
    requires mem.Valid() && WellFormed(mem.Blocks()) && Frame(a) != Frame(b)
    requires mem.Base() <= Frame(a) && Frame(a) - mem.Base() in Runs(mem.Blocks())
    requires mem.Base() <= Frame(b) && Frame(b) - mem.Base() in Runs(mem.Blocks())
    modifies mem.heap.entries
    ensures mem.Valid()
    ensures DropsRuns(mem.Base(), old(mem.Blocks()), mem.Blocks(), {Frame(a), Frame(b)})
  {
    ghost var base, s := mem.Base(), mem.Blocks();
    FreeOne(mem, a);
    ghost var t := mem.Blocks();
    assert RunDropped(base, s, t, {Frame(a)}, Frame(b) - base);
    FreeOne(mem, b);
    DropsMore(base, s, t, mem.Blocks(), {Frame(a)}, {Frame(b)});
    assert {Frame(a)} + {Frame(b)} == {Frame(a), Frame(b)};
  }

  lemma OwnedRuns(t: State, i: nat)
    requires Ok(t) && i < |t.procs|
    ensures t.procs[i].chunk < FRAMES && Space(t.ram, t.procs[i].chunk)
    ensures SpaceLive(t.base, t.table, t.ram, t.procs[i].chunk)
    ensures forall f :: f in t.procs[i].image ==> t.base <= f && f - t.base in Runs(t.table)
    ensures t.procs[i].image !! Frames(t.ram, t.procs[i].chunk)
  {
    var v := Views(t.ram, t.procs)[i];
    assert ProcOk(t.ram, t.procs[i]) && v == ViewOf(t.ram, t.procs[i]) && ViewOk(PoolOf(t.base, t.table), v);
    TablesAreNotFree(t, i);
    assert forall f :: f in v.image ==> IsStart(PoolOf(t.base, t.table), f);
  }

  lemma DropKeepsStart(base: nat, s: Table, u: Table, fs: set<nat>, f: nat)
    requires DropsRuns(base, s, u, fs) && IsStart(PoolOf(base, s), f) && f !in fs
    ensures IsStart(PoolOf(base, u), f) && RunLength(PoolOf(base, u), f) == RunLength(PoolOf(base, s), f)
  {
    assert RunDropped(base, s, u, fs, f - base);
  }

  lemma LiveAfterDrop(t: State, i: nat, u: Table, fs: set<nat>)
    requires Ok(t) && i < |t.procs| && t.procs[i].chunk < FRAMES && fs !! Frames(t.ram, t.procs[i].chunk)
    requires DropsRuns(t.base, t.table, u, fs)
    ensures SpaceLive(t.base, u, t.ram, t.procs[i].chunk)
  {
    var v := Views(t.ram, t.procs)[i];
    assert v == ViewOf(t.ram, t.procs[i]) && ViewOk(PoolOf(t.base, t.table), v);
    forall f | f in v.frames
      ensures IsStart(PoolOf(t.base, u), f) && RunLength(PoolOf(t.base, u), f) == 1
    {
      assert IsStart(PoolOf(t.base, t.table), f) && RunLength(PoolOf(t.base, t.table), f) == 1;
      DropKeepsStart(t.base, t.table, u, fs, f);
    }
    SpaceIsLive(t.base, u, t.ram, t.procs[i]);
  }

  lemma Forgotten(t: State, i: nat, u: Table, fs: set<nat>)
    requires Ok(t) && i < |t.procs| && t.procs[i].chunk < FRAMES
    requires fs <= Owned(ViewOf(t.ram, t.procs[i])) && DropsRuns(t.base, t.table, u, fs)
    ensures Ok(State(t.base, u, t.ram, t.procs[..i] + t.procs[i + 1..]))
  {
    var w := t.(procs := t.procs[..i] + t.procs[i + 1..]);
    ForgetKeepsOk(t, w, i);
    forall f | f in fs
      ensures Unowned(w, f)
    {
      ForgottenIsUnowned(t, w, i, f);
    }
    DropKeepsOk(w, w.(table := u), fs);
  }

  /** Without its address space the process can leave the list. */
  lemma SpaceForgotten(t: State, i: nat, u: Table, fs: set<nat>, f: nat)
    requires Ok(t) && i < |t.procs| && t.procs[i].chunk < FRAMES && KernelRun(t, f, 1)
    requires SpaceLive(t.base, t.table, t.ram, t.procs[i].chunk)
    requires fs == Frames(t.ram, t.procs[i].chunk) && u == Marked(t.base, t.table, fs, FREE)
    ensures
      var w := State(t.base, u, t.ram, t.procs[..i] + t.procs[i + 1..]);
      Ok(w) && KernelRun(w, f, 1) && DropsRuns(t.base, t.table, u, fs)
  {
    SinglesDropped(t.base, t.table, fs);
    Forgotten(t, i, u, fs);
    TaskStays(t, i, u, fs, f);
  }

  /** The task structure is still a run of the kernel's own once its process has left. */
  lemma TaskStays(t: State, i: nat, u: Table, fs: set<nat>, f: nat)
    requires Ok(t) && i < |t.procs| && t.procs[i].chunk < FRAMES && KernelRun(t, f, 1)
    requires fs == Frames(t.ram, t.procs[i].chunk) && DropsRuns(t.base, t.table, u, fs)
    ensures KernelRun(State(t.base, u, t.ram, t.procs[..i] + t.procs[i + 1..]), f, 1)
  {
    var w := State(t.base, u, t.ram, t.procs[..i] + t.procs[i + 1..]);
    assert f !in Owned(ViewOf(t.ram, t.procs[i]));
    assert RunDropped(t.base, t.table, u, fs, f - t.base);
    forall j | 0 <= j < |w.procs| && w.procs[j].chunk < FRAMES
      ensures f !in Owned(ViewOf(w.ram, w.procs[j]))
    {
      assert w.procs[j] == t.procs[if j < i then j else j + 1];
    }
  }

  ghost predicate HoldsPointer(slots: seq<Slot>, ptr: Word) {
    exists k :: 0 <= k < |slots| && slots[k].ptr == ptr
  }

  lemma UnjoinedOf(base: nat, total: nat, slots: seq<Slot>, ptr: Word, found: bool, k: nat)
    requires SlotsInRange(base, total, slots)
    requires if found then FirstWith(slots, ptr, k) else forall j :: 0 <= j < |slots| ==> slots[j].ptr != ptr
    ensures Unjoined(slots, ptr) == if found && ptr != 0 then slots[k := EMPTY_SLOT] else slots
    ensures HoldsPointer(slots, ptr) <==> found
    ensures SlotsInRange(base, total, Unjoined(slots, ptr))
  {
    if found {
      UnjoinedIs(base, total, slots, ptr, k);
      EmptiedInRange(base, total, slots, k);
    } else {
      assert Unjoined(slots, ptr) == slots;
    }
  }

  /** No other slot holds the pointer of a live slot, and the null ones are empty. */
  lemma UnjoinedIsEmptied(base: nat, total: nat, slots: seq<Slot>, k: nat)
    requires SlotsInRange(base, total, slots) && k < |slots|
    ensures Unjoined(slots, slots[k].ptr) == slots[k := EMPTY_SLOT] && HoldsPointer(slots, slots[k].ptr)
  {
    forall j | 0 <= j < |slots|
      ensures Unjoined(slots, slots[k].ptr)[j] == slots[k := EMPTY_SLOT][j]
    {
      assert SlotInRange(base, total, slots[j]) && SlotInRange(base, total, slots[k]);
    }
  }

  ghost function EmptiedUpTo(slots: seq<Slot>, k: nat): seq<Slot> {
    seq(|slots|, j requires 0 <= j < |slots| => if j < k then EMPTY_SLOT else slots[j])
  }

  lemma EmptiedStep(slots: seq<Slot>, k: nat)
    requires k < |slots|
    ensures EmptiedUpTo(slots, k + 1) == EmptiedUpTo(slots, k)[k := EMPTY_SLOT] && EmptiedUpTo(slots, k)[k] == slots[k]
    ensures slots[..k + 1] == slots[..k] + [slots[k]]
  {
  }

  lemma TerminatedTable(b: Table, s: Table, slots: seq<Slot>, b2: Table, s2: Table)
    requires WellFormed(s) && b != [] && SlotsAreRuns(|b|, s, slots)
    requires |b2| == |b| && b2 + s2 == FreeSlots(b + s, slots)
    ensures s2 == SlotsCleared(|b|, s, slots, false) <==> FreesAreExact(b, s, slots)
  {
    FreeSlotsExactIff(b, s, slots);
    assert s2 == (b2 + s2)[|b|..];
  }

  /** Under the invariant the slots are in range, and the live ones are runs. */
  lemma SlotsMatch(s: State, i: nat)
    requires Ok(s) && i < |s.procs|
    ensures SlotsInRange(s.base, |s.table|, s.procs[i].slots) && SlotsAreRuns(s.base, s.table, s.procs[i].slots)
  {
    var v := Views(s.ram, s.procs)[i];
    assert v == ViewOf(s.ram, s.procs[i]) && ViewOk(PoolOf(s.base, s.table), v);
    forall k | 0 <= k < |v.slots|
      ensures SlotInRange(s.base, |s.table|, v.slots[k])
      ensures Live(v.slots[k]) ==> SlotStartsRun(s.base, s.table, v.slots[k]) && v.slots[k].ptr % PAGE_SIZE == 0
    {
      SlotMatches(s.base, s.table, v, v.slots[k]);
    }
  }

  lemma AllocationsCleared(s: State, i: nat)
    requires Ok(s) && i < |s.procs|
    ensures
      var slots := s.procs[i].slots;
      DropsRuns(s.base, s.table, SlotsCleared(s.base, s.table, slots, false), SlotStarts(slots))
  {
    SlotsMatch(s, i);
    ClearedRuns(s.base, s.table, s.procs[i].slots);
  }

  lemma SlotMatches(base: nat, s: Table, v: View, x: Slot)
    requires WellFormed(s) && SlotOk(PoolOf(base, s), v, x)
    ensures SlotInRange(base, |s|, x)
    ensures Live(x) ==> SlotStartsRun(base, s, x) && x.ptr % PAGE_SIZE == 0
  {
    if Live(x) {
      RunIsTaken(s, Frame(x.ptr) - base);
    }
  }

  lemma NullHeld(slots: seq<Slot>, ptr: Word)
    ensures ptr == 0 && HoldsPointer(slots, ptr) ==> HasNull(slots)
  {
  }

  /** What one `process_free` does to the state of the system; freeing null has an effect if that is not `harmless`. */
  ghost predicate FreeOutcome(s: State, t: State, i: nat, ptr: Word, found: bool, k: nat, harmless: bool) {
    && i < |s.procs| && i < |t.procs| && Space(s.ram, s.procs[i].chunk) && t.base == s.base
    && t.procs == s.procs[i := s.procs[i].(slots := t.procs[i].slots)]
    && (!found || ptr == 0 ==> t.procs[i].slots == s.procs[i].slots && t.ram == s.ram)
    && (!found || (ptr == 0 && harmless) ==> t.table == s.table)
    && (!found ==> forall j :: 0 <= j < |s.procs[i].slots| ==> s.procs[i].slots[j].ptr != ptr)
    && (found && ptr != 0 ==>
      && FirstWith(s.procs[i].slots, ptr, k)
      && FreeDone(s.base, s.table, t.table, s.ram, t.ram, s.procs[i].chunk, s.procs[i].slots, t.procs[i].slots, k))
  }

  lemma OutcomeKeepsOk(s: State, t: State, i: nat, ptr: Word, found: bool, k: nat, harmless: bool)
    requires Ok(s) && FreeOutcome(s, t, i, ptr, found, k, harmless) && (found && ptr == 0 ==> harmless)
    ensures Ok(t) && FreeStep(s, t, i, ptr)
  {
    if !found || ptr == 0 {
      assert t.procs == s.procs;
    } else {
      forall l: nat | FirstWith(s.procs[i].slots, ptr, l)
        ensures l == k
      {
      }
    }
    FreeKeepsOk(s, t, i, ptr);
  }

  /** The same call on a system with another block table, which changes as far as the slot is a live one. */
  lemma OutcomeKeepsRest(s: State, t: State, i: nat, x: Slot, found: bool, k: nat, harmless: bool, sh: Table)
    requires FreeOutcome(s, t, i, x.ptr, found, k, harmless) && Ok(s.(table := sh))
    requires HoldsPointer(s.procs[i].slots, x.ptr)
    ensures Ok(t.(table := ClearSlot(s.base, sh, x)))
  {
    var s2, t2 := s.(table := sh), t.(table := ClearSlot(s.base, sh, x));
    assert FreeOutcome(s2, t2, i, x.ptr, found, k, true);
    OutcomeKeepsOk(s2, t2, i, x.ptr, found, k, true);
  }
}
