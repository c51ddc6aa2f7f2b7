/**
 Heap runs the kernel holds for itself while it does other things: they stay where they are, nobody
 else gets them, and what was read into them stays there.
 */
module KernelRuns {
  import opened Words
  import opened HeapTable
  import opened PageTables
  import opened AddressSpaces
  import opened Ownership
  import opened ProcessState
  import opened KernelSteps
  import opened MemoryBytes
  import Steps = OwnershipSteps
  import H = Heap

  /** A run of `n` blocks at frame `f` that no process accounts for. */
  ghost predicate KernelRun(s: State, f: nat, n: nat) {
    && s.base <= f && f - s.base in Runs(s.table) && Runs(s.table)[f - s.base] == n
    && Unowned(s, f)
  }

  /** The frames of a run are the same in both memories. */
  ghost predicate SameRun(m: Ram, n: Ram, f: nat, count: nat) {
    forall g: nat :: f <= g < f + count && g < FRAMES ==> SameFrame(m, n, g)
  }

  /** The bytes from address `a` on are `data`. */
  ghost predicate BytesAt(m: Ram, a: Word, data: seq<Byte>) {
    a + |data| <= 0x1_0000_0000 && forall j: nat :: j < |data| ==> GetByte(m, a + j) == data[j]
  }

  lemma BytesStay(m: Ram, n: Ram, a: Word, data: seq<Byte>, f: nat, count: nat)
    requires BytesAt(m, a, data) && SameRun(m, n, f, count) && a == PAGE_SIZE * f && |data| <= PAGE_SIZE * count
    ensures BytesAt(n, a, data)
  {
    forall j: nat | j < |data|
      ensures GetByte(n, a + j) == data[j]
    {
      assert f <= Frame(a + j) < f + count;
      SameFrameBytes(m, n, Frame(a + j), a + j);
    }
  }

  lemma SameRunTrans(m: Ram, n: Ram, o: Ram, f: nat, count: nat)
    requires SameRun(m, n, f, count) && SameRun(n, o, f, count)
    ensures SameRun(m, o, f, count)
  {
    forall g: nat | f <= g < f + count && g < FRAMES
      ensures SameFrame(m, o, g)
    {
      assert SameFrame(m, n, g) && SameFrame(n, o, g);
    }
  }

  /** No block of a run is free. */
  lemma RunIsNotFree(base: nat, s: Table, f: nat, x: nat)
    requires WellFormed(s) && InRun(PoolOf(base, s), f, x)
    ensures !FreeFrame(base, s, x) && x < base + |s|
  {
    RunIsTaken(s, f - base);
  }

  // ---------- A new run ----------

  /** A run just taken is the kernel's, and at none of the frames where runs were before. */
  lemma TakenIsKernels(s: State, t: State, size: Word, ptr: Word)
    requires Ok(s) && TakeZeroStep(s, t, size, ptr)
    ensures KernelRun(t, Frame(ptr), H.Blocks(size)) && !IsStart(PoolOf(s.base, s.table), Frame(ptr))
  {
    FreshRunIsNew(s.base, s.table, t.table, ptr, size);
    TakeZeroIs(s, t, size, ptr);
    var u := s.(table := t.table);
    NobodysStart(s, Frame(ptr));
    WriteKeepsUnowned(s, t, Frame(ptr));
  }

  lemma NobodysStart(s: State, f: nat)
    requires Ok(s) && !IsStart(PoolOf(s.base, s.table), f)
    ensures Unowned(s, f)
  {
    var vs := Views(s.ram, s.procs);
    forall j | 0 <= j < |s.procs| && s.procs[j].chunk < FRAMES
      ensures f !in Owned(ViewOf(s.ram, s.procs[j]))
    {
      assert vs[j] == ViewOf(s.ram, s.procs[j]);
      Steps.OwnedAreStarts(PoolOf(s.base, s.table), vs[j]);
    }
  }

  /** The memory of the page tables is the same, and so are the processes. */
  lemma WriteKeepsUnowned(s: State, t: State, f: nat)
    requires Ok(s) && Unowned(s, f) && t.procs == s.procs
    requires WriteStep(s.(table := t.table), t)
    ensures Unowned(t, f)
  {
    forall j | 0 <= j < |t.procs| && t.procs[j].chunk < FRAMES
      ensures f !in Owned(ViewOf(t.ram, t.procs[j]))
    {
      assert ProcOk(s.ram, s.procs[j]);
      ViewIsLocal(s.ram, t.ram, s.procs[j]);
    }
  }

  // ---------- What the steps leave alone ----------

  lemma TakeZeroKeepsRun(s: State, t: State, size: Word, ptr: Word, f: nat, n: nat)
    requires Ok(s) && TakeZeroStep(s, t, size, ptr) && KernelRun(s, f, n)
    ensures KernelRun(t, f, n) && f != Frame(ptr) && SameRun(s.ram, t.ram, f, n)
  {
    FreshRunIsNew(s.base, s.table, t.table, ptr, size);
    TakeZeroIs(s, t, size, ptr);
    WriteKeepsUnowned(s, t, f);
    ZeroesFreeBlocks(s.base, s.table, t.table, s.ram, size, ptr);
    forall g: nat | f <= g < f + n && g < FRAMES
      ensures SameFrame(s.ram, t.ram, g)
    {
      RunIsNotFree(s.base, s.table, f, g);
    }
  }

  lemma WriteKeepsRun(s: State, t: State, f: nat, n: nat)
    requires Ok(s) && WriteStep(s, t) && KernelRun(s, f, n)
    ensures KernelRun(t, f, n)
  {
    WriteKeepsUnowned(s, t, f);
  }

  /** The frames of a new space were free blocks. */
  lemma NewSpaceAvoidsRun(s: State, t: State, f: nat, n: nat, g: nat)
    requires Ok(s) && SpawnStep(s, t) && KernelRun(s, f, n) && f <= g < f + n && g < FRAMES
    ensures g !in Frames(t.ram, t.procs[|s.procs|].chunk)
  {
    RunIsNotFree(s.base, s.table, f, g);
  }

  lemma SpawnKeepsRun(s: State, t: State, f: nat, n: nat)
    requires Ok(s) && SpawnStep(s, t) && KernelRun(s, f, n)
    ensures KernelRun(t, f, n) && SameRun(s.ram, t.ram, f, n)
  {
    SpawnKeepsStart(s, t, f, n);
    SpawnKeepsUnowned(s, t, f, n);
  }

  lemma SpawnKeepsStart(s: State, t: State, f: nat, n: nat)
    requires Ok(s) && SpawnStep(s, t) && KernelRun(s, f, n)
    ensures t.base == s.base && f - s.base in Runs(t.table) && Runs(t.table)[f - s.base] == n
    ensures SameRun(s.ram, t.ram, f, n)
  {
    OldRunKept(s.base, s.table, Frames(t.ram, t.procs[|s.procs|].chunk), f - s.base);
    forall g: nat | f <= g < f + n && g < FRAMES
      ensures SameFrame(s.ram, t.ram, g)
    {
      NewSpaceAvoidsRun(s, t, f, n, g);
    }
  }

  lemma SpawnKeepsUnowned(s: State, t: State, f: nat, n: nat)
    requires Ok(s) && SpawnStep(s, t) && KernelRun(s, f, n)
    ensures Unowned(t, f)
  {
    RunIsTaken(s.table, f - s.base);
    NewSpaceAvoidsRun(s, t, f, n, f);
    SpawnViews(s, t);
    forall j | 0 <= j < |t.procs| && t.procs[j].chunk < FRAMES
      ensures f !in Owned(ViewOf(t.ram, t.procs[j]))
    {
      if j < |s.procs| {
        assert t.procs[j] == s.procs[j] && ProcOk(s.ram, s.procs[j]);
        assert Views(t.ram, t.procs)[j] == Views(s.ram, s.procs)[j];
      } else {
        NewbornOwns(ViewOf(t.ram, t.procs[j]));
      }
    }
  }

  lemma NewbornOwns(v: View)
    requires v.image == {} && forall k :: 0 <= k < |v.slots| ==> v.slots[k] == EMPTY_SLOT
    ensures Owned(v) == v.frames
  {
    assert SlotStarts(v.slots) == {};
  }

  /** Edits of the page entries of one process leave all frames with their owners. */
  lemma EditKeepsRun(s: State, t: State, i: nat, f: nat, n: nat)
    requires Ok(s) && i < |s.procs| && s.procs[i].chunk < FRAMES && t == s.(ram := t.ram) && KernelRun(s, f, n)
    requires EditsLeaves(s.ram, t.ram, Dir(s.ram, s.procs[i].chunk))
    ensures KernelRun(t, f, n)
  {
    assert ProcOk(s.ram, s.procs[i]);
    SpaceKept(s.ram, t.ram, s.procs[i].chunk);
    OtherViewsKept(s, t.ram, i);
    forall j | 0 <= j < |t.procs| && t.procs[j].chunk < FRAMES
      ensures f !in Owned(ViewOf(t.ram, t.procs[j]))
    {
      assert f !in Owned(ViewOf(s.ram, s.procs[j]));
    }
  }

  // ---------- A process for runs the kernel holds ----------

  ghost predicate MayAdopt(s: State, f: nat) {
    IsStart(PoolOf(s.base, s.table), f) && Unowned(s, f)
  }

  /** The state with no image for the last process. */
  ghost function Bare(t: State): State
    requires t.procs != []
  {
    t.(procs := t.procs[|t.procs| - 1 := t.procs[|t.procs| - 1].(image := {})])
  }

  /** Only the first of the two runs is the last process's yet. */
  ghost function HalfBare(t: State, f: nat): State
    requires t.procs != []
  {
    t.(procs := t.procs[|t.procs| - 1 := t.procs[|t.procs| - 1].(image := {f})])
  }

  /** A new process, with the runs at frames `f` and `g` for its image and its stack. */
  ghost predicate SpawnLoadedStep(s: State, t: State, f: nat, g: nat) {
    && |t.procs| == |s.procs| + 1 && t.procs[|s.procs|].image == {f, g} && SpawnStep(s, Bare(t))
  }

  /** It is a creation and two adoptions. */
  lemma SpawnLoadedIs(s: State, t: State, f: nat, g: nat)
    requires Ok(s) && SpawnLoadedStep(s, t, f, g) && MayAdopt(s, f) && MayAdopt(s, g) && f != g
    ensures AdoptStep(Bare(t), HalfBare(t, f), |s.procs|, f)
    ensures AdoptStep(HalfBare(t, f), t, |s.procs|, g)
  {
    GrowsByOne(t, f, g);
    FirstAdopted(s, t, f, g);
    AdoptKeepsRun(Bare(t), HalfBare(t, f), |s.procs|, f, g, Runs(t.table)[g - s.base]);
  }

  lemma FirstAdopted(s: State, t: State, f: nat, g: nat)
    requires Ok(s) && SpawnLoadedStep(s, t, f, g) && MayAdopt(s, f) && MayAdopt(s, g) && f != g
    ensures AdoptStep(Bare(t), HalfBare(t, f), |s.procs|, f) && MayAdopt(Bare(t), g)
  {
    GrowsByOne(t, f, g);
    StillAdoptable(s, Bare(t), f);
    StillAdoptable(s, Bare(t), g);
  }

  lemma StillAdoptable(s: State, t: State, f: nat)
    requires Ok(s) && SpawnStep(s, t) && MayAdopt(s, f)
    ensures MayAdopt(t, f)
  {
    SpawnKeepsStart(s, t, f, Runs(s.table)[f - s.base]);
    SpawnKeepsUnowned(s, t, f, Runs(s.table)[f - s.base]);
  }

  lemma GrowsByOne(t: State, f: nat, g: nat)
    requires t.procs != [] && t.procs[|t.procs| - 1].image == {f, g}
    ensures
      var i, u, v := |t.procs| - 1, Bare(t), HalfBare(t, f);
      && v == u.(procs := u.procs[i := u.procs[i].(image := u.procs[i].image + {f})])
      && t == v.(procs := v.procs[i := v.procs[i].(image := v.procs[i].image + {g})])
  {
    var i, u, v := |t.procs| - 1, Bare(t), HalfBare(t, f);
    assert u.procs[i].image + {f} == {f};
    assert v.procs == u.procs[i := u.procs[i].(image := u.procs[i].image + {f})];
    assert v.procs[i].image + {g} == {f, g};
    assert t.procs == v.procs[i := v.procs[i].(image := v.procs[i].image + {g})];
  }

  lemma SpawnLoadedKeepsOk(s: State, t: State, f: nat, g: nat)
    requires Ok(s) && SpawnLoadedStep(s, t, f, g) && MayAdopt(s, f) && MayAdopt(s, g) && f != g
    ensures Ok(t)
  {
    SpawnLoadedIs(s, t, f, g);
    SpawnKeepsOk(s, Bare(t));
    AdoptKeepsOk(Bare(t), HalfBare(t, f), |s.procs|, f);
    AdoptKeepsOk(HalfBare(t, f), t, |s.procs|, g);
  }

  /** A run that is neither of the two stays the kernel's. */
  lemma SpawnLoadedKeepsRun(s: State, t: State, f: nat, g: nat, h: nat, n: nat)
    requires Ok(s) && SpawnLoadedStep(s, t, f, g) && MayAdopt(s, f) && MayAdopt(s, g) && f != g
    requires KernelRun(s, h, n) && h != f && h != g
    ensures KernelRun(t, h, n)
  {
    SpawnLoadedIs(s, t, f, g);
    SpawnKeepsRun(s, Bare(t), h, n);
    AdoptKeepsRun(Bare(t), HalfBare(t, f), |s.procs|, f, h, n);
    AdoptKeepsRun(HalfBare(t, f), t, |s.procs|, g, h, n);
  }

  /** What the two hold is unchanged. */
  lemma SpawnLoadedKeepsBytes(s: State, t: State, f: nat, g: nat, h: nat, n: nat)
    requires Ok(s) && SpawnLoadedStep(s, t, f, g) && KernelRun(s, h, n)
    ensures SameRun(s.ram, t.ram, h, n) && IsStart(PoolOf(t.base, t.table), h) && Runs(t.table)[h - t.base] == n
    ensures t.base == s.base
  {
    SpawnKeepsStart(s, Bare(t), h, n);
  }

  lemma AdoptKeepsRun(s: State, t: State, i: nat, g: nat, f: nat, n: nat)
    requires AdoptStep(s, t, i, g) && KernelRun(s, f, n) && f != g
    ensures KernelRun(t, f, n)
  {
    forall j | 0 <= j < |t.procs| && t.procs[j].chunk < FRAMES
      ensures f !in Owned(ViewOf(t.ram, t.procs[j]))
    {
      assert t.procs[j].chunk == s.procs[j].chunk && f !in Owned(ViewOf(s.ram, s.procs[j]));
    }
  }
}
