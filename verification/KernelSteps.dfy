/**
 What the kernel does on its own account: writing to memory, taking and giving back heap runs that no
 process owns (for its structures, paths and file handles), and dropping a process.
 */
module KernelSteps {
  import opened Words
  import opened HeapTable
  import opened PageTables
  import opened KernelHeap
  import opened AddressSpaces
  import opened Ownership
  import opened ProcessState
  import Steps = OwnershipSteps
  import H = Heap

  /** Any writes, by the kernel or by programs, outside the page tables of all processes. */
  ghost predicate WriteStep(s: State, t: State) {
    && t == s.(ram := t.ram)
    && forall j, f: nat ::
      0 <= j < |s.procs| && s.procs[j].chunk < FRAMES && f < FRAMES && f in Frames(s.ram, s.procs[j].chunk) ==>
      SameFrame(s.ram, t.ram, f)
  }

  lemma WriteKeepsOk(s: State, t: State)
    requires Ok(s) && WriteStep(s, t)
    ensures Ok(t)
  {
    forall j | 0 <= j < |s.procs|
      ensures ProcOk(t.ram, s.procs[j]) && ViewOf(t.ram, s.procs[j]) == ViewOf(s.ram, s.procs[j])
    {
      assert ProcOk(s.ram, s.procs[j]);
      ViewIsLocal(s.ram, t.ram, s.procs[j]);
    }
    assert Views(t.ram, t.procs) == Views(s.ram, s.procs);
  }

  /** A run for the kernel itself. */
  ghost predicate TakeStep(s: State, t: State, size: Word, ptr: Word) {
    t == s.(table := t.table) && Granted(s.base, s.table, ptr, size, t.table)
  }

  lemma TakeKeepsOk(s: State, t: State, size: Word, ptr: Word)
    requires Ok(s) && TakeStep(s, t, size, ptr)
    ensures Ok(t)
  {
    var h, h2, vs := PoolOf(s.base, s.table), PoolOf(t.base, t.table), Views(s.ram, s.procs);
    FreshRunIsNew(s.base, s.table, t.table, ptr, size);
    PoolOfTable(t.base, t.table);
    forall j | 0 <= j < |vs|
      ensures Steps.KeepsRuns(h, h2, Owned(vs[j]))
    {
      RunAdded(h, h2, Frame(ptr), H.Blocks(size), Owned(vs[j]));
    }
    Steps.HeapChangeKeepsInv(h, h2, vs);
  }

  lemma RunAdded(h: Pool, h2: Pool, f: nat, n: nat, fs: set<nat>)
    requires f >= h.base && !IsStart(h, f) && h2 == h.(runs := h.runs[f - h.base := n])
    ensures Steps.KeepsRuns(h, h2, fs)
  {
  }

  /** A zeroed run for the kernel itself. */
  ghost predicate TakeZeroStep(s: State, t: State, size: Word, ptr: Word) {
    && Granted(s.base, s.table, ptr, size, t.table)
    && t == s.(table := t.table, ram := ZeroBytes(s.ram, ptr, size))
  }

  /** It is an allocation and a write. */
  lemma TakeZeroIs(s: State, t: State, size: Word, ptr: Word)
    requires Ok(s) && TakeZeroStep(s, t, size, ptr)
    ensures TakeStep(s, s.(table := t.table), size, ptr) && WriteStep(s.(table := t.table), t)
  {
    ZeroesFreeBlocks(s.base, s.table, t.table, s.ram, size, ptr);
    forall j, f: nat |
      0 <= j < |s.procs| && s.procs[j].chunk < FRAMES && f < FRAMES && f in Frames(s.ram, s.procs[j].chunk)
      ensures SameFrame(s.ram, t.ram, f)
    {
      TablesAreNotFree(s, j);
    }
  }

  lemma TakeZeroKeepsOk(s: State, t: State, size: Word, ptr: Word)
    requires Ok(s) && TakeZeroStep(s, t, size, ptr)
    ensures Ok(t)
  {
    TakeZeroIs(s, t, size, ptr);
    TakeKeepsOk(s, s.(table := t.table), size, ptr);
    WriteKeepsOk(s.(table := t.table), t);
  }

  /** No process accounts for the run at frame `f`. */
  ghost predicate Unowned(s: State, f: nat) {
    forall j :: 0 <= j < |s.procs| && s.procs[j].chunk < FRAMES ==> f !in Owned(ViewOf(s.ram, s.procs[j]))
  }

  /** A run the kernel gives back. */
  ghost predicate ReleaseStep(s: State, t: State, f: nat) {
    && s.base <= f && f - s.base in Runs(s.table) && Unowned(s, f)
    && t == s.(table := MarkFree(s.table, f - s.base))
  }

  lemma ReleaseKeepsOk(s: State, t: State, f: nat)
    requires Ok(s) && ReleaseStep(s, t, f)
    ensures Ok(t)
  {
    FreeDropsFrame(s.base, s.table, f);
    DropKeepsOk(s, t, {f});
  }

  lemma FreeDropsFrame(base: nat, s: Table, f: nat)
    requires WellFormed(s) && base <= f && f - base in Runs(s)
    ensures DropsRuns(base, s, MarkFree(s, f - base), {f})
  {
    FreeDropsOne(base, s, f - base);
  }

  /** A run of the kernel's own becomes the image or the stack of process `i`. */
  ghost predicate AdoptStep(s: State, t: State, i: nat, f: nat) {
    && i < |s.procs| && IsStart(PoolOf(s.base, s.table), f) && Unowned(s, f)
    && t == s.(procs := s.procs[i := s.procs[i].(image := s.procs[i].image + {f})])
  }

  lemma AdoptKeepsOk(s: State, t: State, i: nat, f: nat)
    requires Ok(s) && AdoptStep(s, t, i, f)
    ensures Ok(t)
  {
    UnownedInViews(s, f);
    AdoptedView(s, i, t.procs[i]);
    Steps.ImageAdoptedKeepsInv(PoolOf(s.base, s.table), Views(s.ram, s.procs), i, f);
  }

  lemma UnownedInViews(s: State, f: nat)
    requires ProcsOk(s.ram, s.procs) && Unowned(s, f)
    ensures forall j :: 0 <= j < |s.procs| ==> f !in Owned(Views(s.ram, s.procs)[j])
  {
    forall j | 0 <= j < |s.procs|
      ensures f !in Owned(Views(s.ram, s.procs)[j])
    {
      assert ProcOk(s.ram, s.procs[j]);
    }
  }

  lemma AdoptedView(s: State, i: nat, p: Proc)
    requires Ok(s) && i < |s.procs| && p == s.procs[i].(image := p.image)
    ensures
      var v := Views(s.ram, s.procs)[i];
      ProcsOk(s.ram, s.procs[i := p]) && Views(s.ram, s.procs[i := p]) ==
        Views(s.ram, s.procs)[i := v.(image := p.image)]
  {
    assert ProcOk(s.ram, s.procs[i]);
    ViewsUpdated(s, s.ram, i, p);
  }

  /** The runs at frames `fs`, which no process accounts for, are gone. */
  lemma DropKeepsOk(s: State, t: State, fs: set<nat>)
    requires Ok(s) && t == s.(table := t.table) && DropsRuns(s.base, s.table, t.table, fs)
    requires forall f :: f in fs ==> Unowned(s, f)
    ensures Ok(t)
  {
    var h, h2, vs := PoolOf(s.base, s.table), PoolOf(t.base, t.table), Views(s.ram, s.procs);
    PoolOfTable(t.base, t.table);
    forall j | 0 <= j < |vs|
      ensures Steps.KeepsRuns(h, h2, Owned(vs[j]))
    {
      assert ProcOk(s.ram, s.procs[j]) && vs[j] == ViewOf(s.ram, s.procs[j]);
      RunsDropped(s.base, s.table, t.table, fs, Owned(vs[j]));
    }
    Steps.HeapChangeKeepsInv(h, h2, vs);
  }

  lemma RunsDropped(base: nat, s: Table, t: Table, fs: set<nat>, kept: set<nat>)
    requires DropsRuns(base, s, t, fs) && kept !! fs
    ensures Steps.KeepsRuns(PoolOf(base, s), PoolOf(base, t), kept)
  {
    forall f: nat | f in kept && IsStart(PoolOf(base, s), f)
      ensures IsStart(PoolOf(base, t), f) && RunLength(PoolOf(base, t), f) == RunLength(PoolOf(base, s), f)
    {
      assert RunDropped(base, s, t, fs, f - base);
    }
  }

  /** Process `i` leaves the process table; its runs are the kernel's from then on. */
  ghost predicate ForgetStep(s: State, t: State, i: nat) {
    i < |s.procs| && t == s.(procs := s.procs[..i] + s.procs[i + 1..])
  }

  lemma ForgetKeepsOk(s: State, t: State, i: nat)
    requires Ok(s) && ForgetStep(s, t, i)
    ensures Ok(t)
  {
    var vs := Views(s.ram, s.procs);
    forall j | 0 <= j < |t.procs|
      ensures ProcOk(t.ram, t.procs[j])
    {
      assert t.procs[j] == s.procs[if j < i then j else j + 1];
    }
    assert Views(t.ram, t.procs) == vs[..i] + vs[i + 1..];
    Steps.FewerKeepInv(PoolOf(s.base, s.table), vs, i);
  }

  /** What process `i` owned is nobody's once it has left. */
  lemma ForgottenIsUnowned(s: State, t: State, i: nat, f: nat)
    requires Ok(s) && ForgetStep(s, t, i) && s.procs[i].chunk < FRAMES && f in Owned(ViewOf(s.ram, s.procs[i]))
    ensures Unowned(t, f)
  {
    var vs := Views(s.ram, s.procs);
    forall j | 0 <= j < |t.procs| && t.procs[j].chunk < FRAMES
      ensures f !in Owned(ViewOf(t.ram, t.procs[j]))
    {
      var k := if j < i then j else j + 1;
      assert t.procs[j] == s.procs[k] && vs[k] == ViewOf(s.ram, s.procs[k]) && vs[i] == ViewOf(s.ram, s.procs[i]);
      OwnersApart(PoolOf(s.base, s.table), vs, i, k, f);
    }
  }

  // ---------- Giving back many single blocks ----------

  /** Single-block runs that are freed: what is left is well formed. */
  lemma FreedAt(base: nat, s: Table, fs: set<nat>, i: nat)
    requires WellFormed(s) && Holds(base, s, fs, SINGLE) && i < |s|
    ensures WellFormedAt(Marked(base, s, fs, FREE), i)
  {
    var t := Marked(base, s, fs, FREE);
    assert WellFormedAt(s, i);
    assert base + i in fs ==> s[base + i - base] == SINGLE;
    if i + 1 < |s| {
      assert WellFormedAt(s, i + 1);
      assert base + (i + 1) in fs ==> s[base + (i + 1) - base] == SINGLE;
      assert t[i + 1] == if base + (i + 1) in fs then FREE else s[i + 1];
    }
    if i > 0 {
      assert WellFormedAt(s, i - 1);
      assert base + (i - 1) in fs ==> s[base + (i - 1) - base] == SINGLE;
      assert t[i - 1] == if base + (i - 1) in fs then FREE else s[i - 1];
    }
  }

  lemma OtherRunStays(base: nat, s: Table, fs: set<nat>, b: nat)
    requires WellFormed(s) && Holds(base, s, fs, SINGLE) && b in Runs(s) && base + b !in fs
    ensures b in Runs(Marked(base, s, fs, FREE)) && Runs(Marked(base, s, fs, FREE))[b] == Runs(s)[b]
  {
    var t := Marked(base, s, fs, FREE);
    RunIsTaken(s, b);
    forall i | b <= i < b + Runs(s)[b]
      ensures t[i] == s[i]
    {
      assert i > b ==> !IsFirst(s[i]);
      assert base + i in fs ==> s[base + i - base] == SINGLE;
    }
    RunIsLocal(s, t, b);
  }

  lemma SinglesDropped(base: nat, s: Table, fs: set<nat>)
    requires WellFormed(s) && Holds(base, s, fs, SINGLE)
    ensures DropsRuns(base, s, Marked(base, s, fs, FREE), fs)
  {
    var t := Marked(base, s, fs, FREE);
    forall i | 0 <= i < |s|
      ensures WellFormedAt(t, i)
    {
      FreedAt(base, s, fs, i);
    }
    forall b: nat
      ensures RunDropped(base, s, t, fs, b)
    {
      if b in Runs(s) && base + b !in fs {
        OtherRunStays(base, s, fs, b);
      }
    }
  }
}
