/**
 Mapping a program's segments as a step of the whole system: what it takes for `process_map_elf` to
 keep every process inside its own memory.
 */
module ElfOwnership {
  import opened Words
  import opened PageTables
  import opened AddressSpaces
  import opened Ownership
  import opened ProcessState
  import opened Elf
  import Steps = OwnershipSteps

  /** The frame that segment `ph` maps page `p` to. */
  function MappedFrame(elfMemory: Word, ph: Phdr, p: nat): (f: nat)
    requires p < FRAMES
    ensures f < FRAMES
  {
    (FirstFrame(elfMemory, ph) + Ahead(ph.vaddr / PAGE_SIZE, p)) % FRAMES
  }

  ghost predicate PageAllowed(h: Pool, v: View, elfMemory: Word, ph: Phdr, p: nat)
    requires p < FRAMES && Mappable(elfMemory, ph)
  {
    Covers(elfMemory, ph, p) ==>
      var f := MappedFrame(elfMemory, ph, p);
      !InLiveSlot(h, v, p) && (WantsWrite(ph) ==> IsDevice(f) || InImage(h, v, f))
  }

  /** The segment's pages hold no live slot, and if it is writeable its frames are the process's image or the screen. */
  ghost predicate SegmentAllowed(h: Pool, v: View, elfMemory: Word, ph: Phdr) {
    Mappable(elfMemory, ph) ==> forall p: nat :: p < FRAMES ==> PageAllowed(h, v, elfMemory, ph, p)
  }

  ghost predicate ElfAllowed(s: State, i: nat, elfMemory: Word, phs: seq<Phdr>) {
    && i < |s.procs| && s.procs[i].chunk < FRAMES
    && forall k :: 0 <= k < |phs| ==>
      SegmentAllowed(PoolOf(s.base, s.table), ViewOf(s.ram, s.procs[i]), elfMemory, phs[k])
  }

  /** The entry of a page comes from one of the segments that cover it, or is the old one. */
  lemma {:induction false} EntryOrigin(m: Ram, d: nat, elfMemory: Word, phs: seq<Phdr>, p: nat) returns (k: int)
    requires d < FRAMES && p < FRAMES && AllMappable(elfMemory, phs)
    ensures -1 <= k < |phs|
    ensures k == -1 ==> ElfEntry(m, d, elfMemory, phs, p) == Entry(m, d, p)
    ensures k >= 0 ==>
      && Covers(elfMemory, phs[k], p)
      && ElfEntry(m, d, elfMemory, phs, p) == PAGE_SIZE * MappedFrame(elfMemory, phs[k], p) + PageFlags(phs[k])
  {
    if phs == [] {
      k := -1;
    } else {
      var last := |phs| - 1;
      if Covers(elfMemory, phs[last], p) {
        k := last;
      } else {
        k := EntryOrigin(m, d, elfMemory, phs[..last], p);
      }
    }
  }

  /** `process_map_elf` for process `i`, with segments that are allowed. */
  ghost predicate ElfStep(s: State, t: State, i: nat, elfMemory: Word, phs: seq<Phdr>) {
    && ElfAllowed(s, i, elfMemory, phs) && t == s.(ram := t.ram)
    && ElfMapped(s.ram, t.ram, Dir(s.ram, s.procs[i].chunk), elfMemory, phs)
  }

  /** Allowed segments, mapped, keep the system invariant. */
  lemma ElfMapKeepsOk(s: State, t: State, i: nat, elfMemory: Word, phs: seq<Phdr>)
    requires Ok(s) && ElfStep(s, t, i, elfMemory, phs)
    ensures Ok(t)
  {
    var p := s.procs[i];
    var d := Dir(s.ram, p.chunk);
    assert ProcOk(s.ram, p);
    SpaceKept(s.ram, t.ram, p.chunk);
    forall g: nat | g < FRAMES && g !in Frames(s.ram, p.chunk) && !FreeFrame(s.base, s.table, g)
      ensures SameFrame(s.ram, t.ram, g)
    {
      assert g !in Tables(s.ram, d);
    }
    OtherViewsKept(s, t.ram, i);
    assert SameFrame(s.ram, t.ram, d);
    DirectoryKept(s.ram, t.ram, p.chunk, USER_DATA);
    ViewsUpdated(s, t.ram, i, p);
    assert s.procs[i := p] == s.procs;
    var h, v, w := PoolOf(s.base, s.table), ViewOf(s.ram, p), ViewOf(t.ram, p);
    forall q: nat | q < FRAMES
      ensures InLiveSlot(h, v, q) ==> w.entries[q] == v.entries[q]
      ensures w.entries[q] != v.entries[q] && IsWriteable(w.entries[q]) ==>
        IsDevice(Frame(w.entries[q])) || InImage(h, w, Frame(w.entries[q]))
    {
      var k := EntryOrigin(s.ram, d, elfMemory, phs, q);
      NewEntry(h, v, w, elfMemory, phs, k, q);
    }
    Steps.ImageMapKeepsInv(h, Views(s.ram, s.procs), i, w);
  }

  lemma NewEntry(h: Pool, v: View, w: View, elfMemory: Word, phs: seq<Phdr>, k: int, q: nat)
    requires q < FRAMES && |v.entries| == |w.entries| == FRAMES && w == v.(entries := w.entries)
    requires AllMappable(elfMemory, phs) && -1 <= k < |phs|
    requires k >= 0 ==> SegmentAllowed(h, v, elfMemory, phs[k]) && Covers(elfMemory, phs[k], q)
    requires w.entries[q] ==
      if k == -1 then v.entries[q] else PAGE_SIZE * MappedFrame(elfMemory, phs[k], q) + PageFlags(phs[k])
    ensures InLiveSlot(h, v, q) ==> w.entries[q] == v.entries[q]
    ensures w.entries[q] != v.entries[q] && IsWriteable(w.entries[q]) ==>
      IsDevice(Frame(w.entries[q])) || InImage(h, w, Frame(w.entries[q]))
  {
    if k >= 0 {
      assert PageAllowed(h, v, elfMemory, phs[k], q);
      EntryParts(MappedFrame(elfMemory, phs[k], q), phs[k]);
      var f := MappedFrame(elfMemory, phs[k], q);
      assert InImage(h, v, f) ==> InImage(h, w, f);
    }
  }

  /**
   All frames a segment maps lie in the run that holds the file if and only if the segment ends,
   in the file, within the blocks of that run. The memory size of a segment counts, not its file
   size, and the code does not compare it with the file.
   */
  lemma SegmentInRunIff(h: Pool, g: nat, elfMemory: Word, ph: Phdr)
    requires IsStart(h, g) && elfMemory == PAGE_SIZE * g && InRange(elfMemory, ph) && ph.memsz >= 1
    ensures Mappable(elfMemory, ph)
    ensures
      (forall p: nat :: p < FRAMES && Covers(elfMemory, ph, p) ==> InRun(h, g, MappedFrame(elfMemory, ph, p))) <==>
      ph.offset + ph.memsz <= PAGE_SIZE * RunLength(h, g)
  {
    RangeIsMappable(elfMemory, ph);
    var n, a := PageCount(elfMemory, ph), ph.vaddr / PAGE_SIZE;
    SegmentPages(elfMemory, ph, g);
    if ph.offset + ph.memsz <= PAGE_SIZE * RunLength(h, g) {
      forall p: nat | p < FRAMES && Covers(elfMemory, ph, p)
        ensures InRun(h, g, MappedFrame(elfMemory, ph, p))
      {
        SmallModulo(FirstFrame(elfMemory, ph) + Ahead(a, p));
      }
    } else {
      var p := a + n - 1;
      assert Ahead(a, p) == n - 1;
      SmallModulo(FirstFrame(elfMemory, ph) + Ahead(a, p));
      assert Covers(elfMemory, ph, p) && !InRun(h, g, MappedFrame(elfMemory, ph, p));
    }
  }

  /** A file of one block whose segment claims two pages: the second page is mapped to the block behind the file. */
  lemma LongSegmentLeavesRun()
    ensures
      var h, ph := Pool(0x1000, 8, map[0 := 1, 1 := 1]), Phdr(0, 0x40_0000, 0x2000, PF_W);
      && Mappable(0x100_0000, ph) && Covers(0x100_0000, ph, 0x401)
      && MappedFrame(0x100_0000, ph, 0x401) == 0x1001
      && InRun(h, 0x1001, 0x1001) && !InRun(h, 0x1000, 0x1001)
  {
    TwoPages();
  }

  lemma TwoPages()
    ensures
      var ph := Phdr(0, 0x40_0000, 0x2000, PF_W);
      && Mappable(0x100_0000, ph) && PageCount(0x100_0000, ph) == 2 && FirstFrame(0x100_0000, ph) == 0x1000
  {
    assert PhysAddress(0x100_0000, Phdr(0, 0x40_0000, 0x2000, PF_W)) == 0x100_0000;
  }

  /** Where a segment starts and ends among the blocks from frame `g` on. */
  lemma SegmentPages(elfMemory: Word, ph: Phdr, g: nat)
    requires elfMemory == PAGE_SIZE * g && InRange(elfMemory, ph) && ph.memsz >= 1 && Mappable(elfMemory, ph)
    ensures PageCount(elfMemory, ph) >= 1 && FirstFrame(elfMemory, ph) == g + ph.offset / PAGE_SIZE
    ensures FirstFrame(elfMemory, ph) + PageCount(elfMemory, ph) < FRAMES
    ensures ph.vaddr / PAGE_SIZE + PageCount(elfMemory, ph) <= FRAMES
    ensures forall l: nat :: ph.offset + ph.memsz <= PAGE_SIZE * l <==>
      ph.offset / PAGE_SIZE + PageCount(elfMemory, ph) <= l
  {
    RangeIsMappable(elfMemory, ph);
  }
}
