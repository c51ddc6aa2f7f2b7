/**
 Mapping the segments of an ELF program (`process_map_elf` and the accessors of `elfloader.c`).
 */
module Elf {
  import opened Words
  import opened PageTables
  import P = Paging

  const PF_W := 2

  /** A program header; `offset` is a signed 32-bit field. */
  datatype Phdr = Phdr(offset: int, vaddr: Word, memsz: Word, flags: Word)

  /** `elf_phdr_phys_address` */
  function PhysAddress(elfMemory: Word, ph: Phdr): Word {
    Wrap(elfMemory + ph.offset)
  }

  function FirstFrame(elfMemory: Word, ph: Phdr): nat {
    Frame(P.AlignToLowerPage(PhysAddress(elfMemory, ph)))
  }

  function EndAddress(elfMemory: Word, ph: Phdr): Word {
    P.AlignAddress(Wrap(PhysAddress(elfMemory, ph) + ph.memsz))
  }

  /** `paging_map_to` accepts the segment: its rounded end has not wrapped below its start. */
  predicate Mappable(elfMemory: Word, ph: Phdr) {
    P.AlignToLowerPage(PhysAddress(elfMemory, ph)) <= EndAddress(elfMemory, ph)
  }

  function PageCount(elfMemory: Word, ph: Phdr): nat
    requires Mappable(elfMemory, ph)
  {
    (EndAddress(elfMemory, ph) - P.AlignToLowerPage(PhysAddress(elfMemory, ph))) / PAGE_SIZE
  }

  predicate WantsWrite(ph: Phdr) {
    IsWriteable(ph.flags)
  }

  function PageFlags(ph: Phdr): nat {
    PRESENT + ACCESS_FROM_ALL + if WantsWrite(ph) then WRITEABLE else 0
  }

  predicate AllMappable(elfMemory: Word, phs: seq<Phdr>) {
    forall i :: 0 <= i < |phs| ==> Mappable(elfMemory, phs[i])
  }

  /** Segment `ph` maps page `p`. */
  predicate Covers(elfMemory: Word, ph: Phdr, p: nat)
    requires Mappable(elfMemory, ph) && p < FRAMES
  {
    Ahead(ph.vaddr / PAGE_SIZE, p) < PageCount(elfMemory, ph)
  }

  /** The entry of page `p` once the segments `phs` have been mapped in order: a later one wins. */
  function ElfEntry(m: Ram, d: nat, elfMemory: Word, phs: seq<Phdr>, p: nat): Word
    requires d < FRAMES && p < FRAMES && AllMappable(elfMemory, phs)
  {
    if phs == [] then Entry(m, d, p)
    else
      var ph := phs[|phs| - 1];
      if Covers(elfMemory, ph, p) then
        PAGE_SIZE * ((FirstFrame(elfMemory, ph) + Ahead(ph.vaddr / PAGE_SIZE, p)) % FRAMES) + PageFlags(ph)
      else ElfEntry(m, d, elfMemory, phs[..|phs| - 1], p)
  }

  /** `n` is `m` with the segments mapped into the space of directory `d` and nothing else changed. */
  ghost predicate ElfMapped(m: Ram, n: Ram, d: nat, elfMemory: Word, phs: seq<Phdr>) {
    && AllMappable(elfMemory, phs)
    && EditsLeaves(m, n, d)
    && forall p: nat :: p < FRAMES ==> Entry(n, d, p) == ElfEntry(m, d, elfMemory, phs, p)
  }

  lemma ElfMappedStep(m: Ram, n: Ram, o: Ram, d: nat, elfMemory: Word, phs: seq<Phdr>, i: nat)
    requires i < |phs| && Mappable(elfMemory, phs[i]) && ElfMapped(m, n, d, elfMemory, phs[..i])
    requires MapsRange(n, o, d, phs[i].vaddr / PAGE_SIZE, FirstFrame(elfMemory, phs[i]),
      PageCount(elfMemory, phs[i]), PageFlags(phs[i]))
    ensures ElfMapped(m, o, d, elfMemory, phs[..i + 1])
  {
    EditsLeavesCompose(m, n, o, d);
    var qs := phs[..i + 1];
    assert qs[..|qs| - 1] == phs[..i];
    forall p: nat | p < FRAMES
      ensures Entry(o, d, p) == ElfEntry(m, d, elfMemory, qs, p)
    {
      assert Entry(o, d, p) == RangeEntry(n, d, phs[i].vaddr / PAGE_SIZE, FirstFrame(elfMemory, phs[i]),
        PageCount(elfMemory, phs[i]), PageFlags(phs[i]), p);
    }
  }

  /** `process_map_elf`: stops at the first segment that `paging_map_to` rejects. */
  method ProcessMapElf(ram: array<Word>, chunk: Word, elfMemory: Word, phs: seq<Phdr>)
    returns (res: int, ghost done: nat)
    requires ram.Length == RAM_WORDS && chunk % PAGE_SIZE == 0 && Space(ram[..], Frame(chunk))
    modifies ram
    ensures done <= |phs| && ElfMapped(old(ram[..]), ram[..], Dir(old(ram[..]), Frame(chunk)), elfMemory, phs[..done])
    ensures res == 0 <==> AllMappable(elfMemory, phs)
    ensures res == 0 <==> done == |phs|
    ensures res != 0 ==> res == -EINVARG && !Mappable(elfMemory, phs[done])
  {
    ghost var m: Ram := ram[..];
    ghost var c := Frame(chunk);
    ghost var d := Dir(m, c);
    res, done := 0, 0;
    var i := 0;
    while i < |phs|
      invariant 0 <= i <= |phs| && done == i && res == 0
      invariant ElfMapped(m, ram[..], d, elfMemory, phs[..i])
    {
      ghost var n: Ram := ram[..];
      SpaceKept(m, n, c);
      var ph := phs[i];
      var physAddress := PhysAddress(elfMemory, ph);
      var flags := PRESENT + ACCESS_FROM_ALL;
      if IsWriteable(ph.flags) {
        flags := flags + WRITEABLE;
      }
      res := P.PagingMapTo(ram, chunk, P.AlignToLowerPage(ph.vaddr), P.AlignToLowerPage(physAddress),
                           P.AlignAddress(Wrap(physAddress + ph.memsz)), flags);
      LowerPage(ph.vaddr);
      LowerPage(physAddress);
      UpperPage(Wrap(physAddress + ph.memsz));
      if res < 0 {
        break;
      }
      ElfMappedStep(m, n, ram[..], d, elfMemory, phs, i);
      i := i + 1;
      done := i;
    }
    assert done == |phs| ==> phs[..done] == phs;
  }

  lemma LowerPage(a: Word)
    ensures P.AlignToLowerPage(a) % PAGE_SIZE == 0 && P.AlignToLowerPage(a) / PAGE_SIZE == a / PAGE_SIZE
  {
  }

  lemma UpperPage(a: Word)
    ensures P.AlignAddress(a) % PAGE_SIZE == 0
  {
  }

  // ---------- What a loaded program sees ----------

  /** The segment lies in the address space: no sum, rounded up to a page, wraps. */
  predicate InRange(elfMemory: Word, ph: Phdr) {
    && 0 <= ph.offset
    && elfMemory + ph.offset + ph.memsz + PAGE_SIZE <= 0x1_0000_0000
    && ph.vaddr + ph.memsz + 2 * PAGE_SIZE <= 0x1_0000_0000
  }

  /** No page is mapped by two segments. */
  ghost predicate PageDisjoint(elfMemory: Word, phs: seq<Phdr>)
    requires AllMappable(elfMemory, phs)
  {
    forall i, j, p: nat :: 0 <= i < j < |phs| && p < FRAMES ==>
      !(Covers(elfMemory, phs[i], p) && Covers(elfMemory, phs[j], p))
  }

  lemma RangeIsMappable(elfMemory: Word, ph: Phdr)
    requires InRange(elfMemory, ph)
    ensures Mappable(elfMemory, ph) && PhysAddress(elfMemory, ph) == elfMemory + ph.offset
    ensures
      var phys := elfMemory + ph.offset;
      && FirstFrame(elfMemory, ph) == phys / PAGE_SIZE
      && PAGE_SIZE * (phys / PAGE_SIZE + PageCount(elfMemory, ph)) >= phys + ph.memsz
      && phys / PAGE_SIZE + PageCount(elfMemory, ph) < FRAMES
  {
  }

  /** The page of an address at a congruent offset into a segment is one the segment maps. */
  lemma AddressIsCovered(elfMemory: Word, ph: Phdr, v: Word)
    requires InRange(elfMemory, ph) && Mappable(elfMemory, ph) && ph.vaddr <= v < ph.vaddr + ph.memsz
    requires (elfMemory + ph.offset) % PAGE_SIZE == ph.vaddr % PAGE_SIZE || v == ph.vaddr
    ensures Covers(elfMemory, ph, v / PAGE_SIZE)
    ensures Ahead(ph.vaddr / PAGE_SIZE, v / PAGE_SIZE) == v / PAGE_SIZE - ph.vaddr / PAGE_SIZE
    ensures FirstFrame(elfMemory, ph) == (elfMemory + ph.offset) / PAGE_SIZE
    ensures FirstFrame(elfMemory, ph) + Ahead(ph.vaddr / PAGE_SIZE, v / PAGE_SIZE) < FRAMES
  {
    RangeIsMappable(elfMemory, ph);
  }

  lemma {:induction false} CoveredEntry(m: Ram, d: nat, elfMemory: Word, phs: seq<Phdr>, k: nat, p: nat)
    requires d < FRAMES && p < FRAMES && AllMappable(elfMemory, phs) && PageDisjoint(elfMemory, phs)
    requires k < |phs| && Covers(elfMemory, phs[k], p)
    ensures ElfEntry(m, d, elfMemory, phs, p) ==
      PAGE_SIZE * ((FirstFrame(elfMemory, phs[k]) + Ahead(phs[k].vaddr / PAGE_SIZE, p)) % FRAMES) + PageFlags(phs[k])
  {
    var last := |phs| - 1;
    if k < last {
      assert !Covers(elfMemory, phs[last], p);
      assert phs[..last][k] == phs[k];
      assert PageDisjoint(elfMemory, phs[..last]);
      CoveredEntry(m, d, elfMemory, phs[..last], k, p);
    }
  }

  lemma {:induction false} UncoveredEntry(m: Ram, d: nat, elfMemory: Word, phs: seq<Phdr>, p: nat)
    requires d < FRAMES && p < FRAMES && AllMappable(elfMemory, phs)
    requires forall i :: 0 <= i < |phs| ==> !Covers(elfMemory, phs[i], p)
    ensures ElfEntry(m, d, elfMemory, phs, p) == Entry(m, d, p)
  {
    if phs != [] {
      UncoveredEntry(m, d, elfMemory, phs[..|phs| - 1], p);
    }
  }

  /** The program sees segment `ph`: each of its addresses translates to its byte of the file image. */
  ghost predicate SegmentVisible(n: Ram, d: nat, elfMemory: Word, ph: Phdr)
    requires d < FRAMES
  {
    forall v: Word :: ph.vaddr <= v < ph.vaddr + ph.memsz ==>
      Translate(n, d, v) == elfMemory + ph.offset + (v - ph.vaddr)
  }

  /**
   For segments that share no page, a segment of at least one byte is seen correctly if and only if
   its virtual address is congruent modulo the page size to its place in memory.
   */
  lemma SegmentVisibleIff(m: Ram, n: Ram, d: nat, elfMemory: Word, phs: seq<Phdr>, k: nat)
    requires d < FRAMES && k < |phs| && ElfMapped(m, n, d, elfMemory, phs) && PageDisjoint(elfMemory, phs)
    requires InRange(elfMemory, phs[k]) && phs[k].memsz >= 1
    ensures SegmentVisible(n, d, elfMemory, phs[k]) <==>
      (elfMemory + phs[k].offset) % PAGE_SIZE == phs[k].vaddr % PAGE_SIZE
  {
    var ph := phs[k];
    if (elfMemory + ph.offset) % PAGE_SIZE == ph.vaddr % PAGE_SIZE {
      forall v: Word | ph.vaddr <= v < ph.vaddr + ph.memsz
        ensures Translate(n, d, v) == elfMemory + ph.offset + (v - ph.vaddr)
      {
        SegmentByte(m, n, d, elfMemory, phs, k, v);
      }
    } else {
      SegmentByte(m, n, d, elfMemory, phs, k, ph.vaddr);
    }
  }

  /** A segment 0x34 bytes into the file for address 0x40_0000: the program sees the file's first byte there. */
  lemma UnalignedSegmentMissed(m: Ram, n: Ram, d: nat)
    requires d < FRAMES && ElfMapped(m, n, d, 0x140_0000, [Phdr(0x34, 0x40_0000, 16, 0)])
    ensures Translate(n, d, 0x40_0000) == 0x140_0000
    ensures !SegmentVisible(n, d, 0x140_0000, Phdr(0x34, 0x40_0000, 16, 0))
  {
    var ph := Phdr(0x34, 0x40_0000, 16, 0);
    RangeIsMappable(0x140_0000, ph);
    SegmentEntry(m, n, d, 0x140_0000, [ph], 0, 0x40_0000);
    EntryParts(0x1400, ph);
    assert Translate(n, d, 0x40_0000) == 0x140_0000;
  }

  lemma SmallModulo(f: nat)
    requires f < FRAMES
    ensures f % FRAMES == f
  {
  }

  /** The entry of the page that holds address `v` of segment `k`. */
  lemma SegmentEntry(m: Ram, n: Ram, d: nat, elfMemory: Word, phs: seq<Phdr>, k: nat, v: Word)
    requires d < FRAMES && k < |phs| && ElfMapped(m, n, d, elfMemory, phs) && PageDisjoint(elfMemory, phs)
    requires InRange(elfMemory, phs[k]) && phs[k].vaddr <= v < phs[k].vaddr + phs[k].memsz
    requires (elfMemory + phs[k].offset) % PAGE_SIZE == phs[k].vaddr % PAGE_SIZE || v == phs[k].vaddr
    ensures
      var f := (elfMemory + phs[k].offset) / PAGE_SIZE + (v / PAGE_SIZE - phs[k].vaddr / PAGE_SIZE);
      0 <= f < FRAMES && Entry(n, d, v / PAGE_SIZE) == PAGE_SIZE * f + PageFlags(phs[k])
  {
    var ph, p := phs[k], v / PAGE_SIZE;
    AddressIsCovered(elfMemory, ph, v);
    CoveredEntry(m, d, elfMemory, phs, k, p);
    assert Entry(n, d, p) == ElfEntry(m, d, elfMemory, phs, p);
    SmallModulo(FirstFrame(elfMemory, ph) + Ahead(ph.vaddr / PAGE_SIZE, p));
  }

  lemma SegmentByte(m: Ram, n: Ram, d: nat, elfMemory: Word, phs: seq<Phdr>, k: nat, v: Word)
    requires d < FRAMES && k < |phs| && ElfMapped(m, n, d, elfMemory, phs) && PageDisjoint(elfMemory, phs)
    requires InRange(elfMemory, phs[k]) && phs[k].vaddr <= v < phs[k].vaddr + phs[k].memsz
    requires (elfMemory + phs[k].offset) % PAGE_SIZE == phs[k].vaddr % PAGE_SIZE || v == phs[k].vaddr
    ensures Translate(n, d, v) == elfMemory + phs[k].offset + (v - phs[k].vaddr) <==>
      (elfMemory + phs[k].offset) % PAGE_SIZE == phs[k].vaddr % PAGE_SIZE
    ensures ShownToUser(Entry(n, d, v / PAGE_SIZE))
    ensures IsWriteable(Entry(n, d, v / PAGE_SIZE)) <==> phs[k].flags / 2 % 2 == 1
  {
    var ph := phs[k];
    var f := (elfMemory + ph.offset) / PAGE_SIZE + (v / PAGE_SIZE - ph.vaddr / PAGE_SIZE);
    SegmentEntry(m, n, d, elfMemory, phs, k, v);
    EntryParts(f, ph);
    SameOffset(elfMemory + ph.offset, ph.vaddr, v);
  }

  lemma SameOffset(e: nat, a: nat, v: nat)
    requires a <= v && (e % PAGE_SIZE == a % PAGE_SIZE || v == a)
    ensures PAGE_SIZE * (e / PAGE_SIZE + (v / PAGE_SIZE - a / PAGE_SIZE)) + v % PAGE_SIZE == e + (v - a) <==>
      e % PAGE_SIZE == a % PAGE_SIZE
  {
  }

  lemma EntryParts(f: nat, ph: Phdr)
    requires f < FRAMES
    ensures Frame(PAGE_SIZE * f + PageFlags(ph)) == f
    ensures ShownToUser(PAGE_SIZE * f + PageFlags(ph))
    ensures IsWriteable(PAGE_SIZE * f + PageFlags(ph)) <==> ph.flags / 2 % 2 == 1
  {
    FlagsDecide(f, PageFlags(ph));
  }

  /**
   The loader's promise: with congruent segments that share no page, every segment is seen at its
   virtual addresses, its pages are present and open to user mode, writeable exactly when the header
   says so, and every page that no segment covers keeps its entry, as the directory does.
   */
  lemma ProgramVisible(m: Ram, n: Ram, d: nat, elfMemory: Word, phs: seq<Phdr>)
    requires d < FRAMES && ElfMapped(m, n, d, elfMemory, phs) && PageDisjoint(elfMemory, phs)
    requires forall k :: 0 <= k < |phs| ==>
      InRange(elfMemory, phs[k]) && (elfMemory + phs[k].offset) % PAGE_SIZE == phs[k].vaddr % PAGE_SIZE
    ensures forall k :: 0 <= k < |phs| ==> SegmentVisible(n, d, elfMemory, phs[k])
    ensures forall k, v: Word :: 0 <= k < |phs| && phs[k].vaddr <= v < phs[k].vaddr + phs[k].memsz ==>
      && ShownToUser(Entry(n, d, v / PAGE_SIZE))
      && (IsWriteable(Entry(n, d, v / PAGE_SIZE)) <==> phs[k].flags / 2 % 2 == 1)
    ensures forall i: nat :: i < 1024 ==> At(n, d, i) == At(m, d, i)
    ensures forall p: nat :: p < FRAMES && (forall k :: 0 <= k < |phs| ==> !Covers(elfMemory, phs[k], p)) ==>
      Entry(n, d, p) == Entry(m, d, p)
  {
    forall k, v: Word | 0 <= k < |phs| && phs[k].vaddr <= v < phs[k].vaddr + phs[k].memsz
      ensures Translate(n, d, v) == elfMemory + phs[k].offset + (v - phs[k].vaddr)
      ensures ShownToUser(Entry(n, d, v / PAGE_SIZE))
      ensures IsWriteable(Entry(n, d, v / PAGE_SIZE)) <==> phs[k].flags / 2 % 2 == 1
    {
      SegmentByte(m, n, d, elfMemory, phs, k, v);
    }
    DirectoryUntouched(m, n, d);
    forall p: nat | p < FRAMES && (forall k :: 0 <= k < |phs| ==> !Covers(elfMemory, phs[k], p))
      ensures Entry(n, d, p) == Entry(m, d, p)
    {
      UncoveredEntry(m, d, elfMemory, phs, p);
    }
  }
}
