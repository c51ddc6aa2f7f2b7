/**
 Reading and editing address spaces: the part of `paging.c` that does not allocate.
 */
module Paging {
  import opened Words
  import opened PageTables

  predicate IsAligned(addr: Word) {
    addr % PAGE_SIZE == 0
  }

  /** `paging_align_address`: rounds up, wrapping in the last page. */
  function AlignAddress(ptr: Word): Word {
    if ptr % PAGE_SIZE != 0 then Wrap(ptr + PAGE_SIZE - ptr % PAGE_SIZE) else ptr
  }

  function AlignToLowerPage(addr: Word): Word {
    addr - addr % PAGE_SIZE
  }

  /** Splits an aligned address into its directory and table indexes; leaves 0, 0 otherwise. */
  method PagingGetIndexes(virt: Word) returns (res: int, directoryIndex: nat, tableIndex: nat)
    ensures virt % PAGE_SIZE != 0 ==> res == -EINVARG && directoryIndex == 0 && tableIndex == 0
    ensures virt % PAGE_SIZE == 0 ==>
      && res == 0 && directoryIndex < 1024 && tableIndex < 1024
      && PAGE_SIZE * (1024 * directoryIndex + tableIndex) == virt
  {
    directoryIndex, tableIndex := 0, 0;
    if !IsAligned(virt) {
      return -EINVARG, 0, 0;
    }
    directoryIndex := virt / (1024 * PAGE_SIZE);
    tableIndex := virt % (1024 * PAGE_SIZE) / PAGE_SIZE;
    res := 0;
  }

  method PagingSet(ram: array<Word>, directory: Word, virt: Word, val: Word) returns (res: int)
    requires ram.Length == RAM_WORDS && directory % PAGE_SIZE == 0
    modifies ram
    ensures virt % PAGE_SIZE != 0 ==> res == -EINVARG && ram[..] == old(ram[..])
    ensures virt % PAGE_SIZE == 0 ==>
      var m, d, p := old(ram[..]), Frame(directory), virt / PAGE_SIZE;
      res == 0 && ram[..] == Put(m, TableAt(m, d, p / 1024), p % 1024, val)
  {
    if !IsAligned(virt) {
      return -EINVARG;
    }
    var r, directoryIndex, tableIndex := PagingGetIndexes(virt);
    if r < 0 {
      return r;
    }
    var entry := ram[directory / 4 + directoryIndex];
    var table := MaskPage(entry);
    ram[table / 4 + tableIndex] := val;
    res := 0;
  }

  /** For an address that is not page aligned the code reads the entry of page 0. */
  method PagingGet(ram: array<Word>, directory: Word, virt: Word) returns (val: Word)
    requires ram.Length == RAM_WORDS && directory % PAGE_SIZE == 0
    ensures val == Entry(ram[..], Frame(directory), if virt % PAGE_SIZE == 0 then virt / PAGE_SIZE else 0)
  {
    var r, directoryIndex, tableIndex := PagingGetIndexes(virt);
    var entry := ram[directory / 4 + directoryIndex];
    var table := MaskPage(entry);
    val := ram[table / 4 + tableIndex];
  }

  method PagingGetPhysicalAddress(ram: array<Word>, directory: Word, virt: Word) returns (phys: Word)
    requires ram.Length == RAM_WORDS && directory % PAGE_SIZE == 0
    ensures phys == Translate(ram[..], Frame(directory), virt)
  {
    var page := AlignToLowerPage(virt);
    var difference := virt - page;
    var entry := PagingGet(ram, directory, page);
    var frame := MaskPage(entry);
    phys := Wrap(frame + difference);
  }

  /** `paging_map`: `chunk` is the address of the `struct paging_4gb_chunk`. */
  method PagingMap(ram: array<Word>, chunk: Word, virt: Word, phys: Word, flags: nat) returns (res: int)
    requires ram.Length == RAM_WORDS && chunk % PAGE_SIZE == 0 && Space(ram[..], Frame(chunk))
    requires flags < PAGE_SIZE
    modifies ram
    ensures !(virt % PAGE_SIZE == 0 && phys % PAGE_SIZE == 0) ==> res == -EINVARG && ram[..] == old(ram[..])
    ensures virt % PAGE_SIZE == 0 && phys % PAGE_SIZE == 0 ==>
      var m, p := old(ram[..]), virt / PAGE_SIZE;
      res == 0 && ram[..] == Put(m, TableAt(m, Dir(m, Frame(chunk)), p / 1024), p % 1024, phys + flags)
  {
    if virt % PAGE_SIZE != 0 || phys % PAGE_SIZE != 0 {
      return -EINVARG;
    }
    var val := OrFlags(phys, flags);
    res := PagingSet(ram, ram[chunk / 4], virt, val);
  }

  /** The address `i` pages after an aligned address, going round at 2^32. */
  function PagesAfter(a: Word, i: nat): Word {
    PAGE_SIZE * ((a / PAGE_SIZE + i) % FRAMES)
  }

  lemma PagesAfterStep(a: Word, i: nat)
    ensures Wrap(PagesAfter(a, i) + PAGE_SIZE) == PagesAfter(a, i + 1)
    ensures PagesAfter(a, i) % PAGE_SIZE == 0
  {
  }

  /** Memory after the first `i` pages of a range have been mapped. */
  ghost predicate RangeSoFar(m: Ram, n: Ram, c: nat, virt: Word, phys: Word, i: nat, flags: nat)
    requires flags < PAGE_SIZE && c < FRAMES
  {
    && Space(n, c)
    && Dir(n, c) == Dir(m, c)
    && MapsRange(m, n, Dir(m, c), virt / PAGE_SIZE, phys / PAGE_SIZE, i, flags)
  }

  lemma RangeStart(m: Ram, c: nat, virt: Word, phys: Word, flags: nat)
    requires flags < PAGE_SIZE && Space(m, c)
    ensures RangeSoFar(m, m, c, virt, phys, 0, flags)
    ensures virt % PAGE_SIZE == 0 ==> virt == PagesAfter(virt, 0)
    ensures phys % PAGE_SIZE == 0 ==> phys == PagesAfter(phys, 0)
  {
  }

  lemma RangeStep(m: Ram, n: Ram, o: Ram, c: nat, virt: Word, phys: Word, i: nat, flags: nat)
    requires flags < PAGE_SIZE && Space(m, c) && virt % PAGE_SIZE == 0 && phys % PAGE_SIZE == 0
    requires RangeSoFar(m, n, c, virt, phys, i, flags)
    requires
      var p := PagesAfter(virt, i) / PAGE_SIZE;
      o == Put(n, TableAt(n, Dir(n, c), p / 1024), p % 1024, PagesAfter(phys, i) + flags)
    ensures RangeSoFar(m, o, c, virt, phys, i + 1, flags)
  {
    MapsRangeExtends(m, n, Dir(m, c), virt / PAGE_SIZE, phys / PAGE_SIZE, i, flags);
    SpaceKept(m, o, c);
  }

  /**
   `paging_map_range`: page k of the range is mapped to frame k of the physical range, both
   going round modulo 2^32, and every other page keeps its entry.
   */
  method PagingMapRange(ram: array<Word>, chunk: Word, virt: Word, phys: Word, count: int, flags: nat)
    returns (res: int)
    requires ram.Length == RAM_WORDS && chunk % PAGE_SIZE == 0 && Space(ram[..], Frame(chunk))
    requires flags < PAGE_SIZE
    modifies ram
    ensures count <= 0 ==> res == 0 && ram[..] == old(ram[..])
    ensures count > 0 && !(virt % PAGE_SIZE == 0 && phys % PAGE_SIZE == 0) ==>
      res == -EINVARG && ram[..] == old(ram[..])
    ensures count > 0 && virt % PAGE_SIZE == 0 && phys % PAGE_SIZE == 0 ==>
      var m := old(ram[..]);
      && res == 0
      && MapsRange(m, ram[..], Dir(m, Frame(chunk)), virt / PAGE_SIZE, phys / PAGE_SIZE, count, flags)
  {
    ghost var m: Ram := ram[..];
    ghost var c := Frame(chunk);
    ghost var aligned := virt % PAGE_SIZE == 0 && phys % PAGE_SIZE == 0;
    var v, p := virt, phys;
    res := 0;
    RangeStart(m, c, virt, phys, flags);
    var i := 0;
    while i < count
      invariant 0 <= i && (i <= count || i == 0)
      invariant res == 0
      invariant aligned ==> v == PagesAfter(virt, i) && p == PagesAfter(phys, i)
      invariant !aligned ==> i == 0 && v == virt && p == phys
      invariant RangeSoFar(m, ram[..], c, virt, phys, i, flags)
      invariant i == 0 ==> ram[..] == m
    {
      ghost var n: Ram := ram[..];
      PagesAfterStep(virt, i);
      PagesAfterStep(phys, i);
      res := PagingMap(ram, chunk, v, p, flags);
      if res < 0 {
        break;
      }
      RangeStep(m, n, ram[..], c, virt, phys, i, flags);
      v := Wrap(v + PAGE_SIZE);
      p := Wrap(p + PAGE_SIZE);
      i := i + 1;
    }
  }

  /** `paging_map_to`: maps the pages of [phys, physEnd) from `virt` on. */
  method PagingMapTo(ram: array<Word>, chunk: Word, virt: Word, phys: Word, physEnd: Word, flags: nat)
    returns (res: int)
    requires ram.Length == RAM_WORDS && chunk % PAGE_SIZE == 0 && Space(ram[..], Frame(chunk))
    requires flags < PAGE_SIZE
    modifies ram
    ensures res == 0 <==> virt % PAGE_SIZE == 0 && phys % PAGE_SIZE == 0 && physEnd % PAGE_SIZE == 0 && phys <= physEnd
    ensures res != 0 ==> res == -EINVARG && ram[..] == old(ram[..])
    ensures phys == physEnd ==> ram[..] == old(ram[..])
    ensures res == 0 ==>
      var m := old(ram[..]);
      MapsRange(m, ram[..], Dir(m, Frame(chunk)), virt / PAGE_SIZE, phys / PAGE_SIZE,
        (physEnd - phys) / PAGE_SIZE, flags)
  {
    if virt % PAGE_SIZE != 0 || phys % PAGE_SIZE != 0 || physEnd % PAGE_SIZE != 0 {
      return -EINVARG;
    }
    if physEnd < phys {
      return -EINVARG;
    }
    var totalPages := (physEnd - phys) / PAGE_SIZE;
    res := PagingMapRange(ram, chunk, virt, phys, totalPages, flags);
  }
}
