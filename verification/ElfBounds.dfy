/**
 The address bounds a loaded ELF file is given (`elf_process_pheaders` in `elfloader.c`).
 */
module ElfBounds {
  import opened Words

  const PT_LOAD := 1

  /** The fields of a program header that the bounds depend on. */
  datatype Header = Header(kind: Word, offset: int, vaddr: Word, filesz: Word)

  datatype Bounds = Bounds(virtualBase: Word, virtualEnd: Word, physBase: Word, physEnd: Word)

  const NO_BOUNDS := Bounds(0, 0, 0, 0)

  predicate IsLoad(h: Header) {
    h.kind == PT_LOAD
  }

  function EndOf(h: Header): Word {
    Wrap(h.vaddr + h.filesz)
  }

  function Widen(memory: Word, b: Bounds, h: Header): Bounds {
    var c := if b.virtualBase >= h.vaddr || b.virtualBase == 0
      then b.(virtualBase := h.vaddr, physBase := Wrap(memory + h.offset)) else b;
    if c.virtualEnd <= EndOf(h) || c.virtualEnd == 0
      then c.(virtualEnd := EndOf(h), physEnd := Wrap(memory + h.offset + h.filesz)) else c
  }

  function BoundsOf(memory: Word, hs: seq<Header>): Bounds {
    if hs == [] then NO_BOUNDS
    else
      var h, b := hs[|hs| - 1], BoundsOf(memory, hs[..|hs| - 1]);
      if IsLoad(h) then Widen(memory, b, h) else b
  }

  class ElfFile {
    const memory: Word
    var virtualBase: Word
    var virtualEnd: Word
    var physBase: Word
    var physEnd: Word

    constructor (memory: Word)
      ensures this.memory == memory && State() == NO_BOUNDS
    {
      this.memory := memory;
      virtualBase, virtualEnd, physBase, physEnd := 0, 0, 0, 0;
    }

    ghost function State(): Bounds
      reads this
    {
      Bounds(virtualBase, virtualEnd, physBase, physEnd)
    }

    /** `elf_process_phdr_pt_load` */
    method ProcessLoad(h: Header)
      modifies this
      ensures State() == Widen(memory, old(State()), h)
      ensures virtualBase <= h.vaddr && (old(virtualBase) != 0 ==> virtualBase <= old(virtualBase))
      ensures EndOf(h) <= virtualEnd && old(virtualEnd) <= virtualEnd
    {
      if virtualBase >= h.vaddr || virtualBase == 0 {
        virtualBase := h.vaddr;
        physBase := Wrap(memory + h.offset);
      }
      var end := Wrap(h.vaddr + h.filesz);
      if virtualEnd <= end || virtualEnd == 0 {
        virtualEnd := end;
        physEnd := Wrap(memory + h.offset + h.filesz);
      }
    }

    /** `elf_process_pheaders` of a fresh file. */
    method ProcessHeaders(hs: seq<Header>)
      requires State() == NO_BOUNDS
      modifies this
      ensures State() == BoundsOf(memory, hs)
    {
      var i := 0;
      while i < |hs|
        invariant 0 <= i <= |hs| && State() == BoundsOf(memory, hs[..i])
      {
        if hs[i].kind == PT_LOAD {
          ProcessLoad(hs[i]);
        }
        assert hs[..i + 1][..i] == hs[..i];
        i := i + 1;
      }
      assert hs[..i] == hs;
    }
  }

  // ---------- What the bounds mean ----------

  /** The last loadable segment starts at a nonzero address. */
  predicate EndsAboveZero(hs: seq<Header>) {
    hs != [] &&
      var h := hs[|hs| - 1];
      if IsLoad(h) then h.vaddr != 0 else EndsAboveZero(hs[..|hs| - 1])
  }

  ghost predicate StartsAtZero(hs: seq<Header>) {
    exists h :: h in hs && h.kind == 1 && h.vaddr == 0
  }

  ghost predicate IsLowest(v: Word, hs: seq<Header>) {
    forall h :: h in hs && h.kind == 1 ==> v <= h.vaddr
  }

  ghost predicate IsHighest(v: Word, hs: seq<Header>) {
    forall h :: h in hs && h.kind == 1 ==> (h.vaddr + h.filesz) % 0x1_0000_0000 <= v
  }

  predicate StartsAt(memory: Word, h: Header, b: Bounds) {
    h.kind == 1 && b.virtualBase == h.vaddr && b.physBase == (memory + h.offset) % 0x1_0000_0000
  }

  predicate EndsAt(memory: Word, h: Header, b: Bounds) {
    && h.kind == 1 && b.virtualEnd == (h.vaddr + h.filesz) % 0x1_0000_0000
    && b.physEnd == (memory + h.offset + h.filesz) % 0x1_0000_0000
  }

  /** Both ends of the bounds are those of loadable segments, with the file positions that go with them. */
  ghost predicate Attained(memory: Word, b: Bounds, hs: seq<Header>) {
    && (exists h :: h in hs && StartsAt(memory, h, b))
    && (exists h :: h in hs && EndsAt(memory, h, b))
  }

  lemma {:induction false} BoundsAreAttained(memory: Word, hs: seq<Header>)
    ensures var b := BoundsOf(memory, hs); b == NO_BOUNDS || Attained(memory, b, hs)
  {
    if hs != [] {
      var front, h := hs[..|hs| - 1], hs[|hs| - 1];
      assert hs == front + [h];
      BoundsAreAttained(memory, front);
      if IsLoad(h) {
        WidenKeeps(memory, BoundsOf(memory, front), h, front);
      }
    }
  }

  /** Either end is that of the new segment, or still one of the old. */
  lemma WidenKeeps(memory: Word, b: Bounds, h: Header, front: seq<Header>)
    requires IsLoad(h) && (b == NO_BOUNDS || Attained(memory, b, front))
    ensures Attained(memory, Widen(memory, b, h), front + [h])
  {
    var w, hs := Widen(memory, b, h), front + [h];
    assert h in hs && forall x :: x in front ==> x in hs;
    if !StartsAt(memory, h, w) {
      var x :| x in front && StartsAt(memory, x, b);
      assert StartsAt(memory, x, w);
    }
    if !EndsAt(memory, h, w) {
      var x :| x in front && EndsAt(memory, x, b);
      assert EndsAt(memory, x, w);
    }
  }

  lemma {:induction false} EndIsHighest(memory: Word, hs: seq<Header>)
    ensures IsHighest(BoundsOf(memory, hs).virtualEnd, hs)
  {
    if hs != [] {
      EndIsHighest(memory, hs[..|hs| - 1]);
      assert hs == hs[..|hs| - 1] + [hs[|hs| - 1]];
    }
  }

  lemma {:induction false} BaseIsZero(memory: Word, hs: seq<Header>)
    ensures BoundsOf(memory, hs).virtualBase != 0 <==> EndsAboveZero(hs)
  {
    if hs != [] {
      BaseIsZero(memory, hs[..|hs| - 1]);
    }
  }

  lemma {:induction false} BaseIsLowestAboveZero(memory: Word, hs: seq<Header>)
    requires !StartsAtZero(hs)
    ensures IsLowest(BoundsOf(memory, hs).virtualBase, hs)
  {
    if hs != [] {
      var front := hs[..|hs| - 1];
      assert hs == front + [hs[|hs| - 1]];
      assert !StartsAtZero(front);
      BaseIsLowestAboveZero(memory, front);
      if BoundsOf(memory, front).virtualBase == 0 {
        BaseIsZero(memory, front);
        NoLoads(front);
      }
    }
  }

  lemma {:induction false} NoLoads(hs: seq<Header>)
    requires !StartsAtZero(hs) && !EndsAboveZero(hs)
    ensures forall h :: h in hs ==> !IsLoad(h)
  {
    if hs != [] {
      var front, last := hs[..|hs| - 1], hs[|hs| - 1];
      assert hs == front + [last];
      assert last in hs;
      assert !StartsAtZero(front);
      NoLoads(front);
    }
  }

  /**
   The recorded base is the lowest address of a loadable segment, unless one of them starts at
   address 0 and the last one does not: a base of 0 is taken for "none yet".
   */
  lemma BaseIsLowestIff(memory: Word, hs: seq<Header>)
    ensures IsLowest(BoundsOf(memory, hs).virtualBase, hs) <==> !(StartsAtZero(hs) && EndsAboveZero(hs))
  {
    BaseIsZero(memory, hs);
    if !StartsAtZero(hs) {
      BaseIsLowestAboveZero(memory, hs);
    }
  }

  lemma SegmentAtZeroForgotten()
    ensures
      var hs := [Header(PT_LOAD, 0, 0, 16), Header(PT_LOAD, 0x1000, 0x1000, 16)];
      BoundsOf(0x10_0000, hs).virtualBase == 0x1000 && hs[0].vaddr == 0
  {
    var hs := [Header(PT_LOAD, 0, 0, 16), Header(PT_LOAD, 0x1000, 0x1000, 16)];
    assert hs[..1] == [hs[0]];
    assert BoundsOf(0x10_0000, [hs[0]]) == Widen(0x10_0000, BoundsOf(0x10_0000, []), hs[0]);
  }
}
