/**
 The first-fit block allocator: `heap.c` over the block table of module HeapTable.
 */
module Heap {
  import opened Words
  import opened HeapTable

  const BLOCK_SIZE := 4096

  /** Rounds up to a whole number of blocks; the addition wraps above 0xFFFFF000. */
  function AlignToUpper(val: Word): Word {
    if val % BLOCK_SIZE == 0 then val else Wrap(val - val % BLOCK_SIZE + BLOCK_SIZE)
  }

  /** How many blocks an allocation of `size` bytes asks the table for. */
  function Blocks(size: Word): nat {
    AlignToUpper(size) / BLOCK_SIZE
  }

  /** Only 0 and the sizes whose round-up wraps ask for no block; other sizes get just enough. */
  lemma BlocksCoverSize(size: Word)
    ensures Blocks(size) == 0 <==> size == 0 || size > 0xFFFFF000
    ensures Blocks(size) >= 1 ==> BLOCK_SIZE * (Blocks(size) - 1) < size <= BLOCK_SIZE * Blocks(size)
  {
  }

  /** A 32-bit difference of pointers, cast to `int`. */
  function Signed(difference: int): int {
    if Wrap(difference) < 0x8000_0000 then Wrap(difference) else Wrap(difference) - 0x1_0000_0000
  }

  /** The table with the blocks from `b` up to `e` cleared. */
  function ClearedFrom(s: Table, b: nat, e: nat): Table {
    seq(|s|, i requires 0 <= i < |s| => if b <= i < e then FREE else s[i])
  }

  lemma ClearedStep(s: Table, b: nat, e: nat)
    requires b <= e < |s|
    ensures ClearedFrom(s, b, e)[e := FREE] == ClearedFrom(s, b, e + 1) && ClearedFrom(s, b, e)[e] == s[e]
    ensures RunEnd(s, e) == if HasNext(s[e]) then RunEnd(s, e + 1) else e + 1
  {
  }

  class Heap {
    var saddr: Word
    var entries: array<bv8>

    /**
     The block table describes memory that does not include address 0 and lies in the lower half of the
     address space, where the difference of two addresses fits a signed 32-bit value.
     */
    ghost predicate Valid()
      reads this
    {
      saddr % BLOCK_SIZE == 0 && BLOCK_SIZE <= saddr && saddr + BLOCK_SIZE * entries.Length <= 0x8000_0000
    }

    constructor (table: array<bv8>)
      ensures entries == table && saddr == 0
    {
      saddr, entries := 0, table;
    }

    /** `heap_create`: `table` holds `table.Length` entries. */
    method Create(ptr: Word, end: Word, table: array<bv8>) returns (res: int)
      modifies this, table
      ensures res == 0 || res == -EINVARG
      ensures res == 0 <==>
        ptr % BLOCK_SIZE == 0 && end % BLOCK_SIZE == 0 && Wrap(end - ptr) == BLOCK_SIZE * table.Length
      ensures res == 0 ==> saddr == ptr && entries == table
      ensures res == 0 ==> WellFormed(table[..]) && Runs(table[..]) == map[]
      ensures res == 0 ==> forall i :: 0 <= i < table.Length ==> table[i] == FREE
      ensures res != 0 ==> table[..] == old(table[..])
    {
      if ptr % BLOCK_SIZE != 0 || end % BLOCK_SIZE != 0 {
        return -EINVARG;
      }
      saddr := ptr;
      entries := table;
      var total_blocks := Wrap(end - ptr) / BLOCK_SIZE;
      if table.Length != total_blocks {
        return -EINVARG;
      }
      var i := 0;
      while i < table.Length
        invariant 0 <= i <= table.Length
        invariant forall j :: 0 <= j < i ==> table[j] == FREE
        modifies table
      {
        table[i] := FREE;
        i := i + 1;
      }
      res := 0;
    }

    /** `heap_get_start_block` */
    method GetStartBlock(total_blocks: Word) returns (r: int)
      requires entries.Length < 0x8000_0000
      ensures StartBlockIs(entries[..], total_blocks, r)
    {
      var bc, bs := 0, -1;
      var i := 0;
      ghost var s := entries[..];
      while i < entries.Length
        invariant 0 <= i <= entries.Length
        invariant bs == -1 ==> bc == 0 && (i > 0 ==> !IsFree(s[i - 1]))
        invariant bs != -1 ==> 0 <= bs < i && bc == i - bs && FreeRun(s, bs, bc) && (bs > 0 ==> !IsFree(s[bs - 1]))
        invariant total_blocks >= 1 ==> bc < total_blocks
        invariant total_blocks >= 1 ==> forall j :: 0 <= j && j + total_blocks <= i ==> !FreeRun(s, j, total_blocks)
      {
        if !IsFree(entries[i]) {
          bc := 0;
          bs := -1;
          i := i + 1;
          continue;
        }
        if bs == -1 {
          bs := i;
        }
        bc := bc + 1;
        if bc == total_blocks {
          assert FreeRun(s, bs, total_blocks);
          break;
        }
        i := i + 1;
      }
      if bs == -1 {
        return -ENOMEM;
      }
      return bs;
    }

    /** `heap_mark_blocks_taken`: the requires keeps the writes inside the table. */
    method MarkBlocksTaken(start_block: int, total_blocks: int)
      requires 0 <= start_block && 0 <= total_blocks && start_block + total_blocks <= entries.Length
      modifies entries
      ensures entries[..] == MarkTaken(old(entries[..]), start_block, total_blocks)
    {
      var end_block := start_block + total_blocks - 1;
      var entry := TAKEN | IS_FIRST;
      if total_blocks > 1 {
        entry := entry | HAS_NEXT;
      }
      var i := start_block;
      while i <= end_block
        invariant start_block <= i <= start_block + total_blocks
        invariant i <= end_block ==> entry == RunFlag(i - start_block, total_blocks)
        invariant forall j :: 0 <= j < entries.Length ==>
          entries[j] == if start_block <= j < i then RunFlag(j - start_block, total_blocks) else old(entries[j])
      {
        entries[i] := entry;
        entry := TAKEN;
        if i != end_block - 1 {
          entry := entry | HAS_NEXT;
        }
        i := i + 1;
      }
    }

    /** `heap_mark_blocks_free`: a block past the table is left alone. */
    method MarkBlocksFree(starting_block: int)
      requires 0 <= starting_block
      modifies entries
      ensures entries[..] == MarkFree(old(entries[..]), starting_block)
    {
      ghost var s := entries[..];
      var i := starting_block;
      while i < entries.Length
        invariant starting_block <= i
        invariant RunEnd(s, i) == RunEnd(s, starting_block)
        invariant forall j :: 0 <= j < entries.Length ==> entries[j] == if starting_block <= j < i then FREE else s[j]
      {
        var entry := entries[i];
        entries[i] := FREE;
        if !HasNext(entry) {
          return;
        }
        i := i + 1;
      }
    }

    function BlockToAddress(block: int): Word
      reads this
    {
      Wrap(saddr + block * BLOCK_SIZE)
    }

    /** A signed difference, and C division, which truncates: addresses just below `saddr` also map to block 0. */
    function AddressToBlock(address: Word): int
      reads this
    {
      var offset := Signed(address - saddr);
      if offset >= 0 then offset / BLOCK_SIZE else -(-offset / BLOCK_SIZE)
    }

    lemma AddressOfBlock(block: nat)
      requires Valid() && block < entries.Length
      ensures BlockToAddress(block) == saddr + BLOCK_SIZE * block != 0
      ensures AddressToBlock(BlockToAddress(block)) == block
    {
    }

    /** `heap_malloc` */
    method Malloc(size: Word) returns (address: Word)
      requires Valid()
      requires ServesRequest(entries[..], Blocks(size))
      modifies entries
      ensures address != 0 <==> Blocks(size) >= 1 && Fits(old(entries[..]), Blocks(size))
      ensures address == 0 ==> Step(old(entries[..]), Refused(Blocks(size)), entries[..])
      ensures address != 0 ==>
        var b := AddressToBlock(address);
        && address == saddr + BLOCK_SIZE * b
        && b >= 0
        && Step(old(entries[..]), Allocated(b, Blocks(size)), entries[..])
    {
      var total_block := Blocks(size);
      address := 0;
      var start_block := GetStartBlock(total_block);
      if start_block < 0 {
        return;
      }
      AddressOfBlock(start_block);
      address := BlockToAddress(start_block);
      MarkBlocksTaken(start_block, total_block);
    }

    /** `heap_free`: addresses of negative blocks would be written before the table. */
    method Free(ptr: Word)
      requires AddressToBlock(ptr) >= 0
      modifies entries
      ensures entries[..] == MarkFree(old(entries[..]), AddressToBlock(ptr))
      ensures AddressToBlock(ptr) in Runs(old(entries[..])) ==>
        Step(old(entries[..]), Freed(AddressToBlock(ptr)), entries[..])
    {
      MarkBlocksFree(AddressToBlock(ptr));
    }

    /** Clears the entry at index `i`, which may lie below the table. */
    method ClearAt(below: array<bv8>, i: int) returns (entry: bv8)
      requires below != entries && -below.Length <= i < entries.Length
      modifies below, entries
      ensures entry == old(below[..] + entries[..])[below.Length + i]
      ensures below[..] + entries[..] == old(below[..] + entries[..])[below.Length + i := FREE]
    {
      if i < 0 {
        entry := below[below.Length + i];
        below[below.Length + i] := FREE;
        assert below[..] == old(below[..])[below.Length + i := FREE];
      } else {
        entry := entries[i];
        entries[i] := FREE;
        assert entries[..] == old(entries[..])[i := FREE];
      }
    }

    /**
     `heap_mark_blocks_free` from any block: `below` is the memory in front of the table, which blocks
     with negative numbers index.
     */
    method MarkBlocksFreeFrom(below: array<bv8>, starting_block: int)
      requires below != entries && -below.Length <= starting_block
      modifies below, entries
      ensures below[..] + entries[..] == MarkFree(old(below[..] + entries[..]), below.Length + starting_block)
    {
      ghost var w := below[..] + entries[..];
      ghost var first := below.Length + starting_block;
      var i := starting_block;
      while i < entries.Length
        invariant starting_block <= i
        invariant RunEnd(w, below.Length + i) == RunEnd(w, first)
        invariant below[..] + entries[..] == ClearedFrom(w, first, below.Length + i)
      {
        ClearedStep(w, first, below.Length + i);
        var entry := ClearAt(below, i);
        if !HasNext(entry) {
          return;
        }
        i := i + 1;
      }
    }

    /** `heap_free` of any address whose block is in the table or in the memory in front of it. */
    method FreeAny(below: array<bv8>, ptr: Word)
      requires below != entries && -below.Length <= AddressToBlock(ptr)
      modifies below, entries
      ensures below[..] + entries[..] == MarkFree(old(below[..] + entries[..]), below.Length + AddressToBlock(ptr))
    {
      MarkBlocksFreeFrom(below, AddressToBlock(ptr));
    }
  }
}
