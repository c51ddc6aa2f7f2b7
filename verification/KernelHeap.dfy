/**
 The one kernel heap (`kheap.c`): the block allocator together with the physical memory it hands
 out. Block b of the table is frame Base() + b of memory.
 */
module KernelHeap {
  import opened Words
  import opened HeapTable
  import opened PageTables
  import opened MemoryBytes
  import BelowTable
  import H = Heap

  /** A word whose first `k` bytes (its low-order bytes) have been set to zero. */
  function Cleared(w: Word, k: int): Word {
    if k <= 0 then w
    else if k == 1 then w - w % 0x100
    else if k == 2 then w - w % 0x1_0000
    else if k == 3 then w - w % 0x100_0000
    else 0
  }

  /** Memory with the `n` bytes from `a` set to zero. */
  function ZeroBytes(m: Ram, a: Word, n: nat): Ram
  {
    seq(RAM_WORDS, i requires 0 <= i < RAM_WORDS => if 4 * i >= a then Cleared(m[i], a + n - 4 * i) else m[i])
  }

  lemma ClearedBytes(w: Word, k: int, j: nat)
    requires j < 4
    ensures ByteOf(Cleared(w, k), j) == if j < k then 0 else ByteOf(w, j)
  {
    ZeroHasNoBytes(j);
    if 1 <= k <= 3 {
      LowBytesCleared(w, k, j);
    }
  }

  lemma {:induction false} ZeroHasNoBytes(j: nat)
    ensures ByteOf(0, j) == 0
  {
    if j > 0 {
      ZeroHasNoBytes(j - 1);
    }
  }

  /** Clearing the low `k` bytes leaves those above them. */
  lemma LowBytesCleared(w: Word, k: int, j: nat)
    requires 1 <= k <= 3 && j < 4
    ensures ByteOf(Cleared(w, k), j) == if j < k then 0 else ByteOf(w, j)
  {
    var a, b, c, e := w % 0x100, w / 0x100 % 0x100, w / 0x1_0000 % 0x100, w / 0x100_0000;
    FourParts(w, a, b, c, e);
    BytesOfSum(w, a, b, c, e, j);
    BytesOfSum(Cleared(w, k), 0, if k >= 2 then 0 else b, if k >= 3 then 0 else c, e, j);
  }

  lemma FourParts(w: Word, a: nat, b: nat, c: nat, e: nat)
    requires a == w % 0x100 && b == w / 0x100 % 0x100 && c == w / 0x1_0000 % 0x100 && e == w / 0x100_0000
    ensures w == a + 0x100 * b + 0x1_0000 * c + 0x100_0000 * e && e < 0x100
    ensures w % 0x1_0000 == a + 0x100 * b && w % 0x100_0000 == a + 0x100 * b + 0x1_0000 * c
  {
    var q, r := w / 0x100, w / 0x1_0000;
    assert w == 0x100 * q + a && q == 0x100 * (q / 0x100) + b && q / 0x100 == r;
    assert r == 0x100 * (r / 0x100) + c && r / 0x100 == e;
  }

  /** The bytes of a word that is put together from four. */
  lemma BytesOfSum(w: nat, a: nat, b: nat, c: nat, e: nat, j: nat)
    requires a < 0x100 && b < 0x100 && c < 0x100 && e < 0x100 && j < 4
    requires w == a + 0x100 * b + 0x1_0000 * c + 0x100_0000 * e
    ensures ByteOf(w, j) == if j == 0 then a else if j == 1 then b else if j == 2 then c else e
  {
    assert w / 0x100 == b + 0x100 * c + 0x1_0000 * e;
    assert w / 0x100 / 0x100 == c + 0x100 * e && w / 0x100 / 0x100 / 0x100 == e;
    ByteUnrolled(w, j);
  }

  lemma ByteUnrolled(w: nat, j: nat)
    requires j < 4
    ensures ByteOf(w, j) ==
      (if j == 0 then w else if j == 1 then w / 0x100 else if j == 2 then w / 0x100 / 0x100
       else w / 0x100 / 0x100 / 0x100) % 0x100
  {
  }

  /** Byte by byte: exactly the `n` bytes from `a` are zero, and all others are as they were. */
  lemma ZeroBytesAt(m: Ram, a: Word, n: nat, x: Word)
    requires a % 4 == 0 && a + n <= 0x1_0000_0000
    ensures GetByte(ZeroBytes(m, a, n), x) == if a <= x < a + n then 0 else GetByte(m, x)
  {
    ClearedBytes(m[x / 4], a + n - 4 * (x / 4), x % 4);
  }

  /** Zeroing bytes of the frames [f, f + k) leaves every other frame alone. */
  lemma ZeroBytesFrames(m: Ram, f: nat, k: nat, n: nat)
    requires f < FRAMES && n <= PAGE_SIZE * k
    ensures forall g: nat :: g < FRAMES && !(f <= g < f + k) ==> SameFrame(m, ZeroBytes(m, PAGE_SIZE * f, n), g)
  {
    var z := ZeroBytes(m, PAGE_SIZE * f, n);
    forall g: nat, w: nat | g < FRAMES && !(f <= g < f + k) && w < 1024
      ensures At(z, g, w) == At(m, g, w)
    {
      assert z[1024 * g + w] == if 4 * (1024 * g + w) >= PAGE_SIZE * f
        then Cleared(m[1024 * g + w], PAGE_SIZE * f + n - 4 * (1024 * g + w)) else m[1024 * g + w];
    }
  }

  lemma OneBlockTaken(s: Table, b: nat, t: Table)
    requires WellFormed(s) && Step(s, Allocated(b, 1), t)
    ensures s[b] == FREE && t == s[b := TAKEN | IS_FIRST]
    ensures WellFormed(t) && FreeCount(t) == FreeCount(s) - 1
  {
    assert WellFormedAt(s, b) && IsFree(s[b]);
    MarkTakenAddsRun(s, b, 1);
    assert RunFlag(0, 1) == TAKEN | IS_FIRST;
    assert |t| == |s| && forall i :: 0 <= i < |s| ==> t[i] == if i == b then TAKEN | IS_FIRST else s[i];
    FreeCountUpdate(s, b, TAKEN | IS_FIRST);
  }

  /** The call took table `s` to `t` and handed out the run of blocks at `address`. */
  ghost predicate Granted(base: nat, s: Table, address: Word, size: Word, t: Table) {
    && address % PAGE_SIZE == 0
    && Frame(address) >= base
    && Step(s, Allocated(Frame(address) - base, H.Blocks(size)), t)
  }

  lemma GrantedFits(base: nat, s: Table, address: Word, size: Word, t: Table)
    requires Granted(base, s, address, size, t)
    ensures size <= PAGE_SIZE * H.Blocks(size) && address % 4 == 0
    ensures address + size <= PAGE_SIZE * (base + |s|)
    ensures base + |s| <= FRAMES ==> address + size <= 0x1_0000_0000
  {
    H.BlocksCoverSize(size);
    var f, n := Frame(address), H.Blocks(size);
    assert f + n <= base + |s|;
    PagesFit(address, f, n, size, base + |s|);
  }

  lemma PagesFit(address: Word, f: nat, n: nat, size: nat, end: nat)
    requires address == PAGE_SIZE * f && size <= PAGE_SIZE * n && f + n <= end
    ensures address % 4 == 0 && address + size <= PAGE_SIZE * end
  {
    assert address == 4 * (1024 * f);
  }

  class Memory {
    const heap: H.Heap
    const ram: array<Word>
    /** The bytes in front of the block table, one for each block below the heap. */
    const below: array<bv8>

    constructor (heap: H.Heap, ram: array<Word>, below: array<bv8>)
      ensures this.heap == heap && this.ram == ram && this.below == below
    {
      this.heap, this.ram, this.below := heap, ram, below;
    }

    ghost predicate Valid()
      reads this, heap
    {
      && ram.Length == RAM_WORDS && heap.Valid()
      && below.Length == heap.saddr / PAGE_SIZE && below != heap.entries
    }

    ghost function Base(): nat
      reads this, heap
    {
      heap.saddr / PAGE_SIZE
    }

    ghost function Blocks(): Table
      reads this, heap, heap.entries
    {
      heap.entries[..]
    }

    /** `kmalloc` */
    method KMalloc(size: Word) returns (address: Word)
      requires Valid() && ServesRequest(Blocks(), H.Blocks(size))
      modifies heap.entries
      ensures Valid()
      ensures address != 0 <==> H.Blocks(size) >= 1 && Fits(old(Blocks()), H.Blocks(size))
      ensures address == 0 ==> Step(old(Blocks()), Refused(H.Blocks(size)), Blocks())
      ensures address != 0 ==> Granted(Base(), old(Blocks()), address, size, Blocks())
    {
      address := heap.Malloc(size);
      assert address != 0 ==> Frame(address) - Base() == heap.AddressToBlock(address);
    }

    /** `memset` with zero, in words; the last word may be cleared in part. */
    method ZeroMemory(a: Word, n: nat)
      requires Valid() && a % 4 == 0 && a + n <= 0x1_0000_0000
      modifies ram
      ensures ram[..] == ZeroBytes(old(ram[..]), a, n)
    {
      var i := 0;
      while 4 * i < n
        invariant 0 <= i && 4 * i < n + 4
        invariant forall j :: 0 <= j < RAM_WORDS ==>
          ram[j] == if a / 4 <= j < a / 4 + i then Cleared(old(ram[j]), a + n - 4 * j) else old(ram[j])
      {
        ram[a / 4 + i] := Cleared(ram[a / 4 + i], n - 4 * i);
        i := i + 1;
      }
    }

    /** `kzalloc` */
    method KZalloc(size: Word) returns (address: Word)
      requires Valid() && ServesRequest(Blocks(), H.Blocks(size))
      modifies heap.entries, ram
      ensures Valid()
      ensures address != 0 <==> H.Blocks(size) >= 1 && Fits(old(Blocks()), H.Blocks(size))
      ensures address == 0 ==> Step(old(Blocks()), Refused(H.Blocks(size)), Blocks()) && ram[..] == old(ram[..])
      ensures address != 0 ==>
        && Granted(Base(), old(Blocks()), address, size, Blocks())
        && ram[..] == ZeroBytes(old(ram[..]), address, size)
    {
      address := KMalloc(size);
      if address == 0 {
        return;
      }
      GrantedFits(Base(), old(Blocks()), address, size, Blocks());
      ZeroMemory(address, size);
    }

    /** `kfree` */
    method KFree(ptr: Word)
      requires Valid() && Base() <= Frame(ptr) && ptr < 0x8000_0000
      modifies heap.entries
      ensures Valid()
      ensures Blocks() == MarkFree(old(Blocks()), Frame(ptr) - Base())
    {
      assert heap.AddressToBlock(ptr) == Frame(ptr) - Base();
      heap.Free(ptr);
    }

    /** `kfree`, of the null pointer too. */
    method KFreeAny(ptr: Word)
      requires Valid() && (ptr == 0 || (Base() <= Frame(ptr) && ptr < 0x8000_0000))
      modifies heap.entries, below
      ensures Valid()
      ensures below[..] + Blocks() == MarkFree(old(below[..] + Blocks()), Frame(ptr))
      ensures ptr != 0 ==> below[..] == old(below[..]) && Blocks() == MarkFree(old(Blocks()), Frame(ptr) - Base())
    {
      assert heap.AddressToBlock(ptr) == Frame(ptr) - Base();
      ghost var s, b := Blocks(), below[..];
      heap.FreeAny(below, ptr);
      if ptr != 0 {
        BelowTable.FreedInTable(b, s, below[..], Blocks(), Frame(ptr) - Base());
      }
    }
  }
}
