/**
 Building and releasing whole 4 GB address spaces out of heap blocks: the part of `paging.c` that
 allocates.
 */
module AddressSpaces {
  import opened Words
  import opened HeapTable
  import opened PageTables
  import opened KernelHeap
  import H = Heap

  /** The flag of a run of one block. */
  const SINGLE: bv8 := TAKEN | IS_FIRST

  const SPACE_FRAMES := 1026

  /** Frame `f` is a free block of the heap. */
  ghost predicate FreeFrame(base: nat, s: Table, f: nat) {
    base <= f < base + |s| && s[f - base] == FREE
  }

  /** Table `t` has the runs of `s` but for those that start in frames `fs`. */
  ghost predicate DropsRuns(base: nat, s: Table, t: Table, fs: set<nat>) {
    && |t| == |s| && WellFormed(t)
    && forall b: nat :: RunDropped(base, s, t, fs, b)
  }

  ghost predicate RunDropped(base: nat, s: Table, t: Table, fs: set<nat>, b: nat) {
    && (b in Runs(t) <==> b in Runs(s) && base + b !in fs)
    && (b in Runs(t) ==> Runs(t)[b] == Runs(s)[b])
  }

  lemma DropsMore(base: nat, s: Table, t: Table, u: Table, fs: set<nat>, gs: set<nat>)
    requires DropsRuns(base, s, t, fs) && DropsRuns(base, t, u, gs)
    ensures DropsRuns(base, s, u, fs + gs)
  {
    forall b: nat
      ensures RunDropped(base, s, u, fs + gs, b)
    {
      assert RunDropped(base, s, t, fs, b) && RunDropped(base, t, u, gs, b);
    }
  }

  lemma FreeDropsOne(base: nat, s: Table, b: nat)
    requires WellFormed(s) && b in Runs(s)
    ensures DropsRuns(base, s, MarkFree(s, b), {base + b})
  {
    MarkFreeDropsRun(s, b);
  }

  // ---------- What a new address space is ----------

  /** Every page is mapped to the frame of the same number, with the same flags. */
  ghost predicate Identity(m: Ram, c: nat, flags: nat)
    requires c < FRAMES
  {
    forall p: nat :: p < FRAMES ==> Entry(m, Dir(m, c), p) == PAGE_SIZE * p + flags
  }

  /** Table `s` with the blocks in frames `fs` flagged `e`. */
  ghost function Marked(base: nat, s: Table, fs: set<nat>, e: bv8): Table {
    seq(|s|, b requires 0 <= b < |s| => if base + b in fs then e else s[b])
  }

  /** The frames `fs` are blocks of the heap, each flagged `e`. */
  ghost predicate Holds(base: nat, s: Table, fs: set<nat>, e: bv8) {
    forall f :: f in fs ==> base <= f < base + |s| && s[f - base] == e
  }

  /** Table `t` is table `s` with the frames of address space `c`, all free before, now taken. */
  ghost predicate SpaceTaken(base: nat, s: Table, t: Table, m: Ram, c: nat)
    requires c < FRAMES
  {
    && Holds(base, s, Frames(m, c), FREE)
    && t == Marked(base, s, Frames(m, c), SINGLE)
  }

  /**
   A call took table `s` to `t` and memory `m` to `n` and built address space `c`: it maps every
   address to itself with the given flags, its directory entries are also writeable, its frames
   are exactly the blocks newly taken, and no other frame of memory changed.
   */
  ghost predicate NewSpace(base: nat, s: Table, t: Table, m: Ram, n: Ram, c: nat, flags: nat)
    requires flags < 256
  {
    && Space(n, c)
    && Identity(n, c, flags)
    && (forall i: nat :: i < 1024 ==> At(n, Dir(n, c), i) == DirectoryEntry(TableAt(n, Dir(n, c), i), flags))
    && SpaceTaken(base, s, t, n, c)
    && (forall f: nat :: f < FRAMES && f !in Frames(n, c) ==> SameFrame(m, n, f))
  }

  /** Each frame of address space `c` is a run of one block. */
  ghost predicate SpaceLive(base: nat, s: Table, m: Ram, c: nat)
    requires c < FRAMES
  {
    Holds(base, s, Frames(m, c), SINGLE)
  }

  // ---------- Building ----------

  /** The flags with the writeable bit set. */
  function WithWriteable(flags: nat): nat {
    if IsWriteable(flags) then flags else flags + WRITEABLE
  }

  /** The directory entry of a table in frame `f`: the flags, and always writeable. */
  function DirectoryEntry(f: nat, flags: nat): Word
    requires f < FRAMES && flags < 256
  {
    PAGE_SIZE * f + WithWriteable(flags)
  }

  function IdentityEntry(p: nat, flags: nat): Word
    requires p < FRAMES && flags < 256
  {
    PAGE_SIZE * p + flags
  }

  /** Frame `f` is the `k`-th table of an identity mapping. */
  ghost predicate HoldsIdentity(m: Ram, f: nat, k: nat, flags: nat)
    requires f < FRAMES && k < 1024 && flags < 256
  {
    forall w: nat :: w < 1024 ==> At(m, f, w) == IdentityEntry(1024 * k + w, flags)
  }

  /** The blocks taken while a space is being built: the directory `d` and the tables `ts`. */
  ghost predicate BlocksTaken(base: nat, s0: Table, s: Table, d: nat, ts: seq<nat>) {
    && base <= d < base + |s0| <= FRAMES && s0[d - base] == FREE
    && (forall k :: 0 <= k < |ts| ==> base <= ts[k] < base + |s0| && s0[ts[k] - base] == FREE && ts[k] != d)
    && (forall j, k :: 0 <= j < k < |ts| ==> ts[j] != ts[k])
    && |s| == |s0|
    && (forall b: nat :: b < |s| ==> s[b] == if base + b == d || base + b in ts then SINGLE else s0[b])
  }

  /**
   Memory while a space is being built: the tables `ts` are filled with `flags` and entered in
   directory `d` with the flags `low`.
   */
  ghost predicate TablesFilled(m0: Ram, m: Ram, d: nat, ts: seq<nat>, flags: nat, low: nat) {
    && d < FRAMES && |ts| <= 1024 && flags < 256 && low < PAGE_SIZE
    && (forall k :: 0 <= k < |ts| ==> ts[k] < FRAMES && ts[k] != d)
    && (forall k :: 0 <= k < |ts| ==> At(m, d, k) == PAGE_SIZE * ts[k] + low)
    && (forall k :: 0 <= k < |ts| ==> HoldsIdentity(m, ts[k], k, flags))
    && (forall f: nat :: f < FRAMES && f != d && f !in ts ==> SameFrame(m0, m, f))
  }

  /** Table `t` is table `s` after an allocation of the one block in frame `f`. */
  ghost predicate TookFrame(base: nat, s: Table, t: Table, f: nat) {
    && base <= f < base + |s| && s[f - base] == FREE && t == s[f - base := SINGLE]
    && WellFormed(t) && FreeCount(t) == FreeCount(s) - 1
  }

  lemma NextBlock(base: nat, s0: Table, s: Table, t: Table, d: nat, ts: seq<nat>, f: nat)
    requires BlocksTaken(base, s0, s, d, ts) && TookFrame(base, s, t, f)
    ensures f < FRAMES && f != d && f !in ts
    ensures BlocksTaken(base, s0, t, d, ts + [f])
  {
    var us := ts + [f];
    assert s[f - base] != SINGLE;
    forall b: nat | b < |t|
      ensures t[b] == if base + b == d || base + b in us then SINGLE else s0[b]
    {
      assert base + b in us <==> base + b in ts || base + b == f;
    }
  }

  /** One more table, in frame `f`, filled and entered in the directory: memory `m` to `n`. */
  lemma NextMemory(m0: Ram, m: Ram, n: Ram, d: nat, ts: seq<nat>, f: nat, flags: nat, low: nat)
    requires TablesFilled(m0, m, d, ts, flags, low) && |ts| < 1024
    requires f < FRAMES && f != d && f !in ts
    requires HoldsIdentity(n, f, |ts|, flags)
    requires forall g: nat :: g < FRAMES && g != f && g != d ==> SameFrame(m, n, g)
    requires forall w: nat :: w < 1024 ==> At(n, d, w) == if w == |ts| then PAGE_SIZE * f + low else At(m, d, w)
    ensures TablesFilled(m0, n, d, ts + [f], flags, low)
  {
    var us := ts + [f];
    forall g: nat | g < FRAMES && g != d && g !in us
      ensures SameFrame(m0, n, g)
    {
      assert SameFrame(m0, m, g) && SameFrame(m, n, g);
    }
    forall k | 0 <= k < |us|
      ensures HoldsIdentity(n, us[k], k, flags)
    {
      if k < |ts| {
        assert SameFrame(m, n, us[k]) && HoldsIdentity(m, ts[k], k, flags);
      }
    }
  }

  lemma TablesAre(m: Ram, d: nat, ts: seq<nat>)
    requires d < FRAMES && |ts| == 1024
    requires forall i: nat :: i < 1024 ==> TableAt(m, d, i) == ts[i]
    ensures Tables(m, d) == set f | f in ts
  {
    forall f | f in ts
      ensures f in Tables(m, d)
    {
      var i :| 0 <= i < |ts| && ts[i] == f;
      assert TableAt(m, d, i) == f;
    }
  }

  /** With all 1024 tables entered (m) and the chunk in frame `c` written (n), the space is complete. */
  lemma LastMemory(m0: Ram, m: Ram, n: Ram, d: nat, ts: seq<nat>, c: nat, flags: nat, low: nat)
    requires TablesFilled(m0, m, d, ts, flags, low) && |ts| == 1024
    requires forall j, k :: 0 <= j < k < |ts| ==> ts[j] != ts[k]
    requires c < FRAMES && c != d && c !in ts
    requires forall g: nat :: g < FRAMES && g != c ==> SameFrame(m, n, g)
    requires At(n, c, 0) == PAGE_SIZE * d
    ensures Space(n, c) && Dir(n, c) == d && Identity(n, c, flags)
    ensures forall i: nat :: i < 1024 ==> TableAt(n, d, i) == ts[i] && At(n, d, i) == PAGE_SIZE * ts[i] + low
    ensures forall f :: f in Frames(n, c) <==> f == c || f == d || f in ts
    ensures forall f: nat :: f < FRAMES && f !in Frames(n, c) ==> SameFrame(m0, n, f)
  {
    assert SameFrame(m, n, d);
    forall i: nat | i < 1024
      ensures TableAt(n, d, i) == ts[i] && At(n, d, i) == PAGE_SIZE * ts[i] + low
    {
    }
    TablesAre(n, d, ts);
    forall p: nat | p < FRAMES
      ensures Entry(n, d, p) == PAGE_SIZE * p + flags
    {
      assert SameFrame(m, n, ts[p / 1024]) && HoldsIdentity(m, ts[p / 1024], p / 1024, flags);
      assert 1024 * (p / 1024) + p % 1024 == p;
    }
    forall f: nat | f < FRAMES && f !in Frames(n, c)
      ensures SameFrame(m0, n, f)
    {
      assert SameFrame(m0, m, f) && SameFrame(m, n, f);
    }
  }

  lemma LastBlock(base: nat, s0: Table, t: Table, d: nat, ts: seq<nat>, fs: set<nat>)
    requires BlocksTaken(base, s0, t, d, ts)
    requires forall f :: f in fs <==> f == d || f in ts
    ensures Holds(base, s0, fs, FREE) && t == Marked(base, s0, fs, SINGLE)
  {
    forall b: nat | b < |t|
      ensures t[b] == Marked(base, s0, fs, SINGLE)[b]
    {
      assert t[b] == if base + b == d || base + b in ts then SINGLE else s0[b];
    }
  }

  /** `kzalloc` of at most one block, when there is a free block. */
  method KZallocFrame(mem: Memory, size: Word) returns (address: Word)
    requires mem.Valid() && WellFormed(mem.Blocks())
    requires 1 <= size <= PAGE_SIZE && FreeCount(mem.Blocks()) >= 1
    modifies mem.heap.entries, mem.ram
    ensures mem.Valid() && address == PAGE_SIZE * Frame(address)
    ensures TookFrame(mem.Base(), old(mem.Blocks()), mem.Blocks(), Frame(address))
    ensures forall g: nat :: g < FRAMES && g != Frame(address) ==> SameFrame(old(mem.ram[..]), mem.ram[..], g)
  {
    ghost var m: Ram := mem.ram[..];
    ghost var s := mem.Blocks();
    OneBlockFits(s);
    H.BlocksCoverSize(size);
    address := mem.KZalloc(size);
    OneBlockTaken(s, Frame(address) - mem.Base(), mem.Blocks());
    ZeroBytesFrames(m, Frame(address), 1, size);
  }

  /** The inner loop of `paging_new_4gb`: fills the table at `entry` from `offset` on. */
  method FillTable(ram: array<Word>, entry: Word, offset: Word, flags: nat, ghost k: nat)
    requires ram.Length == RAM_WORDS && entry % PAGE_SIZE == 0 && flags < 256
    requires k < 1024 && offset == 1024 * PAGE_SIZE * k
    modifies ram
    ensures HoldsIdentity(ram[..], Frame(entry), k, flags)
    ensures forall g: nat :: g < FRAMES && g != Frame(entry) ==> SameFrame(old(ram[..]), ram[..], g)
  {
    ghost var f := Frame(entry);
    var b := 0;
    while b < 1024
      invariant 0 <= b <= 1024
      invariant forall w: nat :: w < b ==> At(ram[..], f, w) == IdentityEntry(1024 * k + w, flags)
      invariant forall g: nat :: g < FRAMES && g != f ==> SameFrame(old(ram[..]), ram[..], g)
    {
      ghost var n: Ram := ram[..];
      FillValue(offset, k, b);
      var val := OrFlags(Wrap(offset + b * PAGE_SIZE), flags);
      ram[entry / 4 + b] := val;
      FilledWord(n, ram[..], f, b, val);
      forall g: nat | g < FRAMES && g != f
        ensures SameFrame(old(ram[..]), ram[..], g)
      {
        assert SameFrame(old(ram[..]), n, g) && SameFrame(n, ram[..], g);
      }
      b := b + 1;
    }
  }

  lemma FillValue(offset: Word, k: nat, b: nat)
    requires k < 1024 && b < 1024 && offset == 1024 * PAGE_SIZE * k
    ensures Wrap(offset + b * PAGE_SIZE) == PAGE_SIZE * (1024 * k + b)
  {
  }

  lemma FilledWord(m: Ram, n: Ram, f: nat, b: nat, val: Word)
    requires f < FRAMES && b < 1024 && n == m[1024 * f + b := val]
    ensures At(n, f, b) == val
    ensures forall w: nat :: w < 1024 && w != b ==> At(n, f, w) == At(m, f, w)
    ensures forall g: nat :: g < FRAMES && g != f ==> SameFrame(m, n, g)
  {
    PutAt(m, f, b, val);
  }

  /** `paging_new_4gb`: the requires rules out the null allocations that the code does not check. */
  method PagingNew4gb(mem: Memory, flags: nat) returns (chunk: Word)
    requires mem.Valid() && WellFormed(mem.Blocks())
    requires flags < 256 && FreeCount(mem.Blocks()) >= SPACE_FRAMES
    modifies mem.heap.entries, mem.ram
    ensures mem.Valid() && WellFormed(mem.Blocks())
    ensures chunk % PAGE_SIZE == 0
    ensures NewSpace(mem.Base(), old(mem.Blocks()), mem.Blocks(), old(mem.ram[..]), mem.ram[..], Frame(chunk), flags)
    ensures FreeCount(mem.Blocks()) == old(FreeCount(mem.Blocks())) - SPACE_FRAMES
  {
    ghost var s0 := mem.Blocks();
    ghost var m0: Ram := mem.ram[..];
    var directory := KZallocFrame(mem, 4096);
    ghost var ts := FillDirectory(mem, directory, flags, s0, m0);
    chunk := WriteChunk(mem, directory, flags, s0, m0, ts);
  }

  /** The end of `paging_new_4gb`: the chunk is allocated and records the directory. */
  method WriteChunk(mem: Memory, directory: Word, flags: nat, ghost s0: Table, ghost m0: Ram, ghost ts: seq<nat>)
    returns (chunk: Word)
    requires mem.Valid() && directory % PAGE_SIZE == 0 && |ts| == 1024
    requires BlocksTaken(mem.Base(), s0, mem.Blocks(), Frame(directory), ts) && WellFormed(mem.Blocks())
    requires FreeCount(mem.Blocks()) == FreeCount(s0) - 1 - 1024 && FreeCount(s0) >= SPACE_FRAMES
    requires TablesFilled(m0, mem.ram[..], Frame(directory), ts, flags, WithWriteable(flags))
    modifies mem.heap.entries, mem.ram
    ensures mem.Valid() && WellFormed(mem.Blocks()) && chunk % PAGE_SIZE == 0
    ensures NewSpace(mem.Base(), s0, mem.Blocks(), m0, mem.ram[..], Frame(chunk), flags)
    ensures FreeCount(mem.Blocks()) == FreeCount(s0) - SPACE_FRAMES
  {
    ghost var s := mem.Blocks();
    ghost var m: Ram := mem.ram[..];
    chunk := KZallocFrame(mem, 4);
    ghost var m1: Ram := mem.ram[..];
    mem.ram[chunk / 4] := directory;
    SpaceBuilt(mem.Base(), s0, s, mem.Blocks(), m0, m, m1, mem.ram[..], Frame(directory), ts, Frame(chunk), flags);
  }

  lemma SpaceBuilt(base: nat, s0: Table, s: Table, t: Table, m0: Ram, m: Ram, m1: Ram, n: Ram,
                   d: nat, ts: seq<nat>, c: nat, flags: nat)
    requires BlocksTaken(base, s0, s, d, ts) && TablesFilled(m0, m, d, ts, flags, WithWriteable(flags)) && |ts| == 1024
    requires FreeCount(s) == FreeCount(s0) - 1 - 1024
    requires TookFrame(base, s, t, c) && c < FRAMES
    requires forall g: nat :: g < FRAMES && g != c ==> SameFrame(m, m1, g)
    requires n == Put(m1, c, 0, PAGE_SIZE * d)
    ensures NewSpace(base, s0, t, m0, n, c, flags)
    ensures WellFormed(t) && FreeCount(t) == FreeCount(s0) - SPACE_FRAMES
  {
    NextBlock(base, s0, s, t, d, ts, c);
    ChunkWritten(m, m1, n, c, PAGE_SIZE * d);
    LastMemory(m0, m, n, d, ts, c, flags, WithWriteable(flags));
    assert forall f :: f in ts + [c] <==> f in ts || f == c;
    LastBlock(base, s0, t, d, ts + [c], Frames(n, c));
  }

  /** The outer loop of `paging_new_4gb`, once the directory has been allocated. */
  method FillDirectory(mem: Memory, directory: Word, flags: nat, ghost s0: Table, ghost m0: Ram)
    returns (ghost ts: seq<nat>)
    requires mem.Valid() && directory % PAGE_SIZE == 0 && FreeCount(s0) >= SPACE_FRAMES
    requires BlocksTaken(mem.Base(), s0, mem.Blocks(), Frame(directory), [])
    requires WellFormed(mem.Blocks()) && FreeCount(mem.Blocks()) == FreeCount(s0) - 1
    requires TablesFilled(m0, mem.ram[..], Frame(directory), [], flags, WithWriteable(flags))
    modifies mem.heap.entries, mem.ram
    ensures mem.Valid() && |ts| == 1024
    ensures WellFormed(mem.Blocks()) && FreeCount(mem.Blocks()) == FreeCount(s0) - 1 - 1024
    ensures BlocksTaken(mem.Base(), s0, mem.Blocks(), Frame(directory), ts)
    ensures TablesFilled(m0, mem.ram[..], Frame(directory), ts, flags, WithWriteable(flags))
  {
    ghost var base, d := mem.Base(), Frame(directory);
    var offset := 0;
    ts := [];
    var i := 0;
    while i < 1024
      invariant 0 <= i <= 1024 && |ts| == i && (i < 1024 ==> offset == 1024 * PAGE_SIZE * i)
      invariant mem.Valid() && mem.Base() == base
      invariant BlocksTaken(base, s0, mem.Blocks(), d, ts)
      invariant WellFormed(mem.Blocks()) && FreeCount(mem.Blocks()) == FreeCount(s0) - 1 - i
      invariant TablesFilled(m0, mem.ram[..], d, ts, flags, WithWriteable(flags))
    {
      ghost var s := mem.Blocks();
      ghost var m: Ram := mem.ram[..];
      var entry := NewTable(mem, offset, flags, i);
      ghost var f := Frame(entry);
      ghost var m2: Ram := mem.ram[..];
      EnterTable(mem.ram, directory, i, entry, flags);
      NextBlock(base, s0, s, mem.Blocks(), d, ts, f);
      FilledThenEntered(m, m2, mem.ram[..], d, i, f, flags);
      NextMemory(m0, m, mem.ram[..], d, ts, f, flags, WithWriteable(flags));
      OffsetStep(offset, i);
      offset := Wrap(offset + 1024 * PAGE_SIZE);
      ts := ts + [f];
      i := i + 1;
    }
  }

  /** The body of the outer loop: one table, allocated and filled. */
  method NewTable(mem: Memory, offset: Word, flags: nat, ghost k: nat) returns (entry: Word)
    requires mem.Valid() && WellFormed(mem.Blocks()) && FreeCount(mem.Blocks()) >= 1
    requires flags < 256 && k < 1024 && offset == 1024 * PAGE_SIZE * k
    modifies mem.heap.entries, mem.ram
    ensures mem.Valid() && entry == PAGE_SIZE * Frame(entry)
    ensures TookFrame(mem.Base(), old(mem.Blocks()), mem.Blocks(), Frame(entry))
    ensures HoldsIdentity(mem.ram[..], Frame(entry), k, flags)
    ensures forall g: nat :: g < FRAMES && g != Frame(entry) ==> SameFrame(old(mem.ram[..]), mem.ram[..], g)
  {
    ghost var m: Ram := mem.ram[..];
    entry := KZallocFrame(mem, 4096);
    ghost var m1: Ram := mem.ram[..];
    FillTable(mem.ram, entry, offset, flags, k);
    forall g: nat | g < FRAMES && g != Frame(entry)
      ensures SameFrame(m, mem.ram[..], g)
    {
      assert SameFrame(m, m1, g) && SameFrame(m1, mem.ram[..], g);
    }
  }

  lemma FilledThenEntered(m: Ram, m2: Ram, n: Ram, d: nat, i: nat, f: nat, flags: nat)
    requires d < FRAMES && f < FRAMES && f != d && i < 1024 && flags < 256
    requires HoldsIdentity(m2, f, i, flags)
    requires forall g: nat :: g < FRAMES && g != f ==> SameFrame(m, m2, g)
    requires n == Put(m2, d, i, DirectoryEntry(f, flags))
    ensures HoldsIdentity(n, f, i, flags)
    ensures forall g: nat :: g < FRAMES && g != f && g != d ==> SameFrame(m, n, g)
    ensures forall w: nat :: w < 1024 ==> At(n, d, w) == if w == i then DirectoryEntry(f, flags) else At(m, d, w)
  {
    PutAt(m2, d, i, DirectoryEntry(f, flags));
    assert SameFrame(m, m2, d);
    forall g: nat | g < FRAMES && g != f && g != d
      ensures SameFrame(m, n, g)
    {
      assert SameFrame(m, m2, g);
    }
  }

  lemma OffsetStep(offset: Word, i: nat)
    requires i < 1024 && offset == 1024 * PAGE_SIZE * i
    ensures i + 1 < 1024 ==> Wrap(offset + 1024 * PAGE_SIZE) == 1024 * PAGE_SIZE * (i + 1)
  {
  }

  method EnterTable(ram: array<Word>, directory: Word, i: nat, entry: Word, flags: nat)
    requires ram.Length == RAM_WORDS && directory % PAGE_SIZE == 0 && i < 1024
    requires entry % PAGE_SIZE == 0 && flags < 256
    modifies ram
    ensures ram[..] == Put(old(ram[..]), Frame(directory), i, DirectoryEntry(Frame(entry), flags))
  {
    var withFlags := OrFlags(entry, flags);
    OrWriteable(Frame(entry), flags);
    ram[directory / 4 + i] := Or(withFlags, WRITEABLE);
  }

  lemma OrWriteable(f: nat, flags: nat)
    requires f < FRAMES && flags < 256
    ensures Or(PAGE_SIZE * f + flags, WRITEABLE) == DirectoryEntry(f, flags)
  {
    OrFlagsIntoPage(f, flags, WRITEABLE);
    OrHalves(flags, 2);
    OrHalves(flags / 2, 1);
    OrZero(flags / 4);
  }

  lemma ChunkWritten(m: Ram, m1: Ram, n: Ram, c: nat, directory: Word)
    requires c < FRAMES && n == Put(m1, c, 0, directory)
    requires forall g: nat :: g < FRAMES && g != c ==> SameFrame(m, m1, g)
    ensures At(n, c, 0) == directory
    ensures forall g: nat :: g < FRAMES && g != c ==> SameFrame(m, n, g)
  {
    FilledWord(m1, n, c, 0, directory);
    forall g: nat | g < FRAMES && g != c
      ensures SameFrame(m, n, g)
    {
      assert SameFrame(m, m1, g) && SameFrame(m1, n, g);
    }
  }
}
