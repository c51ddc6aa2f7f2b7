/**
 The variant of `paging.c` that builds an address space inside a single allocation.
 */
module OneChunk {
  import opened Words
  import opened HeapTable
  import opened PageTables
  import opened KernelHeap
  import opened AddressSpaces
  import opened SpaceRelease
  import H = Heap

  /** The frames of the first `k` tables of a one-chunk space whose chunk is frame `c`. */
  ghost function ChunkTables(c: nat, k: nat): seq<nat> {
    seq(k, j => c + 2 + j)
  }

  ghost function ChunkFrames(c: nat): set<nat> {
    {c, c + 1} + set f | f in ChunkTables(c, 1024)
  }

  lemma ChunkTablesStep(c: nat, k: nat)
    ensures ChunkTables(c, k + 1) == ChunkTables(c, k) + [c + 2 + k]
    ensures c + 2 + k !in ChunkTables(c, k)
  {
  }

  lemma ChunkDone(m0: Ram, m1: Ram, m: Ram, c: nat, flags: nat)
    requires c + SPACE_FRAMES <= FRAMES
    requires TablesFilled(m1, m, c + 1, ChunkTables(c, 1024), flags, flags)
    requires m1 == Put(m0, c, 0, PAGE_SIZE * (c + 1))
    ensures Space(m, c) && Dir(m, c) == c + 1 && Identity(m, c, flags) && DirectoryFlags(m, c, flags)
    ensures Frames(m, c) == ChunkFrames(c)
    ensures forall f: nat :: f < FRAMES && f !in ChunkFrames(c) ==> SameFrame(m0, m, f)
  {
    var ts := ChunkTables(c, 1024);
    PutAt(m0, c, 0, PAGE_SIZE * (c + 1));
    assert SameFrame(m1, m, c);
    LastMemory(m1, m, m, c + 1, ts, c, flags, flags);
    assert Frames(m, c) == ChunkFrames(c);
    forall f: nat | f < FRAMES && f !in ChunkFrames(c)
      ensures SameFrame(m0, m, f)
    {
      assert SameFrame(m1, m, f);
    }
  }

  /** `paging_new_4gb_one_chunk`: chunk, directory and tables are one run of 1026 blocks. */
  method PagingNew4gbOneChunk(mem: Memory, flags: nat) returns (chunk: Word)
    requires mem.Valid() && WellFormed(mem.Blocks())
    requires flags < 256 && Fits(mem.Blocks(), SPACE_FRAMES)
    modifies mem.heap.entries, mem.ram
    ensures mem.Valid() && chunk % PAGE_SIZE == 0 && Frame(chunk) >= mem.Base()
    ensures Step(old(mem.Blocks()), Allocated(Frame(chunk) - mem.Base(), SPACE_FRAMES), mem.Blocks())
    ensures Space(mem.ram[..], Frame(chunk)) && Identity(mem.ram[..], Frame(chunk), flags)
    ensures DirectoryFlags(mem.ram[..], Frame(chunk), flags)
    ensures Frames(mem.ram[..], Frame(chunk)) == ChunkFrames(Frame(chunk))
    ensures forall f: nat :: f < FRAMES && f !in Frames(mem.ram[..], Frame(chunk)) ==>
      SameFrame(old(mem.ram[..]), mem.ram[..], f)
  {
    ghost var m0: Ram := mem.ram[..];
    var tableSize := 4 * 1024;
    var total := 4096 + tableSize + tableSize * 1024;
    assert H.Blocks(total) == SPACE_FRAMES;
    chunk := mem.KMalloc(total);
    GrantedFits(mem.Base(), old(mem.Blocks()), chunk, total, mem.Blocks());
    mem.ram[chunk / 4] := chunk + 4096;
    FillChunk(mem.ram, chunk, flags);
    ChunkDone(m0, m0[chunk / 4 := chunk + 4096], mem.ram[..], Frame(chunk), flags);
  }

  lemma NextChunkTable(m1: Ram, m: Ram, n: Ram, c: nat, d: nat, i: nat, flags: nat)
    requires i < 1024 && c + SPACE_FRAMES <= FRAMES && d == c + 1 && flags < 256
    requires TablesFilled(m1, m, d, ChunkTables(c, i), flags, flags)
    requires HoldsIdentity(n, c + 2 + i, i, flags)
    requires forall g: nat :: g < FRAMES && g != c + 2 + i && g != d ==> SameFrame(m, n, g)
    requires forall w: nat :: w < 1024 ==>
      At(n, d, w) == if w == i then PAGE_SIZE * (c + 2 + i) + flags else At(m, d, w)
    ensures TablesFilled(m1, n, d, ChunkTables(c, i + 1), flags, flags)
  {
    ChunkTablesStep(c, i);
    NextMemory(m1, m, n, d, ChunkTables(c, i), c + 2 + i, flags, flags);
  }

  /** The nested loops of `paging_new_4gb_one_chunk`. */
  method FillChunk(ram: array<Word>, chunk: Word, flags: nat)
    requires ram.Length == RAM_WORDS && chunk % PAGE_SIZE == 0 && flags < 256
    requires Frame(chunk) + SPACE_FRAMES <= FRAMES && ram[chunk / 4] == chunk + 4096
    modifies ram
    ensures TablesFilled(old(ram[..]), ram[..], Frame(chunk) + 1, ChunkTables(Frame(chunk), 1024), flags, flags)
  {
    ghost var m1: Ram := ram[..];
    ghost var c := Frame(chunk);
    var i := 0;
    while i < 1024
      invariant 0 <= i <= 1024
      invariant TablesFilled(m1, ram[..], c + 1, ChunkTables(c, i), flags, flags)
    {
      ghost var m: Ram := ram[..];
      assert SameFrame(m1, m, c) && At(m, c, 0) == At(m1, c, 0);
      FillChunkTable(ram, chunk, i, flags);
      NextChunkTable(m1, m, ram[..], c, c + 1, i, flags);
      i := i + 1;
    }
  }

  /** The body of the outer loop: directory entry `i`, then its table. */
  method FillChunkTable(ram: array<Word>, chunk: Word, i: nat, flags: nat)
    requires ram.Length == RAM_WORDS && chunk % PAGE_SIZE == 0 && flags < 256 && i < 1024
    requires Frame(chunk) + SPACE_FRAMES <= FRAMES && ram[chunk / 4] == chunk + 4096
    modifies ram
    ensures HoldsIdentity(ram[..], Frame(chunk) + 2 + i, i, flags)
    ensures forall g: nat :: g < FRAMES && g != Frame(chunk) + 2 + i && g != Frame(chunk) + 1 ==>
      SameFrame(old(ram[..]), ram[..], g)
    ensures
      var m, n, d := old(ram[..]), ram[..], Frame(chunk) + 1;
      forall w: nat :: w < 1024 ==> At(n, d, w) == if w == i then PAGE_SIZE * (d + 1 + i) + flags else At(m, d, w)
  {
    ghost var m: Ram := ram[..];
    ghost var f := Frame(chunk) + 2 + i;
    var tableSize := 4 * 1024;
    var pagesStart := chunk + 4096 + tableSize;
    var pageTableLocation := pagesStart + i * tableSize;
    assert pageTableLocation == PAGE_SIZE * f;
    var directoryEntry := OrFlags(pageTableLocation, flags);
    ram[ram[chunk / 4] / 4 + i] := directoryEntry;
    ghost var m2: Ram := ram[..];
    FillTable(ram, pageTableLocation, Wrap(i * 1024 * PAGE_SIZE), flags, i);
    EnteredThenFilled(m, m2, ram[..], Frame(chunk) + 1, i, f, flags);
  }

  lemma EnteredThenFilled(m: Ram, m2: Ram, n: Ram, d: nat, i: nat, f: nat, flags: nat)
    requires d < FRAMES && f < FRAMES && f != d && i < 1024 && flags < 256
    requires m2 == Put(m, d, i, PAGE_SIZE * f + flags)
    requires forall g: nat :: g < FRAMES && g != f ==> SameFrame(m2, n, g)
    ensures forall g: nat :: g < FRAMES && g != f && g != d ==> SameFrame(m, n, g)
    ensures forall w: nat :: w < 1024 ==> At(n, d, w) == if w == i then PAGE_SIZE * f + flags else At(m, d, w)
  {
    PutAt(m, d, i, PAGE_SIZE * f + flags);
    assert SameFrame(m2, n, d);
    forall g: nat | g < FRAMES && g != f && g != d
      ensures SameFrame(m, n, g)
    {
      assert SameFrame(m2, n, g);
    }
  }

  /** `paging_free_4gb_one_chunk` */
  method PagingFree4gbOneChunk(mem: Memory, chunk: Word)
    requires mem.Valid() && mem.Base() <= Frame(chunk) && chunk < 0x8000_0000
    modifies mem.heap.entries
    ensures mem.Valid() && mem.Blocks() == MarkFree(old(mem.Blocks()), Frame(chunk) - mem.Base())
  {
    mem.KFree(chunk);
  }

  lemma FlagsInPage(p: nat, flags: nat)
    requires p < FRAMES && flags < 256
    ensures Frame(PAGE_SIZE * p + flags) == p
  {
  }

  lemma IdentityTranslates(m: Ram, c: nat, flags: nat, v: Word)
    requires c < FRAMES && flags < 256 && Identity(m, c, flags)
    ensures Translate(m, Dir(m, c), v) == v
  {
    assert Entry(m, Dir(m, c), v / PAGE_SIZE) == PAGE_SIZE * (v / PAGE_SIZE) + flags;
    FlagsInPage(v / PAGE_SIZE, flags);
  }

  /** Setting the writeable bit leaves the other two alone. */
  lemma WriteableAdded(flags: nat)
    ensures OpenToUser(WithWriteable(flags)) <==> IsPresent(flags) && IsUser(flags)
  {
    if !IsWriteable(flags) {
      assert (flags + 2) / 2 == flags / 2 + 1 && (flags + 2) % 2 == flags % 2;
      assert flags % 4 < 2 && (flags + 2) / 4 == flags / 4;
    }
  }

  /** What user mode may write through page `p`, from the flags of the directory entries and the page entry. */
  lemma UserWritesIs(m: Ram, c: nat, low: nat, p: nat)
    requires c < FRAMES && p < FRAMES && low < PAGE_SIZE && DirectoryFlags(m, c, low)
    ensures UserWrites(m, Dir(m, c), p) <==> OpenToUser(low) && OpenToUser(Entry(m, Dir(m, c), p))
  {
    FlagsDecide(TableAt(m, Dir(m, c), p / 1024), low);
  }

  /**
   The two constructors give the same page entries, the same translation and the same permissions: `n` is a
   space of `paging_new_4gb_one_chunk`, whose directory entries carry the flags, and `m` one of
   `paging_new_4gb`, which also makes them writeable.
   */
  lemma ConstructorsAgree(m: Ram, c: nat, n: Ram, c': nat, flags: nat)
    requires flags < 256 && Space(m, c) && Identity(m, c, flags) && DirectoryFlags(m, c, WithWriteable(flags))
    requires Space(n, c') && Identity(n, c', flags) && DirectoryFlags(n, c', flags)
    ensures forall p: nat :: p < FRAMES ==> Entry(m, Dir(m, c), p) == Entry(n, Dir(n, c'), p)
    ensures forall v: Word :: Translate(m, Dir(m, c), v) == v && Translate(n, Dir(n, c'), v) == v
    ensures forall p: nat :: p < FRAMES ==> (UserWrites(m, Dir(m, c), p) <==> UserWrites(n, Dir(n, c'), p))
  {
    forall v: Word
      ensures Translate(m, Dir(m, c), v) == v && Translate(n, Dir(n, c'), v) == v
    {
      IdentityTranslates(m, c, flags, v);
      IdentityTranslates(n, c', flags, v);
    }
    forall p: nat | p < FRAMES
      ensures UserWrites(m, Dir(m, c), p) <==> UserWrites(n, Dir(n, c'), p)
    {
      FlagsDecide(p, flags);
      PermissionsAgreeIff(m, c, n, c', flags, p);
    }
  }

  /**
   After edits of the page entries the spaces may differ: a page with the same entry in both gives the same
   permission if and only if the flags were writeable or bar the user anyway, or that entry does.
   */
  lemma PermissionsAgreeIff(m: Ram, c: nat, n: Ram, c': nat, flags: nat, p: nat)
    requires flags < 256 && c < FRAMES && c' < FRAMES && p < FRAMES
    requires DirectoryFlags(m, c, WithWriteable(flags)) && DirectoryFlags(n, c', flags)
    requires Entry(m, Dir(m, c), p) == Entry(n, Dir(n, c'), p)
    ensures (UserWrites(m, Dir(m, c), p) <==> UserWrites(n, Dir(n, c'), p)) <==>
      IsWriteable(flags) || !(IsPresent(flags) && IsUser(flags)) || !OpenToUser(Entry(m, Dir(m, c), p))
  {
    UserWritesIs(m, c, WithWriteable(flags), p);
    UserWritesIs(n, c', flags, p);
    WriteableAdded(flags);
  }

  /** Edits of page entries keep the directory flags. */
  /** With flags 5, not writeable, a page made writeable later is open in one space and closed in the other. */
  lemma PermissionsDiffer(m: Ram, c: nat, n: Ram, c': nat, p: nat)
    requires c < FRAMES && c' < FRAMES && p < FRAMES
    requires DirectoryFlags(m, c, WithWriteable(5)) && DirectoryFlags(n, c', 5)
    requires Entry(m, Dir(m, c), p) == Entry(n, Dir(n, c'), p) == PAGE_SIZE * p + 7
    ensures UserWrites(m, Dir(m, c), p) && !UserWrites(n, Dir(n, c'), p)
  {
    FlagsDecide(p, 7);
    WriteableAdded(5);
    UserWritesIs(m, c, WithWriteable(5), p);
    UserWritesIs(n, c', 5, p);
  }

  lemma DirectoryFlagsKept(m: Ram, n: Ram, c: nat, low: nat)
    requires Space(m, c) && EditsLeaves(m, n, Dir(m, c)) && DirectoryFlags(m, c, low)
    ensures DirectoryFlags(n, c, low)
  {
    SpaceKept(m, n, c);
    assert SameFrame(m, n, Dir(m, c));
    DirectoryKept(m, n, c, low);
  }

  /** Building a space in one chunk, any number of edits, and releasing it gives the block table back. */
  method BuildEditReleaseChunk(mem: Memory, flags: nat, edits: seq<Edit>) returns (ghost built: Ram, ghost c: nat)
    requires mem.Valid() && WellFormed(mem.Blocks())
    requires flags < 256 && Fits(mem.Blocks(), SPACE_FRAMES)
    requires forall e :: e in edits ==> e.flags < PAGE_SIZE
    modifies mem.heap.entries, mem.ram
    ensures mem.Valid() && mem.Blocks() == old(mem.Blocks())
    ensures c < FRAMES && Space(built, c) && Identity(built, c, flags)
    ensures Edited(built, mem.ram[..], Dir(built, c), edits)
  {
    ghost var base, s := mem.Base(), mem.Blocks();
    var chunk := PagingNew4gbOneChunk(mem, flags);
    ghost var t := mem.Blocks();
    built, c := mem.ram[..], Frame(chunk);
    OneChunkConserves(s, Frame(chunk) - base, t);
    EditSpace(mem, chunk, edits);
    assert Frame(chunk) - base < |s|;
    PagingFree4gbOneChunk(mem, chunk);
  }

  /** The one-chunk variant takes 1026 blocks too, and its free function gives all of them back. */
  lemma OneChunkConserves(s: Table, b: nat, t: Table)
    requires WellFormed(s) && Step(s, Allocated(b, SPACE_FRAMES), t)
    ensures FreeCount(t) == FreeCount(s) - SPACE_FRAMES
    ensures MarkFree(t, b) == s
  {
    FreeCountMarkTaken(s, b, SPACE_FRAMES);
    TakenThenFree(s, b, SPACE_FRAMES);
  }
}
