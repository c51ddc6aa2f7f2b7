/**
 Physical memory as 32-bit words grouped in 4096-byte frames, and the two-level page tables
 stored in it (32-bit paging, section 4.3 of the Intel SDM, volume 3A). A directory frame holds
 1024 entries; each names a table frame in its high 20 bits; each table holds 1024 page entries.
 */
module PageTables {
  import opened Words

  const RAM_WORDS: nat := 0x4000_0000
  const FRAMES: nat := 0x10_0000
  const PAGE_SIZE := 4096

  const PRESENT := 1
  const WRITEABLE := 2
  const ACCESS_FROM_ALL := 4

  /** The whole 32-bit physical address space; the word at address `a` is `m[a / 4]`. */
  type Ram = m: seq<Word> | |m| == RAM_WORDS ghost witness seq(RAM_WORDS, _ => 0)

  /** The frame an address or an entry points into: the value masked with 0xFFFFF000, over 4096. */
  function Frame(x: Word): nat {
    x / PAGE_SIZE
  }

  function At(m: Ram, f: nat, w: nat): Word
    requires f < FRAMES && w < 1024
  {
    m[1024 * f + w]
  }

  function Put(m: Ram, f: nat, w: nat, val: Word): (r: Ram)
    requires f < FRAMES && w < 1024
  {
    m[1024 * f + w := val]
  }

  lemma PutAt(m: Ram, f: nat, w: nat, val: Word)
    requires f < FRAMES && w < 1024
    ensures forall g: nat, v: nat :: g < FRAMES && v < 1024 ==>
      At(Put(m, f, w, val), g, v) == if g == f && v == w then val else At(m, g, v)
  {
  }

  ghost predicate SameFrame(m: Ram, n: Ram, f: nat)
    requires f < FRAMES
  {
    forall w: nat :: w < 1024 ==> At(n, f, w) == At(m, f, w)
  }

  // ---------- The two-level structure and the flat map it stands for ----------

  /** The frame of the `i`-th page table of directory `d`. */
  function TableAt(m: Ram, d: nat, i: nat): (f: nat)
    requires d < FRAMES && i < 1024
    ensures f < FRAMES
  {
    Frame(At(m, d, i))
  }

  /** The flat view: the entry of page `p`. */
  function Entry(m: Ram, d: nat, p: nat): Word
    requires d < FRAMES && p < FRAMES
  {
    At(m, TableAt(m, d, p / 1024), p % 1024)
  }

  /** What the processor translates address `v` to. */
  function Translate(m: Ram, d: nat, v: Word): Word
    requires d < FRAMES
  {
    PAGE_SIZE * Frame(Entry(m, d, v / PAGE_SIZE)) + v % PAGE_SIZE
  }

  predicate IsPresent(entry: nat) {
    entry % 2 == 1
  }

  predicate IsWriteable(entry: nat) {
    entry / 2 % 2 == 1
  }

  predicate IsUser(entry: nat) {
    entry / 4 % 2 == 1
  }

  /** An entry of either level that lets user mode read. */
  predicate ShownToUser(entry: nat) {
    IsPresent(entry) && IsUser(entry)
  }

  /** An entry of either level that lets user mode write. */
  predicate OpenToUser(entry: nat) {
    IsPresent(entry) && IsWriteable(entry) && IsUser(entry)
  }

  /** User mode may write page `p` if the entries of both levels let it (section 4.6 of the Intel SDM, volume 3A). */
  predicate UserWrites(m: Ram, d: nat, p: nat)
    requires d < FRAMES && p < FRAMES
  {
    OpenToUser(At(m, d, p / 1024)) && OpenToUser(Entry(m, d, p))
  }

  /** User mode may read page `p` if the entries of both levels let it. */
  predicate UserReads(m: Ram, d: nat, p: nat)
    requires d < FRAMES && p < FRAMES
  {
    ShownToUser(At(m, d, p / 1024)) && ShownToUser(Entry(m, d, p))
  }

  /** The translation in words of memory: ten bits of the address choose a table, ten the entry, twelve the byte. */
  lemma TranslationInWords(m: Ram, d: nat, v: Word)
    requires d < FRAMES
    ensures
      var table := m[0x400 * d + v / 0x40_0000] / 0x1000;
      var entry := m[0x400 * table + v / 0x1000 % 0x400];
      && Translate(m, d, v) == 0x1000 * (entry / 0x1000) + v % 0x1000
      && (UserReads(m, d, v / 0x1000) <==>
        m[0x400 * d + v / 0x40_0000] % 8 in {5, 7} && entry % 8 in {5, 7})
      && (UserWrites(m, d, v / 0x1000) <==> m[0x400 * d + v / 0x40_0000] % 8 == 7 && entry % 8 == 7)
  {
    assert v / 0x1000 / 1024 == v / 0x40_0000;
    LowBits(At(m, d, v / 0x1000 / 1024));
    LowBits(Entry(m, d, v / 0x1000));
  }

  lemma LowBits(e: nat)
    ensures ShownToUser(e) <==> e % 8 in {5, 7}
    ensures OpenToUser(e) <==> e % 8 == 7
  {
    var q, r := e / 8, e % 8;
    assert e == 8 * q + r;
    assert e / 2 == 4 * q + r / 2;
    assert e / 4 == 2 * q + r / 4;
  }

  /** The low bits of an entry are its flags. */
  lemma FlagsDecide(f: nat, flags: nat)
    requires flags < PAGE_SIZE
    ensures IsPresent(PAGE_SIZE * f + flags) == IsPresent(flags)
    ensures IsWriteable(PAGE_SIZE * f + flags) == IsWriteable(flags)
    ensures IsUser(PAGE_SIZE * f + flags) == IsUser(flags)
  {
    var e := PAGE_SIZE * f + flags;
    Halves(2048 * f, flags);
    Halves(1024 * f, flags / 2);
    Halves(512 * f, flags / 4);
    assert e / WRITEABLE == 2048 * f + flags / 2 && e / ACCESS_FROM_ALL == 1024 * f + flags / 4;
  }

  lemma Halves(a: nat, b: nat)
    ensures (2 * a + b) % 2 == b % 2
  {
  }

  ghost function Tables(m: Ram, d: nat): set<nat>
    requires d < FRAMES
  {
    set i: nat | i < 1024 :: TableAt(m, d, i)
  }

  /** The directory and its 1024 tables are 1025 different frames. */
  ghost predicate Tree(m: Ram, d: nat) {
    && d < FRAMES
    && (forall i: nat :: i < 1024 ==> TableAt(m, d, i) != d)
    && (forall i: nat, j: nat :: i < j < 1024 ==> TableAt(m, d, i) != TableAt(m, d, j))
  }

  /** `n` differs from `m` only in words of the page tables of `d`, and `d` has the same tables. */
  ghost predicate EditsLeaves(m: Ram, n: Ram, d: nat) {
    && Tree(m, d)
    && Tree(n, d)
    && (forall i: nat :: i < 1024 ==> TableAt(n, d, i) == TableAt(m, d, i))
    && (forall f: nat :: f < FRAMES && f !in Tables(m, d) ==> SameFrame(m, n, f))
  }

  /** Edits of page entries leave the directory alone. */
  lemma DirectoryUntouched(m: Ram, n: Ram, d: nat)
    requires d < FRAMES && EditsLeaves(m, n, d)
    ensures forall i: nat :: i < 1024 ==> At(n, d, i) == At(m, d, i)
  {
    assert d !in Tables(m, d);
    assert SameFrame(m, n, d);
  }

  lemma EditsLeavesCompose(m: Ram, n: Ram, o: Ram, d: nat)
    requires EditsLeaves(m, n, d) && EditsLeaves(n, o, d)
    ensures EditsLeaves(m, o, d)
  {
    forall f: nat | f < FRAMES && f !in Tables(m, d)
      ensures SameFrame(m, o, f)
    {
      assert Tables(n, d) == Tables(m, d);
      assert SameFrame(m, n, f) && SameFrame(n, o, f);
    }
  }

  /** Writing the entry of page `p` changes that page of the flat view and no other. */
  lemma SetEntry(m: Ram, d: nat, p: nat, val: Word)
    requires Tree(m, d) && p < FRAMES
    ensures
      var n := Put(m, TableAt(m, d, p / 1024), p % 1024, val);
      && EditsLeaves(m, n, d)
      && forall q: nat :: q < FRAMES ==> Entry(n, d, q) == if q == p then val else Entry(m, d, q)
  {
    var t := TableAt(m, d, p / 1024);
    var n := Put(m, t, p % 1024, val);
    PutAt(m, t, p % 1024, val);
    assert forall i: nat :: i < 1024 ==> TableAt(n, d, i) == TableAt(m, d, i);
    forall q: nat | q < FRAMES
      ensures Entry(n, d, q) == if q == p then val else Entry(m, d, q)
    {
      assert TableAt(n, d, q / 1024) == TableAt(m, d, q / 1024);
      if q / 1024 == p / 1024 {
        assert q == p <==> q % 1024 == p % 1024;
      }
    }
    forall f: nat | f < FRAMES && f !in Tables(m, d)
      ensures SameFrame(m, n, f)
    {
      assert f != t;
    }
  }

  /** Memory changes outside the frames of a tree leave its flat view alone. */
  lemma TreeIsLocal(m: Ram, n: Ram, d: nat)
    requires Tree(m, d)
    requires SameFrame(m, n, d)
    requires forall i: nat :: i < 1024 ==> SameFrame(m, n, TableAt(m, d, i))
    ensures Tree(n, d)
    ensures forall i: nat :: i < 1024 ==> TableAt(n, d, i) == TableAt(m, d, i)
    ensures forall q: nat :: q < FRAMES ==> Entry(n, d, q) == Entry(m, d, q)
  {
    assert forall i: nat :: i < 1024 ==> TableAt(n, d, i) == TableAt(m, d, i);
    forall q: nat | q < FRAMES
      ensures Entry(n, d, q) == Entry(m, d, q)
    {
      assert SameFrame(m, n, TableAt(m, d, q / 1024));
    }
  }

  // ---------- Ranges ----------

  /** How far page `p` lies above page `v`, going round the end of the address space. */
  function Ahead(v: nat, p: nat): nat
    requires v < FRAMES && p < FRAMES
  {
    if p >= v then p - v else p + FRAMES - v
  }

  /** The entry page `p` has once the `count` pages from `v` are mapped to the frames from `f`. */
  function RangeEntry(m: Ram, d: nat, v: nat, f: nat, count: nat, flags: nat, p: nat): Word
    requires d < FRAMES && v < FRAMES && p < FRAMES && flags < PAGE_SIZE
  {
    if Ahead(v, p) < count then PAGE_SIZE * ((f + Ahead(v, p)) % FRAMES) + flags else Entry(m, d, p)
  }

  /** `n` is `m` with that range of the address space of `d` mapped, and nothing else changed. */
  ghost predicate MapsRange(m: Ram, n: Ram, d: nat, v: nat, f: nat, count: nat, flags: nat)
    requires d < FRAMES && v < FRAMES && flags < PAGE_SIZE
  {
    && EditsLeaves(m, n, d)
    && forall p: nat :: p < FRAMES ==> Entry(n, d, p) == RangeEntry(m, d, v, f, count, flags, p)
  }

  lemma MapsRangeExtends(m: Ram, n: Ram, d: nat, v: nat, f: nat, i: nat, flags: nat)
    requires d < FRAMES && v < FRAMES && flags < PAGE_SIZE && MapsRange(m, n, d, v, f, i, flags)
    ensures
      var q := (v + i) % FRAMES;
      MapsRange(m, Put(n, TableAt(n, d, q / 1024), q % 1024, PAGE_SIZE * ((f + i) % FRAMES) + flags),
        d, v, f, i + 1, flags)
  {
    var q := (v + i) % FRAMES;
    var val := PAGE_SIZE * ((f + i) % FRAMES) + flags;
    SetEntry(n, d, q, val);
    var o := Put(n, TableAt(n, d, q / 1024), q % 1024, val);
    EditsLeavesCompose(m, n, o, d);
    assert Ahead(v, q) == i % FRAMES;
    assert (f + i % FRAMES) % FRAMES == (f + i) % FRAMES;
    forall p: nat | p < FRAMES
      ensures Entry(o, d, p) == RangeEntry(m, d, v, f, i + 1, flags, p)
    {
      if p != q {
        assert Ahead(v, p) != i;
      }
    }
  }

  // ---------- Address spaces ----------

  /** The directory frame recorded in the `struct paging_4gb_chunk` that starts frame `c`. */
  function Dir(m: Ram, c: nat): (d: nat)
    requires c < FRAMES
    ensures d < FRAMES
  {
    Frame(At(m, c, 0))
  }

  /** The chunk in frame `c` records the page-aligned directory of a tree that does not contain it. */
  ghost predicate Space(m: Ram, c: nat) {
    && c < FRAMES
    && At(m, c, 0) == PAGE_SIZE * Dir(m, c)
    && Tree(m, Dir(m, c))
    && Dir(m, c) != c
    && c !in Tables(m, Dir(m, c))
  }

  /** The 1026 frames of an address space: its chunk, its directory and its tables. */
  ghost function Frames(m: Ram, c: nat): set<nat>
    requires c < FRAMES
  {
    {c, Dir(m, c)} + Tables(m, Dir(m, c))
  }

  /** Every directory entry has the given flags. */
  ghost predicate DirectoryFlags(m: Ram, c: nat, flags: nat)
    requires c < FRAMES
  {
    forall i: nat :: i < 1024 ==> At(m, Dir(m, c), i) == PAGE_SIZE * TableAt(m, Dir(m, c), i) + flags
  }

  /** They do not change with the directory frame unchanged. */
  lemma DirectoryKept(m: Ram, n: Ram, c: nat, flags: nat)
    requires c < FRAMES && Dir(n, c) == Dir(m, c) && SameFrame(m, n, Dir(m, c)) && DirectoryFlags(m, c, flags)
    ensures DirectoryFlags(n, c, flags)
  {
    forall i: nat | i < 1024
      ensures At(n, Dir(n, c), i) == PAGE_SIZE * TableAt(n, Dir(n, c), i) + flags
    {
      assert At(n, Dir(m, c), i) == At(m, Dir(m, c), i);
    }
  }

  lemma SpaceKept(m: Ram, n: Ram, c: nat)
    requires Space(m, c) && EditsLeaves(m, n, Dir(m, c))
    ensures Space(n, c) && Dir(n, c) == Dir(m, c)
    ensures Frames(n, c) == Frames(m, c)
  {
    var d := Dir(m, c);
    assert SameFrame(m, n, c);
    assert forall i: nat :: i < 1024 ==> TableAt(n, d, i) == TableAt(m, d, i);
    assert Tables(n, d) == Tables(m, d);
  }

  lemma FramesInRange(m: Ram, c: nat)
    requires c < FRAMES
    ensures forall f: nat :: f in Frames(m, c) ==> f < FRAMES
  {
  }

  /** Memory changes outside the frames of an address space leave it alone. */
  lemma SpaceIsLocal(m: Ram, n: Ram, c: nat)
    requires Space(m, c)
    requires forall f: nat :: f < FRAMES && f in Frames(m, c) ==> SameFrame(m, n, f)
    ensures Space(n, c) && Dir(n, c) == Dir(m, c)
    ensures Frames(n, c) == Frames(m, c)
    ensures forall q: nat :: q < FRAMES ==> Entry(n, Dir(n, c), q) == Entry(m, Dir(m, c), q)
  {
    var d := Dir(m, c);
    assert SameFrame(m, n, c) && SameFrame(m, n, d);
    forall i: nat | i < 1024
      ensures SameFrame(m, n, TableAt(m, d, i))
    {
      assert TableAt(m, d, i) in Tables(m, d);
    }
    TreeIsLocal(m, n, d);
    assert Tables(n, d) == Tables(m, d);
  }
}
