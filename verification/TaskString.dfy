/**
 Fetching a string from a task (`copy_string_from_task` in `task.c`). The copy goes through a block
 of the kernel heap that is mapped into the task for a moment.
 */
module TaskString {
  import opened Words
  import opened HeapTable
  import opened PageTables
  import opened KernelHeap
  import opened AddressSpaces
  import opened MemoryBytes
  import opened CopyString
  import H = Heap
  import P = Paging
  import Release = SpaceRelease

  const EIO := 1
  const TEMPORARY := WRITEABLE + PRESENT + ACCESS_FROM_ALL

  /** `kzalloc` takes frame `p` for the temporary block: the first free block of the heap. */
  ghost predicate IsTemporary(base: nat, s: Table, p: nat) {
    FreeFrame(base, s, p) && forall f: nat :: FreeFrame(base, s, f) ==> p <= f
  }

  /** Page `q` can be reached through both levels. */
  predicate IsReachable(m: Ram, d: nat, q: nat)
    requires d < FRAMES && q < FRAMES
  {
    IsPresent(At(m, d, q / 1024)) && IsPresent(Entry(m, d, q))
  }

  /**
   Each byte of the string the task sees at `v` is on a page that is there, and neither that page nor
   the frame behind it is the temporary one, nor is the frame a page table of the task.
   */
  ghost predicate SourceOk(m: Ram, d: nat, p: nat, v: Word, k: nat)
    requires d < FRAMES
    decreases k
  {
    k > 0 ==>
      var x := Translate(m, d, v);
      && IsReachable(m, d, Frame(v)) && Frame(v) != p && Frame(x) != p && Frame(x) !in Tables(m, d)
      && (GetByte(m, x) != 0 ==> SourceOk(m, d, p, Next(v), k - 1))
  }

  /** The destination lies neither in the temporary frame nor in a frame of the task's address space. */
  ghost predicate TargetOk(m: Ram, c: nat, p: nat, phys: Word, count: nat)
    requires c < FRAMES
  {
    && count >= 1 && phys + count <= 0x1_0000_0000
    && forall f: nat :: Frame(phys) <= f <= Frame(phys + count - 1) ==> f != p && f !in Frames(m, c)
  }

  /** What the call asks of its caller, when frame `p` becomes the temporary one. */
  ghost predicate CanFetch(m: Ram, c: nat, p: nat, virt: Word, phys: Word, max: nat) {
    && c < FRAMES && p < FRAMES && 1 <= max && IsPresent(At(m, Dir(m, c), p / 1024))
    && SourceOk(m, Dir(m, c), p, virt, max - 1) && TargetOk(m, c, p, phys, max)
  }

  /** Memory `n` is `m` with the text and a zero at `phys`, but for what frame `p` holds. */
  ghost predicate Fetched(m: Ram, n: Ram, p: nat, phys: Word, t: seq<Byte>) {
    forall x: Word ::
      && (phys <= x < phys + |t| + 1 ==> GetByte(n, x) == (t + [0])[x - phys])
      && (!(phys <= x < phys + |t| + 1) && Frame(x) != p ==> GetByte(n, x) == GetByte(m, x))
  }

  /** Only the text and the temporary frame, whichever it was, are written. */
  ghost predicate Delivered(m: Ram, n: Ram, base: nat, s: Table, phys: Word, t: seq<Byte>) {
    exists p: nat :: IsTemporary(base, s, p) && Fetched(m, n, p, phys, t)
  }

  /** The task's address space is the same one, with the same page entries. */
  ghost predicate SpaceUnchanged(m: Ram, n: Ram, c: nat)
    requires c < FRAMES
  {
    && Space(n, c) && Dir(n, c) == Dir(m, c) && Frames(n, c) == Frames(m, c)
    && forall q: nat :: q < FRAMES ==> Entry(n, Dir(n, c), q) == Entry(m, Dir(m, c), q)
  }

  // ---------- The temporary mapping ----------

  /** `n` is `m` with page `p` of `d` mapped to frame `p`; only that frame and the tables may differ. */
  ghost predicate TempMapped(m: Ram, n: Ram, d: nat, p: nat) {
    && Tree(m, d) && Tree(n, d) && p < FRAMES
    && (forall i: nat :: i < 1024 ==> TableAt(n, d, i) == TableAt(m, d, i))
    && (forall q: nat :: q < FRAMES ==> Entry(n, d, q) == if q == p then PAGE_SIZE * p + TEMPORARY else Entry(m, d, q))
    && (forall f: nat :: f < FRAMES && f != p && f !in Tables(m, d) ==> SameFrame(m, n, f))
  }

  lemma MapTemporary(m: Ram, k: Ram, n: Ram, d: nat, p: nat)
    requires Tree(m, d) && p < FRAMES && p != d && p !in Tables(m, d) && SameOutside(m, k, p, p)
    requires n == Put(k, TableAt(k, d, p / 1024), p % 1024, PAGE_SIZE * p + TEMPORARY)
    ensures TempMapped(m, n, d, p)
  {
    forall i: nat | i < 1024
      ensures SameFrame(m, k, TableAt(m, d, i))
    {
      assert TableAt(m, d, i) in Tables(m, d);
    }
    TreeIsLocal(m, k, d);
    SetEntry(k, d, p, PAGE_SIZE * p + TEMPORARY);
    assert Tables(k, d) == Tables(m, d);
    forall f: nat | f < FRAMES && f != p && f !in Tables(m, d)
      ensures SameFrame(m, n, f)
    {
      assert SameFrame(m, k, f) && SameFrame(k, n, f);
    }
  }

  /** The string seen at the source is not changed by mapping the temporary page. */
  lemma {:induction false} SourceKept(m: Ram, n: Ram, d: nat, p: nat, v: Word, k: nat)
    requires TempMapped(m, n, d, p) && SourceOk(m, d, p, v, k)
    ensures Seen(n, Through(d), v, k) == Seen(m, Through(d), v, k) && Avoids(n, Through(d), v, k, p, p)
    decreases k
  {
    if k > 0 {
      var x := Translate(m, d, v);
      assert Entry(n, d, Frame(v)) == Entry(m, d, Frame(v));
      assert Translate(n, d, v) == x;
      SameFrameBytes(m, n, Frame(x), x);
      if GetByte(m, x) != 0 {
        SourceKept(m, n, d, p, Next(v), k - 1);
      }
    }
  }

  lemma {:induction false} PlusIs(v: Word, i: nat)
    requires v + i < 0x1_0000_0000
    ensures Plus(v, i) == v + i
  {
    if i > 0 {
      PlusIs(v, i - 1);
    }
  }

  lemma PlaceInPage(p: nat, i: nat)
    requires i < PAGE_SIZE
    ensures (PAGE_SIZE * p + i) / PAGE_SIZE == p && (PAGE_SIZE * p + i) % PAGE_SIZE == i
  {
  }

  lemma TempTranslates(m: Ram, n: Ram, d: nat, p: nat, i: nat)
    requires TempMapped(m, n, d, p) && i < PAGE_SIZE
    ensures Translate(n, d, PAGE_SIZE * p + i) == PAGE_SIZE * p + i && OpenToUser(Entry(n, d, p))
  {
    FlagsDecide(p, TEMPORARY);
    assert Entry(n, d, p) == PAGE_SIZE * p + TEMPORARY;
    PlaceInPage(p, i);
    PlaceInPage(p, TEMPORARY);
  }

  lemma TempBuffer(m: Ram, n: Ram, d: nat, p: nat, count: nat)
    requires TempMapped(m, n, d, p) && p != d && p !in Tables(m, d) && count <= PAGE_SIZE
    ensures Buffer(n, Through(d), PAGE_SIZE * p, count, PAGE_SIZE * p, p, p)
  {
    var a := PAGE_SIZE * p;
    forall i: nat | i < count
      ensures MapsTo(n, Through(d), a, i, a)
    {
      PlusIs(a, i);
      TempTranslates(m, n, d, p, i);
    }
    forall i: nat | i < 1024
      ensures !(p <= TableAt(n, d, i) <= p)
    {
      assert TableAt(m, d, i) in Tables(m, d);
    }
  }

  lemma DirectBuffer(m: Ram, dest: Word, count: nat)
    requires count >= 1 && dest + count <= 0x1_0000_0000
    ensures Buffer(m, Identical, dest, count, dest, Frame(dest), Frame(dest + count - 1))
  {
    forall i: nat | i < count
      ensures MapsTo(m, Identical, dest, i, dest)
    {
      PlusIs(dest, i);
    }
  }

  /** With the old entry back in its place, only frame `p` differs from what memory was at first. */
  lemma EntryRestored(m: Ram, k: Ram, n: Ram, o: Ram, r: Ram, d: nat, p: nat)
    requires Tree(m, d) && p < FRAMES && p != d && p !in Tables(m, d) && SameOutside(m, k, p, p)
    requires n == Put(k, TableAt(k, d, p / 1024), p % 1024, PAGE_SIZE * p + TEMPORARY)
    requires SameOutside(n, o, p, p)
    requires r == Put(o, TableAt(o, d, p / 1024), p % 1024, Entry(m, d, p))
    ensures SameOutside(m, r, p, p) && SameFrame(o, r, p)
  {
    var t := TableAt(m, d, p / 1024);
    assert t in Tables(m, d);
    assert SameFrame(m, k, d) && SameFrame(m, k, t);
    assert d != t;
    PutAt(k, t, p % 1024, PAGE_SIZE * p + TEMPORARY);
    assert SameFrame(n, o, d) && SameFrame(n, o, t);
    assert TableAt(o, d, p / 1024) == t;
    PutAt(o, t, p % 1024, Entry(m, d, p));
    forall f: nat | f < FRAMES && f != p
      ensures SameFrame(m, r, f)
    {
      assert SameFrame(m, k, f) && SameFrame(n, o, f);
    }
  }

  // ---------- Reading the temporary block ----------

  lemma {:induction false} SeenHasNoZero(m: Ram, mp: Mapping, v: Word, k: nat)
    ensures 0 !in Seen(m, mp, v, k)
    decreases k
  {
    if k > 0 && GetByte(m, Phys(m, mp, v)) != 0 {
      SeenHasNoZero(m, mp, Next(v), k - 1);
    }
  }

  /** A string stored in frame `p` is seen there, in any memory that has the same frame `p`. */
  lemma {:induction false} StoredIsSeen(m: Ram, n: Ram, a: Word, t: seq<Byte>, k: nat, p: nat, lo: nat, hi: nat)
    requires p < FRAMES && PAGE_SIZE * p <= a && a + |t| < PAGE_SIZE * (p + 1) && !(lo <= p <= hi)
    requires 0 !in t && |t| <= k && SameFrame(Store(m, a, t + [0]), n, p)
    ensures Seen(n, Identical, a, k) == t && Avoids(n, Identical, a, k, lo, hi)
    decreases |t|
  {
    var o := Store(m, a, t + [0]);
    StoreBytes(m, a, t + [0], a);
    SameFrameBytes(o, n, p, a);
    if t != [] {
      assert t[0] in t;
      assert t == [t[0]] + t[1..];
      StoreFirst(m, a, t[0], t[1..]);
      StoredIsSeen(PutByte(m, a, t[0]), n, a + 1, t[1..], k - 1, p, lo, hi);
    }
  }

  // ---------- The whole call ----------

  /** What the call leaves, from the memory `r` before the last copy. */
  lemma LastCopy(m: Ram, r: Ram, c: nat, p: nat, phys: Word, count: nat, t: seq<Byte>)
    requires c < FRAMES && Space(m, c) && SameOutside(m, r, p, p) && p !in Frames(m, c)
    requires TargetOk(m, c, p, phys, count) && |t| < count
    ensures Fetched(m, Store(r, phys, t + [0]), p, phys, t)
    ensures SpaceUnchanged(m, Store(r, phys, t + [0]), c)
  {
    var n := Store(r, phys, t + [0]);
    var lo, hi := Frame(phys), Frame(phys + count - 1);
    forall x: Word
      ensures phys <= x < phys + |t| + 1 ==> GetByte(n, x) == (t + [0])[x - phys]
      ensures !(phys <= x < phys + |t| + 1) && Frame(x) != p ==> GetByte(n, x) == GetByte(m, x)
    {
      StoreBytes(r, phys, t + [0], x);
      SameByte(m, r, x, p, p);
    }
    StoreFrames(r, phys, t + [0], lo, hi);
    forall f: nat | f < FRAMES && f in Frames(m, c)
      ensures SameFrame(m, n, f)
    {
      assert SameFrame(m, r, f) && SameFrame(r, n, f);
    }
    SpaceIsLocal(m, n, c);
  }

  /** `kzalloc` of the temporary block. */
  method TempBlock(mem: Memory, size: Word) returns (tmp: Word)
    requires mem.Valid() && WellFormed(mem.Blocks()) && 1 <= size <= PAGE_SIZE
    modifies mem.heap.entries, mem.ram
    ensures mem.Valid() && (tmp != 0 <==> Fits(old(mem.Blocks()), 1))
    ensures tmp == 0 ==> mem.Blocks() == old(mem.Blocks()) && mem.ram[..] == old(mem.ram[..])
    ensures tmp != 0 ==>
      && tmp == PAGE_SIZE * Frame(tmp)
      && TookFrame(mem.Base(), old(mem.Blocks()), mem.Blocks(), Frame(tmp))
      && IsTemporary(mem.Base(), old(mem.Blocks()), Frame(tmp))
      && SameOutside(old(mem.ram[..]), mem.ram[..], Frame(tmp), Frame(tmp))
  {
    ghost var m: Ram, s := mem.ram[..], mem.Blocks();
    OneBlockServed(s);
    H.BlocksCoverSize(size);
    tmp := mem.KZalloc(size);
    if tmp != 0 {
      OneBlockTaken(s, Frame(tmp) - mem.Base(), mem.Blocks());
      FirstFree(mem.Base(), s, Frame(tmp));
      ZeroBytesFrames(m, Frame(tmp), 1, size);
    }
  }

  lemma FirstFree(base: nat, s: Table, p: nat)
    requires FreeFrame(base, s, p) && StartBlockIs(s, 1, p - base)
    ensures IsTemporary(base, s, p)
  {
    assert FreeRun(s, p - base, 1);
    forall f: nat | FreeFrame(base, s, f)
      ensures p <= f
    {
      assert FreeRun(s, f - base, 1);
    }
  }

  lemma OneBlockServed(s: Table)
    ensures ServesRequest(s, 1)
  {
    if LastIsFree(s) {
      assert FreeRun(s, |s| - 1, 1);
    }
  }

  /** Frame `p` is a block apart from the address space `c` of memory `m`; elsewhere `k` is the same. */
  ghost predicate TempReady(m: Ram, k: Ram, c: nat, p: nat) {
    && c < FRAMES && Space(m, c) && p < FRAMES && p !in Frames(m, c) && SameOutside(m, k, p, p)
  }

  lemma TempSpace(m: Ram, k: Ram, c: nat, p: nat)
    requires TempReady(m, k, c, p)
    ensures Space(k, c) && Dir(k, c) == Dir(m, c) && Entry(k, Dir(m, c), p) == Entry(m, Dir(m, c), p)
    ensures p != c && p != Dir(m, c) && p !in Tables(m, Dir(m, c))
  {
    forall f: nat | f < FRAMES && f in Frames(m, c)
      ensures SameFrame(m, k, f)
    {
      assert f != p;
    }
    SpaceIsLocal(m, k, c);
  }

  /**
   The part of the call between the two page-table edits: maps the block, copies the string into it
   through the task's page tables and puts the old entry back. Memory `m` is that before the block was zeroed.
   */
  method FetchThrough(ram: array<Word>, chunk: Word, tmp: Word, virt: Word, max: nat, ghost m: Ram)
    returns (res: int, ghost n: Ram)
    requires ram.Length == RAM_WORDS && chunk % PAGE_SIZE == 0 && tmp % PAGE_SIZE == 0 && 1 <= max < PAGE_SIZE
    requires TempReady(m, ram[..], Frame(chunk), Frame(tmp))
    requires SourceOk(m, Dir(m, Frame(chunk)), Frame(tmp), virt, max - 1)
    modifies ram
    ensures res == 0 && SameOutside(m, ram[..], Frame(tmp), Frame(tmp))
    ensures
      var t := Seen(m, Through(Dir(m, Frame(chunk))), virt, max - 1);
      SameFrame(Store(n, tmp, t + [0]), ram[..], Frame(tmp))
  {
    ghost var k: Ram, c, p := ram[..], Frame(chunk), Frame(tmp);
    ghost var d := Dir(m, c);
    TempSpace(m, k, c, p);
    var directory := ram[chunk / 4];
    assert directory == At(k, c, 0) == PAGE_SIZE * d;
    var oldEntry := P.PagingGet(ram, directory, tmp);
    res := P.PagingMap(ram, chunk, tmp, tmp, TEMPORARY);
    n := ram[..];
    MapTemporary(m, k, n, d, p);
    CopyIn(ram, directory / PAGE_SIZE, tmp, virt, max, m);
    ghost var o: Ram := ram[..];
    res := P.PagingSet(ram, directory, tmp, oldEntry);
    EntryRestored(m, k, n, o, ram[..], d, p);
  }

  /** The copy under the task's mapping. */
  method CopyIn(ram: array<Word>, d: nat, tmp: Word, virt: Word, max: nat, ghost m: Ram)
    requires ram.Length == RAM_WORDS && d < FRAMES && tmp % PAGE_SIZE == 0 && 1 <= max < PAGE_SIZE
    requires TempMapped(m, ram[..], d, Frame(tmp)) && Frame(tmp) != d && Frame(tmp) !in Tables(m, d)
    requires SourceOk(m, d, Frame(tmp), virt, max - 1)
    modifies ram
    ensures SameOutside(old(ram[..]), ram[..], Frame(tmp), Frame(tmp))
    ensures ram[..] == Store(old(ram[..]), tmp, Seen(m, Through(d), virt, max - 1) + [0])
  {
    CopiedIn(m, ram[..], d, tmp, virt, max);
    Strncpy(ram, Through(d), tmp, virt, max);
  }

  /** What that copy is. */
  lemma CopiedIn(m: Ram, n: Ram, d: nat, tmp: Word, virt: Word, max: nat)
    requires d < FRAMES && tmp % PAGE_SIZE == 0 && 1 <= max < PAGE_SIZE
    requires TempMapped(m, n, d, Frame(tmp)) && Frame(tmp) != d && Frame(tmp) !in Tables(m, d)
    requires SourceOk(m, d, Frame(tmp), virt, max - 1)
    ensures
      var t := Seen(m, Through(d), virt, max - 1);
      && Copy(n, Through(d), tmp, virt, max - 1) == Store(n, tmp, t + [0])
      && SameOutside(n, Store(n, tmp, t + [0]), Frame(tmp), Frame(tmp))
  {
    var p := Frame(tmp);
    SourceKept(m, n, d, p, virt, max - 1);
    TempBuffer(m, n, d, p, max);
    CopyStores(n, Through(d), tmp, virt, max - 1, tmp, p, p);
    StoreFrames(n, tmp, Seen(m, Through(d), virt, max - 1) + [0], p, p);
  }

  /** The copy from the temporary block to its destination. */
  method CopyOut(ram: array<Word>, phys: Word, tmp: Word, max: nat, ghost n: Ram, ghost t: seq<Byte>)
    requires ram.Length == RAM_WORDS && tmp % PAGE_SIZE == 0 && 1 <= max < PAGE_SIZE
    requires 0 !in t && |t| < max && SameFrame(Store(n, tmp, t + [0]), ram[..], Frame(tmp))
    requires phys + max <= 0x1_0000_0000 && !(Frame(phys) <= Frame(tmp) <= Frame(phys + max - 1))
    modifies ram
    ensures ram[..] == Store(old(ram[..]), phys, t + [0])
  {
    ghost var r: Ram, lo, hi := ram[..], Frame(phys), Frame(phys + max - 1);
    StoredIsSeen(n, r, tmp, t, max - 1, Frame(tmp), lo, hi);
    DirectBuffer(r, phys, max);
    CopyStores(r, Identical, phys, tmp, max - 1, phys, lo, hi);
    Strncpy(ram, Identical, phys, tmp, max);
  }

  /** The same copy, and what it leaves in terms of the memory `m` at first. */
  method Deliver(ram: array<Word>, phys: Word, tmp: Word, max: nat, ghost n: Ram, ghost t: seq<Byte>,
      ghost m: Ram, ghost c: nat)
    requires ram.Length == RAM_WORDS && tmp % PAGE_SIZE == 0 && 1 <= max < PAGE_SIZE
    requires 0 !in t && |t| < max && SameFrame(Store(n, tmp, t + [0]), ram[..], Frame(tmp))
    requires TempReady(m, ram[..], c, Frame(tmp)) && TargetOk(m, c, Frame(tmp), phys, max)
    modifies ram
    ensures Fetched(m, ram[..], Frame(tmp), phys, t) && SpaceUnchanged(m, ram[..], c)
  {
    LastCopy(m, ram[..], c, Frame(tmp), phys, max, t);
    CopyOut(ram, phys, tmp, max, n, t);
  }

  /**
   `copy_string_from_task`: the destination gets the string of at most `max - 1` bytes that the task
   sees at `virt`, with a zero behind it; the task's page entries and the block table are as before.
   */
  method CopyStringFromTask(mem: Memory, chunk: Word, virt: Word, phys: Word, max: int) returns (res: int)
    requires mem.Valid() && WellFormed(mem.Blocks()) && chunk % PAGE_SIZE == 0 && max >= 1
    requires Space(mem.ram[..], Frame(chunk)) && SpaceLive(mem.Base(), mem.Blocks(), mem.ram[..], Frame(chunk))
    requires max < PAGE_SIZE ==> forall p: nat :: IsTemporary(mem.Base(), mem.Blocks(), p) ==>
      CanFetch(mem.ram[..], Frame(chunk), p, virt, phys, max)
    modifies mem.heap.entries, mem.ram
    ensures mem.Valid() && mem.Blocks() == old(mem.Blocks())
    ensures res == if max >= 4096 then -2 else if Fits(mem.Blocks(), 1) then 0 else -3
    ensures res != 0 ==> mem.ram[..] == old(mem.ram[..])
    ensures res == 0 ==>
      var m, c := old(mem.ram[..]), Frame(chunk);
      && SpaceUnchanged(m, mem.ram[..], c)
      && Delivered(m, mem.ram[..], mem.Base(), mem.Blocks(), phys, Seen(m, Through(Dir(m, c)), virt, max - 1))
  {
    if max >= PAGE_SIZE {
      return -EINVARG;
    }
    ghost var m: Ram, s, c := mem.ram[..], mem.Blocks(), Frame(chunk);
    var tmp := TempBlock(mem, max);
    if tmp == 0 {
      return -ENOMEM;
    }
    res := CopyAndFree(mem, chunk, tmp, virt, phys, max, m, s);
  }

  /** The copies through the block at `tmp`, which table `s` did not have yet, and `kfree` of it. */
  method CopyAndFree(mem: Memory, chunk: Word, tmp: Word, virt: Word, phys: Word, max: nat,
      ghost m: Ram, ghost s: Table)
    returns (res: int)
    requires mem.Valid() && chunk % PAGE_SIZE == 0 && tmp % PAGE_SIZE == 0 && 1 <= max < PAGE_SIZE
    requires TookFrame(mem.Base(), s, mem.Blocks(), Frame(tmp)) && TempReady(m, mem.ram[..], Frame(chunk), Frame(tmp))
    requires CanFetch(m, Frame(chunk), Frame(tmp), virt, phys, max)
    modifies mem.heap.entries, mem.ram
    ensures mem.Valid() && mem.Blocks() == s && res == 0
    ensures Fetched(m, mem.ram[..], Frame(tmp), phys, Seen(m, Through(Dir(m, Frame(chunk))), virt, max - 1))
    ensures SpaceUnchanged(m, mem.ram[..], Frame(chunk))
  {
    GivenBack(mem.Base(), s, mem.Blocks(), Frame(tmp));
    res := CopyVia(mem.ram, chunk, tmp, virt, phys, max, m);
    mem.KFree(tmp);
  }

  lemma GivenBack(base: nat, s: Table, t: Table, p: nat)
    requires TookFrame(base, s, t, p)
    ensures MarkFree(t, p - base) == s
  {
    Release.FreeSingle(t, p - base);
    assert t[p - base := FREE] == s;
  }

  /** Both copies. */
  method CopyVia(ram: array<Word>, chunk: Word, tmp: Word, virt: Word, phys: Word, max: nat, ghost m: Ram)
    returns (res: int)
    requires ram.Length == RAM_WORDS && chunk % PAGE_SIZE == 0 && tmp % PAGE_SIZE == 0 && 1 <= max < PAGE_SIZE
    requires TempReady(m, ram[..], Frame(chunk), Frame(tmp))
    requires CanFetch(m, Frame(chunk), Frame(tmp), virt, phys, max)
    modifies ram
    ensures res == 0
    ensures Fetched(m, ram[..], Frame(tmp), phys, Seen(m, Through(Dir(m, Frame(chunk))), virt, max - 1))
    ensures SpaceUnchanged(m, ram[..], Frame(chunk))
  {
    ghost var n;
    ghost var t := Seen(m, Through(Dir(m, Frame(chunk))), virt, max - 1);
    res, n := FetchThrough(ram, chunk, tmp, virt, max, m);
    if res < 0 {
      return -EIO;
    }
    SeenHasNoZero(m, Through(Dir(m, Frame(chunk))), virt, max - 1);
    Deliver(ram, phys, tmp, max, n, t, m, Frame(chunk));
  }

  // ---------- An example, in words of memory ----------

  /** Within a page the translation goes on byte by byte. */
  lemma SamePage(m: Ram, d: nat, v: Word, j: nat)
    requires d < FRAMES && v % 4 == 0 && j < 4
    ensures v + j < 0x1_0000_0000 && Translate(m, d, v + j) == Translate(m, d, v) + j
    ensures Translate(m, d, v) % 4 == 0
  {
    var q := v / 4;
    assert v == 4 * q;
    InOneWord(q, 0);
    InOneWord(q, j);
    var f := Frame(Entry(m, d, q / 1024));
    assert Translate(m, d, v) == 4 * (1024 * f) + 4 * (q % 1024);
    assert Translate(m, d, v + j) == 4 * (1024 * f) + 4 * (q % 1024) + j;
    FourDivides(1024 * f, q % 1024);
  }

  lemma InOneWord(q: nat, j: nat)
    requires j < 4
    ensures (4 * q + j) / PAGE_SIZE == q / 1024 && (4 * q + j) % PAGE_SIZE == 4 * (q % 1024) + j
  {
  }

  lemma FourDivides(a: nat, b: nat)
    ensures (4 * a + 4 * b) % 4 == 0
  {
  }

  lemma WordBytes(m: Ram, d: nat, v: Word, j: nat)
    requires d < FRAMES && v % 4 == 0 && j < 4 && m[Translate(m, d, v) / 4] == 0x0063_6261
    ensures GetByte(m, Phys(m, Through(d), Plus(v, j))) == [97, 98, 99, 0][j]
  {
    var x := Translate(m, d, v);
    SamePage(m, d, v, j);
    PlusIs(v, j);
    WordIsBytes(m, x);
    FourDigits(GetByte(m, x), GetByte(m, x + 1), GetByte(m, x + 2), GetByte(m, x + 3));
  }

  /** The word 0x00636261 is the string "abc". */
  lemma WordIsString(m: Ram, d: nat, v: Word, n: nat)
    requires d < FRAMES && v % 4 == 0 && n >= 3 && m[Translate(m, d, v) / 4] == 0x0063_6261
    ensures Seen(m, Through(d), v, n) == [97, 98, 99]
  {
    var t := Seen(m, Through(d), v, n);
    forall j: nat | j < 4
      ensures j < |t| ==> t[j] == [97, 98, 99, 0][j] != 0
      ensures j == |t| < n ==> [97, 98, 99, 0][j] == 0
    {
      SeenIs(m, Through(d), v, n, j);
      WordBytes(m, d, v, j);
    }
    EndsAtZero(t, n);
  }

  lemma EndsAtZero(t: seq<Byte>, n: nat)
    requires n >= 3 && |t| <= n
    requires forall j: nat :: j < 4 ==> (j < |t| ==> t[j] == [97, 98, 99, 0][j] != 0)
    requires forall j: nat :: j < 4 ==> (j == |t| < n ==> [97, 98, 99, 0][j] == 0)
    ensures t == [97, 98, 99]
  {
    var abc: seq<Byte> := [97, 98, 99, 0];
    assert abc[0] != 0 && abc[1] != 0 && abc[2] != 0 && abc[3] == 0;
  }

  lemma FourDigits(a: Byte, b: Byte, c: Byte, e: Byte)
    requires a + 0x100 * b + 0x1_0000 * c + 0x100_0000 * e == 0x0063_6261
    ensures a == 97 && b == 98 && c == 99 && e == 0
  {
  }

  ghost predicate HoldsAbc(m: Ram, c: nat, virt: Word) {
    c < FRAMES && m[Translate(m, Dir(m, c), virt) / 4] == 0x0063_6261
  }

  /** What `copy_string_from_task` leaves when the task has "abc" in one word: that word, at the destination. */
  lemma AbcIsDelivered(m: Ram, n: Ram, base: nat, s: Table, c: nat, virt: Word, phys: Word, max: nat)
    requires HoldsAbc(m, c, virt) && virt % 4 == 0 && phys % 4 == 0 && max >= 4
    requires Delivered(m, n, base, s, phys, Seen(m, Through(Dir(m, c)), virt, max - 1))
    ensures n[phys / 4] == 0x0063_6261
  {
    var t := Seen(m, Through(Dir(m, c)), virt, max - 1);
    WordIsString(m, Dir(m, c), virt, max - 1);
    var p: nat :| IsTemporary(base, s, p) && Fetched(m, n, p, phys, t);
    WordIsBytes(n, phys);
    assert [97, 98, 99] + [0] == [97, 98, 99, 0];
  }
}
