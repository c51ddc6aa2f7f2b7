/**
 Releasing an address space gives back exactly the blocks it was built from, however its page
 entries were edited in between (`paging_free_4gb`; the intent of test/paging.c).
 */
module SpaceRelease {
  import opened Words
  import opened HeapTable
  import opened PageTables
  import opened KernelHeap
  import opened AddressSpaces
  import P = Paging

  lemma FreeSingle(s: Table, b: nat)
    requires b < |s| && s[b] == SINGLE
    ensures MarkFree(s, b) == s[b := FREE]
  {
    assert RunEnd(s, b) == b + 1;
  }

  /** Freeing one more of the blocks to be freed. */
  lemma FreedOneMore(base: nat, s0: Table, s: Table, done: set<nat>, f: nat)
    requires s == Marked(base, s0, done, FREE) && f !in done
    requires base <= f < base + |s0| && s0[f - base] == SINGLE
    ensures MarkFree(s, f - base) == Marked(base, s0, done + {f}, FREE)
  {
    FreeSingle(s, f - base);
  }

  /** The first `i` tables of directory `d`. */
  ghost function FirstTables(m: Ram, d: nat, i: nat): set<nat>
    requires d < FRAMES && i <= 1024
  {
    set k: nat | k < i :: TableAt(m, d, k)
  }

  lemma FirstTablesStep(m: Ram, d: nat, i: nat)
    requires Tree(m, d) && i < 1024
    ensures TableAt(m, d, i) !in FirstTables(m, d, i) && TableAt(m, d, i) in Tables(m, d)
    ensures FirstTables(m, d, i + 1) == FirstTables(m, d, i) + {TableAt(m, d, i)}
  {
  }

  /** `paging_free_4gb`: the tables are found again through the directory entries. */
  method PagingFree4gb(mem: Memory, chunk: Word)
    requires mem.Valid() && chunk % PAGE_SIZE == 0
    requires Space(mem.ram[..], Frame(chunk)) && SpaceLive(mem.Base(), mem.Blocks(), mem.ram[..], Frame(chunk))
    modifies mem.heap.entries
    ensures mem.Valid()
    ensures mem.Blocks() == Marked(mem.Base(), old(mem.Blocks()), Frames(mem.ram[..], Frame(chunk)), FREE)
  {
    ghost var base, s0 := mem.Base(), mem.Blocks();
    ghost var m: Ram := mem.ram[..];
    ghost var c := Frame(chunk);
    ghost var d := Dir(m, c);
    assert s0 == Marked(base, s0, FirstTables(m, d, 0), FREE);
    FreeTables(mem, chunk);
    ghost var done := Tables(m, d);
    assert d in Frames(m, c) && c in Frames(m, c);
    FreedOneMore(base, s0, mem.Blocks(), done, d);
    mem.KFree(mem.ram[chunk / 4]);
    FreedOneMore(base, s0, mem.Blocks(), done + {d}, c);
    mem.KFree(chunk);
    assert Frames(m, c) == done + {d} + {c};
  }

  /** The loop of `paging_free_4gb`. */
  method FreeTables(mem: Memory, chunk: Word)
    requires mem.Valid() && chunk % PAGE_SIZE == 0
    requires Space(mem.ram[..], Frame(chunk)) && SpaceLive(mem.Base(), mem.Blocks(), mem.ram[..], Frame(chunk))
    modifies mem.heap.entries
    ensures mem.Valid()
    ensures
      var d := Dir(mem.ram[..], Frame(chunk));
      mem.Blocks() == Marked(mem.Base(), old(mem.Blocks()), Tables(mem.ram[..], d), FREE)
  {
    ghost var base, s0 := mem.Base(), mem.Blocks();
    ghost var m: Ram := mem.ram[..];
    ghost var d := Dir(m, Frame(chunk));
    var i := 0;
    while i < 1024
      invariant 0 <= i <= 1024 && mem.Valid() && mem.Base() == base
      invariant mem.Blocks() == Marked(base, s0, FirstTables(m, d, i), FREE)
    {
      var entry := mem.ram[mem.ram[chunk / 4] / 4 + i];
      assert entry == At(m, d, i);
      var table := MaskPage(entry);
      FirstTablesStep(m, d, i);
      assert TableAt(m, d, i) in Frames(m, Frame(chunk));
      FreedOneMore(base, s0, mem.Blocks(), FirstTables(m, d, i), TableAt(m, d, i));
      mem.KFree(table);
      i := i + 1;
    }
    assert FirstTables(m, d, 1024) == Tables(m, d);
  }

  /** Edits of page entries never alter which blocks a space gives back. */
  lemma ReleaseRestores(base: nat, s: Table, t: Table, m: Ram, n: Ram, c: nat)
    requires c < FRAMES && Space(m, c) && SpaceTaken(base, s, t, m, c)
    requires EditsLeaves(m, n, Dir(m, c))
    ensures Space(n, c) && SpaceLive(base, t, n, c)
    ensures Marked(base, t, Frames(n, c), FREE) == s
  {
    SpaceKept(m, n, c);
    var fs := Frames(m, c);
    forall b: nat | b < |s|
      ensures Marked(base, t, fs, FREE)[b] == s[b]
    {
      assert base + b in fs ==> s[base + b - base] == FREE;
    }
  }

  datatype Edit = Edit(virt: Word, phys: Word, physEnd: Word, flags: nat)

  predicate Accepted(e: Edit) {
    e.virt % 4096 == 0 && e.phys % 4096 == 0 && e.physEnd % 4096 == 0 && e.phys <= e.physEnd
  }

  /** One call: an accepted one maps its range, another one changes nothing. */
  ghost predicate EditIs(m: Ram, n: Ram, d: nat, e: Edit) {
    if Accepted(e) then
      && d < FRAMES && e.flags < PAGE_SIZE
      && MapsRange(m, n, d, e.virt / 4096, e.phys / 4096, (e.physEnd - e.phys) / 4096, e.flags)
    else n == m
  }

  /** The calls, one after the other, take memory `m` to `n`. */
  ghost predicate Edited(m: Ram, n: Ram, d: nat, edits: seq<Edit>)
    decreases |edits|, 1
  {
    if edits == [] then n == m
    else EditedThen(m, n, d, edits[..|edits| - 1], edits[|edits| - 1])
  }

  ghost predicate EditedThen(m: Ram, n: Ram, d: nat, front: seq<Edit>, last: Edit)
    decreases |front| + 1, 0
  {
    exists k: Ram :: Edited(m, k, d, front) && EditIs(k, n, d, last)
  }

  lemma OneMoreEdit(m: Ram, k: Ram, n: Ram, d: nat, edits: seq<Edit>, i: nat)
    requires i < |edits| && Edited(m, k, d, edits[..i]) && EditIs(k, n, d, edits[i])
    ensures Edited(m, n, d, edits[..i + 1])
  {
    assert edits[..i + 1][..i] == edits[..i];
  }

  /** Any number of calls of `paging_map_to`, calls that fail included. */
  method EditSpace(mem: Memory, chunk: Word, edits: seq<Edit>)
    requires mem.Valid() && chunk % PAGE_SIZE == 0 && Space(mem.ram[..], Frame(chunk))
    requires forall e :: e in edits ==> e.flags < PAGE_SIZE
    modifies mem.ram
    ensures EditsLeaves(old(mem.ram[..]), mem.ram[..], Dir(old(mem.ram[..]), Frame(chunk)))
    ensures Edited(old(mem.ram[..]), mem.ram[..], Dir(old(mem.ram[..]), Frame(chunk)), edits)
  {
    ghost var m: Ram := mem.ram[..];
    ghost var c := Frame(chunk);
    ghost var d := Dir(m, c);
    var i := 0;
    while i < |edits|
      invariant 0 <= i <= |edits|
      invariant EditsLeaves(m, mem.ram[..], d) && Edited(m, mem.ram[..], d, edits[..i])
    {
      ghost var n: Ram := mem.ram[..];
      SpaceKept(m, n, c);
      var e := edits[i];
      var res := P.PagingMapTo(mem.ram, chunk, e.virt, e.phys, e.physEnd, e.flags);
      if res == 0 {
        EditsLeavesCompose(m, n, mem.ram[..], d);
      }
      OneMoreEdit(m, n, mem.ram[..], d, edits, i);
      i := i + 1;
    }
    assert edits[..i] == edits;
  }

  /**
   Building a space, editing it any number of times with `paging_map_to` (calls that fail
   included) and releasing it gives the block table back exactly as it was. `built` is the memory with
   the space at chunk `c` as it was built, from the table that was left then.
   */
  method BuildEditRelease(mem: Memory, flags: nat, edits: seq<Edit>)
    returns (ghost built: Ram, ghost c: nat, ghost table: Table)
    requires mem.Valid() && WellFormed(mem.Blocks())
    requires flags < 256 && FreeCount(mem.Blocks()) >= SPACE_FRAMES
    requires forall e :: e in edits ==> e.flags < PAGE_SIZE
    modifies mem.heap.entries, mem.ram
    ensures mem.Valid() && mem.Blocks() == old(mem.Blocks())
    ensures c < FRAMES && NewSpace(mem.Base(), old(mem.Blocks()), table, old(mem.ram[..]), built, c, flags)
    ensures Edited(built, mem.ram[..], Dir(built, c), edits)
  {
    ghost var s := mem.Blocks();
    var chunk := PagingNew4gb(mem, flags);
    built, c, table := mem.ram[..], Frame(chunk), mem.Blocks();
    EditSpace(mem, chunk, edits);
    ReleaseRestores(mem.Base(), s, table, built, mem.ram[..], c);
    PagingFree4gb(mem, chunk);
  }
}
