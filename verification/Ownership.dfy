/**
 Who owns which heap run, and what each process may reach through its page tables. Everything is
 stated over the live runs of the heap (start block to length) and a view of each process: the
 frames of its address space, its page entries, its allocation slots and the runs that hold its
 program image and stack.
 */
module Ownership {
  import opened Words
  import opened PageTables
  import H = Heap

  const USER_DATA := PRESENT + WRITEABLE + ACCESS_FROM_ALL

  /** One of the 1024 allocation slots of a process; a null pointer marks an unused slot. */
  datatype Slot = Slot(ptr: Word, size: Word)

  const EMPTY_SLOT := Slot(0, 0)

  datatype View = View(frames: set<nat>, entries: seq<Word>, slots: seq<Slot>, image: set<nat>)

  /** The heap: its first frame, its number of blocks, and its live runs. */
  datatype Pool = Pool(base: nat, total: nat, runs: map<nat, nat>)

  /** The frame of the text screen, which a program may be given to write to directly. */
  const VIDEO: nat := 0xB8

  predicate IsDevice(f: nat) {
    f == VIDEO
  }

  predicate Live(s: Slot) {
    s.ptr != 0
  }

  /** Frame `f` is the first of a live run. */
  ghost predicate IsStart(h: Pool, f: nat) {
    h.base <= f && f - h.base in h.runs
  }

  ghost function RunLength(h: Pool, f: nat): nat
    requires IsStart(h, f)
  {
    h.runs[f - h.base]
  }

  ghost predicate InRun(h: Pool, f: nat, g: nat) {
    IsStart(h, f) && f <= g < f + RunLength(h, f)
  }

  ghost predicate PoolOk(h: Pool) {
    && VIDEO < h.base && h.base + h.total <= FRAMES
    && (forall b :: b in h.runs ==> h.runs[b] >= 1 && b + h.runs[b] <= h.total)
    && (forall b, c :: b in h.runs && c in h.runs && b < c ==> b + h.runs[b] <= c)
  }

  /** The first frames of the runs a process uses for its image and its live slots. */
  ghost function Starts(v: View): set<nat> {
    v.image + SlotStarts(v.slots)
  }

  ghost function SlotStarts(slots: seq<Slot>): set<nat> {
    set k | 0 <= k < |slots| && Live(slots[k]) :: Frame(slots[k].ptr)
  }

  /** Every run start a process accounts for, its page-table frames included. */
  ghost function Owned(v: View): set<nat> {
    v.frames + Starts(v)
  }

  /** A live slot owns a whole run, whose pages are identity-mapped present, writeable and user. */
  ghost predicate SlotOk(h: Pool, v: View, s: Slot) {
    if !Live(s) then s == EMPTY_SLOT
    else
      && s.ptr % PAGE_SIZE == 0 && s.size >= 1
      && IsStart(h, Frame(s.ptr)) && RunLength(h, Frame(s.ptr)) == H.Blocks(s.size)
      && (forall p: nat :: p < |v.entries| && InRun(h, Frame(s.ptr), p) ==> v.entries[p] == PAGE_SIZE * p + USER_DATA)
  }

  ghost predicate InLiveSlot(h: Pool, v: View, p: nat) {
    exists k :: 0 <= k < |v.slots| && Live(v.slots[k]) && InRun(h, Frame(v.slots[k].ptr), p)
  }

  ghost predicate InImage(h: Pool, v: View, f: nat) {
    exists g :: g in v.image && InRun(h, g, f)
  }

  /** Page `p` may be writeable: it maps to the screen, into the image, or is a page of a live slot. */
  ghost predicate MayWrite(h: Pool, v: View, p: nat)
    requires p < |v.entries|
  {
    var f := Frame(v.entries[p]);
    || IsDevice(f)
    || InImage(h, v, f)
    || (f == p && InLiveSlot(h, v, p))
  }

  ghost predicate ViewOk(h: Pool, v: View) {
    && |v.entries| == FRAMES
    && (forall f :: f in v.frames ==> IsStart(h, f) && RunLength(h, f) == 1)
    && (forall f :: f in v.image ==> IsStart(h, f))
    && (forall k :: 0 <= k < |v.slots| ==> SlotOk(h, v, v.slots[k]))
    && (forall j, k :: 0 <= j < k < |v.slots| && Live(v.slots[j]) ==> v.slots[j].ptr != v.slots[k].ptr)
    && v.frames !! v.image && v.frames !! SlotStarts(v.slots) && v.image !! SlotStarts(v.slots)
    && (forall p: nat :: p < FRAMES && IsWriteable(v.entries[p]) ==> MayWrite(h, v, p))
  }

  /** The system invariant: every process is in order and no two account for the same run. */
  ghost predicate Inv(h: Pool, vs: seq<View>) {
    && PoolOk(h)
    && (forall i :: 0 <= i < |vs| ==> ViewOk(h, vs[i]))
    && (forall i, j :: 0 <= i < j < |vs| ==> Owned(vs[i]) !! Owned(vs[j]))
  }

  // ---------- What the invariant rules out ----------

  lemma RunsApart(h: Pool, f: nat, g: nat, x: nat)
    requires PoolOk(h)
    ensures InRun(h, f, x) && InRun(h, g, x) ==> f == g
    ensures InRun(h, f, x) ==> h.base <= x < h.base + h.total
  {
  }

  lemma OwnersApart(h: Pool, vs: seq<View>, i: nat, j: nat, f: nat)
    requires Inv(h, vs) && i < |vs| && j < |vs|
    ensures f in Owned(vs[i]) && f in Owned(vs[j]) ==> i == j
  {
    assert i < j ==> Owned(vs[i]) !! Owned(vs[j]);
    assert j < i ==> Owned(vs[j]) !! Owned(vs[i]);
  }

  /** Live slots, of one process or of two, never share a frame, nor share one with any page table. */
  lemma SlotsNeverOverlap(h: Pool, vs: seq<View>, i: nat, k: nat, j: nat, l: nat, x: nat)
    requires Inv(h, vs) && i < |vs| && j < |vs| && k < |vs[i].slots| && l < |vs[j].slots|
    requires Live(vs[i].slots[k]) && Live(vs[j].slots[l])
    requires InRun(h, Frame(vs[i].slots[k].ptr), x)
    ensures (i, k) != (j, l) ==> !InRun(h, Frame(vs[j].slots[l].ptr), x)
    ensures x !in vs[j].frames
  {
    var s, t := vs[i].slots[k], vs[j].slots[l];
    assert ViewOk(h, vs[i]) && ViewOk(h, vs[j]);
    assert SlotOk(h, vs[i], s) && SlotOk(h, vs[j], t);
    assert Frame(s.ptr) in SlotStarts(vs[i].slots) && Frame(t.ptr) in SlotStarts(vs[j].slots);
    RunsApart(h, Frame(s.ptr), Frame(t.ptr), x);
    OwnersApart(h, vs, i, j, Frame(s.ptr));
    assert Frame(s.ptr) == Frame(t.ptr) ==> s.ptr == t.ptr;
    RunsApart(h, Frame(s.ptr), x, x);
    OwnersApart(h, vs, i, j, x);
  }

  /**
   Isolation: a page that process `i` can write never reaches a page-table frame of any process,
   nor a live slot or the image of another process.
   */
  lemma WritesStayInside(h: Pool, vs: seq<View>, i: nat, p: nat, j: nat, g: nat)
    requires Inv(h, vs) && i < |vs| && j < |vs| && p < FRAMES
    requires IsWriteable(vs[i].entries[p])
    requires g in vs[j].frames || (j != i && g in Starts(vs[j]))
    ensures !InRun(h, g, Frame(vs[i].entries[p]))
  {
    var f := Frame(vs[i].entries[p]);
    assert ViewOk(h, vs[i]) && ViewOk(h, vs[j]);
    assert MayWrite(h, vs[i], p);
    RunsApart(h, g, g, f);
    OwnersApart(h, vs, i, j, g);
    forall e | e in Starts(vs[i])
      ensures !(InRun(h, e, f) && InRun(h, g, f))
    {
      RunsApart(h, e, g, f);
    }
    forall k | 0 <= k < |vs[i].slots| && Live(vs[i].slots[k])
      ensures Frame(vs[i].slots[k].ptr) in Starts(vs[i])
    {
      assert Frame(vs[i].slots[k].ptr) in SlotStarts(vs[i].slots);
    }
  }
}
