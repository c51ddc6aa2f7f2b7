/**
 The steps that change ownership, each shown to keep the system invariant of module Ownership.
 */
module OwnershipSteps {
  import opened PageTables
  import opened Ownership
  import H = Heap

  /** `k` is `h` with the same blocks, and the runs in frames `fs` unchanged. */
  ghost predicate KeepsRuns(h: Pool, k: Pool, fs: set<nat>) {
    && k.base == h.base && k.total == h.total
    && forall f :: f in fs && IsStart(h, f) ==> IsStart(k, f) && RunLength(k, f) == RunLength(h, f)
  }

  lemma OwnedAreStarts(h: Pool, v: View)
    requires ViewOk(h, v)
    ensures forall f :: f in Owned(v) ==> IsStart(h, f)
  {
    forall f | f in SlotStarts(v.slots)
      ensures IsStart(h, f)
    {
      var k :| 0 <= k < |v.slots| && Live(v.slots[k]) && Frame(v.slots[k].ptr) == f;
      assert SlotOk(h, v, v.slots[k]);
    }
  }

  lemma SlotStartIn(slots: seq<Slot>, k: nat)
    requires k < |slots| && Live(slots[k])
    ensures Frame(slots[k].ptr) in SlotStarts(slots)
  {
  }

  /** A process is untouched by heap changes outside the runs it accounts for. */
  lemma ViewKept(h: Pool, k: Pool, v: View)
    requires ViewOk(h, v) && KeepsRuns(h, k, Owned(v))
    ensures ViewOk(k, v)
  {
    OwnedAreStarts(h, v);
    forall i | 0 <= i < |v.slots|
      ensures SlotOk(k, v, v.slots[i])
      ensures Live(v.slots[i]) ==> Frame(v.slots[i].ptr) in Owned(v)
    {
      if Live(v.slots[i]) {
        SlotStartIn(v.slots, i);
      }
      assert SlotOk(h, v, v.slots[i]);
    }
    forall p: nat | p < FRAMES && IsWriteable(v.entries[p])
      ensures MayWrite(k, v, p)
    {
      assert MayWrite(h, v, p);
      MayWriteKept(h, k, v, v, p);
    }
  }

  /** The permission to write a page survives when its entry, its run and its owner do. */
  lemma MayWriteKept(h: Pool, k: Pool, v: View, w: View, p: nat)
    requires p < |v.entries| && p < |w.entries| && w.entries[p] == v.entries[p] && MayWrite(h, v, p)
    requires k.base == h.base && k.total == h.total
    requires v.image <= w.image && KeepsRuns(h, k, v.image)
    requires forall i :: 0 <= i < |v.slots| && Live(v.slots[i]) && InRun(h, Frame(v.slots[i].ptr), p) ==>
      InRun(k, Frame(v.slots[i].ptr), p) && v.slots[i] in w.slots
    ensures MayWrite(k, w, p)
  {
    var f := Frame(v.entries[p]);
    if InImage(h, v, f) {
      var g :| g in v.image && InRun(h, g, f);
      assert g in w.image && InRun(k, g, f);
    } else if f == p && InLiveSlot(h, v, p) {
      var i :| 0 <= i < |v.slots| && Live(v.slots[i]) && InRun(h, Frame(v.slots[i].ptr), p);
      var j :| 0 <= j < |w.slots| && w.slots[j] == v.slots[i];
      assert InLiveSlot(k, w, p);
    }
  }

  // ---------- A slot is filled ----------

  /** The view after `process_malloc` has filled slot `k` with the new run of `s`. */
  ghost predicate SlotFilled(h: Pool, h2: Pool, v: View, w: View, k: nat, s: Slot) {
    && k < |v.slots| && !Live(v.slots[k])
    && Live(s) && s.ptr % PAGE_SIZE == 0 && s.size >= 1
    && !IsStart(h, Frame(s.ptr)) && Frame(s.ptr) >= h.base
    && h2 == h.(runs := h.runs[Frame(s.ptr) - h.base := H.Blocks(s.size)])
    && w.frames == v.frames && w.image == v.image && w.slots == v.slots[k := s]
    && |w.entries| == |v.entries|
    && forall p: nat :: p < |v.entries| ==>
      w.entries[p] == if InRun(h2, Frame(s.ptr), p) then PAGE_SIZE * p + USER_DATA else v.entries[p]
  }

  lemma SlotStartsFilled(h: Pool, h2: Pool, v: View, w: View, k: nat, s: Slot)
    requires SlotFilled(h, h2, v, w, k, s)
    ensures SlotStarts(w.slots) == SlotStarts(v.slots) + {Frame(s.ptr)}
  {
    forall f | f in SlotStarts(v.slots)
      ensures f in SlotStarts(w.slots)
    {
      var i :| 0 <= i < |v.slots| && Live(v.slots[i]) && Frame(v.slots[i].ptr) == f;
      assert w.slots[i] == v.slots[i];
    }
    assert w.slots[k] == s;
  }

  /** The pages of an older run are not pages of the new one. */
  lemma OldRunsKept(h: Pool, h2: Pool, v: View, w: View, k: nat, s: Slot, f: nat)
    requires SlotFilled(h, h2, v, w, k, s) && PoolOk(h2) && |v.entries| == FRAMES
    requires IsStart(h, f)
    ensures f != Frame(s.ptr) && IsStart(h2, f) && RunLength(h2, f) == RunLength(h, f)
    ensures forall p: nat :: p < FRAMES && InRun(h2, f, p) ==> w.entries[p] == v.entries[p]
  {
    forall p: nat | p < FRAMES && InRun(h2, f, p)
      ensures w.entries[p] == v.entries[p]
    {
      RunsApart(h2, f, Frame(s.ptr), p);
    }
  }

  lemma FilledViewOk(h: Pool, h2: Pool, v: View, w: View, k: nat, s: Slot)
    requires ViewOk(h, v) && PoolOk(h2) && SlotFilled(h, h2, v, w, k, s)
    ensures ViewOk(h2, w)
  {
    OwnedAreStarts(h, v);
    SlotStartsFilled(h, h2, v, w, k, s);
    assert KeepsRuns(h, h2, Owned(v));
    forall i | 0 <= i < |w.slots|
      ensures SlotOk(h2, w, w.slots[i])
      ensures i != k && Live(w.slots[i]) ==> w.slots[i].ptr != s.ptr
    {
      if i != k && Live(w.slots[i]) {
        assert SlotOk(h, v, v.slots[i]);
        OldRunsKept(h, h2, v, w, k, s, Frame(v.slots[i].ptr));
      }
    }
    forall p: nat | p < FRAMES && IsWriteable(w.entries[p])
      ensures MayWrite(h2, w, p)
    {
      FilledMayWrite(h, h2, v, w, k, s, p);
    }
  }

  lemma FilledMayWrite(h: Pool, h2: Pool, v: View, w: View, k: nat, s: Slot, p: nat)
    requires ViewOk(h, v) && PoolOk(h2) && SlotFilled(h, h2, v, w, k, s)
    requires p < FRAMES && IsWriteable(w.entries[p])
    ensures MayWrite(h2, w, p)
  {
    assert w.slots[k] == s;
    if InRun(h2, Frame(s.ptr), p) {
      assert Frame(w.entries[p]) == p;
      assert InLiveSlot(h2, w, p);
    } else {
      assert MayWrite(h, v, p);
      OwnedAreStarts(h, v);
      assert KeepsRuns(h, h2, v.image);
      forall i | 0 <= i < |v.slots| && Live(v.slots[i]) && InRun(h, Frame(v.slots[i].ptr), p)
        ensures InRun(h2, Frame(v.slots[i].ptr), p) && v.slots[i] in w.slots
      {
        OldRunsKept(h, h2, v, w, k, s, Frame(v.slots[i].ptr));
        assert w.slots[i] == v.slots[i];
      }
      MayWriteKept(h, h2, v, w, p);
    }
  }

  /** One process changes, and only by taking fresh runs; the others keep theirs. */
  lemma OthersKept(h: Pool, h2: Pool, vs: seq<View>, i: nat, w: View, added: set<nat>)
    requires Inv(h, vs) && i < |vs| && PoolOk(h2) && ViewOk(h2, w)
    requires Owned(w) <= Owned(vs[i]) + added
    requires forall f :: f in added ==> !IsStart(h, f)
    requires forall j :: 0 <= j < |vs| && j != i ==> KeepsRuns(h, h2, Owned(vs[j]))
    ensures Inv(h2, vs[i := w])
  {
    var ws := vs[i := w];
    forall j | 0 <= j < |vs|
      ensures ViewOk(h2, ws[j])
      ensures j != i ==> Owned(ws[j]) !! added
    {
      if j != i {
        ViewKept(h, h2, vs[j]);
        OwnedAreStarts(h, vs[j]);
      }
    }
    forall j, l | 0 <= j < l < |ws|
      ensures Owned(ws[j]) !! Owned(ws[l])
    {
      assert Owned(vs[j]) !! Owned(vs[l]);
    }
  }

  /** `process_malloc` keeps the invariant. */
  lemma FillKeepsInv(h: Pool, h2: Pool, vs: seq<View>, i: nat, w: View, k: nat, s: Slot)
    requires Inv(h, vs) && i < |vs| && PoolOk(h2) && SlotFilled(h, h2, vs[i], w, k, s)
    ensures Inv(h2, vs[i := w])
  {
    var v := vs[i];
    FilledViewOk(h, h2, v, w, k, s);
    SlotStartsFilled(h, h2, v, w, k, s);
    OthersKept(h, h2, vs, i, w, {Frame(s.ptr)});
  }

  // ---------- A slot is emptied ----------

  /** The view after `process_free` has emptied slot `k` and cleared the flags of its pages. */
  ghost predicate SlotEmptied(h: Pool, h2: Pool, v: View, w: View, k: nat) {
    && k < |v.slots| && Live(v.slots[k]) && IsStart(h, Frame(v.slots[k].ptr))
    && h2 == h.(runs := h.runs - {Frame(v.slots[k].ptr) - h.base})
    && w.frames == v.frames && w.image == v.image && w.slots == v.slots[k := EMPTY_SLOT]
    && |w.entries| == |v.entries|
    && forall p: nat :: p < |v.entries| ==>
      w.entries[p] == if InRun(h, Frame(v.slots[k].ptr), p) then PAGE_SIZE * p else v.entries[p]
  }

  lemma SlotStartsEmptied(h: Pool, h2: Pool, v: View, w: View, k: nat)
    requires ViewOk(h, v) && SlotEmptied(h, h2, v, w, k)
    ensures SlotStarts(w.slots) == SlotStarts(v.slots) - {Frame(v.slots[k].ptr)}
  {
    forall i | 0 <= i < |v.slots| && i != k && Live(v.slots[i])
      ensures w.slots[i] == v.slots[i] && Frame(v.slots[i].ptr) != Frame(v.slots[k].ptr)
    {
      assert SlotOk(h, v, v.slots[i]) && SlotOk(h, v, v.slots[k]);
    }
    forall f | f in SlotStarts(v.slots) && f != Frame(v.slots[k].ptr)
      ensures f in SlotStarts(w.slots)
    {
      var i :| 0 <= i < |v.slots| && Live(v.slots[i]) && Frame(v.slots[i].ptr) == f;
      assert w.slots[i] == v.slots[i];
    }
  }

  lemma EmptiedRunsKept(h: Pool, h2: Pool, v: View, w: View, k: nat, f: nat)
    requires PoolOk(h) && SlotEmptied(h, h2, v, w, k) && |v.entries| == FRAMES
    requires IsStart(h, f) && f != Frame(v.slots[k].ptr)
    ensures IsStart(h2, f) && RunLength(h2, f) == RunLength(h, f)
    ensures forall p: nat :: p < FRAMES && InRun(h2, f, p) ==> w.entries[p] == v.entries[p]
  {
    forall p: nat | p < FRAMES && InRun(h2, f, p)
      ensures w.entries[p] == v.entries[p]
    {
      RunsApart(h, f, Frame(v.slots[k].ptr), p);
    }
  }

  lemma PageStartNotWriteable(p: nat)
    ensures !IsWriteable(PAGE_SIZE * p)
  {
  }

  lemma EmptiedMayWrite(h: Pool, h2: Pool, v: View, w: View, k: nat, p: nat)
    requires PoolOk(h) && SlotEmptied(h, h2, v, w, k) && |v.entries| == FRAMES && p < FRAMES
    requires KeepsRuns(h, h2, v.image)
    requires !InRun(h, Frame(v.slots[k].ptr), p) && MayWrite(h, v, p)
    ensures MayWrite(h2, w, p)
  {
    forall i | 0 <= i < |v.slots| && Live(v.slots[i]) && InRun(h, Frame(v.slots[i].ptr), p)
      ensures InRun(h2, Frame(v.slots[i].ptr), p) && v.slots[i] in w.slots
    {
      EmptiedRunsKept(h, h2, v, w, k, Frame(v.slots[i].ptr));
      assert w.slots[i] == v.slots[i];
    }
    MayWriteKept(h, h2, v, w, p);
  }

  lemma EmptiedSlotOk(h: Pool, h2: Pool, v: View, w: View, k: nat, i: nat)
    requires ViewOk(h, v) && PoolOk(h) && SlotEmptied(h, h2, v, w, k) && i < |w.slots|
    ensures SlotOk(h2, w, w.slots[i])
  {
    if i != k && Live(w.slots[i]) {
      assert SlotOk(h, v, v.slots[i]) && SlotOk(h, v, v.slots[k]);
      EmptiedRunsKept(h, h2, v, w, k, Frame(v.slots[i].ptr));
    }
  }

  /** Without the run at `g`, the other runs are as they were. */
  lemma DropKeepsRuns(h: Pool, h2: Pool, g: nat, fs: set<nat>)
    requires IsStart(h, g) && g !in fs && h2 == h.(runs := h.runs - {g - h.base})
    ensures KeepsRuns(h, h2, fs)
  {
  }

  lemma EmptiedViewOk(h: Pool, h2: Pool, v: View, w: View, k: nat)
    requires ViewOk(h, v) && PoolOk(h) && SlotEmptied(h, h2, v, w, k)
    ensures ViewOk(h2, w)
  {
    SlotStartsEmptied(h, h2, v, w, k);
    SlotStartIn(v.slots, k);
    DropKeepsRuns(h, h2, Frame(v.slots[k].ptr), v.frames);
    DropKeepsRuns(h, h2, Frame(v.slots[k].ptr), v.image);
    forall i | 0 <= i < |w.slots|
      ensures SlotOk(h2, w, w.slots[i])
    {
      EmptiedSlotOk(h, h2, v, w, k, i);
    }
    forall p: nat | p < FRAMES && IsWriteable(w.entries[p])
      ensures MayWrite(h2, w, p)
    {
      PageStartNotWriteable(p);
      assert MayWrite(h, v, p);
      EmptiedMayWrite(h, h2, v, w, k, p);
    }
  }

  lemma SmallerPoolOk(h: Pool, h2: Pool)
    requires PoolOk(h) && h2.base == h.base && h2.total == h.total
    requires h2.runs.Keys <= h.runs.Keys && forall b :: b in h2.runs ==> h2.runs[b] == h.runs[b]
    ensures PoolOk(h2)
  {
  }

  /** `process_free` of one of the process's own pointers keeps the invariant. */
  lemma EmptyKeepsInv(h: Pool, h2: Pool, vs: seq<View>, i: nat, w: View, k: nat)
    requires Inv(h, vs) && i < |vs| && SlotEmptied(h, h2, vs[i], w, k)
    ensures Inv(h2, vs[i := w])
  {
    var v := vs[i];
    EmptiedViewOk(h, h2, v, w, k);
    SlotStartsEmptied(h, h2, v, w, k);
    SmallerPoolOk(h, h2);
    SlotStartIn(v.slots, k);
    forall j | 0 <= j < |vs| && j != i
      ensures KeepsRuns(h, h2, Owned(vs[j]))
    {
      OwnersApart(h, vs, i, j, Frame(v.slots[k].ptr));
      DropKeepsRuns(h, h2, Frame(v.slots[k].ptr), Owned(vs[j]));
    }
    OthersKept(h, h2, vs, i, w, {});
  }

  // ---------- A process is born and its image is loaded ----------

  /** `w` is a process with an address space of fresh single-block runs and nothing writeable. */
  ghost predicate Born(h: Pool, h2: Pool, w: View) {
    && h2.base == h.base && h2.total == h.total
    && (forall f :: f in w.frames ==> !IsStart(h, f) && IsStart(h2, f) && RunLength(h2, f) == 1)
    && (forall f :: IsStart(h, f) ==> IsStart(h2, f) && RunLength(h2, f) == RunLength(h, f))
    && |w.entries| == FRAMES && w.image == {}
    && (forall k :: 0 <= k < |w.slots| ==> w.slots[k] == EMPTY_SLOT)
    && (forall p: nat :: p < FRAMES ==> !IsWriteable(w.entries[p]))
  }

  /** `task_new` for a new process keeps the invariant. */
  lemma BirthKeepsInv(h: Pool, h2: Pool, vs: seq<View>, w: View)
    requires Inv(h, vs) && PoolOk(h2) && Born(h, h2, w)
    ensures Inv(h2, vs + [w])
  {
    var ws := vs + [w];
    assert SlotStarts(w.slots) == {};
    forall i | 0 <= i < |vs|
      ensures ViewOk(h2, ws[i]) && Owned(ws[i]) !! Owned(w)
    {
      ViewKept(h, h2, vs[i]);
      OwnedAreStarts(h, vs[i]);
    }
    forall i, j | 0 <= i < j < |ws|
      ensures Owned(ws[i]) !! Owned(ws[j])
    {
      if j < |vs| {
        assert Owned(vs[i]) !! Owned(vs[j]);
      }
    }
  }

  lemma ImageGrows(h: Pool, v: View, w: View, f: nat)
    requires ViewOk(h, v) && w == v.(image := v.image + {f})
    requires IsStart(h, f) && f !in Owned(v)
    ensures ViewOk(h, w)
  {
    forall p: nat | p < FRAMES && IsWriteable(w.entries[p])
      ensures MayWrite(h, w, p)
    {
      assert MayWrite(h, v, p);
      MayWriteKept(h, h, v, w, p);
    }
    forall k | 0 <= k < |w.slots|
      ensures SlotOk(h, w, w.slots[k])
    {
      assert SlotOk(h, v, v.slots[k]);
    }
  }

  /** A run that no process accounts for becomes the image or the stack of process `i`. */
  lemma ImageAdoptedKeepsInv(h: Pool, vs: seq<View>, i: nat, f: nat)
    requires Inv(h, vs) && i < |vs| && IsStart(h, f)
    requires forall j :: 0 <= j < |vs| ==> f !in Owned(vs[j])
    ensures Inv(h, vs[i := vs[i].(image := vs[i].image + {f})])
  {
    var v := vs[i];
    var w := v.(image := v.image + {f});
    var ws := vs[i := w];
    ImageGrows(h, v, w, f);
    assert Owned(w) == Owned(v) + {f};
    forall j, l | 0 <= j < l < |ws|
      ensures Owned(ws[j]) !! Owned(ws[l])
    {
      assert Owned(vs[j]) !! Owned(vs[l]);
    }
  }

  /**
   Mapping pages of the image keeps the invariant: no page of a live slot is remapped, and every
   page that becomes writeable maps to the screen or into an image run of the same process.
   */
  lemma ImageMapKeepsInv(h: Pool, vs: seq<View>, i: nat, w: View)
    requires Inv(h, vs) && i < |vs| && |w.entries| == FRAMES
    requires w == vs[i].(entries := w.entries)
    requires forall p: nat :: p < FRAMES && InLiveSlot(h, vs[i], p) ==> w.entries[p] == vs[i].entries[p]
    requires forall p: nat :: p < FRAMES && w.entries[p] != vs[i].entries[p] && IsWriteable(w.entries[p]) ==>
      var f := Frame(w.entries[p]);
      IsDevice(f) || InImage(h, w, f)
    ensures Inv(h, vs[i := w])
  {
    var v := vs[i];
    assert ViewOk(h, v);
    forall k | 0 <= k < |w.slots|
      ensures SlotOk(h, w, w.slots[k])
    {
      assert SlotOk(h, v, v.slots[k]);
      forall p: nat | p < FRAMES && Live(v.slots[k]) && InRun(h, Frame(v.slots[k].ptr), p)
        ensures w.entries[p] == v.entries[p]
      {
        assert InLiveSlot(h, v, p);
      }
    }
    forall p: nat | p < FRAMES && IsWriteable(w.entries[p])
      ensures MayWrite(h, w, p)
    {
      if w.entries[p] == v.entries[p] {
        assert MayWrite(h, v, p);
        MayWriteKept(h, h, v, w, p);
      }
    }
    OthersKept(h, h, vs, i, w, {});
  }

  // ---------- The heap changes, or a process goes ----------

  /** Heap changes outside all runs that processes account for. */
  lemma HeapChangeKeepsInv(h: Pool, h2: Pool, vs: seq<View>)
    requires Inv(h, vs) && PoolOk(h2)
    requires forall j :: 0 <= j < |vs| ==> KeepsRuns(h, h2, Owned(vs[j]))
    ensures Inv(h2, vs)
  {
    forall j | 0 <= j < |vs|
      ensures ViewOk(h2, vs[j])
    {
      ViewKept(h, h2, vs[j]);
    }
  }

  /** Without process `i`, whose runs no process accounts for from then on. */
  lemma FewerKeepInv(h: Pool, vs: seq<View>, i: nat)
    requires Inv(h, vs) && i < |vs|
    ensures Inv(h, vs[..i] + vs[i + 1..])
  {
    var ws := vs[..i] + vs[i + 1..];
    forall j, l | 0 <= j < l < |ws|
      ensures Owned(ws[j]) !! Owned(ws[l])
    {
      var a, b := if j < i then j else j + 1, if l < i then l else l + 1;
      assert ws[j] == vs[a] && ws[l] == vs[b] && Owned(vs[a]) !! Owned(vs[b]);
    }
    forall j | 0 <= j < |ws|
      ensures ViewOk(h, ws[j])
    {
      assert ws[j] == vs[if j < i then j else j + 1];
    }
  }
}
