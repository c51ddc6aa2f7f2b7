/**
 Freeing all slots of a process, as `process_terminate_allocations` does: also the null pointer of every
 unused slot.
 */
module NullFree {
  import opened HeapTable
  import opened BelowTable
  import opened PageTables
  import opened AddressSpaces
  import opened Ownership

  /** The memory from the first byte below the table on, after `kfree` of the pointer of every slot in turn. */
  function FreeSlots(w: Table, slots: seq<Slot>): (r: Table)
    ensures |r| == |w|
  {
    if slots == [] then w
    else MarkFree(FreeSlots(w, slots[..|slots| - 1]), Frame(slots[|slots| - 1].ptr))
  }

  ghost predicate HasNull(slots: seq<Slot>) {
    exists k :: 0 <= k < |slots| && !Live(slots[k])
  }

  /** The live pointers are the starts of different runs. */
  ghost predicate SlotsAreRuns(base: nat, s: Table, slots: seq<Slot>) {
    && (forall k :: 0 <= k < |slots| && Live(slots[k]) ==> SlotStartsRun(base, s, slots[k]))
    && (forall j, k :: 0 <= j < k < |slots| && Live(slots[j]) && Live(slots[k]) ==>
      Frame(slots[j].ptr) != Frame(slots[k].ptr))
  }

  ghost predicate SlotStartsRun(base: nat, s: Table, x: Slot) {
    Frame(x.ptr) >= base && Frame(x.ptr) - base in Runs(s)
  }

  ghost predicate InRunOf(base: nat, s: Table, x: Slot, i: nat) {
    Live(x) && base <= Frame(x.ptr) && Frame(x.ptr) - base <= i < RunEnd(s, Frame(x.ptr) - base)
  }

  ghost predicate InSlotRun(base: nat, s: Table, slots: seq<Slot>, i: nat) {
    exists k :: 0 <= k < |slots| && InRunOf(base, s, slots[k], i)
  }

  /** The table with the runs of the slots cleared, and with the run at block 0 if it was `struck`. */
  ghost function SlotsCleared(base: nat, s: Table, slots: seq<Slot>, struck: bool): Table {
    seq(|s|, i requires 0 <= i < |s| =>
      if InSlotRun(base, s, slots, i) || (struck && i < RunEnd(s, 0)) then FREE else s[i])
  }

  lemma InSlotRunPlus(base: nat, s: Table, slots: seq<Slot>, x: Slot, i: nat)
    ensures InSlotRun(base, s, slots + [x], i) <==> InSlotRun(base, s, slots, i) || InRunOf(base, s, x, i)
  {
    var all := slots + [x];
    if InSlotRun(base, s, slots, i) {
      var k :| 0 <= k < |slots| && InRunOf(base, s, slots[k], i);
      assert InRunOf(base, s, all[k], i);
    }
    if InRunOf(base, s, x, i) {
      assert InRunOf(base, s, all[|slots|], i);
    }
  }

  /** Where a walk from block `c` clears: a run, or block 0 alone if that is free. */
  ghost predicate IsWalk(s: Table, c: nat) {
    c in Runs(s) || (c == 0 && s != [] && s[0] == FREE)
  }

  /** A run meets no other run, nor what a walk from a free block 0 clears. */
  lemma RunsMeet(s: Table, b: nat, c: nat, i: nat)
    requires WellFormed(s) && b in Runs(s) && IsWalk(s, c)
    ensures b <= i < RunEnd(s, b) && c <= i < RunEnd(s, c) ==> b == c
  {
    RunIsTaken(s, b);
    if c in Runs(s) {
      if b < c {
        RunsAreDisjoint(s, b, c);
      } else if c < b {
        RunsAreDisjoint(s, c, b);
      }
    } else {
      assert RunEnd(s, 0) == 1;
    }
  }

  lemma WalkAtZero(s: Table)
    requires WellFormed(s) && s != []
    ensures IsWalk(s, 0)
  {
    if s[0] != FREE {
      FirstBlock(s);
    }
  }

  /** Block `i` of the run at `b` is in no run of the slots that start elsewhere. */
  lemma OtherSlotsAvoid(base: nat, s: Table, slots: seq<Slot>, b: nat, i: nat)
    requires WellFormed(s) && b in Runs(s) && SlotsAreRuns(base, s, slots) && b <= i < RunEnd(s, b)
    requires forall k :: 0 <= k < |slots| && Live(slots[k]) ==> Frame(slots[k].ptr) != base + b
    ensures !InSlotRun(base, s, slots, i)
  {
    forall k | 0 <= k < |slots|
      ensures !InRunOf(base, s, slots[k], i)
    {
      if Live(slots[k]) {
        assert SlotStartsRun(base, s, slots[k]);
        RunsMeet(s, b, Frame(slots[k].ptr) - base, i);
      }
    }
  }

  lemma FirstBlock(s: Table)
    requires WellFormed(s) && s != [] && s[0] != FREE
    ensures 0 in Runs(s)
  {
    assert WellFormedAt(s, 0);
  }

  /** Freeing an intact run, or one that is cleared already. */
  lemma FreeIntact(s: Table, t: Table, b: nat)
    requires WellFormed(s) && |t| == |s| && b < |s|
    requires t[b] == FREE || forall i :: b <= i < RunEnd(s, b) && i < |s| ==> t[i] == s[i]
    ensures RunEnd(t, b) == if t[b] == FREE then b + 1 else RunEnd(s, b)
  {
    RunShape(s, b);
    if t[b] != FREE {
      RunEndIs(t, b, RunEnd(s, b));
    }
  }

  /** One more live slot. */
  lemma ClearLive(base: nat, s: Table, slots: seq<Slot>, x: Slot, struck: bool)
    requires WellFormed(s) && SlotsAreRuns(base, s, slots + [x]) && Live(x)
    ensures Frame(x.ptr) >= base
    ensures MarkFree(SlotsCleared(base, s, slots, struck), Frame(x.ptr) - base) ==
      SlotsCleared(base, s, slots + [x], struck)
  {
    var all := slots + [x];
    assert all[|slots|] == x && SlotStartsRun(base, s, x);
    assert forall k :: 0 <= k < |slots| ==> all[k] == slots[k];
    var b, t := Frame(x.ptr) - base, SlotsCleared(base, s, slots, struck);
    RunShape(s, b);
    RunIsTaken(s, b);
    WalkAtZero(s);
    forall i: nat | b <= i < RunEnd(s, b)
      ensures t[i] == if b == 0 && struck then FREE else s[i]
    {
      OtherSlotsAvoid(base, s, slots, b, i);
      RunsMeet(s, b, 0, i);
    }
    FreeIntact(s, t, b);
    forall i | 0 <= i < |s|
      ensures MarkFree(t, b)[i] == SlotsCleared(base, s, all, struck)[i]
    {
      InSlotRunPlus(base, s, slots, x, i);
    }
  }

  lemma OwnsZero(base: nat, s: Table, x: Slot)
    ensures Live(x) && Frame(x.ptr) == base && s != [] ==> InRunOf(base, s, x, 0)
  {
    assert s != [] ==> RunEnd(s, 0) == if HasNext(s[0]) then RunEnd(s, 1) else 1;
  }

  /** The table is walked from block 0 on, when no slot has cleared it. */
  lemma ZeroIntact(base: nat, s: Table, slots: seq<Slot>, i: nat)
    requires WellFormed(s) && SlotsAreRuns(base, s, slots) && s != [] && i < RunEnd(s, 0) && i < |s|
    requires !InSlotRun(base, s, slots, 0)
    ensures !InSlotRun(base, s, slots, i)
  {
    if s[0] == FREE {
      assert RunEnd(s, 0) == 1;
    } else {
      FirstBlock(s);
      RunShape(s, 0);
      forall k | 0 <= k < |slots| && Live(slots[k])
        ensures Frame(slots[k].ptr) != base
      {
        assert SlotStartsRun(base, s, slots[k]);
        OwnsZero(base, s, slots[k]);
      }
      OtherSlotsAvoid(base, s, slots, 0, i);
    }
  }

  /** If a slot has the run at block 0, it has all of what a walk from there clears. */
  lemma ZeroCleared(base: nat, s: Table, slots: seq<Slot>, i: nat)
    requires InSlotRun(base, s, slots, 0) && i < RunEnd(s, 0)
    ensures InSlotRun(base, s, slots, i)
  {
    var k :| 0 <= k < |slots| && InRunOf(base, s, slots[k], 0);
    assert InRunOf(base, s, slots[k], i);
  }

  /** The first null slot, when the walk from address 0 reaches the table. */
  lemma ClearStruck(base: nat, s: Table, slots: seq<Slot>, x: Slot)
    requires WellFormed(s) && SlotsAreRuns(base, s, slots) && !Live(x)
    ensures MarkFree(SlotsCleared(base, s, slots, false), 0) == SlotsCleared(base, s, slots + [x], true)
  {
    var t := SlotsCleared(base, s, slots, false);
    if s != [] {
      RunShape(s, 0);
      forall i: nat | i < RunEnd(s, 0)
        ensures InSlotRun(base, s, slots, i) <==> InSlotRun(base, s, slots, 0)
      {
        if InSlotRun(base, s, slots, 0) {
          ZeroCleared(base, s, slots, i);
        } else {
          ZeroIntact(base, s, slots, i);
        }
      }
      FreeIntact(s, t, 0);
    }
    forall i | 0 <= i < |s|
      ensures MarkFree(t, 0)[i] == SlotsCleared(base, s, slots + [x], true)[i]
    {
      InSlotRunPlus(base, s, slots, x, i);
    }
  }

  lemma ClearNull(base: nat, s: Table, slots: seq<Slot>, x: Slot, struck: bool)
    requires !Live(x)
    ensures SlotsCleared(base, s, slots + [x], struck) == SlotsCleared(base, s, slots, struck)
  {
    forall i | 0 <= i < |s|
      ensures InSlotRun(base, s, slots + [x], i) <==> InSlotRun(base, s, slots, i)
    {
      InSlotRunPlus(base, s, slots, x, i);
    }
  }

  /** The table after the free of slot `x`, if null pointers did not reach it. */
  ghost function ClearSlot(base: nat, s: Table, x: Slot): Table {
    if Live(x) && Frame(x.ptr) >= base then MarkFree(s, Frame(x.ptr) - base) else s
  }

  lemma NoneCleared(base: nat, s: Table)
    ensures SlotsCleared(base, s, [], false) == s
  {
  }

  lemma OneMoreCleared(base: nat, s: Table, slots: seq<Slot>, k: nat)
    requires WellFormed(s) && SlotsAreRuns(base, s, slots) && k < |slots|
    ensures ClearSlot(base, SlotsCleared(base, s, slots[..k], false), slots[k]) ==
      SlotsCleared(base, s, slots[..k + 1], false)
  {
    assert slots[..k + 1] == slots[..k] + [slots[k]];
    assert forall j :: 0 <= j < k ==> slots[..k][j] == slots[j];
    if Live(slots[k]) {
      ClearLive(base, s, slots[..k], slots[k], false);
    } else {
      ClearNull(base, s, slots[..k], slots[k], false);
    }
  }

  /** Whether the free of a null slot reaches the table. */
  ghost predicate Struck(below: Table, slots: seq<Slot>) {
    HasNull(slots) && !Stops(below)
  }

  /** The bytes below the table once some slots have been freed. */
  ghost predicate BelowAfter(below: Table, now: Table, slots: seq<Slot>) {
    && |now| == |below|
    && (if HasNull(slots) then now != [] && now[0] == FREE else now == below)
  }

  /** What all the frees do: the runs of the slots are cleared, and that at block 0 if the table is struck. */
  lemma {:induction false} FreeSlotsIs(below: Table, s: Table, slots: seq<Slot>)
    requires WellFormed(s) && below != [] && SlotsAreRuns(|below|, s, slots)
    ensures FreeSlots(below + s, slots)[|below|..] == SlotsCleared(|below|, s, slots, Struck(below, slots))
    ensures BelowAfter(below, FreeSlots(below + s, slots)[..|below|], slots)
    decreases |slots|
  {
    var base := |below|;
    if slots == [] {
      assert (below + s)[base..] == s && (below + s)[..base] == below;
      assert SlotsCleared(base, s, [], false) == s;
    } else {
      var front, x := slots[..|slots| - 1], slots[|slots| - 1];
      assert slots == front + [x];
      FreeSlotsIs(below, s, front);
      var w := FreeSlots(below + s, front);
      assert w == w[..base] + w[base..];
      FreeOneSlot(below, s, front, x, w[..base]);
    }
  }

  lemma HasNullPlus(slots: seq<Slot>, x: Slot)
    ensures HasNull(slots + [x]) <==> HasNull(slots) || !Live(x)
  {
    var all := slots + [x];
    assert all[|slots|] == x;
    assert forall k :: 0 <= k < |slots| ==> all[k] == slots[k];
  }

  lemma FreeOneSlot(below: Table, s: Table, front: seq<Slot>, x: Slot, now: Table)
    requires WellFormed(s) && below != [] && SlotsAreRuns(|below|, s, front + [x]) && BelowAfter(below, now, front)
    ensures
      var w := MarkFree(now + SlotsCleared(|below|, s, front, Struck(below, front)), Frame(x.ptr));
      && |w| == |below| + |s|
      && w[|below|..] == SlotsCleared(|below|, s, front + [x], Struck(below, front + [x]))
      && BelowAfter(below, w[..|below|], front + [x])
  {
    var base, t := |below|, SlotsCleared(|below|, s, front, Struck(below, front));
    HasNullPlus(front, x);
    if Live(x) {
      ClearLive(base, s, front, x, Struck(below, front));
      FreeInTable(now, t, Frame(x.ptr) - base);
    } else {
      FreeNullSlot(below, s, front, x, now);
    }
  }

  lemma FreeNullSlot(below: Table, s: Table, front: seq<Slot>, x: Slot, now: Table)
    requires WellFormed(s) && below != [] && SlotsAreRuns(|below|, s, front + [x]) && BelowAfter(below, now, front)
    requires !Live(x)
    ensures
      var w := MarkFree(now + SlotsCleared(|below|, s, front, Struck(below, front)), 0);
      && |w| == |below| + |s|
      && w[|below|..] == SlotsCleared(|below|, s, front + [x], Struck(below, front + [x]))
      && w[0] == FREE
  {
    var base, t := |below|, SlotsCleared(|below|, s, front, Struck(below, front));
    HasNullPlus(front, x);
    NullFreeIs(now, t);
    assert forall k :: 0 <= k < |front| ==> (front + [x])[k] == front[k];
    if HasNull(front) {
      assert !HasNext(now[0]);
      ClearNull(base, s, front, x, Struck(below, front));
    } else if Stops(below) {
      assert RunEnd(below, 0) == if HasNext(below[0]) then RunEnd(below, 1) else 1;
      ClearNull(base, s, front, x, false);
    } else {
      ClearStruck(base, s, front, x);
    }
  }

  ghost predicate FreesAreExact(below: Table, s: Table, slots: seq<Slot>) {
    !HasNull(slots) || NullIsHarmless(below, s) || InSlotRun(|below|, s, slots, 0)
  }

  /**
   The frees of all slots of a process clear exactly the runs of its live slots if and only if no slot is
   null, or the walk from address 0 ends below the table, or block 0 is free or in one of those runs.
   */
  lemma FreeSlotsExactIff(below: Table, s: Table, slots: seq<Slot>)
    requires WellFormed(s) && below != [] && SlotsAreRuns(|below|, s, slots)
    ensures FreeSlots(below + s, slots)[|below|..] == SlotsCleared(|below|, s, slots, false) <==>
      FreesAreExact(below, s, slots)
  {
    FreeSlotsIs(below, s, slots);
    var base := |below|;
    var exact, all := SlotsCleared(base, s, slots, false), SlotsCleared(base, s, slots, true);
    if s != [] {
      RunShape(s, 0);
      if InSlotRun(base, s, slots, 0) {
        forall i: nat | i < RunEnd(s, 0)
          ensures InSlotRun(base, s, slots, i)
        {
          ZeroCleared(base, s, slots, i);
        }
        assert exact == all;
      } else if s[0] == FREE {
        assert RunEnd(s, 0) == 1 && exact == all;
      } else {
        assert exact[0] == s[0] && all[0] == FREE;
      }
    } else {
      assert exact == all;
    }
  }

  /** Clearing the runs of the live slots drops exactly those runs. */
  lemma {:induction false} ClearedRuns(base: nat, s: Table, slots: seq<Slot>)
    requires WellFormed(s) && SlotsAreRuns(base, s, slots)
    ensures DropsRuns(base, s, SlotsCleared(base, s, slots, false), SlotStarts(slots))
    decreases |slots|
  {
    if slots == [] {
      assert SlotsCleared(base, s, [], false) == s;
      assert SlotStarts(slots) == {};
    } else {
      var front, x := slots[..|slots| - 1], slots[|slots| - 1];
      assert slots == front + [x];
      ClearedRuns(base, s, front);
      SlotStartsPlus(front, x);
      if Live(x) {
        ClearOneMore(base, s, front, x);
      } else {
        ClearNull(base, s, front, x, false);
        assert SlotStarts(slots) == SlotStarts(front);
      }
    }
  }

  lemma ClearOneMore(base: nat, s: Table, front: seq<Slot>, x: Slot)
    requires WellFormed(s) && SlotsAreRuns(base, s, front + [x]) && Live(x)
    requires DropsRuns(base, s, SlotsCleared(base, s, front, false), SlotStarts(front))
    ensures DropsRuns(base, s, SlotsCleared(base, s, front + [x], false), SlotStarts(front) + {Frame(x.ptr)})
  {
    var t, b := SlotsCleared(base, s, front, false), Frame(x.ptr) - base;
    ClearLive(base, s, front, x, false);
    StartIsNew(base, s, front, x);
    assert RunDropped(base, s, t, SlotStarts(front), b);
    FreeDropsOne(base, t, b);
    DropsMore(base, s, t, MarkFree(t, b), SlotStarts(front), {base + b});
  }

  lemma SlotStartsPlus(slots: seq<Slot>, x: Slot)
    ensures SlotStarts(slots + [x]) == SlotStarts(slots) + if Live(x) then {Frame(x.ptr)} else {}
  {
    var all := slots + [x];
    forall f | f in SlotStarts(slots)
      ensures f in SlotStarts(all)
    {
      var k :| 0 <= k < |slots| && Live(slots[k]) && Frame(slots[k].ptr) == f;
      assert all[k] == slots[k];
    }
    assert all[|slots|] == x;
    assert forall k :: 0 <= k < |slots| ==> all[k] == slots[k];
  }

  lemma StartIsNew(base: nat, s: Table, front: seq<Slot>, x: Slot)
    requires SlotsAreRuns(base, s, front + [x]) && Live(x)
    ensures Frame(x.ptr) !in SlotStarts(front) && SlotStartsRun(base, s, x)
    ensures forall f :: f in SlotStarts(front) ==> f >= base
  {
    var all := front + [x];
    assert all[|front|] == x;
    assert forall k :: 0 <= k < |front| ==> all[k] == front[k];
    forall k | 0 <= k < |front| && Live(front[k])
      ensures Frame(front[k].ptr) >= base && Frame(front[k].ptr) != Frame(x.ptr)
    {
      assert SlotStartsRun(base, s, all[k]);
    }
  }
}
