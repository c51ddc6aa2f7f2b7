/**
 The memory in front of the block table, and the free of address 0. The block of address 0 lies below
 the table, so the walk of `heap_mark_blocks_free` starts in the bytes in front of it: as many as there
 are blocks below the heap.
 */
module BelowTable {
  import opened HeapTable

  /** A walk from the first of these bytes stops among them. */
  ghost predicate Stops(below: Table) {
    exists k :: 0 <= k < |below| && !HasNext(below[k])
  }

  lemma {:induction false} WalkFrom(below: Table, s: Table, k: nat)
    requires k <= |below|
    ensures (exists j :: k <= j < |below| && !HasNext(below[j])) ==> RunEnd(below + s, k) <= |below|
    ensures (forall j :: k <= j < |below| ==> HasNext(below[j])) ==> RunEnd(below + s, k) == |below| + RunEnd(s, 0)
    decreases |below| - k
  {
    if k < |below| {
      WalkFrom(below, s, k + 1);
    } else {
      WalkInTable(below, s, 0);
    }
  }

  /** A walk that starts in the table does not depend on the bytes in front of it. */
  lemma {:induction false} WalkInTable(below: Table, s: Table, b: nat)
    ensures RunEnd(below + s, |below| + b) == |below| + RunEnd(s, b)
    decreases |s| - b
  {
    if b < |s| && HasNext(s[b]) {
      WalkInTable(below, s, b + 1);
    }
  }

  /** The walk from address 0 stays in front of the table if and only if some byte there ends it. */
  lemma NullWalkIff(below: Table, s: Table)
    requires s != []
    ensures RunEnd(below + s, 0) <= |below| <==> Stops(below)
  {
    WalkFrom(below, s, 0);
  }

  /** Freeing a block of the table changes the table only. */
  lemma FreeInTable(below: Table, s: Table, b: nat)
    ensures MarkFree(below + s, |below| + b) == below + MarkFree(s, b)
  {
    WalkInTable(below, s, b);
  }

  lemma FreedInTable(below: Table, s: Table, below2: Table, s2: Table, b: nat)
    requires |below2| == |below| && below2 + s2 == MarkFree(below + s, |below| + b)
    ensures below2 == below && s2 == MarkFree(s, b)
  {
    FreeInTable(below, s, b);
    assert below2 == (below2 + s2)[..|below|] && s2 == (below2 + s2)[|below|..];
    assert below == (below + MarkFree(s, b))[..|below|];
  }

  /** What freeing address 0 does: it clears bytes below the table, or all of them and the run at block 0. */
  lemma NullFreeIs(below: Table, s: Table)
    ensures |MarkFree(below + s, 0)| == |below| + |s|
    ensures Stops(below) ==> MarkFree(below + s, 0) == MarkFree(below, 0) + s
    ensures !Stops(below) ==> MarkFree(below + s, 0) == seq(|below|, _ => FREE) + MarkFree(s, 0)
  {
    WalkFrom(below, s, 0);
    WalkFrom(below, [], 0);
    assert below + [] == below;
    if Stops(below) {
      SameWalk(below, s, 0);
    }
  }

  lemma {:induction false} SameWalk(below: Table, s: Table, k: nat)
    requires exists j :: k <= j < |below| && !HasNext(below[j])
    ensures RunEnd(below + s, k) == RunEnd(below, k)
    decreases |below| - k
  {
    if HasNext(below[k]) {
      SameWalk(below, s, k + 1);
    }
  }

  /** The walk from address 0 ends in front of the table, or has nothing to clear in it. */
  ghost predicate NullIsHarmless(below: Table, s: Table) {
    Stops(below) || s == [] || s[0] == FREE
  }

  /** That is exactly when freeing address 0 leaves the table alone. */
  lemma NullFreeHarmlessIff(below: Table, s: Table)
    ensures |MarkFree(below + s, 0)| == |below| + |s|
    ensures MarkFree(below + s, 0)[|below|..] == s <==> NullIsHarmless(below, s)
  {
    NullFreeIs(below, s);
    var t := MarkFree(below + s, 0)[|below|..];
    if Stops(below) {
      assert t == s;
    } else {
      assert t == MarkFree(s, 0);
      if s != [] {
        assert RunEnd(s, 0) == if HasNext(s[0]) then RunEnd(s, 1) else 1;
        assert t[0] == FREE;
        if s[0] == FREE {
          assert RunEnd(s, 0) == 1 && t == s;
        }
      }
    }
  }

  /** With nothing but set bits below, the free of address 0 frees the run at block 0. */
  /**
   In this kernel the table is at 0x7E00 and the heap at 0x100_0000: the byte at 0x7DFE, which holds the first
   half of the boot signature, is the last but one in front of the table and ends the walk. The memory of the
   next lemma needs that byte overwritten.
   */
  lemma BootSignatureStops(below: Table)
    requires |below| == 4096 && below[4094] == 0x55
    ensures Stops(below)
  {
    assert !HasNext(below[4094]);
  }

  lemma NullFreeStrikes(below: Table)
    requires |below| == 4096 && forall k :: 0 <= k < |below| ==> below[k] == 0xFF
    ensures MarkFree(below + [TAKEN | IS_FIRST], 0)[4096..] == [FREE]
  {
    var s: Table := [TAKEN | IS_FIRST];
    NullFreeIs(below, s);
    assert forall k :: 0 <= k < |below| ==> HasNext(below[k]);
    assert !HasNext(s[0]) && RunEnd(s, 0) == 1;
  }
}
