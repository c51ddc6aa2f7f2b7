/**
 The block table of the heap: one flag byte per 4096-byte block. A run of blocks handed out
 by one allocation is a block flagged IS_FIRST followed by continuation blocks, every block
 but the last flagged HAS_NEXT.
 */
module HeapTable {

  const FREE: bv8 := 0x00
  const TAKEN: bv8 := 0x01
  const HAS_NEXT: bv8 := 0x80
  const IS_FIRST: bv8 := 0x40

  const ENOMEM := 3

  type Table = seq<bv8>

  predicate IsFree(e: bv8) {
    e & 0x0F == FREE
  }

  predicate HasNext(e: bv8) {
    e & HAS_NEXT != 0
  }

  predicate IsFirst(e: bv8) {
    e & IS_FIRST != 0
  }

  /** A taken block that is not the first of its run. */
  predicate IsTail(e: bv8) {
    e == TAKEN || e == TAKEN | HAS_NEXT
  }

  predicate ValidFlag(e: bv8) {
    e == FREE || IsTail(e) || e == TAKEN | IS_FIRST || e == TAKEN | IS_FIRST | HAS_NEXT
  }

  /** Every run is FIRST, then HAS_NEXT up to its last block; there are no stray tails. */
  predicate WellFormed(s: Table) {
    forall i :: 0 <= i < |s| ==> WellFormedAt(s, i)
  }

  predicate WellFormedAt(s: Table, i: int)
    requires 0 <= i < |s|
  {
    && ValidFlag(s[i])
    && (HasNext(s[i]) ==> i + 1 < |s| && IsTail(s[i + 1]))
    && (IsTail(s[i]) ==> 0 < i && HasNext(s[i - 1]))
  }

  // ---------- What the search and the two marking loops compute ----------

  predicate FreeRun(s: Table, i: int, n: int) {
    0 <= i && i + n <= |s| && forall j :: i <= j < i + n ==> IsFree(s[j])
  }

  ghost predicate Fits(s: Table, n: int) {
    exists i :: FreeRun(s, i, n)
  }

  predicate LastIsFree(s: Table) {
    |s| > 0 && IsFree(s[|s| - 1])
  }

  /** The start of the maximal free run at the end of the table. */
  predicate StartsTrailingRun(s: Table, r: int) {
    0 <= r < |s| && FreeRun(s, r, |s| - r) && (r > 0 ==> !IsFree(s[r - 1]))
  }

  /**
   The block a search for `n` blocks answers: the leftmost fit when there is one; otherwise
   the start of the trailing free run, which is too short; -ENOMEM only when the last block is
   taken. A search for 0 blocks never stops early, so it behaves like a search that fails.
   */
  ghost predicate StartBlockIs(s: Table, n: int, r: int) {
    if n >= 1 && Fits(s, n) then FreeRun(s, r, n) && forall i :: FreeRun(s, i, n) ==> r <= i
    else if LastIsFree(s) then StartsTrailingRun(s, r)
    else r == -ENOMEM
  }

  lemma StartBlockIsUnique(s: Table, n: int, r1: int, r2: int)
    requires StartBlockIs(s, n, r1) && StartBlockIs(s, n, r2)
    ensures r1 == r2
  {
    if !(n >= 1 && Fits(s, n)) && LastIsFree(s) {
      assert forall j :: r1 <= j < |s| ==> IsFree(s[j]);
      assert forall j :: r2 <= j < |s| ==> IsFree(s[j]);
    }
  }

  /**
   When a request for `n` blocks is answered properly: a run of that length exists, or the table
   ends in a taken block, so that the search reports failure.
   */
  ghost predicate ServesRequest(s: Table, n: int) {
    (n >= 1 && Fits(s, n)) || !LastIsFree(s)
  }

  /**
   The search either refuses or names a run of at least one block that is wholly inside the
   table and free, exactly when the request is one the table serves.
   */
  lemma SearchIsSoundIff(s: Table, n: nat, r: int)
    requires StartBlockIs(s, n, r)
    ensures (r == -ENOMEM || (n >= 1 && FreeRun(s, r, n))) <==> ServesRequest(s, n)
  {
  }

  /** One free block at the end, two requested: the search answers a run that does not exist. */
  lemma SearchMayOverrun(s: Table)
    requires s == [TAKEN | IS_FIRST, FREE]
    ensures StartBlockIs(s, 2, 1) && !FreeRun(s, 1, 2) && !ServesRequest(s, 2)
  {
    assert !IsFree(s[0]) && IsFree(s[1]);
    assert forall i :: FreeRun(s, i, 2) ==> i == 0;
  }

  /** The flag of block `k` in a run of `n` blocks. */
  function RunFlag(k: int, n: int): bv8 {
    TAKEN | (if k == 0 then IS_FIRST else 0) | (if k < n - 1 then HAS_NEXT else 0)
  }

  function MarkTaken(s: Table, b: int, n: int): (r: Table) {
    seq(|s|, i requires 0 <= i < |s| => if b <= i < b + n then RunFlag(i - b, n) else s[i])
  }

  /** Three blocks taken and one, in the bits of the block table: first 0x40, has-next 0x80, taken 0x01. */
  lemma TakenInBits()
    ensures MarkTaken([0, 0, 0], 0, 3) == [0xC1, 0x81, 0x01] && MarkTaken([0, 0, 0], 1, 1) == [0, 0x41, 0]
    ensures forall e: bv8 :: IsFree(e) <==> e & 0x0F == 0
  {
  }

  /** One past the block where a walk from `b` that follows HAS_NEXT stops. */
  function RunEnd(s: Table, b: nat): (e: nat)
    ensures b <= e
    decreases |s| - b
  {
    if b >= |s| then b
    else if HasNext(s[b]) then RunEnd(s, b + 1)
    else b + 1
  }

  function MarkFree(s: Table, b: nat): (r: Table) {
    seq(|s|, i requires 0 <= i < |s| => if b <= i < RunEnd(s, b) then FREE else s[i])
  }

  // ---------- The runs of a table ----------

  function Runs(s: Table): map<nat, nat> {
    map b: nat | b < |s| && IsFirst(s[b]) :: RunEnd(s, b) - b
  }

  lemma {:induction false} RunEndIs(s: Table, b: nat, e: nat)
    requires b < e <= |s|
    requires forall i :: b <= i < e - 1 ==> HasNext(s[i])
    requires !HasNext(s[e - 1])
    ensures RunEnd(s, b) == e
    decreases e - b
  {
    if b + 1 < e {
      RunEndIs(s, b + 1, e);
    }
  }

  /** In a well-formed table a walk stays inside the table and over tails. */
  lemma {:induction false} RunShape(s: Table, b: nat)
    requires WellFormed(s) && b < |s|
    ensures b < RunEnd(s, b) <= |s|
    ensures forall i :: b <= i < RunEnd(s, b) - 1 ==> HasNext(s[i])
    ensures !HasNext(s[RunEnd(s, b) - 1])
    ensures forall i :: b < i < RunEnd(s, b) ==> IsTail(s[i])
    decreases |s| - b
  {
    assert WellFormedAt(s, b);
    if HasNext(s[b]) {
      RunShape(s, b + 1);
    }
  }

  /** Distinct first blocks own disjoint runs, whatever their order. */
  lemma RunsAreDisjoint(s: Table, b: nat, c: nat)
    requires WellFormed(s) && b in Runs(s) && c in Runs(s) && b < c
    ensures b + Runs(s)[b] <= c
    ensures c + Runs(s)[c] <= |s|
  {
    RunShape(s, b);
    RunShape(s, c);
    assert forall i :: b < i < RunEnd(s, b) ==> IsTail(s[i]) && !IsFirst(s[i]);
  }

  lemma RunIsTaken(s: Table, b: nat)
    requires WellFormed(s) && b in Runs(s)
    ensures Runs(s)[b] >= 1 && b + Runs(s)[b] <= |s|
    ensures forall i :: b <= i < b + Runs(s)[b] ==> s[i] == RunFlag(i - b, Runs(s)[b]) && !IsFree(s[i])
  {
    RunShape(s, b);
    var n := Runs(s)[b];
    forall i | b <= i < b + n
      ensures s[i] == RunFlag(i - b, n) && !IsFree(s[i])
    {
      assert WellFormedAt(s, i);
      assert i > b ==> IsTail(s[i]);
      assert i < b + n - 1 ==> HasNext(s[i]);
    }
  }

  lemma MarkTakenWellFormed(s: Table, b: nat, n: nat)
    requires WellFormed(s) && n >= 1 && FreeRun(s, b, n)
    ensures WellFormed(MarkTaken(s, b, n))
  {
    var t := MarkTaken(s, b, n);
    forall i | 0 <= i < |t|
      ensures WellFormedAt(t, i)
    {
      assert WellFormedAt(s, i);
      if i + 1 < |s| {
        assert WellFormedAt(s, i + 1);
        assert t[i + 1] == if b <= i + 1 < b + n then RunFlag(i + 1 - b, n) else s[i + 1];
      }
      if 0 < i {
        assert WellFormedAt(s, i - 1);
        assert t[i - 1] == if b <= i - 1 < b + n then RunFlag(i - 1 - b, n) else s[i - 1];
      }
    }
  }

  lemma MarkTakenNewRun(s: Table, b: nat, n: nat)
    requires n >= 1 && FreeRun(s, b, n)
    ensures b in Runs(MarkTaken(s, b, n)) && Runs(MarkTaken(s, b, n))[b] == n
    ensures forall c: nat :: b < c < b + n ==> c !in Runs(MarkTaken(s, b, n))
  {
    var t := MarkTaken(s, b, n);
    assert t[b + n - 1] == RunFlag(n - 1, n);
    assert forall i :: b <= i < b + n - 1 ==> t[i] == RunFlag(i - b, n);
    RunEndIs(t, b, b + n);
  }

  /** A run stays a run wherever its flags stay the same. */
  lemma RunIsLocal(s: Table, t: Table, c: nat)
    requires WellFormed(s) && |t| == |s| && c in Runs(s) && c + Runs(s)[c] <= |s|
    requires forall i :: c <= i < c + Runs(s)[c] ==> t[i] == s[i]
    ensures c in Runs(t) && Runs(t)[c] == Runs(s)[c]
  {
    RunShape(s, c);
    RunEndIs(t, c, RunEnd(s, c));
  }

  lemma MarkTakenAddsRun(s: Table, b: nat, n: nat)
    requires WellFormed(s) && n >= 1 && FreeRun(s, b, n)
    ensures WellFormed(MarkTaken(s, b, n))
    ensures Runs(MarkTaken(s, b, n)) == Runs(s)[b := n]
    ensures b !in Runs(s)
  {
    var t := MarkTaken(s, b, n);
    MarkTakenWellFormed(s, b, n);
    assert WellFormedAt(s, b) && IsFree(s[b]);
    MarkTakenNewRun(s, b, n);
    forall c | c in Runs(s)
      ensures c in Runs(t) && Runs(t)[c] == Runs(s)[c]
    {
      RunIsTaken(s, c);
      RunIsLocal(s, t, c);
    }
    assert forall c: nat :: c in Runs(t) <==> c in Runs(s) || c == b;
  }

  lemma MarkFreeDropsRun(s: Table, b: nat)
    requires WellFormed(s) && b in Runs(s)
    ensures WellFormed(MarkFree(s, b))
    ensures Runs(MarkFree(s, b)) == Runs(s) - {b}
    ensures FreeRun(MarkFree(s, b), b, Runs(s)[b])
  {
    var t := MarkFree(s, b);
    RunShape(s, b);
    forall i | 0 <= i < |t|
      ensures WellFormedAt(t, i)
    {
      assert WellFormedAt(s, i);
      if i + 1 < |s| {
        assert WellFormedAt(s, i + 1);
      }
      if 0 < i {
        assert WellFormedAt(s, i - 1);
      }
    }
    forall c | c in Runs(s) && c != b
      ensures c in Runs(t) && Runs(t)[c] == Runs(s)[c]
    {
      if b < c { RunsAreDisjoint(s, b, c); } else { RunsAreDisjoint(s, c, b); }
      RunIsLocal(s, t, c);
    }
    assert forall c: nat :: c in Runs(t) <==> c in Runs(s) && c != b;
  }

  /** Allocating a free run and freeing it again is the identity on the table. */
  lemma TakenThenFree(s: Table, b: nat, n: nat)
    requires WellFormed(s) && n >= 1 && FreeRun(s, b, n)
    ensures MarkFree(MarkTaken(s, b, n), b) == s
  {
    MarkTakenAddsRun(s, b, n);
    assert RunEnd(MarkTaken(s, b, n), b) == b + Runs(MarkTaken(s, b, n))[b];
    forall i | b <= i < b + n
      ensures s[i] == FREE
    {
      assert WellFormedAt(s, i) && IsFree(s[i]);
    }
  }

  // ---------- Steps of the allocator ----------

  datatype Event =
    | Allocated(block: nat, count: nat)
    | Refused(count: nat)
    | Freed(block: nat)

  /** One call of the allocator takes table `s` to table `t`. */
  ghost predicate Step(s: Table, ev: Event, t: Table) {
    match ev
    case Allocated(b, n) => n >= 1 && FreeRun(s, b, n) && StartBlockIs(s, n, b) && t == MarkTaken(s, b, n)
    case Refused(n) => StartBlockIs(s, n, -ENOMEM) && t == s
    case Freed(b) => b in Runs(s) && t == MarkFree(s, b)
  }

  // ---------- Conservation ----------

  function FreeCount(s: Table): nat {
    if s == [] then 0 else FreeCount(s[..|s| - 1]) + if IsFree(s[|s| - 1]) then 1 else 0
  }

  /** Total length of the runs that start at block `i` or later. */
  function RunBlocksFrom(s: Table, i: nat): nat
    requires WellFormed(s)
    decreases |s| - i
  {
    if i >= |s| then 0
    else RunBlocksFrom(s, i + 1) + if IsFirst(s[i]) then RunShape(s, i); RunEnd(s, i) - i else 0
  }

  function FreeFrom(s: Table, i: nat): nat
    decreases |s| - i
  {
    if i >= |s| then 0 else FreeFrom(s, i + 1) + if IsFree(s[i]) then 1 else 0
  }

  lemma {:induction false} SkipTails(s: Table, i: nat, e: nat)
    requires WellFormed(s) && i <= e <= |s|
    requires forall j :: i <= j < e ==> IsTail(s[j])
    ensures RunBlocksFrom(s, i) == RunBlocksFrom(s, e)
    ensures FreeFrom(s, i) == FreeFrom(s, e)
    decreases e - i
  {
    if i < e {
      SkipTails(s, i + 1, e);
    }
  }

  lemma {:induction false} ConservationFrom(s: Table, i: nat)
    requires WellFormed(s) && i <= |s|
    requires i < |s| ==> !IsTail(s[i])
    ensures RunBlocksFrom(s, i) + FreeFrom(s, i) == |s| - i
    decreases |s| - i
  {
    if i < |s| {
      assert WellFormedAt(s, i);
      RunShape(s, i);
      var e := RunEnd(s, i);
      assert e < |s| ==> WellFormedAt(s, e);
      ConservationFrom(s, e);
      SkipTails(s, i + 1, e);
    }
  }

  lemma {:induction false} FreeFromSplits(s: Table, i: nat)
    requires i <= |s|
    ensures FreeCount(s[..i]) + FreeFrom(s, i) == FreeCount(s)
    decreases |s| - i
  {
    if i < |s| {
      FreeFromSplits(s, i + 1);
      assert s[..i + 1][..i] == s[..i];
    } else {
      assert s[..i] == s;
    }
  }

  /** The blocks of all live runs and the free blocks add up to the whole table. */
  lemma Conservation(s: Table)
    requires WellFormed(s)
    ensures RunBlocksFrom(s, 0) + FreeCount(s) == |s|
  {
    assert |s| > 0 ==> WellFormedAt(s, 0);
    ConservationFrom(s, 0);
    FreeFromSplits(s, 0);
  }

  // ---------- Counting free blocks ----------

  lemma {:induction false} FreeCountUpdate(s: Table, b: nat, e: bv8)
    requires b < |s| && IsFree(s[b]) && !IsFree(e)
    ensures FreeCount(s[b := e]) == FreeCount(s) - 1
  {
    var t := s[b := e];
    var last := |s| - 1;
    if b == last {
      assert t[..last] == s[..last];
    } else {
      FreeCountUpdate(s[..last], b, e);
      assert t[..last] == s[..last][b := e];
    }
  }

  lemma {:induction false} SomeBlockIsFree(s: Table) returns (b: nat)
    requires FreeCount(s) >= 1
    ensures FreeRun(s, b, 1)
  {
    if IsFree(s[|s| - 1]) {
      b := |s| - 1;
    } else {
      b := SomeBlockIsFree(s[..|s| - 1]);
    }
  }

  lemma OneBlockFits(s: Table)
    requires FreeCount(s) >= 1
    ensures Fits(s, 1)
  {
    var b := SomeBlockIsFree(s);
  }

  /** Taking a free run takes its blocks. */
  lemma FreeCountMarkTaken(s: Table, b: nat, n: nat)
    requires FreeRun(s, b, n)
    ensures FreeCount(MarkTaken(s, b, n)) == FreeCount(s) - n
  {
    var t := MarkTaken(s, b, n);
    forall i | b <= i < b + n
      ensures !IsFree(t[i])
    {
      assert t[i] == RunFlag(i - b, n);
    }
    FreeCountFlags(s, b, n, t);
  }

  lemma {:induction false} FreeCountFlags(s: Table, b: nat, n: nat, t: Table)
    requires FreeRun(s, b, n) && |t| == |s|
    requires forall i :: b <= i < b + n ==> !IsFree(t[i])
    requires forall i :: 0 <= i < |s| && !(b <= i < b + n) ==> t[i] == s[i]
    ensures FreeCount(t) == FreeCount(s) - n
    decreases n
  {
    if n == 0 {
      assert t == s;
    } else {
      var s1 := s[b + n - 1 := t[b + n - 1]];
      FreeCountUpdate(s, b + n - 1, t[b + n - 1]);
      FreeCountFlags(s1, b, n - 1, t);
    }
  }
}
