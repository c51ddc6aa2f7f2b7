/**
 Safety of the allocator over whole histories of allocations and frees, stated against an
 abstract allocator that only remembers which runs are live.
 */
module HeapHistory {
  import opened HeapTable

  /** The live runs, start block to length, after a history of calls. */
  function Live(events: seq<Event>): map<nat, nat> {
    if events == [] then map[]
    else
      var before := Live(events[..|events| - 1]);
      match events[|events| - 1]
      case Allocated(b, n) => before[b := n]
      case Refused(_) => before
      case Freed(b) => before - {b}
  }

  /** Tables before, between and after the calls of a history that starts from an empty heap. */
  ghost predicate History(tables: seq<Table>, events: seq<Event>) {
    && |tables| == |events| + 1
    && (forall i :: 0 <= i < |tables[0]| ==> tables[0][i] == FREE)
    && forall k :: 0 <= k < |events| ==> Step(tables[k], events[k], tables[k + 1])
  }

  ghost predicate Disjoint(live: map<nat, nat>, b: nat, n: nat) {
    forall c :: c in live ==> b + n <= c || c + live[c] <= b
  }

  lemma StepKeepsTable(s: Table, ev: Event, t: Table)
    requires WellFormed(s) && Step(s, ev, t)
    ensures WellFormed(t) && |t| == |s|
    ensures ev.Allocated? ==> ev.block !in Runs(s) && Runs(t) == Runs(s)[ev.block := ev.count]
    ensures ev.Refused? ==> Runs(t) == Runs(s)
    ensures ev.Freed? ==> Runs(t) == Runs(s) - {ev.block}
  {
    match ev
    case Allocated(b, n) => MarkTakenAddsRun(s, b, n);
    case Refused(_) =>
    case Freed(b) => MarkFreeDropsRun(s, b);
  }

  /** After every call the table is well formed and holds exactly the live runs. */
  lemma {:induction false} TableHoldsLiveRuns(tables: seq<Table>, events: seq<Event>, k: nat)
    requires History(tables, events) && k <= |events|
    ensures |tables[k]| == |tables[0]| && WellFormed(tables[k])
    ensures Runs(tables[k]) == Live(events[..k])
  {
    if k == 0 {
      assert forall i :: 0 <= i < |tables[0]| ==> WellFormedAt(tables[0], i);
    } else {
      TableHoldsLiveRuns(tables, events, k - 1);
      StepKeepsTable(tables[k - 1], events[k - 1], tables[k]);
      assert events[..k][..k - 1] == events[..k - 1];
    }
  }

  /**
   The allocator never hands out a block twice: at any moment of any history the live runs are
   inside the table, pairwise disjoint, and account with the free blocks for the whole table;
   and a newly allocated run is disjoint from every run live at that moment.
   */
  lemma HistoryIsSafe(tables: seq<Table>, events: seq<Event>, k: nat)
    requires History(tables, events) && k <= |events|
    ensures
      var live := Live(events[..k]);
      && (forall b :: b in live ==> live[b] >= 1 && b + live[b] <= |tables[0]|)
      && (forall b, c :: b in live && c in live && b < c ==> b + live[b] <= c)
    ensures WellFormed(tables[k]) && RunBlocksFrom(tables[k], 0) + FreeCount(tables[k]) == |tables[0]|
    ensures k < |events| && events[k].Allocated? ==>
      && events[k].block + events[k].count <= |tables[0]|
      && Disjoint(Live(events[..k]), events[k].block, events[k].count)
  {
    TableHoldsLiveRuns(tables, events, k);
    var s := tables[k];
    forall b | b in Runs(s)
      ensures Runs(s)[b] >= 1 && b + Runs(s)[b] <= |s|
    {
      RunIsTaken(s, b);
    }
    forall b, c | b in Runs(s) && c in Runs(s) && b < c
      ensures b + Runs(s)[b] <= c
    {
      RunsAreDisjoint(s, b, c);
    }
    Conservation(s);
    if k < |events| && events[k].Allocated? {
      assert Step(s, events[k], tables[k + 1]);
      FreeRunAvoidsLiveRuns(s, events[k].block, events[k].count);
    }
  }

  lemma FreeRunAvoidsLiveRuns(s: Table, b: nat, n: nat)
    requires WellFormed(s) && n >= 1 && FreeRun(s, b, n)
    ensures Disjoint(Runs(s), b, n)
  {
    forall c | c in Runs(s)
      ensures b + n <= c || c + Runs(s)[c] <= b
    {
      RunIsTaken(s, c);
      var m := if b < c then c else b;
      assert b + n <= m || IsFree(s[m]);
      assert c + Runs(s)[c] <= m || !IsFree(s[m]);
    }
  }

  lemma LiveAfterOneMore(tables: seq<Table>, events: seq<Event>, k: nat, b: nat)
    requires History(tables, events) && 0 < k <= |events|
    requires b in Live(events[..k - 1]) && events[k - 1] != Freed(b)
    ensures b in Live(events[..k]) && Live(events[..k])[b] == Live(events[..k - 1])[b]
  {
    TableHoldsLiveRuns(tables, events, k - 1);
    StepKeepsTable(tables[k - 1], events[k - 1], tables[k]);
    assert events[..k][..k - 1] == events[..k - 1];
  }

  /** A live run keeps its flags through any calls that do not free it. */
  lemma {:induction false} RunPersists(tables: seq<Table>, events: seq<Event>, i: nat, k: nat, b: nat)
    requires History(tables, events) && i <= k <= |events|
    requires b in Live(events[..i])
    requires forall j :: i <= j < k ==> events[j] != Freed(b)
    ensures b in Live(events[..k]) && Live(events[..k])[b] == Live(events[..i])[b]
    decreases k - i
  {
    if i < k {
      RunPersists(tables, events, i, k - 1, b);
      LiveAfterOneMore(tables, events, k, b);
    }
  }

  /**
   Freeing a run allocated earlier changes exactly the entries it was given, back to free,
   whatever other allocations and frees came in between.
   */
  lemma FreeUndoesAllocation(tables: seq<Table>, events: seq<Event>, i: nat, k: nat)
    requires History(tables, events) && i < k < |events|
    requires events[i].Allocated? && events[k] == Freed(events[i].block)
    requires forall j :: i < j < k ==> events[j] != Freed(events[i].block)
    ensures |tables[k + 1]| == |tables[k]| == |tables[i]| == |tables[0]|
    ensures forall c :: 0 <= c < |tables[0]| ==>
      (tables[k + 1][c] != tables[k][c] <==> events[i].block <= c < events[i].block + events[i].count)
    ensures forall c :: events[i].block <= c < events[i].block + events[i].count <= |tables[0]| ==>
      tables[i][c] == FREE && tables[k + 1][c] == FREE
  {
    var b, n := events[i].block, events[i].count;
    TableHoldsLiveRuns(tables, events, i);
    TableHoldsLiveRuns(tables, events, i + 1);
    assert events[..i + 1][..i] == events[..i];
    RunPersists(tables, events, i + 1, k, b);
    TableHoldsLiveRuns(tables, events, k);
    RunIsTaken(tables[k], b);
    assert Step(tables[i], events[i], tables[i + 1]);
    assert Step(tables[k], events[k], tables[k + 1]);
    forall c | b <= c < b + n
      ensures tables[i][c] == FREE
    {
      assert WellFormedAt(tables[i], c) && IsFree(tables[i][c]);
    }
  }
}
