/**
 The round-robin list of tasks (`task.c`): a doubly linked list with a current task.
 */
module TaskList {

  class Task {
    var next: Task?
    var prev: Task?

    constructor ()
      ensures next == null && prev == null
    {
      next, prev := null, null;
    }
  }

  /** The place after `p` in a ring of `n` places. */
  function Following(n: nat, p: nat): nat {
    if p + 1 < n then p + 1 else 0
  }

  /** The place `k` steps after `p` in a ring of `n` places. */
  function Ring(n: nat, p: nat, k: nat): (q: nat)
    requires p < n
    ensures q < n
  {
    if k == 0 then p else Following(n, Ring(n, p, k - 1))
  }

  function After(list: seq<Task>, i: nat): Task? {
    if i + 1 < |list| then list[i + 1] else null
  }

  function Before(list: seq<Task>, i: nat): Task? {
    if 0 < i <= |list| then list[i - 1] else null
  }

  ghost predicate NextOk(list: seq<Task>, i: nat)
    requires i < |list|
    reads list
  {
    list[i].next == After(list, i)
  }

  ghost predicate PrevOk(list: seq<Task>, i: nat)
    requires i < |list|
    reads list
  {
    list[i].prev == Before(list, i)
  }

  ghost predicate Distinct(list: seq<Task>) {
    forall i, j :: 0 <= i < j < |list| ==> list[i] != list[j]
  }

  ghost predicate Ends(list: seq<Task>, head: Task?, tail: Task?) {
    if list == [] then head == null else head == list[0] && tail == list[|list| - 1]
  }

  /** Each `next` link leads to the next task of the list. */
  ghost predicate Links(list: seq<Task>)
    reads list
  {
    forall i: nat :: i < |list| ==> NextOk(list, i)
  }

  /** Each `prev` link is right, or leads to a task that is no longer in the list. */
  ghost predicate Tame(list: seq<Task>)
    reads list
  {
    forall i: nat :: i < |list| ==> PrevOk(list, i) || Stale(list, list[i].prev)
  }

  ghost predicate Stale(list: seq<Task>, link: Task?) {
    link != null && link !in list
  }

  /** The removal of the task at place `k` writes a task of the list, or none, by its link `prev`. */
  ghost predicate WritesInside(list: seq<Task>, prev: Task?) {
    prev == null || prev in list
  }

  /** The link `prev` of the task at place `k` is good enough to remove it. */
  ghost predicate Removable(list: seq<Task>, k: nat, prev: Task?)
    requires k < |list|
  {
    if k == 0 then prev !in list[1..] else prev == list[k - 1]
  }

  /** The tasks at the places after `p`, in order around the ring. */
  ghost predicate Visited(list: seq<Task>, p: nat, visited: seq<Task>)
    requires p < |list|
  {
    forall j :: 0 <= j < |visited| ==> visited[j] == list[Ring(|list|, p, j + 1)]
  }

  /** The steps from `w` on visit each task of the list as often as it is listed. */
  ghost predicate VisitsEach(list: seq<Task>, visited: seq<Task>, w: nat) {
    w + |list| <= |visited| && multiset(visited[w..w + |list|]) == multiset(list)
  }

  function Without(list: seq<Task>, k: nat): seq<Task>
    requires k < |list|
  {
    list[..k] + list[k + 1..]
  }

  class Scheduler {
    var head: Task?
    var tail: Task?
    var current: Task?
    /** The tasks in order, and the place of the current one. */
    ghost var list: seq<Task>
    ghost var at: nat

    constructor ()
      ensures Valid() && list == []
    {
      head, tail, current := null, null, null;
      list, at := [], 0;
    }

    /** Following `next` from `head` visits exactly the tasks of `list`. */
    ghost predicate Chained()
      reads this, list
    {
      && Distinct(list)
      && Links(list)
      && Ends(list, head, tail)
    }

    ghost predicate Valid()
      reads this, list
    {
      && Chained()
      && (if list == [] then current == null && at == 0 else at < |list| && current == list[at])
    }

    /** Each `prev` link is right. */
    ghost predicate PrevLinks()
      reads this, list
    {
      forall i: nat :: i < |list| ==> PrevOk(list, i)
    }

    /**
     The list part of `task_new`, for a task fresh from `task_init`. If its memory was that of a removed task,
     a stale `prev` link can name it, and then leads to a task of the list again.
     */
    method Add(task: Task)
      requires Valid() && task !in list && task.next == null && task.prev == null
      modifies this, tail, task
      ensures Valid() && list == old(list) + [task]
      ensures at == old(at) && (old(list) != [] ==> current == old(current))
      ensures old(PrevLinks()) ==> PrevLinks()
      ensures old(Tame(list)) ==> (Tame(list) <==> old(NoneNames(list, task)))
      ensures forall i :: 0 <= i < |old(list)| ==> old(list)[i].prev == old(list[i].prev)
    {
      ghost var before := list;
      list := list + [task];
      if head == null {
        head := task;
        tail := task;
        current := task;
        return;
      }
      tail.next := task;
      task.prev := tail;
      tail := task;
      forall i: nat | i < |list|
        ensures NextOk(list, i) && (old(PrevLinks()) ==> PrevOk(list, i))
      {
        if i < |before| {
          assert old(NextOk(list, i)) && before[i] != task && list[i] == before[i];
          assert old(PrevOk(list, i)) ==> PrevOk(list, i);
          assert i + 1 < |before| ==> before[i] != before[|before| - 1];
        }
      }
      TameMore(before, task);
    }

    /** `task_get_next`: the cyclic successor of the current task. */
    method GetNext() returns (task: Task?)
      requires Valid() && current != null
      ensures task == list[Following(|list|, at)]
    {
      assert NextOk(list, at);
      if current.next == null {
        return head;
      }
      task := current.next;
    }

    /** `task_next`, without the switch to the task. */
    method Next()
      requires Valid() && list != []
      modifies this`current, this`at
      ensures Valid() && at == Following(|list|, old(at))
    {
      var next := GetNext();
      current := next;
      at := Following(|list|, at);
    }

    /** `k` steps of the scheduler. */
    method Walk(k: nat) returns (ghost visited: seq<Task>)
      requires Valid() && list != []
      modifies this`current, this`at
      ensures Valid() && |visited| == k && Visited(list, old(at), visited)
      ensures at == Ring(|list|, old(at), k)
    {
      visited := [];
      var i := 0;
      while i < k
        invariant 0 <= i <= k && Valid()
        invariant |visited| == i && Visited(list, old(at), visited)
        invariant at == Ring(|list|, old(at), i)
      {
        ghost var so := visited;
        Next();
        visited := so + [current];
        VisitedMore(list, old(at), so);
        i := i + 1;
      }
    }

    /** In any window of the steps as long as the list, each task of the list is visited once. */
    method Steps(k: nat) returns (ghost visited: seq<Task>)
      requires Valid() && list != []
      modifies this`current, this`at
      ensures Valid() && |visited| == k && Visited(list, old(at), visited)
      ensures at == Ring(|list|, old(at), k) && (k == |list| ==> current == old(current))
      ensures forall w: nat :: w + |list| <= k ==> VisitsEach(list, visited, w)
    {
      visited := Walk(k);
      RingFrom(|list|, old(at), 0, |list|);
      AllWindows(list, old(at), visited);
    }

    /**
     `task_list_remove`: exactly that task leaves the order, and if it was current its cyclic successor
     becomes current, if and only if its own `prev` link is right, or it is the first and the link leads to
     no other task of the list. No `prev` link is updated, so that of the successor is wrong from then on.
     With no link to a recycled task, the removal writes only tasks of the list if and only if the link is right.
     */
    method Remove(task: Task, ghost k: nat)
      requires Valid() && k < |list| && list[k] == task
      modifies this, list, task.prev
      ensures list == Without(old(list), k)
      ensures Valid() <==> Removable(old(list), k, old(task.prev))
      ensures !Valid() && k > 0 ==> list[k - 1].next == task
      ensures old(task.prev) != null ==> old(task.prev).next == After(old(list), k)
      ensures old(Tame(list)) ==>
        Tame(list) && (WritesInside(old(list), old(task.prev)) <==> old(PrevOk(list, k)))
      ensures old(at) != k ==> current == old(current)
      ensures old(at) == k && |old(list)| > 1 && Valid() ==> current == old(list)[Following(|old(list)|, k)]
      ensures old(Tame(list)) && k < |list| ==> !PrevOk(list, k)
      ensures head == if k == 0 then After(old(list), 0) else old(head)
      ensures tail == if k + 1 == |old(list)| then old(task.prev) else old(tail)
      ensures forall i :: 0 <= i < |old(list)| ==> old(list)[i].prev == old(list[i].prev)
    {
      ghost var before := list;
      TakeOut(task, k);
      Reselect(task, before, k);
    }

    /** The links, and the list without the task. */
    method TakeOut(task: Task, ghost k: nat)
      requires Valid() && k < |list| && list[k] == task
      modifies this`head, this`tail, this`list, list, task.prev
      ensures list == Without(old(list), k)
      ensures old(Tame(list)) ==> Tame(list) && (k < |list| ==> !PrevOk(list, k))
      ensures Chained() <==> Removable(old(list), k, old(task.prev))
      ensures !Chained() && k > 0 ==> list[k - 1].next == task
      ensures old(task.prev) != null ==> old(task.prev).next == After(old(list), k)
      ensures head == if k == 0 then After(old(list), 0) else old(head)
      ensures tail == if k + 1 == |old(list)| then old(task.prev) else old(tail)
      ensures task.next == After(old(list), k)
      ensures forall i :: 0 <= i < |old(list)| ==> old(list)[i].prev == old(list[i].prev)
    {
      ghost var before, prev, tame := list, task.prev, Tame(list);
      Relink(task, k);
      list := Without(before, k);
      LinksAfter(before, k, prev);
      if tame {
        TameAfter(before, k);
      }
      if Removable(before, k, prev) {
        EndsAfter(before, k, prev, old(head), old(tail));
      }
    }

    /** What the assignments to the links mean for the list the task is still in. */
    method Relink(task: Task, ghost k: nat)
      requires Valid() && k < |list| && list[k] == task
      modifies this`head, this`tail, task.prev
      ensures Relinked(list, k, task.prev) && (old(Tame(list)) ==> Tame(list))
      ensures old(task.prev) != null ==> old(task.prev).next == After(list, k)
      ensures head == if k == 0 then After(list, 0) else old(head)
      ensures tail == if k + 1 == |list| then old(task.prev) else old(tail)
      ensures forall i :: 0 <= i < |list| ==> list[i].prev == old(list[i].prev)
    {
      assert NextOk(list, k);
      ghost var prev := task.prev;
      Unlink(task);
      forall i: nat | i < |list|
        ensures list[i].next == if list[i] == prev then After(list, k) else After(list, i)
        ensures PrevOk(list, i) <==> old(PrevOk(list, i))
      {
        assert old(NextOk(list, i)) && list[i] in list;
      }
    }

    /** The last branch of `task_list_remove`, after the task left the list `before` at place `k`. */
    method Reselect(task: Task, ghost before: seq<Task>, ghost k: nat)
      requires Distinct(before) && k < |before| && before[k] == task && list == Without(before, k)
      requires at < |before| && current == before[at] && task.next == After(before, k)
      requires head == if k == 0 then After(before, 0) else before[0]
      modifies this`current, this`at
      ensures Valid() <==> Chained()
      ensures old(at) != k ==> current == old(current)
      ensures old(at) == k && |before| > 1 ==> current == before[Following(|before|, k)]
    {
      if task == current {
        current := if current.next == null then head else current.next;
        at := if k < |list| then k else 0;
      } else if k < at {
        at := at - 1;
      }
    }

    /** The part of `task_list_remove` that takes the task out of the chain. */
    method Unlink(task: Task)
      requires task in list
      modifies this`head, this`tail, task.prev
      ensures old(task.prev) != null ==> old(task.prev).next == old(task.next)
      ensures forall t: Task :: t in list ==> t.prev == old(t.prev)
      ensures forall t: Task :: t in list && t != task.prev ==> t.next == old(t.next)
      ensures head == if task == old(head) then old(task.next) else old(head)
      ensures tail == if task == old(tail) then old(task.prev) else old(tail)
    {
      if task.prev != null {
        task.prev.next := task.next;
      }
      if task == head {
        head := task.next;
      }
      if task == tail {
        tail := task.prev;
      }
    }
  }

  /** Only the task `prev` has a new successor, that of the task at `k`. */
  ghost predicate Relinked(list: seq<Task>, k: nat, prev: Task?)
    reads list
  {
    forall i: nat :: i < |list| ==> list[i].next == if list[i] == prev then After(list, k) else After(list, i)
  }

  /** With the successor of `prev` replaced by that of the task at `k`, the rest is a chain when `prev` is right. */
  lemma LinksAfter(before: seq<Task>, k: nat, prev: Task?)
    requires Distinct(before) && k < |before|
    requires Relinked(before, k, prev)
    ensures Distinct(Without(before, k))
    ensures Links(Without(before, k)) <==> Removable(before, k, prev)
    ensures k > 0 && !Removable(before, k, prev) ==> before[k - 1].next == before[k]
  {
    if !Removable(before, k, prev) {
      LinksBroken(before, k, prev);
    }
    forall i: nat | i < |before| - 1 && Removable(before, k, prev)
      ensures NextOk(Without(before, k), i)
    {
      var o := if i < k then i else i + 1;
      assert Without(before, k)[i] == before[o];
    }
  }

  lemma LinksBroken(before: seq<Task>, k: nat, prev: Task?)
    requires Distinct(before) && k < |before| && Relinked(before, k, prev) && !Removable(before, k, prev)
    ensures !Links(Without(before, k))
  {
    if k > 0 {
      assert !NextOk(Without(before, k), k - 1);
    } else {
      var j: nat :| j < |before| - 1 && before[1..][j] == prev;
      assert Without(before, 0)[j] == before[j + 1];
      assert !NextOk(Without(before, 0), j);
    }
  }

  lemma EndsAfter(before: seq<Task>, k: nat, prev: Task?, head: Task?, tail: Task?)
    requires k < |before| && Removable(before, k, prev) && Ends(before, head, tail)
    ensures
      Ends(Without(before, k), if k == 0 then After(before, 0) else head, if k + 1 == |before| then prev else tail)
  {
  }

  ghost predicate NoneNames(list: seq<Task>, task: Task)
    reads list
  {
    forall i: nat :: i < |list| ==> list[i].prev != task
  }

  /** A task behind the list leaves the links of the others tame exactly if none leads to it. */
  lemma TameMore(before: seq<Task>, task: Task)
    requires before != [] && task !in before && PrevOk(before + [task], |before|)
    ensures Tame(before) ==> (Tame(before + [task]) <==> NoneNames(before, task))
  {
    var list := before + [task];
    forall i: nat | i < |before|
      ensures PrevOk(list, i) <==> PrevOk(before, i)
      ensures before[i].prev == task ==> !(PrevOk(list, i) || Stale(list, list[i].prev))
    {
      assert list[i] == before[i];
    }
  }

  /** The `prev` links after the task at `k` left, none of them changed. */
  lemma TameAfter(before: seq<Task>, k: nat)
    requires Distinct(before) && k < |before|
    requires Tame(before)
    ensures Tame(Without(before, k))
    ensures k + 1 < |before| ==> !PrevOk(Without(before, k), k)
  {
    forall i: nat | i < |before| - 1
      ensures PrevOk(Without(before, k), i) || Stale(Without(before, k), Without(before, k)[i].prev)
      ensures i == k ==> !PrevOk(Without(before, k), k)
    {
      var o := if i < k then i else i + 1;
      assert Without(before, k)[i] == before[o] && (PrevOk(before, o) || Stale(before, before[o].prev));
    }
  }

  /** The places after fewer than `n` more steps, without repetition around the ring. */
  lemma {:induction false} RingFrom(n: nat, p: nat, a: nat, b: nat)
    requires p < n && b <= n
    ensures Ring(n, p, a + b) == if Ring(n, p, a) + b < n then Ring(n, p, a) + b else Ring(n, p, a) + b - n
  {
    if b > 0 {
      RingFrom(n, p, a, b - 1);
    }
  }

  /** Any `n` consecutive steps around a ring of `n` tasks visit each of them as often as it is listed. */
  lemma WindowVisitsEach(list: seq<Task>, p: nat, visited: seq<Task>, w: nat)
    requires p < |list| && w + |list| <= |visited|
    requires Visited(list, p, visited)
    ensures VisitsEach(list, visited, w)
  {
    var n, q := |list|, Ring(|list|, p, w + 1);
    forall j | 0 <= j < n
      ensures visited[w..w + n][j] == (list[q..] + list[..q])[j]
    {
      RingFrom(n, p, w + 1, j);
    }
    assert visited[w..w + n] == list[q..] + list[..q];
    assert list == list[..q] + list[q..];
  }

  lemma VisitedMore(list: seq<Task>, p: nat, visited: seq<Task>)
    requires p < |list| && Visited(list, p, visited)
    ensures Visited(list, p, visited + [list[Ring(|list|, p, |visited| + 1)]])
  {
  }

  lemma AllWindows(list: seq<Task>, p: nat, visited: seq<Task>)
    requires p < |list| && Visited(list, p, visited)
    ensures forall w: nat :: w + |list| <= |visited| ==> VisitsEach(list, visited, w)
  {
    forall w: nat | w + |list| <= |visited|
      ensures VisitsEach(list, visited, w)
    {
      WindowVisitsEach(list, p, visited, w);
    }
  }

  /**
   After one removal a second one can miss: in a list of three, the second task leaves and then the
   third. The third's `prev` still leads to the second, and the first keeps its link to the third.
   */
  method SecondRemovalMisses(a: Task, b: Task, c: Task, s: Scheduler)
    requires s.Valid() && s.PrevLinks() && s.list == [a, b, c]
    modifies s, a, b, c
    ensures s.list == [a] && s.head == a && a.next == c && !s.Valid()
  {
    assert NextOk(s.list, 0) && PrevOk(s.list, 1) && PrevOk(s.list, 2);
    s.Remove(b, 1);
    assert NextOk(s.list, 0) && s.list == [a, c] && c.prev == b;
    s.Remove(c, 1);
    assert !Removable([a, c], 1, b);
  }

  /**
   A removal that leaves the list right can write a task that is not in it: of two, the first leaves, its memory
   is used for something else, and the removal of the second overwrites a word of that.
   */
  method RemovalWritesFreedTask(a: Task, b: Task, x: Task, s: Scheduler)
    requires s.Valid() && s.PrevLinks() && s.list == [a, b]
    modifies s, a, b
    ensures s.Valid() && s.list == [] && a.next == null
  {
    assert PrevOk(s.list, 0) && PrevOk(s.list, 1);
    s.Remove(a, 0);
    assert s.list == [b] && b.prev == a;
    a.next := x;
    s.Remove(b, 0);
  }

  /** The memory of a removed task becomes a new one. */
  method Recycle(a: Task, s: Scheduler)
    requires s.Valid() && a !in s.list
    modifies s, s.tail, a
    ensures s.Valid() && s.list == old(s.list) + [a]
    ensures forall i :: 0 <= i < |old(s.list)| ==> old(s.list)[i].prev == old(s.list[i].prev)
  {
    ghost var list := s.list;
    a.next, a.prev := null, null;
    forall i: nat | i < |list|
      ensures NextOk(list, i)
    {
      assert old(NextOk(list, i));
    }
    s.Add(a);
  }

  /** The first of three tasks leaves and is recycled: a stale link names it. */
  method RecycleFirst(a: Task, b: Task, c: Task, s: Scheduler)
    requires s.Valid() && s.PrevLinks() && s.list == [a, b, c]
    modifies s, a, b, c
    ensures s.Valid() && s.list == [b, c, a] && b.prev == a
  {
    FirstLeaves(a, b, c, s);
    Recycle(a, s);
    assert s.list == [b, c, a];
  }

  method FirstLeaves(a: Task, b: Task, c: Task, s: Scheduler)
    requires s.Valid() && s.PrevLinks() && s.list == [a, b, c]
    modifies s, a, b, c
    ensures s.Valid() && s.list == [b, c] && s.list[0].prev == a && a !in s.list
  {
    assert PrevOk(s.list, 0) && PrevOk(s.list, 1) && s.list[0] == a && s.list[1] == b && s.list[2] == c;
    s.Remove(a, 0);
    assert s.list == [b, c];
  }

  /** Once another task follows, the removal of the first cuts it off: the recycled one is linked back. */
  method RecycledTaskDropsAnother(a: Task, b: Task, c: Task, d: Task, s: Scheduler)
    requires s.Valid() && s.list == [b, c, a] && b.prev == a
    requires d !in s.list && d.next == null && d.prev == null
    modifies s, a, b, c, d
    ensures s.list == [c, a, d] && !s.Valid() && a.next == c
  {
    s.Add(d);
    assert s.list == [b, c, a, d] && s.list[0] == b && b.prev == a;
    s.Remove(b, 0);
    assert [b, c, a, d][1..] == [c, a, d];
  }
}
