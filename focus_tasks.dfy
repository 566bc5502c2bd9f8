/** What the task panel derives from its props: the display order of the
    tasks, the clear-completed control, the per-task badge and the card
    highlight. */
module FocusTasks {
  import opened Wrappers
  import opened Tasks

  /** The comparator handed to `sort`: equal completion compares equal,
      an incomplete task comes before a completed one. */
  function CompareTasks(a: Task, b: Task): (c: int)
    ensures c == 0 <==> a.completed == b.completed
    ensures c < 0 <==> !a.completed && b.completed
  {
    if a.completed == b.completed then 0 else if a.completed then 1 else -1
  }

  /** The comparator is antisymmetric and transitive, a total preorder, so
      a stable sort by it is well defined. */
  lemma CompareTasksPreorder(a: Task, b: Task, c: Task)
    ensures CompareTasks(a, b) == -CompareTasks(b, a)
    ensures CompareTasks(a, b) <= 0 && CompareTasks(b, c) <= 0 ==> CompareTasks(a, c) <= 0
  {
  }

  /** Places `t` in front of the first element it does not sort after,
      which keeps `t` ahead of every equal element, as a stable sort does
      for the element that came first. */
  function Insert(t: Task, sorted: seq<Task>): (r: seq<Task>)
    ensures multiset(r) == multiset(sorted) + multiset{t}
    ensures |r| == |sorted| + 1
  {
    if sorted == [] || CompareTasks(t, sorted[0]) <= 0 then [t] + sorted
    else
      assert sorted == [sorted[0]] + sorted[1..];
      [sorted[0]] + Insert(t, sorted[1..])
  }

  /** `[...tasks].sort(compare)`: a stable sort on a copy. */
  function SortedTasks(ts: seq<Task>): (r: seq<Task>)
    ensures |r| == |ts|
    ensures multiset(r) == multiset(ts)
  {
    if ts == [] then []
    else
      assert ts == [ts[0]] + ts[1..];
      Insert(ts[0], SortedTasks(ts[1..]))
  }

  /** No completed task comes before an incomplete one. */
  predicate IncompleteFirst(s: seq<Task>)
  {
    forall i, j :: 0 <= i < j < |s| ==> !(s[i].completed && !s[j].completed)
  }

  /** Sorting lists the incomplete tasks, in their original order, and then
      the completed ones, in theirs. */
  lemma {:induction false} SortedTasksPartition(ts: seq<Task>)
    ensures SortedTasks(ts) == Incomplete(ts) + Completed(ts)
  {
    if ts != [] {
      SortedTasksPartition(ts[1..]);
      var inc := Incomplete(ts[1..]);
      var com := Completed(ts[1..]);
      if ts[0].completed {
        InsertCompleted(ts[0], inc, com);
        ConcatAssoc(inc, [ts[0]], com);
      } else {
        InsertIncomplete(ts[0], inc, com);
      }
    }
  }

  lemma InsertIncomplete(t: Task, inc: seq<Task>, com: seq<Task>)
    requires !t.completed
    ensures Insert(t, inc + com) == [t] + inc + com
  {
    if inc + com != [] {
      assert CompareTasks(t, (inc + com)[0]) <= 0;
    }
  }

  lemma {:induction false} InsertCompleted(t: Task, inc: seq<Task>, com: seq<Task>)
    requires t.completed
    requires forall i :: 0 <= i < |inc| ==> !inc[i].completed
    requires forall i :: 0 <= i < |com| ==> com[i].completed
    ensures Insert(t, inc + com) == inc + [t] + com
  {
    if inc == [] {
      assert inc + com == com;
      if com != [] {
        assert CompareTasks(t, com[0]) <= 0;
      }
    } else {
      assert (inc + com)[0] == inc[0];
      assert (inc + com)[1..] == inc[1..] + com;
      InsertCompleted(t, inc[1..], com);
    }
  }

  /** Every incomplete task is listed before every completed one. */
  lemma SortedTasksOrdered(ts: seq<Task>)
    ensures IncompleteFirst(SortedTasks(ts))
  {
    SortedTasksPartition(ts);
    GroupsOrdered(Incomplete(ts), Completed(ts));
  }

  lemma GroupsOrdered(inc: seq<Task>, com: seq<Task>)
    requires forall t :: t in inc ==> !t.completed
    requires forall t :: t in com ==> t.completed
    ensures IncompleteFirst(inc + com)
  {
    var s := inc + com;
    forall i, j | 0 <= i < j < |s| ensures !(s[i].completed && !s[j].completed) {
      if i < |inc| {
        assert s[i] == inc[i];
        assert s[i] in inc;
      } else {
        assert s[j] == com[j - |inc|];
        assert s[j] in com;
      }
    }
  }

  /** Within each group the sort keeps the tasks' relative order: filtering
      the sorted list gives back the filtered input. */
  lemma SortedTasksStable(ts: seq<Task>)
    ensures Incomplete(SortedTasks(ts)) == Incomplete(ts)
    ensures Completed(SortedTasks(ts)) == Completed(ts)
  {
    SortedTasksPartition(ts);
    FiltersDistribute(Incomplete(ts), Completed(ts));
    IncompleteGroupFixed(Incomplete(ts));
    CompletedGroupFixed(Completed(ts));
  }

  lemma {:induction false} IncompleteGroupFixed(inc: seq<Task>)
    requires forall t :: t in inc ==> !t.completed
    ensures Incomplete(inc) == inc && Completed(inc) == []
  {
    if inc != [] {
      assert inc[0] in inc;
      IncompleteGroupFixed(inc[1..]);
    }
  }

  lemma {:induction false} CompletedGroupFixed(com: seq<Task>)
    requires forall t :: t in com ==> t.completed
    ensures Incomplete(com) == [] && Completed(com) == com
  {
    if com != [] {
      assert com[0] in com;
      CompletedGroupFixed(com[1..]);
    }
  }

  /** `tasks.some(t => t.completed)`: the clear-completed control. */
  predicate ShowClearCompleted(ts: seq<Task>)
  {
    exists i :: 0 <= i < |ts| && ts[i].completed
  }

  /** The control is offered exactly when clearing would remove something. */
  lemma ShowClearCompletedIff(ts: seq<Task>)
    ensures ShowClearCompleted(ts) <==> Incomplete(ts) != ts
  {
    IncompleteUnchangedIff(ts);
  }

  /** The badge beside a task: only on the selected, incomplete task;
      "Focusing" while a focus phase runs, "Selected" otherwise. */
  function Badge(t: Task, selectedTaskId: Option<TaskId>, isRunning: bool, isBreak: bool): (r: Option<string>)
    ensures r.Some? <==> selectedTaskId == Some(t.id) && !t.completed
    ensures r.Some? ==> (r.value == "Focusing" <==> isRunning && !isBreak)
    ensures r.Some? ==> (r.value == "Selected" <==> !(isRunning && !isBreak))
  {
    if selectedTaskId == Some(t.id) && !t.completed then
      Some(if isRunning && !isBreak then "Focusing" else "Selected")
    else None
  }

  /** The task card is highlighted while a focus phase runs for a selected task. */
  predicate Highlighted(isRunning: bool, isBreak: bool, selectedTaskId: Option<TaskId>)
  {
    isRunning && !isBreak && selectedTaskId.Some?
  }

  /** A "Focusing" badge is only ever shown inside a highlighted card. */
  lemma FocusingImpliesHighlighted(t: Task, selectedTaskId: Option<TaskId>, isRunning: bool, isBreak: bool)
    requires Badge(t, selectedTaskId, isRunning, isBreak) == Some("Focusing")
    ensures Highlighted(isRunning, isBreak, selectedTaskId)
  {
  }
}
