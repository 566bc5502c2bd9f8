/** The records of the focus module (a task and a history entry) and the
    list operations its task handlers build with `find`, `map` and `filter`. */
module Tasks {
  import opened Wrappers

  /** Task identifiers come from `Date.now().toString()` and are never empty,
      so a selected identifier is always truthy. */
  type TaskId = s: string | s != [] witness "0"

  datatype Task = Task(id: TaskId, text: string, completed: bool, timeWorked: nat)

  /** One history entry. */
  datatype FocusSession = FocusSession(
    id: string, date: string, focusTime: nat, breakTime: nat, completedCycles: nat)

  // ----- find -----

  /** `findIndex`: the position of the first task with the given id. */
  function FirstIndex(ts: seq<Task>, id: string): (r: Option<nat>)
    ensures r.None? <==> forall i :: 0 <= i < |ts| ==> ts[i].id != id
    ensures r.Some? ==> r.value < |ts| && ts[r.value].id == id
    ensures r.Some? ==> forall j :: 0 <= j < r.value ==> ts[j].id != id
  {
    if ts == [] then None
    else if ts[0].id == id then Some(0)
    else match FirstIndex(ts[1..], id)
         case None => None
         case Some(k) => Some(k + 1)
  }

  /** `tasks.find(t => t.id === id)`. */
  function Find(ts: seq<Task>, id: string): (r: Option<Task>)
    ensures r.None? <==> forall i :: 0 <= i < |ts| ==> ts[i].id != id
    ensures r.Some? ==> r.value in ts && r.value.id == id
    ensures r.Some? ==> FirstIndex(ts, id).Some? && r.value == ts[FirstIndex(ts, id).value]
  {
    match FirstIndex(ts, id)
    case None => None
    case Some(k) => Some(ts[k])
  }

  /** Where the first match is depends on the ids alone. */
  lemma {:induction false} FirstIndexSameIds(a: seq<Task>, b: seq<Task>, id: string)
    requires |a| == |b|
    requires forall i :: 0 <= i < |a| ==> a[i].id == b[i].id
    ensures FirstIndex(a, id) == FirstIndex(b, id)
  {
    if a != [] {
      FirstIndexSameIds(a[1..], b[1..], id);
    }
  }

  // ----- map: crediting time and toggling -----

  /** `{ ...t, timeWorked: t.timeWorked + amount }` on the task with the id. */
  function CreditOne(t: Task, id: string, amount: nat): Task
  {
    if t.id == id then t.(timeWorked := t.timeWorked + amount) else t
  }

  /** `tasks.map(...)` crediting `amount` seconds to every task with the id;
      every other task is left as it is. */
  function CreditTime(ts: seq<Task>, id: string, amount: nat): (r: seq<Task>)
    ensures |r| == |ts|
    ensures forall i :: 0 <= i < |ts| ==> r[i] == CreditOne(ts[i], id, amount)
  {
    if ts == [] then [] else [CreditOne(ts[0], id, amount)] + CreditTime(ts[1..], id, amount)
  }

  /** `{ ...t, completed: !t.completed }` on the task with the id. */
  function ToggleOne(t: Task, id: string): Task
  {
    if t.id == id then t.(completed := !t.completed) else t
  }

  /** `tasks.map(...)` flipping `completed` on every task with the id. */
  function ToggleById(ts: seq<Task>, id: string): (r: seq<Task>)
    ensures |r| == |ts|
    ensures forall i :: 0 <= i < |ts| ==> r[i] == ToggleOne(ts[i], id)
  {
    if ts == [] then [] else [ToggleOne(ts[0], id)] + ToggleById(ts[1..], id)
  }

  /** Toggling the same id twice restores the list. */
  lemma ToggleTwice(ts: seq<Task>, id: string)
    ensures ToggleById(ToggleById(ts, id), id) == ts
  {
    var r := ToggleById(ToggleById(ts, id), id);
    assert forall i :: 0 <= i < |ts| ==> r[i] == ts[i];
  }

  // ----- filter -----

  /** `tasks.filter(t => t.id !== id)`. */
  function WithoutId(ts: seq<Task>, id: string): (r: seq<Task>)
    ensures forall t :: t in r <==> t in ts && t.id != id
    ensures |r| == |ts| - CountId(ts, id)
  {
    if ts == [] then []
    else if ts[0].id == id then WithoutId(ts[1..], id)
    else [ts[0]] + WithoutId(ts[1..], id)
  }

  /** Deleting works element by element, so it keeps the order of the
      tasks it leaves: deleting from a concatenation concatenates the parts. */
  lemma {:induction false} WithoutIdDistributes(a: seq<Task>, b: seq<Task>, id: string)
    ensures WithoutId(a + b, id) == WithoutId(a, id) + WithoutId(b, id)
  {
    if a != [] {
      assert (a + b)[0] == a[0];
      assert (a + b)[1..] == a[1..] + b;
      WithoutIdDistributes(a[1..], b, id);
      if a[0].id != id {
        ConcatAssoc([a[0]], WithoutId(a[1..], id), WithoutId(b, id));
      }
    } else {
      assert a + b == b;
    }
  }

  /** `tasks.filter(t => !t.completed)`. */
  function Incomplete(ts: seq<Task>): (r: seq<Task>)
    ensures forall t :: t in r <==> t in ts && !t.completed
    ensures |r| <= |ts|
  {
    if ts == [] then []
    else if ts[0].completed then Incomplete(ts[1..])
    else [ts[0]] + Incomplete(ts[1..])
  }

  /** `tasks.filter(t => t.completed)`. */
  function Completed(ts: seq<Task>): (r: seq<Task>)
    ensures forall t :: t in r <==> t in ts && t.completed
    ensures |r| <= |ts|
  {
    if ts == [] then []
    else if ts[0].completed then [ts[0]] + Completed(ts[1..])
    else Completed(ts[1..])
  }

  /** The filters work element by element, so they keep the order of the
      input: filtering a concatenation concatenates the filtered parts. */
  lemma {:induction false} FiltersDistribute(a: seq<Task>, b: seq<Task>)
    ensures Incomplete(a + b) == Incomplete(a) + Incomplete(b)
    ensures Completed(a + b) == Completed(a) + Completed(b)
  {
    if a != [] {
      assert (a + b)[1..] == a[1..] + b;
      FiltersDistribute(a[1..], b);
    } else {
      assert a + b == b;
    }
  }

  /** The two filters split the list: together they hold every task once. */
  lemma {:induction false} FiltersPartition(ts: seq<Task>)
    ensures multiset(Incomplete(ts)) + multiset(Completed(ts)) == multiset(ts)
    ensures |Incomplete(ts)| + |Completed(ts)| == |ts|
  {
    if ts != [] {
      FiltersPartition(ts[1..]);
      assert ts == [ts[0]] + ts[1..];
    }
  }

  /** Keeping the incomplete tasks changes the list exactly when some task
      is completed. */
  lemma IncompleteUnchangedIff(ts: seq<Task>)
    ensures Incomplete(ts) == ts <==> forall i :: 0 <= i < |ts| ==> !ts[i].completed
  {
    if forall i :: 0 <= i < |ts| ==> !ts[i].completed {
      IncompleteOfIncomplete(ts);
    } else {
      var j :| 0 <= j < |ts| && ts[j].completed;
      assert ts[j] in ts && ts[j] !in Incomplete(ts);
    }
  }

  lemma {:induction false} IncompleteOfIncomplete(ts: seq<Task>)
    requires forall i :: 0 <= i < |ts| ==> !ts[i].completed
    ensures Incomplete(ts) == ts
  {
    if ts != [] {
      assert !ts[0].completed;
      IncompleteOfIncomplete(ts[1..]);
      assert ts == [ts[0]] + ts[1..];
    }
  }

  // ----- counting and the ledger total -----

  /** How many tasks carry the id. */
  function CountId(ts: seq<Task>, id: string): nat
  {
    if ts == [] then 0 else (if ts[0].id == id then 1 else 0) + CountId(ts[1..], id)
  }

  /** Total seconds in the ledger. */
  function TotalWorked(ts: seq<Task>): nat
  {
    if ts == [] then 0 else ts[0].timeWorked + TotalWorked(ts[1..])
  }

  /** Crediting adds `amount` to the ledger once per task with the id, and
      nothing else. */
  lemma {:induction false} CreditTimeTotal(ts: seq<Task>, id: string, amount: nat)
    ensures TotalWorked(CreditTime(ts, id, amount)) == TotalWorked(ts) + amount * CountId(ts, id)
  {
    if ts != [] {
      CreditTimeTotal(ts[1..], id, amount);
      var c := if ts[0].id == id then 1 else 0;
      assert amount * CountId(ts, id) == amount * c + amount * CountId(ts[1..], id);
    }
  }

  // ----- the selection invariant -----

  /** The task the UI treats as selected (the first with the selected id)
      is never a completed one. */
  predicate SelectionConsistent(ts: seq<Task>, sel: Option<TaskId>)
  {
    match sel
    case None => true
    case Some(id) => match Find(ts, id) case None => true case Some(t) => !t.completed
  }

  /** Crediting time keeps the first match of every id and its completion. */
  lemma FindAfterCredit(ts: seq<Task>, id: string, amount: nat, other: string)
    ensures Find(CreditTime(ts, id, amount), other).None? == Find(ts, other).None?
    ensures Find(ts, other).Some? ==>
              Find(CreditTime(ts, id, amount), other).value.completed == Find(ts, other).value.completed
  {
    FirstIndexSameIds(CreditTime(ts, id, amount), ts, other);
  }

  /** Toggling one id leaves the first match of every other id as it was. */
  lemma FindAfterToggle(ts: seq<Task>, id: string, other: string)
    requires other != id
    ensures Find(ToggleById(ts, id), other) == Find(ts, other)
  {
    FirstIndexSameIds(ToggleById(ts, id), ts, other);
  }

  /** `find` on a non-empty list looks at the head first. */
  lemma FindCons(ts: seq<Task>, other: string)
    requires ts != []
    ensures Find(ts, other) == if ts[0].id == other then Some(ts[0]) else Find(ts[1..], other)
  {
  }

  /** Deleting one id leaves the first match of every other id as it was. */
  lemma {:induction false} FindAfterRemove(ts: seq<Task>, id: string, other: string)
    requires other != id
    ensures Find(WithoutId(ts, id), other) == Find(ts, other)
  {
    if ts != [] {
      FindAfterRemove(ts[1..], id, other);
      FindCons(ts, other);
      var r := WithoutId(ts, id);
      if ts[0].id != id {
        assert r == [ts[0]] + WithoutId(ts[1..], id);
        assert r[1..] == WithoutId(ts[1..], id);
        FindCons(r, other);
      }
    }
  }

  /** A new, incomplete task at the front keeps the selection consistent. */
  lemma PrependKeepsSelection(t: Task, ts: seq<Task>, sel: Option<TaskId>)
    requires !t.completed
    requires SelectionConsistent(ts, sel)
    ensures SelectionConsistent([t] + ts, sel)
  {
    if sel.Some? {
      FindCons([t] + ts, sel.value);
      assert ([t] + ts)[1..] == ts;
    }
  }

  /** Toggling an id and dropping the selection when it was that id keeps
      the selection consistent. */
  lemma ToggleKeepsSelection(ts: seq<Task>, id: TaskId, sel: Option<TaskId>)
    requires SelectionConsistent(ts, sel)
    ensures SelectionConsistent(ToggleById(ts, id), if sel == Some(id) then None else sel)
  {
    if sel.Some? && sel.value != id {
      FindAfterToggle(ts, id, sel.value);
    }
  }

  /** Deleting an id and dropping the selection when it was that id keeps
      the selection consistent. */
  lemma RemoveKeepsSelection(ts: seq<Task>, id: TaskId, sel: Option<TaskId>)
    requires SelectionConsistent(ts, sel)
    ensures SelectionConsistent(WithoutId(ts, id), if sel == Some(id) then None else sel)
  {
    if sel.Some? && sel.value != id {
      FindAfterRemove(ts, id, sel.value);
    }
  }
}
