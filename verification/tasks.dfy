/**
 * The in-memory task store: the `Task` record and the `TaskManager` that
 * keeps tasks in insertion order together with an id counter that is
 * never reused. Every operation is a pure function from the store before
 * the call to the store after it, paired with what the method returns.
 */
module Tasks {
  import opened Options

  /** One to-do item; a new task starts out not completed. */
  datatype Task = Task(id: int, description: string, completed: bool)

  /** The task list, in insertion order, and the id the next task will get. */
  datatype Store = Store(tasks: seq<Task>, nextId: int)

  /**
   * What the store keeps true: the counter starts at 1, every id lies in
   * [1, nextId), and ids strictly increase along the list (hence are
   * pairwise distinct).
   */
  predicate Valid(s: Store) {
    && s.nextId >= 1
    && (forall i :: 0 <= i < |s.tasks| ==> 1 <= s.tasks[i].id < s.nextId)
    && (forall i, j :: 0 <= i < j < |s.tasks| ==> s.tasks[i].id < s.tasks[j].id)
  }

  /** Some task in the store carries `id`. */
  predicate Has(s: Store, id: int) {
    exists i :: 0 <= i < |s.tasks| && s.tasks[i].id == id
  }

  /** Position `k` is where a front-to-back scan for `id` stops. */
  predicate IsFirstMatch(tasks: seq<Task>, k: int, id: int) {
    && 0 <= k < |tasks|
    && tasks[k].id == id
    && forall j :: 0 <= j < k ==> tasks[j].id != id
  }

  /** The store a fresh `TaskManager` holds. */
  function Empty(): (s: Store)
    ensures Valid(s)
    ensures |s.tasks| == 0 && s.nextId == 1
  {
    Store([], 1)
  }

  /** The position the linear scan of `get_task_by_id` stops at, if any. */
  function IndexOf(tasks: seq<Task>, id: int): (r: Option<nat>)
    ensures r.Some? ==> IsFirstMatch(tasks, r.value, id)
    ensures r.None? ==> forall j :: 0 <= j < |tasks| ==> tasks[j].id != id
  {
    if |tasks| == 0 then None
    else if tasks[0].id == id then Some(0)
    else match IndexOf(tasks[1..], id)
      case None => None
      case Some(k) => Some(k + 1)
  }

  /** A scan stops at one place only. */
  lemma FirstMatchUnique(tasks: seq<Task>, k: int, k': int, id: int)
    requires IsFirstMatch(tasks, k, id) && IsFirstMatch(tasks, k', id)
    ensures k == k'
  {
  }

  /** In a valid store the first match is simply the task with that id. */
  lemma FirstMatchInValid(s: Store, k: int, id: int)
    requires Valid(s)
    requires 0 <= k < |s.tasks|
    ensures IsFirstMatch(s.tasks, k, id) <==> s.tasks[k].id == id
  {
  }

  /** `get_task_by_id`: the first task with `id`, or `None` when there is none. */
  function Find(s: Store, id: int): (r: Option<Task>)
    ensures r.Some? <==> Has(s, id)
    ensures r.Some? ==> r.value.id == id && r.value in s.tasks
    ensures r.Some? ==> IsFirstMatch(s.tasks, IndexOf(s.tasks, id).value, id)
                        && r.value == s.tasks[IndexOf(s.tasks, id).value]
  {
    match IndexOf(s.tasks, id)
    case None => None
    case Some(k) => Some(s.tasks[k])
  }

  /** In a valid store, looking up the id of any stored task yields that task. */
  lemma FindStored(s: Store, k: int)
    requires Valid(s)
    requires 0 <= k < |s.tasks|
    ensures Find(s, s.tasks[k].id) == Some(s.tasks[k])
  {
    FirstMatchInValid(s, k, s.tasks[k].id);
    FirstMatchUnique(s.tasks, k, IndexOf(s.tasks, s.tasks[k].id).value, s.tasks[k].id);
  }

  /** `get_all_tasks`: the current list, in insertion order. */
  function AllTasks(s: Store): (r: seq<Task>)
    ensures |r| == |s.tasks| && forall i :: 0 <= i < |r| ==> r[i] == s.tasks[i]
    ensures Valid(s) ==> forall i, j :: 0 <= i < j < |r| ==> r[i].id < r[j].id
    ensures forall id :: Has(s, id) <==> exists t :: t in r && t.id == id
  {
    s.tasks
  }

  /**
   * `add_task`: the new task takes the counter's value and starts
   * incomplete, is appended at the end, and the counter moves on by one.
   */
  function Add(s: Store, description: string): (r: (Store, Task))
    ensures r.1.id == s.nextId && r.1.description == description && !r.1.completed
    ensures |r.0.tasks| == |s.tasks| + 1 && r.0.tasks[..|s.tasks|] == s.tasks
    ensures r.0.tasks[|s.tasks|] == r.1
    ensures r.0.nextId == s.nextId + 1
  {
    var t := Task(s.nextId, description, false);
    assert (s.tasks + [t])[..|s.tasks|] == s.tasks;
    (Store(s.tasks + [t], s.nextId + 1), t)
  }

  lemma AddPreservesValid(s: Store, description: string)
    requires Valid(s)
    ensures Valid(Add(s, description).0)
  {
  }

  /** After `add_task`, the new id finds the new task and every other id finds what it found before. */
  lemma FindAfterAdd(s: Store, description: string, id: int)
    requires Valid(s)
    ensures Find(Add(s, description).0, id)
            == if id == s.nextId then Some(Add(s, description).1) else Find(s, id)
  {
    var (s', t) := Add(s, description);
    AddPreservesValid(s, description);
    if id == s.nextId {
      FindStored(s', |s.tasks|);
    } else if Has(s, id) {
      var k :| 0 <= k < |s.tasks| && s.tasks[k].id == id;
      FindStored(s, k);
      assert s'.tasks[k] == s.tasks[k];
      FindStored(s', k);
    } else {
      assert !Has(s', id) by {
        forall k | 0 <= k < |s'.tasks|
          ensures s'.tasks[k].id != id
        {
          if k < |s.tasks| {
            assert s'.tasks[k] == s.tasks[k];
          }
        }
      }
    }
  }

  /**
   * The common shape of `update_task`, `mark_task_complete` and
   * `mark_task_incomplete`: apply `edit` to the first task with `id` and
   * report whether there was one; a missing id changes nothing.
   */
  function Modify(s: Store, id: int, edit: Task -> Task): (r: (Store, bool))
    ensures r.1 <==> Has(s, id)
    ensures !r.1 ==> r.0 == s
    ensures r.0.nextId == s.nextId && |r.0.tasks| == |s.tasks|
    ensures forall k :: 0 <= k < |s.tasks| ==>
              r.0.tasks[k] == if IsFirstMatch(s.tasks, k, id) then edit(s.tasks[k]) else s.tasks[k]
  {
    match IndexOf(s.tasks, id)
    case None => (s, false)
    case Some(i) =>
      assert forall k :: 0 <= k < |s.tasks| ==> (IsFirstMatch(s.tasks, k, id) <==> k == i);
      (s.(tasks := s.tasks[i := edit(s.tasks[i])]), true)
  }

  /** `update_task`: the first task with `id` gets the new description and nothing else changes. */
  function Update(s: Store, id: int, description: string): (r: (Store, bool))
    ensures r.1 <==> Has(s, id)
    ensures !r.1 ==> r.0 == s
    ensures r.0.nextId == s.nextId && |r.0.tasks| == |s.tasks|
    ensures forall k :: 0 <= k < |s.tasks| ==>
              && r.0.tasks[k].id == s.tasks[k].id
              && r.0.tasks[k].completed == s.tasks[k].completed
              && r.0.tasks[k].description
                 == if IsFirstMatch(s.tasks, k, id) then description else s.tasks[k].description
  {
    Modify(s, id, (t: Task) => t.(description := description))
  }

  /** `mark_task_complete`: the first task with `id` becomes completed and nothing else changes. */
  function MarkComplete(s: Store, id: int): (r: (Store, bool))
    ensures r.1 <==> Has(s, id)
    ensures !r.1 ==> r.0 == s
    ensures r.0.nextId == s.nextId && |r.0.tasks| == |s.tasks|
    ensures forall k :: 0 <= k < |s.tasks| ==>
              && r.0.tasks[k].id == s.tasks[k].id
              && r.0.tasks[k].description == s.tasks[k].description
              && r.0.tasks[k].completed == (IsFirstMatch(s.tasks, k, id) || s.tasks[k].completed)
  {
    Modify(s, id, (t: Task) => t.(completed := true))
  }

  /** `mark_task_incomplete`: the first task with `id` becomes incomplete and nothing else changes. */
  function MarkIncomplete(s: Store, id: int): (r: (Store, bool))
    ensures r.1 <==> Has(s, id)
    ensures !r.1 ==> r.0 == s
    ensures r.0.nextId == s.nextId && |r.0.tasks| == |s.tasks|
    ensures forall k :: 0 <= k < |s.tasks| ==>
              && r.0.tasks[k].id == s.tasks[k].id
              && r.0.tasks[k].description == s.tasks[k].description
              && r.0.tasks[k].completed == (!IsFirstMatch(s.tasks, k, id) && s.tasks[k].completed)
  {
    Modify(s, id, (t: Task) => t.(completed := false))
  }

  /** Editing one task in place keeps the ids, so the store stays valid. */
  lemma SameIdsPreserveValid(s: Store, s': Store)
    requires Valid(s)
    requires s'.nextId == s.nextId && |s'.tasks| == |s.tasks|
    requires forall k :: 0 <= k < |s.tasks| ==> s'.tasks[k].id == s.tasks[k].id
    ensures Valid(s')
  {
  }

  /** Two stores with the same ids in the same places stop a scan at the same place. */
  lemma SameIdsSameFirstMatch(a: seq<Task>, b: seq<Task>, k: int, id: int)
    requires |a| == |b|
    requires forall j :: 0 <= j < |a| ==> a[j].id == b[j].id
    ensures IsFirstMatch(a, k, id) <==> IsFirstMatch(b, k, id)
  {
  }

  lemma UpdatePreservesValid(s: Store, id: int, description: string)
    requires Valid(s)
    ensures Valid(Update(s, id, description).0)
  {
    SameIdsPreserveValid(s, Update(s, id, description).0);
  }

  lemma MarkCompletePreservesValid(s: Store, id: int)
    requires Valid(s)
    ensures Valid(MarkComplete(s, id).0)
  {
    SameIdsPreserveValid(s, MarkComplete(s, id).0);
  }

  lemma MarkIncompletePreservesValid(s: Store, id: int)
    requires Valid(s)
    ensures Valid(MarkIncomplete(s, id).0)
  {
    SameIdsPreserveValid(s, MarkIncomplete(s, id).0);
  }

  /** After `update_task` on a stored id, looking it up shows the new description and the old flag. */
  lemma FindAfterUpdate(s: Store, id: int, description: string)
    requires Valid(s) && Has(s, id)
    ensures Find(Update(s, id, description).0, id)
            == Some(Find(s, id).value.(description := description))
  {
    var s' := Update(s, id, description).0;
    var k := IndexOf(s.tasks, id).value;
    UpdatePreservesValid(s, id, description);
    FindStored(s', k);
  }

  /** Marking complete twice leaves the store as marking once does, and reports the same. */
  lemma MarkCompleteIdempotent(s: Store, id: int)
    ensures MarkComplete(MarkComplete(s, id).0, id) == MarkComplete(s, id)
  {
    var s1 := MarkComplete(s, id).0;
    var s2 := MarkComplete(s1, id).0;
    forall k | 0 <= k < |s.tasks|
      ensures s2.tasks[k] == s1.tasks[k]
    {
      SameIdsSameFirstMatch(s.tasks, s1.tasks, k, id);
    }
    assert s2.tasks == s1.tasks;
    assert Has(s1, id) <==> Has(s, id) by {
      if Has(s, id) {
        var k :| 0 <= k < |s.tasks| && s.tasks[k].id == id;
        assert s1.tasks[k].id == id;
      }
    }
  }

  /** Marking incomplete twice leaves the store as marking once does, and reports the same. */
  lemma MarkIncompleteIdempotent(s: Store, id: int)
    ensures MarkIncomplete(MarkIncomplete(s, id).0, id) == MarkIncomplete(s, id)
  {
    var s1 := MarkIncomplete(s, id).0;
    var s2 := MarkIncomplete(s1, id).0;
    forall k | 0 <= k < |s.tasks|
      ensures s2.tasks[k] == s1.tasks[k]
    {
      SameIdsSameFirstMatch(s.tasks, s1.tasks, k, id);
    }
    assert s2.tasks == s1.tasks;
    assert Has(s1, id) <==> Has(s, id) by {
      if Has(s, id) {
        var k :| 0 <= k < |s.tasks| && s.tasks[k].id == id;
        assert s1.tasks[k].id == id;
      }
    }
  }

  /**
   * `delete_task`: the first task with `id` is taken out, the others keep
   * their relative order, and the counter is not touched; a missing id
   * changes nothing.
   */
  function Delete(s: Store, id: int): (r: (Store, bool))
    ensures r.1 <==> Has(s, id)
    ensures !r.1 ==> r.0 == s
    ensures r.0.nextId == s.nextId
    ensures r.1 ==> |r.0.tasks| == |s.tasks| - 1
    ensures r.1 ==> multiset(r.0.tasks) + multiset{Find(s, id).value} == multiset(s.tasks)
    ensures r.1 ==> forall k :: 0 <= k < |r.0.tasks| ==>
              r.0.tasks[k] == s.tasks[if k < IndexOf(s.tasks, id).value then k else k + 1]
  {
    match IndexOf(s.tasks, id)
    case None => (s, false)
    case Some(i) =>
      RemoveAt(s.tasks, i);
      (s.(tasks := s.tasks[..i] + s.tasks[i + 1..]), true)
  }

  /** Cutting position `i` out of a list shifts the later elements down by one and loses just that element. */
  lemma RemoveAt(tasks: seq<Task>, i: int)
    requires 0 <= i < |tasks|
    ensures var rest := tasks[..i] + tasks[i + 1..];
            && |rest| == |tasks| - 1
            && (forall k :: 0 <= k < |rest| ==> rest[k] == tasks[if k < i then k else k + 1])
            && multiset(rest) + multiset{tasks[i]} == multiset(tasks)
  {
    assert tasks == tasks[..i] + [tasks[i]] + tasks[i + 1..];
  }

  lemma DeletePreservesValid(s: Store, id: int)
    requires Valid(s)
    ensures Valid(Delete(s, id).0)
  {
    var (s', ok) := Delete(s, id);
    if ok {
      var i := IndexOf(s.tasks, id).value;
      forall a, b | 0 <= a < b < |s'.tasks|
        ensures s'.tasks[a].id < s'.tasks[b].id
      {
        var a' := if a < i then a else a + 1;
        var b' := if b < i then b else b + 1;
        assert s'.tasks[a] == s.tasks[a'] && s'.tasks[b] == s.tasks[b'];
      }
    }
  }

  /** After `delete_task`, no task carries the deleted id. */
  lemma DeleteRemovesId(s: Store, id: int)
    requires Valid(s)
    ensures !Has(Delete(s, id).0, id)
  {
    var (s', ok) := Delete(s, id);
    if ok {
      var i := IndexOf(s.tasks, id).value;
      forall k | 0 <= k < |s'.tasks|
        ensures s'.tasks[k].id != id
      {
        var k' := if k < i then k else k + 1;
        assert s'.tasks[k] == s.tasks[k'];
        FirstMatchInValid(s, k', id);
      }
    }
  }

  /** After `delete_task`, an id other than the deleted one is held exactly when it was before. */
  lemma DeleteKeepsOtherIds(s: Store, id: int, other: int)
    requires other != id
    ensures Has(Delete(s, id).0, other) <==> Has(s, other)
  {
    var (s', ok) := Delete(s, id);
    if ok {
      var i := IndexOf(s.tasks, id).value;
      if Has(s, other) {
        var j :| 0 <= j < |s.tasks| && s.tasks[j].id == other;
        assert j != i;
        var j' := if j < i then j else j - 1;
        assert s'.tasks[j'] == s.tasks[j];
      }
      if Has(s', other) {
        var k :| 0 <= k < |s'.tasks| && s'.tasks[k].id == other;
        assert s'.tasks[k] == s.tasks[if k < i then k else k + 1];
      }
    }
  }

  /** After `delete_task`, the deleted id is gone and every other id finds what it found before. */
  lemma FindAfterDelete(s: Store, id: int, other: int)
    requires Valid(s)
    ensures Find(Delete(s, id).0, id) == None
    ensures other != id ==> Find(Delete(s, id).0, other) == Find(s, other)
  {
    var s' := Delete(s, id).0;
    DeleteRemovesId(s, id);
    if other != id {
      DeleteKeepsOtherIds(s, id, other);
      if Has(s, other) {
        DeletePreservesValid(s, id);
        var j :| 0 <= j < |s'.tasks| && s'.tasks[j].id == other;
        FindStored(s', j);
        assert s'.tasks[j] in s.tasks;
        var j0 :| 0 <= j0 < |s.tasks| && s.tasks[j0] == s'.tasks[j];
        FindStored(s, j0);
      }
    }
  }
}
