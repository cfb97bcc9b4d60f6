/**
 * Sequences of store calls, as one `TaskManager` sees them over a run of
 * the application: how many tasks remain, which ids `add_task` hands out,
 * and what happens to an id once its task is deleted.
 */
module History {
  import opened Options
  import opened Tasks

  /** One call on the store. */
  datatype Op =
    | AddOp(description: string)
    | UpdateOp(id: int, description: string)
    | DeleteOp(id: int)
    | CompleteOp(id: int)
    | IncompleteOp(id: int)

  /** Every id present after a call was present before it, or is the one `add_task` just handed out. */
  ghost predicate IdsFrom(s: Store, s': Store, op: Op) {
    forall x :: Has(s', x) ==> Has(s, x) || (op.AddOp? && x == s.nextId)
  }

  /**
   * Performs one call; the flag is what the method returns (for
   * `add_task`, which always succeeds, it is true).
   */
  function Step(s: Store, op: Op): (r: (Store, bool))
    ensures op.AddOp? ==> r.1
    ensures r.0.nextId == s.nextId + (if op.AddOp? then 1 else 0)
    ensures |r.0.tasks| == |s.tasks| + (if op.AddOp? then 1 else 0) - (if op.DeleteOp? && r.1 then 1 else 0)
  {
    match op
    case AddOp(d) => (Add(s, d).0, true)
    case UpdateOp(id, d) => Update(s, id, d)
    case DeleteOp(id) => Delete(s, id)
    case CompleteOp(id) => MarkComplete(s, id)
    case IncompleteOp(id) => MarkIncomplete(s, id)
  }

  /** Every store call keeps the store invariant. */
  lemma StepPreservesValid(s: Store, op: Op)
    requires Valid(s)
    ensures Valid(Step(s, op).0)
  {
    match op
    case AddOp(d) => AddPreservesValid(s, d);
    case UpdateOp(id, d) => UpdatePreservesValid(s, id, d);
    case DeleteOp(id) => DeletePreservesValid(s, id);
    case CompleteOp(id) => MarkCompletePreservesValid(s, id);
    case IncompleteOp(id) => MarkIncompletePreservesValid(s, id);
  }

  /** No store call brings in an id other than the one `add_task` hands out. */
  lemma StepKeepsIds(s: Store, op: Op)
    ensures IdsFrom(s, Step(s, op).0, op)
  {
    match op
    case AddOp(d) => AddKeepsIds(s, d);
    case UpdateOp(id, d) => SameIdsKeepIds(s, Update(s, id, d).0, op);
    case DeleteOp(id) => DeleteKeepsIds(s, id);
    case CompleteOp(id) => SameIdsKeepIds(s, MarkComplete(s, id).0, op);
    case IncompleteOp(id) => SameIdsKeepIds(s, MarkIncomplete(s, id).0, op);
  }

  lemma AddKeepsIds(s: Store, d: string)
    ensures IdsFrom(s, Add(s, d).0, AddOp(d))
  {
    var s' := Add(s, d).0;
    forall x | Has(s', x)
      ensures Has(s, x) || x == s.nextId
    {
      var k :| 0 <= k < |s'.tasks| && s'.tasks[k].id == x;
      if k < |s.tasks| {
        assert s'.tasks[k] == s.tasks[k];
      }
    }
  }

  lemma SameIdsKeepIds(s: Store, s': Store, op: Op)
    requires |s'.tasks| == |s.tasks|
    requires forall k :: 0 <= k < |s.tasks| ==> s'.tasks[k].id == s.tasks[k].id
    ensures IdsFrom(s, s', op)
  {
    forall x | Has(s', x)
      ensures Has(s, x)
    {
      var k :| 0 <= k < |s'.tasks| && s'.tasks[k].id == x;
      assert s.tasks[k].id == x;
    }
  }

  lemma DeleteKeepsIds(s: Store, id: int)
    ensures IdsFrom(s, Delete(s, id).0, DeleteOp(id))
  {
    var (s', ok) := Delete(s, id);
    if ok {
      var i := IndexOf(s.tasks, id).value;
      forall x | Has(s', x)
        ensures Has(s, x)
      {
        var k :| 0 <= k < |s'.tasks| && s'.tasks[k].id == x;
        var k' := if k < i then k else k + 1;
        assert s.tasks[k'].id == x;
      }
    }
  }

  /** The store after performing `ops` in order. */
  function Run(s: Store, ops: seq<Op>): Store
    decreases |ops|
  {
    if |ops| == 0 then s else Run(Step(s, ops[0]).0, ops[1..])
  }

  /** How many `add_task` calls `ops` holds. */
  function AddCount(ops: seq<Op>): nat
    decreases |ops|
  {
    if |ops| == 0 then 0 else (if ops[0].AddOp? then 1 else 0) + AddCount(ops[1..])
  }

  /** How many `delete_task` calls returned true when `ops` ran from `s`. */
  function DeleteCount(s: Store, ops: seq<Op>): nat
    decreases |ops|
  {
    if |ops| == 0 then 0
    else
      var (s', ok) := Step(s, ops[0]);
      (if ops[0].DeleteOp? && ok then 1 else 0) + DeleteCount(s', ops[1..])
  }

  /** The ids `add_task` returned, in call order, when `ops` ran from `s`. */
  function AddedIds(s: Store, ops: seq<Op>): seq<int>
    decreases |ops|
  {
    if |ops| == 0 then []
    else
      var rest := AddedIds(Step(s, ops[0]).0, ops[1..]);
      match ops[0]
      case AddOp(d) => [Add(s, d).1.id] + rest
      case _ => rest
  }

  /** Every call sequence keeps the store invariant. */
  lemma {:induction false} RunPreservesValid(s: Store, ops: seq<Op>)
    requires Valid(s)
    ensures Valid(Run(s, ops))
    decreases |ops|
  {
    if |ops| > 0 {
      StepPreservesValid(s, ops[0]);
      RunPreservesValid(Step(s, ops[0]).0, ops[1..]);
    }
  }

  /** The list holds as many tasks as were added, less the deletions that succeeded. */
  lemma {:induction false} RunLength(s: Store, ops: seq<Op>)
    ensures |Run(s, ops).tasks| == |s.tasks| + AddCount(ops) - DeleteCount(s, ops)
    decreases |ops|
  {
    if |ops| > 0 {
      RunLength(Step(s, ops[0]).0, ops[1..]);
    }
  }

  /** The counter moves by exactly one per `add_task`, so it never goes down. */
  lemma {:induction false} RunNextId(s: Store, ops: seq<Op>)
    ensures Run(s, ops).nextId == s.nextId + AddCount(ops)
    decreases |ops|
  {
    if |ops| > 0 {
      RunNextId(Step(s, ops[0]).0, ops[1..]);
    }
  }

  /**
   * The ids handed out are consecutive from the counter's value: the k-th
   * `add_task` returns `nextId + k`, whatever deletes come in between.
   */
  lemma {:induction false} AddedIdsConsecutive(s: Store, ops: seq<Op>)
    ensures |AddedIds(s, ops)| == AddCount(ops)
    ensures forall k :: 0 <= k < |AddedIds(s, ops)| ==> AddedIds(s, ops)[k] == s.nextId + k
    decreases |ops|
  {
    if |ops| > 0 {
      AddedIdsConsecutive(Step(s, ops[0]).0, ops[1..]);
    }
  }

  /** From a fresh store the ids handed out are 1, 2, 3, ... */
  lemma IdsFromOne(ops: seq<Op>)
    ensures forall k :: 0 <= k < |AddedIds(Empty(), ops)| ==> AddedIds(Empty(), ops)[k] == k + 1
  {
    AddedIdsConsecutive(Empty(), ops);
  }

  /** An id below the counter that no task holds is never held or handed out again. */
  lemma {:induction false} AbsentStaysAbsent(s: Store, x: int, ops: seq<Op>)
    requires x < s.nextId && !Has(s, x)
    ensures !Has(Run(s, ops), x)
    ensures x !in AddedIds(s, ops)
    decreases |ops|
  {
    if |ops| > 0 {
      StepKeepsIds(s, ops[0]);
      AbsentStaysAbsent(Step(s, ops[0]).0, x, ops[1..]);
    }
  }

  /**
   * Once `delete_task(id)` succeeds, no later sequence of calls makes
   * `get_task_by_id(id)` find anything, and no later `add_task` returns `id`.
   */
  lemma DeletedIdNeverReturns(s: Store, id: int, ops: seq<Op>)
    requires Valid(s) && Has(s, id)
    ensures Find(Run(Delete(s, id).0, ops), id) == None
    ensures id !in AddedIds(Delete(s, id).0, ops)
  {
    FindAfterDelete(s, id, id);
    AbsentStaysAbsent(Delete(s, id).0, id, ops);
  }

  /** Example scenario: add "buy milk", add "walk dog", delete 1: ids 1 and 2, and only task 2 is left. */
  lemma ScenarioAddAddDelete()
    ensures var (s1, t1) := Add(Empty(), "buy milk");
            var (s2, t2) := Add(s1, "walk dog");
            var (s3, ok) := Delete(s2, 1);
            && t1 == Task(1, "buy milk", false)
            && t2.id == 2
            && ok
            && Find(s3, 1) == None
            && s3.tasks == [t2]
  {
    var (s1, t1) := Add(Empty(), "buy milk");
    var (s2, t2) := Add(s1, "walk dog");
    assert s2.tasks[0].id == 1;
    FindAfterDelete(s2, 1, 1);
  }

  /** Example scenario: update 99 on an empty store reports not found and leaves the store empty. */
  lemma ScenarioUpdateMissing()
    ensures Update(Empty(), 99, "x") == (Empty(), false)
  {
  }

  /** The store itself accepts an empty description; only the shell rejects it. */
  lemma ScenarioAddEmptyDescription()
    ensures Add(Empty(), "").1 == Task(1, "", false)
  {
  }
}
