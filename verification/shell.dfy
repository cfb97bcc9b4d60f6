/**
 * The decisions the `handle_*` functions and the main loop make before
 * they call the store, with console input already read: a task id as the
 * result of `int(...)` (`None` when it raises `ValueError`), descriptions
 * and the delete confirmation as the raw text typed. Messages are reduced
 * to the `Outcome` they report.
 */
module Shell {
  import opened Options
  import opened Text
  import opened Tasks
  import opened Validation
  import History

  /** What a handler reports. */
  datatype Outcome =
    | ListEmpty
    | NotANumber
    | NotFound(id: int)
    | EmptyDescription
    | Added(task: Task)
    | Updated(id: int)
    | Deleted(id: int)
    | Cancelled
    | AlreadyComplete
    | AlreadyIncomplete
    | MarkedComplete(id: int)
    | MarkedIncomplete(id: int)
  {
    /** The outcomes reported after a store mutation was called. */
    predicate Mutated() {
      Added? || Updated? || Deleted? || MarkedComplete? || MarkedIncomplete?
    }
  }

  /** The store after a handler ran, and what it reported. */
  datatype Reply = Reply(store: Store, outcome: Outcome)

  /** What the view handler shows. */
  datatype Listing = EmptyListing | Listing(total: nat, tasks: seq<Task>)

  /** The guard every id-taking handler runs first: the task to act on, or why there is none. */
  datatype Lookup = Blocked(outcome: Outcome) | Found(task: Task)

  /** The input a handler invocation receives. */
  datatype Request =
    | AddRequest(description: string)
    | UpdateRequest(idInput: Option<int>, description: string)
    | DeleteRequest(idInput: Option<int>, confirmation: string)
    | CompleteRequest(idInput: Option<int>)
    | IncompleteRequest(idInput: Option<int>)

  /**
   * Empty store first, then an id that did not parse, then an id the
   * store does not hold; otherwise the task `get_task_by_id` returns.
   */
  function Locate(s: Store, idInput: Option<int>): (r: Lookup)
    ensures r.Found? <==> |s.tasks| > 0 && idInput.Some? && Has(s, idInput.value)
    ensures r.Found? ==> r.task == Find(s, idInput.value).value && r.task.id == idInput.value
    ensures |s.tasks| == 0 ==> r == Blocked(ListEmpty)
    ensures |s.tasks| > 0 && idInput.None? ==> r == Blocked(NotANumber)
    ensures |s.tasks| > 0 && idInput.Some? && !Has(s, idInput.value) ==> r == Blocked(NotFound(idInput.value))
  {
    if |s.tasks| == 0 then Blocked(ListEmpty)
    else match idInput
      case None => Blocked(NotANumber)
      case Some(id) =>
        match Find(s, id)
        case None => Blocked(NotFound(id))
        case Some(t) => Found(t)
  }

  /** `handle_add_task`: a blank description is refused; otherwise the stripped text is added. */
  function HandleAdd(s: Store, input: string): (r: Reply)
    ensures r.outcome.Added? <==> IsValidTaskDescription(input)
    ensures r.outcome.Added? ==> r == Reply(Add(s, Strip(input)).0, Added(Add(s, Strip(input)).1))
    ensures !r.outcome.Added? ==> r == Reply(s, EmptyDescription)
  {
    var description := Strip(input);
    StrippedDescription(input);
    if !IsValidTaskDescription(description) then Reply(s, EmptyDescription)
    else
      var (s', t) := Add(s, description);
      Reply(s', Added(t))
  }

  /** `handle_view_tasks`: the empty message, or the count and every task in store order. */
  function HandleView(s: Store): (r: Listing)
    ensures r.EmptyListing? <==> |s.tasks| == 0
    ensures r.Listing? ==> r.total == |r.tasks| && r.tasks == AllTasks(s)
    ensures r.Listing? && WellFormed(s) ==>
              && (forall i, j :: 0 <= i < j < |r.tasks| ==> r.tasks[i].id < r.tasks[j].id)
              && (forall i :: 0 <= i < |r.tasks| ==> IsValidTaskDescription(r.tasks[i].description))
  {
    var tasks := AllTasks(s);
    if |tasks| == 0 then EmptyListing else Listing(|tasks|, tasks)
  }

  /**
   * From a fresh store, the count the view shows after any sequence of
   * store calls is the number of adds less the deletes that succeeded.
   */
  lemma ViewCountsAddsMinusDeletes(ops: seq<History.Op>)
    ensures var v := HandleView(History.Run(Empty(), ops));
            && (v.EmptyListing? <==> History.AddCount(ops) == History.DeleteCount(Empty(), ops))
            && (v.Listing? ==> v.total == History.AddCount(ops) - History.DeleteCount(Empty(), ops))
  {
    History.RunLength(Empty(), ops);
  }

  /**
   * `handle_update_task`: after the lookup guard, a blank description is
   * refused; otherwise `update_task` is called with the stripped text.
   */
  function HandleUpdate(s: Store, idInput: Option<int>, input: string): (r: Reply)
    ensures r.outcome.Updated? <==> Locate(s, idInput).Found? && IsValidTaskDescription(input)
    ensures r.outcome.Updated? ==> r.outcome.id == idInput.value
                                   && r.store == Update(s, idInput.value, Strip(input)).0
    ensures !r.outcome.Updated? ==> r.store == s
    ensures Locate(s, idInput).Blocked? ==> r.outcome == Locate(s, idInput).outcome
    ensures Locate(s, idInput).Found? && !IsValidTaskDescription(input) ==> r.outcome == EmptyDescription
  {
    match Locate(s, idInput)
    case Blocked(o) => Reply(s, o)
    case Found(t) =>
      var description := Strip(input);
      StrippedDescription(input);
      if !IsValidTaskDescription(description) then Reply(s, EmptyDescription)
      else Reply(Update(s, t.id, description).0, Updated(t.id))
  }

  /** `handle_delete_task`: after the lookup guard, only a "y"/"yes" reply calls `delete_task`. */
  function HandleDelete(s: Store, idInput: Option<int>, confirmation: string): (r: Reply)
    ensures r.outcome.Deleted? <==> Locate(s, idInput).Found? && IsConfirmation(confirmation)
    ensures r.outcome.Deleted? ==> r.outcome.id == idInput.value
                                   && r.store == Delete(s, idInput.value).0
    ensures !r.outcome.Deleted? ==> r.store == s
    ensures Locate(s, idInput).Blocked? ==> r.outcome == Locate(s, idInput).outcome
    ensures Locate(s, idInput).Found? && !IsConfirmation(confirmation) ==> r.outcome == Cancelled
  {
    match Locate(s, idInput)
    case Blocked(o) => Reply(s, o)
    case Found(t) =>
      if IsConfirmation(confirmation) then Reply(Delete(s, t.id).0, Deleted(t.id))
      else Reply(s, Cancelled)
  }

  /** `handle_mark_complete`: after the lookup guard, a task already complete is left alone. */
  function HandleMarkComplete(s: Store, idInput: Option<int>): (r: Reply)
    ensures r.outcome.MarkedComplete? <==> Locate(s, idInput).Found? && !Locate(s, idInput).task.completed
    ensures r.outcome == AlreadyComplete <==> Locate(s, idInput).Found? && Locate(s, idInput).task.completed
    ensures r.outcome.MarkedComplete? ==> r.outcome.id == idInput.value
                                          && r.store == MarkComplete(s, idInput.value).0
    ensures !r.outcome.MarkedComplete? ==> r.store == s
    ensures Locate(s, idInput).Blocked? ==> r.outcome == Locate(s, idInput).outcome
  {
    match Locate(s, idInput)
    case Blocked(o) => Reply(s, o)
    case Found(t) =>
      if t.completed then Reply(s, AlreadyComplete)
      else Reply(MarkComplete(s, t.id).0, MarkedComplete(t.id))
  }

  /** `handle_mark_incomplete`: after the lookup guard, a task already incomplete is left alone. */
  function HandleMarkIncomplete(s: Store, idInput: Option<int>): (r: Reply)
    ensures r.outcome.MarkedIncomplete? <==> Locate(s, idInput).Found? && Locate(s, idInput).task.completed
    ensures r.outcome == AlreadyIncomplete <==> Locate(s, idInput).Found? && !Locate(s, idInput).task.completed
    ensures r.outcome.MarkedIncomplete? ==> r.outcome.id == idInput.value
                                            && r.store == MarkIncomplete(s, idInput.value).0
    ensures !r.outcome.MarkedIncomplete? ==> r.store == s
    ensures Locate(s, idInput).Blocked? ==> r.outcome == Locate(s, idInput).outcome
  {
    match Locate(s, idInput)
    case Blocked(o) => Reply(s, o)
    case Found(t) =>
      if !t.completed then Reply(s, AlreadyIncomplete)
      else Reply(MarkIncomplete(s, t.id).0, MarkedIncomplete(t.id))
  }

  /** Runs the handler a request is for. */
  function Handle(s: Store, req: Request): (r: Reply)
    ensures !r.outcome.Mutated() ==> r.store == s
    ensures |s.tasks| == 0 && !req.AddRequest? ==> r == Reply(s, ListEmpty)
  {
    match req
    case AddRequest(d) => HandleAdd(s, d)
    case UpdateRequest(id, d) => HandleUpdate(s, id, d)
    case DeleteRequest(id, c) => HandleDelete(s, id, c)
    case CompleteRequest(id) => HandleMarkComplete(s, id)
    case IncompleteRequest(id) => HandleMarkIncomplete(s, id)
  }

  /**
   * Skipping `mark_task_complete` for a task that is already complete
   * loses nothing: the store ends up as the call would have left it.
   */
  lemma MarkCompleteShortCircuit(s: Store, idInput: Option<int>)
    requires Locate(s, idInput).Found?
    ensures HandleMarkComplete(s, idInput).store == MarkComplete(s, idInput.value).0
  {
    var id := idInput.value;
    var t := Locate(s, idInput).task;
    if t.completed {
      var s' := MarkComplete(s, id).0;
      var i := IndexOf(s.tasks, id).value;
      forall k | 0 <= k < |s.tasks|
        ensures s'.tasks[k] == s.tasks[k]
      {
        if IsFirstMatch(s.tasks, k, id) {
          FirstMatchUnique(s.tasks, k, i, id);
        }
      }
      assert s'.tasks == s.tasks;
    }
  }

  /**
   * Skipping `mark_task_incomplete` for a task that is already incomplete
   * loses nothing: the store ends up as the call would have left it.
   */
  lemma MarkIncompleteShortCircuit(s: Store, idInput: Option<int>)
    requires Locate(s, idInput).Found?
    ensures HandleMarkIncomplete(s, idInput).store == MarkIncomplete(s, idInput.value).0
  {
    var id := idInput.value;
    var t := Locate(s, idInput).task;
    if !t.completed {
      var s' := MarkIncomplete(s, id).0;
      var i := IndexOf(s.tasks, id).value;
      forall k | 0 <= k < |s.tasks|
        ensures s'.tasks[k] == s.tasks[k]
      {
        if IsFirstMatch(s.tasks, k, id) {
          FirstMatchUnique(s.tasks, k, i, id);
        }
      }
      assert s'.tasks == s.tasks;
    }
  }

  /**
   * A store the shell has only ever changed: valid, and every description
   * in it non-blank and already stripped.
   */
  predicate WellFormed(s: Store) {
    && Valid(s)
    && forall i :: 0 <= i < |s.tasks| ==>
         IsValidTaskDescription(s.tasks[i].description) && Strip(s.tasks[i].description) == s.tasks[i].description
  }

  lemma AddKeepsWellFormed(s: Store, input: string)
    requires WellFormed(s)
    ensures WellFormed(HandleAdd(s, input).store)
  {
    var s' := HandleAdd(s, input).store;
    if IsValidTaskDescription(input) {
      AddPreservesValid(s, Strip(input));
      StrippedDescription(input);
      StripIdempotent(input);
      forall i | 0 <= i < |s'.tasks|
        ensures IsValidTaskDescription(s'.tasks[i].description)
        ensures Strip(s'.tasks[i].description) == s'.tasks[i].description
      {
        if i < |s.tasks| {
          assert s'.tasks[i] == s.tasks[i];
        }
      }
    }
  }

  lemma UpdateKeepsWellFormed(s: Store, idInput: Option<int>, input: string)
    requires WellFormed(s)
    ensures WellFormed(HandleUpdate(s, idInput, input).store)
  {
    var r := HandleUpdate(s, idInput, input);
    if r.outcome.Updated? {
      var id := idInput.value;
      var d := Strip(input);
      var s' := Update(s, id, d).0;
      UpdatePreservesValid(s, id, d);
      StrippedDescription(input);
      StripIdempotent(input);
      forall k | 0 <= k < |s'.tasks|
        ensures IsValidTaskDescription(s'.tasks[k].description)
        ensures Strip(s'.tasks[k].description) == s'.tasks[k].description
      {
        if !IsFirstMatch(s.tasks, k, id) {
          assert s'.tasks[k].description == s.tasks[k].description;
        }
      }
    }
  }

  lemma DeleteKeepsWellFormed(s: Store, idInput: Option<int>, confirmation: string)
    requires WellFormed(s)
    ensures WellFormed(HandleDelete(s, idInput, confirmation).store)
  {
    var r := HandleDelete(s, idInput, confirmation);
    if r.outcome.Deleted? {
      var s' := r.store;
      DeletePreservesValid(s, idInput.value);
      var i := IndexOf(s.tasks, idInput.value).value;
      forall k | 0 <= k < |s'.tasks|
        ensures IsValidTaskDescription(s'.tasks[k].description)
        ensures Strip(s'.tasks[k].description) == s'.tasks[k].description
      {
        assert s'.tasks[k] == s.tasks[if k < i then k else k + 1];
      }
    }
  }

  lemma MarkCompleteKeepsWellFormed(s: Store, idInput: Option<int>)
    requires WellFormed(s)
    ensures WellFormed(HandleMarkComplete(s, idInput).store)
  {
    if HandleMarkComplete(s, idInput).outcome.MarkedComplete? {
      MarkCompletePreservesValid(s, idInput.value);
    }
  }

  lemma MarkIncompleteKeepsWellFormed(s: Store, idInput: Option<int>)
    requires WellFormed(s)
    ensures WellFormed(HandleMarkIncomplete(s, idInput).store)
  {
    if HandleMarkIncomplete(s, idInput).outcome.MarkedIncomplete? {
      MarkIncompletePreservesValid(s, idInput.value);
    }
  }

  /** Every handler keeps the store well formed. */
  lemma HandlePreservesWellFormed(s: Store, req: Request)
    requires WellFormed(s)
    ensures WellFormed(Handle(s, req).store)
  {
    match req
    case AddRequest(d) =>
      assert Handle(s, req) == HandleAdd(s, d);
      AddKeepsWellFormed(s, d);
    case UpdateRequest(id, d) =>
      assert Handle(s, req) == HandleUpdate(s, id, d);
      UpdateKeepsWellFormed(s, id, d);
    case DeleteRequest(id, c) =>
      assert Handle(s, req) == HandleDelete(s, id, c);
      DeleteKeepsWellFormed(s, id, c);
    case CompleteRequest(id) =>
      assert Handle(s, req) == HandleMarkComplete(s, id);
      MarkCompleteKeepsWellFormed(s, id);
    case IncompleteRequest(id) =>
      assert Handle(s, req) == HandleMarkIncomplete(s, id);
      MarkIncompleteKeepsWellFormed(s, id);
  }

  /** The store after a run of handler invocations. */
  function Session(s: Store, reqs: seq<Request>): Store
    decreases |reqs|
  {
    if |reqs| == 0 then s else Session(Handle(s, reqs[0]).store, reqs[1..])
  }

  /** From a well-formed store, whatever the user types, no stored description is ever blank. */
  lemma {:induction false} SessionKeepsDescriptionsNonBlank(s: Store, reqs: seq<Request>)
    requires WellFormed(s)
    ensures WellFormed(Session(s, reqs))
    ensures forall t :: t in Session(s, reqs).tasks ==> IsValidTaskDescription(t.description)
    decreases |reqs|
  {
    if |reqs| > 0 {
      HandlePreservesWellFormed(s, reqs[0]);
      SessionKeepsDescriptionsNonBlank(Handle(s, reqs[0]).store, reqs[1..]);
    }
  }

  /** A fresh store is well formed, so no session from it ever stores a blank description. */
  lemma FreshSessionKeepsDescriptionsNonBlank(reqs: seq<Request>)
    ensures forall t :: t in Session(Empty(), reqs).tasks ==> IsValidTaskDescription(t.description)
  {
    assert WellFormed(Empty());
    SessionKeepsDescriptionsNonBlank(Empty(), reqs);
  }

  /** The seven menu entries, numbered as `display_menu` lists them. */
  datatype Command = AddTask | ViewTasks | UpdateTask | DeleteTask | CompleteTask | IncompleteTask | Exit

  /** What one pass of the main loop does with the text typed at the menu prompt. */
  datatype Dispatch = Invalid | Ignored | Run(command: Command)

  /** The menu number of a command. */
  function Number(c: Command): (n: int)
    ensures 1 <= n <= 7
  {
    match c
    case AddTask => 1
    case ViewTasks => 2
    case UpdateTask => 3
    case DeleteTask => 4
    case CompleteTask => 5
    case IncompleteTask => 6
    case Exit => 7
  }

  /** The command a menu number selects. */
  function CommandFor(n: int): (c: Command)
    requires 1 <= n <= 7
    ensures Number(c) == n
  {
    if n == 1 then AddTask
    else if n == 2 then ViewTasks
    else if n == 3 then UpdateTask
    else if n == 4 then DeleteTask
    else if n == 5 then CompleteTask
    else if n == 6 then IncompleteTask
    else Exit
  }

  lemma CommandForNumber(c: Command)
    ensures CommandFor(Number(c)) == c
  {
  }

  /** The one-digit text "1" .. "7" of a menu number. */
  function Numeral(n: int): (s: string)
    requires 1 <= n <= 7
    ensures |s| == 1 && '1' <= s[0] <= '7' && s[0] as int - '0' as int == n
  {
    [('0' as int + n) as char]
  }

  /**
   * `main` as written: the typed text is stripped, validated with
   * `int(choice)`, and the handler is then selected by comparing the
   * stripped text with "1" .. "7". `parsed` is what `int(choice)` gives.
   */
  function MenuStepAsWritten(typed: string, parsed: Option<int>): (r: Dispatch)
    ensures r.Invalid? <==> !IsValidMenuChoice(parsed)
    ensures r.Run? ==> Strip(typed) == Numeral(Number(r.command))
    ensures r.Ignored? ==> IsValidMenuChoice(parsed)
                           && forall n :: 1 <= n <= 7 ==> Strip(typed) != Numeral(n)
  {
    var choice := Strip(typed);
    if !IsValidMenuChoice(parsed) then Invalid
    else if choice == "1" then Run(AddTask)
    else if choice == "2" then Run(ViewTasks)
    else if choice == "3" then Run(UpdateTask)
    else if choice == "4" then Run(DeleteTask)
    else if choice == "5" then Run(CompleteTask)
    else if choice == "6" then Run(IncompleteTask)
    else if choice == "7" then Run(Exit)
    else Ignored
  }

  /**
   * The main loop as intended: a choice that passes validation runs the
   * command with that number; anything else is reported invalid.
   */
  function MenuStep(parsed: Option<int>): (r: Dispatch)
    ensures !r.Ignored?
    ensures r.Run? <==> parsed.Some? && 1 <= parsed.value <= 7
    ensures r.Run? ==> Number(r.command) == parsed.value
  {
    if IsValidMenuChoice(parsed) then Run(CommandFor(parsed.value)) else Invalid
  }

  /** On the plain numerals "1" .. "7" the written loop and the intended one agree. */
  lemma MenuStepAgreesOnNumerals(n: int)
    requires 1 <= n <= 7
    ensures MenuStepAsWritten(Numeral(n), Some(n)) == MenuStep(Some(n))
  {
    var numeral := Numeral(n);
    assert LeadingSpace(numeral) == 0 && TrailingSpace(numeral) == 0;
    assert numeral[0..1] == numeral;
  }

  /** Blanks around the number do not matter: " 7 " exits, as the loop strips the input first. */
  lemma MenuStepAsWrittenStripsChoice()
    ensures MenuStepAsWritten(" 7 ", Some(7)) == Run(Exit)
  {
    var typed := " 7 ";
    assert LeadingSpace(typed) == 1 by {
      assert !IsSpace(typed[1]);
      assert LeadingSpace(typed[1..]) == 0;
    }
    assert TrailingSpace(typed) == 1 by {
      assert !IsSpace(typed[1]);
      assert TrailingSpace(typed[..2]) == 0;
    }
    assert typed[1..2] == "7";
  }

  /**
   * `int("07")` is 7, so "07" passes validation, yet it equals none of
   * "1" .. "7": the written loop does nothing and prints nothing, where
   * the intended one exits.
   */
  lemma MenuStepAsWrittenIgnoresPaddedChoice()
    ensures MenuStepAsWritten("07", Some(7)) == Ignored
    ensures MenuStep(Some(7)) == Run(Exit)
  {
    var typed := "07";
    assert LeadingSpace(typed) == 0 && TrailingSpace(typed) == 0;
    assert typed[0..2] == typed;
  }
}
