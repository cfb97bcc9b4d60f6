# Todo console application: the task store and its guards, in Dafny

This project models the in-memory to-do list of `todo_app.py`. The model covers:

- the `Task` record (id, description, completion flag, which starts out false);
- the `TaskManager`: a list of tasks in insertion order plus a `next_id` counter that starts at 1 and is never reused. Its methods are `add_task`, `get_task_by_id`, `get_all_tasks`, `update_task`, `delete_task`, `mark_task_complete` and `mark_task_incomplete`;
- the two validators `is_valid_menu_choice` and `is_valid_task_description`;
- the decisions the `handle_*` functions and `main` make before they call the store. These are the empty-list block, the id guard, the blank-description check, the y/yes delete confirmation and the "already complete/incomplete" short-circuit.

The model is functional. A `Store` value stands for the manager's state. Each method is a pure function that returns the new store together with what the method returns (`bool`, `Task` or `Option<Task>`). Console input reaches the handlers already read. A task id comes as the result of `int(...)`, an `Option<int>` that is `None` when `int` raises `ValueError`. Descriptions and the confirmation come as the raw text typed.

Modules:

- `Options` (options.dfy): `Option`.
- `Text` (text.dfy): `str.strip()` over Python's `str.isspace` set, and ASCII `lower()`.
- `Tasks` (tasks.dfy): `Task`, `Store`, the store invariant `Valid`, every `TaskManager` method, the frame lemmas and the invariant lemmas.
- `History` (history.dfy): sequences of store calls. Covers list length, id allocation and deleted ids never coming back, plus some example scenarios.
- `Validation` (validation.dfy): the two validators and the delete confirmation.
- `Shell` (shell.dfy): the handler guards and the main-loop dispatch.

## Model

| member | source | states |
|---|---|---|
| Tasks.Empty | todo_app.py:68-73 | a new manager holds no task, its counter is 1, and the store invariant holds |
| Tasks.IndexOf | todo_app.py:89-92 | the scan stops at the first task carrying the id; when it finds none, no task carries the id |
| Tasks.Find | todo_app.py:84-92 | `get_task_by_id` yields a task exactly when some stored task has that id; the task it yields has that id, is in the list, and is the first such |
| Tasks.FindStored | todo_app.py:84-92 | in a valid store, looking up the id of any stored task yields exactly that task (ids are unique) |
| Tasks.AllTasks | todo_app.py:94-98 | the listing is the stored tasks themselves: same length, and at each position the same id, description and flag, in insertion order; in a valid store its ids increase along the list |
| Tasks.Add | todo_app.py:34-42 | the new task gets the counter's value, the given description and `completed = false`; it is appended after the unchanged earlier tasks and the counter grows by one |
| Tasks.AddPreservesValid | todo_app.py:75-82 | adding keeps ids in [1, next_id), strictly increasing along the list |
| Tasks.FindAfterAdd | todo_app.py:75-92 | after an add, the new id finds the new task and every other id finds what it found before |
| Tasks.Update | todo_app.py:100-108 | true exactly when the id is present; only the description of the first task with that id changes (ids, flags, other tasks, order, length and counter stay as they were); a missing id returns false and leaves the store as it was |
| Tasks.UpdatePreservesValid | todo_app.py:100-108 | updating keeps the store invariant |
| Tasks.FindAfterUpdate | todo_app.py:100-108 | after updating a stored id, looking it up gives the old task with only its description replaced |
| Tasks.MarkComplete | todo_app.py:120-128 | true exactly when the id is present; only the first matching task's flag changes, and it becomes true; a missing id returns false and changes nothing |
| Tasks.MarkCompletePreservesValid | todo_app.py:120-128 | marking complete keeps the store invariant |
| Tasks.MarkCompleteIdempotent | todo_app.py:120-128 | marking complete twice gives the same store and the same answer as marking once |
| Tasks.MarkIncomplete | todo_app.py:130-138 | true exactly when the id is present; only the first matching task's flag changes, and it becomes false; a missing id returns false and changes nothing |
| Tasks.MarkIncompletePreservesValid | todo_app.py:130-138 | marking incomplete keeps the store invariant |
| Tasks.MarkIncompleteIdempotent | todo_app.py:130-138 | marking incomplete twice gives the same store and the same answer as marking once |
| Tasks.Delete | todo_app.py:110-118 | true exactly when the id is present; then the list loses exactly the found task (as multisets) and the others keep their relative order; the counter never changes; a missing id returns false and leaves the store as it was |
| Tasks.DeletePreservesValid | todo_app.py:110-118 | deleting keeps the store invariant |
| Tasks.RemoveAt | todo_app.py:116 | removing one position keeps the earlier elements, shifts the later ones down by one, and loses exactly that element |
| Tasks.DeleteRemovesId | todo_app.py:110-118 | in a valid store, after a delete no task carries the deleted id |
| Tasks.DeleteKeepsOtherIds | todo_app.py:110-118 | after a delete, every other id is held exactly when it was held before |
| Tasks.FindAfterDelete | todo_app.py:110-118 | after a delete, the deleted id finds nothing and every other id finds what it found before |
| History.Step | todo_app.py:75-138 | each store call moves the counter by one exactly for an add, changes the length by +1 for an add and -1 for a successful delete, and reports true for every add |
| History.StepPreservesValid | todo_app.py:75-138 | every store call keeps the store invariant |
| History.StepKeepsIds | todo_app.py:75-138 | after any store call, every id present was present before or is the counter's value handed out by an add |
| History.RunPreservesValid | todo_app.py:68-138 | any sequence of store calls keeps the store invariant |
| History.RunLength | todo_app.py:75-118 | the list length equals the number of adds minus the number of deletes that returned true |
| History.RunNextId | todo_app.py:72-81 | the counter equals its start plus the number of adds, so it never decreases |
| History.AddedIdsConsecutive | todo_app.py:72-81 | the k-th add of any call sequence returns the counter's start plus k, whatever deletes come in between |
| History.IdsFromOne | todo_app.py:72-81 | from a fresh manager the ids handed out are 1, 2, 3, ... |
| History.AbsentStaysAbsent | todo_app.py:72-118 | an id below the counter that no task holds never comes back into the store and is never returned by a later add |
| History.DeletedIdNeverReturns | todo_app.py:110-118 | once a delete of a stored id succeeds, no later sequence of calls lets `get_task_by_id` find it or an add return it |
| History.ScenarioAddAddDelete | todo_app.py:75-118 | example scenario: add "buy milk" gives task 1, incomplete; add "walk dog" gives task 2; deleting 1 succeeds; 1 is then not found and only task 2 is left |
| History.ScenarioUpdateMissing | todo_app.py:100-108 | example scenario: updating id 99 on an empty store returns false and the store stays empty |
| History.ScenarioAddEmptyDescription | todo_app.py:75-82 | the store itself accepts an empty description |
| Text.Strip | todo_app.py:375 | `strip()` returns a slice of the input with only whitespace outside it; the slice is empty exactly for all-whitespace text, and otherwise neither starts nor ends with whitespace |
| Text.StripIdempotent | todo_app.py:210-216 | stripping text that is already stripped changes nothing |
| Validation.IsValidTaskDescription | todo_app.py:371-375 | a description is valid exactly when it holds a character that is not whitespace |
| Validation.StrippedDescription | todo_app.py:210-216 | validating the stripped text gives the same verdict as the raw text, and a valid stripped text neither starts nor ends with whitespace |
| Validation.IsConfirmation | todo_app.py:290-292 | the reply confirms exactly when, once stripped, it spells "y" or "yes" in any mix of upper and lower case |
| Validation.ConfirmationAcceptsY | todo_app.py:290-292 | the answer "y" confirms |
| Validation.ConfirmationAcceptsPaddedYes | todo_app.py:290-292 | " YES " confirms: case and surrounding blanks do not matter |
| Validation.ConfirmationRejects | todo_app.py:290-296 | "", "n" and "yess" cancel |
| Shell.Locate | todo_app.py:242-255 | the handlers' guard reports the empty list first, then an id that is not a number, then a missing id; otherwise it gives the task `get_task_by_id` returns |
| Shell.HandleAdd | todo_app.py:205-217 | a blank description is refused with the store untouched; otherwise the stripped text is added and the new task reported |
| Shell.HandleView | todo_app.py:220-233 | an empty store shows the empty message; otherwise the count and every task in store order; on a store the handlers built, the listed ids increase and no listed description is blank |
| Shell.ViewCountsAddsMinusDeletes | todo_app.py:220-233 | from a fresh store, after any store calls, the view shows the empty message exactly when adds equal successful deletes, and otherwise shows adds minus successful deletes as the count |
| Shell.HandleUpdate | todo_app.py:236-265 | `update_task` is called exactly when the guard finds the task and the description is not blank, and then with the stripped text; in every other case the store is untouched and the guard's or the blank-description error is reported |
| Shell.HandleDelete | todo_app.py:268-296 | `delete_task` is called exactly when the guard finds the task and the reply confirms; a found task with any other reply is cancelled; otherwise the store is untouched |
| Shell.HandleMarkComplete | todo_app.py:299-325 | `mark_task_complete` is called exactly when the found task is incomplete; a complete task is reported as already complete with no store call |
| Shell.HandleMarkIncomplete | todo_app.py:328-354 | `mark_task_incomplete` is called exactly when the found task is complete; an incomplete task is reported as already incomplete with no store call |
| Shell.Handle | todo_app.py:181-193 | a handler changes the store only when it reports a mutation; on an empty store every handler except add reports the empty list and changes nothing |
| Shell.MarkCompleteShortCircuit | todo_app.py:320-325 | skipping the call for an already-complete task leaves the store exactly as the call would have |
| Shell.MarkIncompleteShortCircuit | todo_app.py:349-354 | skipping the call for an already-incomplete task leaves the store exactly as the call would have |
| Shell.AddKeepsWellFormed | todo_app.py:205-217 | after the add handler, the store is valid and every description is non-blank and stripped |
| Shell.UpdateKeepsWellFormed | todo_app.py:236-265 | after the update handler, the store is valid and every description is non-blank and stripped |
| Shell.DeleteKeepsWellFormed | todo_app.py:268-296 | after the delete handler, the store is valid and every description is non-blank and stripped |
| Shell.MarkCompleteKeepsWellFormed | todo_app.py:299-325 | after the mark-complete handler, the store is valid and every description is non-blank and stripped |
| Shell.MarkIncompleteKeepsWellFormed | todo_app.py:328-354 | after the mark-incomplete handler, the store is valid and every description is non-blank and stripped |
| Shell.HandlePreservesWellFormed | todo_app.py:205-354 | every handler keeps the store valid with non-blank, stripped descriptions |
| Shell.SessionKeepsDescriptionsNonBlank | todo_app.py:175-198 | from a well-formed store, whatever the user types over a session, no stored description is ever empty or all whitespace |
| Shell.FreshSessionKeepsDescriptionsNonBlank | todo_app.py:175-198 | from the fresh store `main` creates, whatever the user types, no stored description is ever empty or all whitespace |
| Shell.CommandFor | todo_app.py:182-196 | menu numbers 1..7 select the seven commands, and each command's number is the one that selected it |
| Shell.MenuStepAsWritten | todo_app.py:179-198 | as written: the typed text is stripped; an invalid choice is reported; a valid one runs a handler only when the stripped text is exactly one of "1".."7", and otherwise nothing runs |
| Shell.MenuStep | todo_app.py:361-368 | as intended: a command runs exactly when the parsed choice lies in 1..7, and it is the command with that number; nothing is silently ignored |
| Validation.IsValidMenuChoice | todo_app.py:361-368 | true exactly when `int(choice)` succeeded and the value lies in 1..7 |
| Shell.MenuStepAsWrittenStripsChoice | todo_app.py:179-196 | " 7 " exits: blanks around the number are stripped before the comparison |
| Shell.MenuStepAgreesOnNumerals | todo_app.py:181-196 | on the plain numerals "1".."7", the loop as written and as intended agree |
| Shell.MenuStepAsWrittenIgnoresPaddedChoice | todo_app.py:181-198 | "07", which `int` reads as 7, passes validation but runs nothing as written, where the intended loop exits |

## Left out

- Console I/O is not modelled: `display_menu`, the prompts and printed messages, and the read loop of `main`. Handler messages are reduced to an `Outcome` value, and typed input is a parameter.
- `Task.__str__` (the ✓/○ rendering) is presentation only.
- Python's `int()` string parsing (signs, surrounding blanks, underscores, non-ASCII digits) is not modelled. Its result is a parameter, `Option<int>`.
- `Text.IsSpace` is the fixed whitespace set of `str.isspace` written out by code point. It is not derived from the Unicode database.
- Validation.IsConfirmation: `lower()` is modelled for ASCII letters only. No non-ASCII character lower-cases to "y", "e" or "s", so membership in {"y", "yes"} is decided the same way.
- Tasks.AllTasks: `get_all_tasks` returns the manager's own list object, so a caller could mutate it. The model returns the current sequence value and claims no defensive copy. Aliasing is not modelled.
- Object identity is not modelled. Python's `list.remove(task)` removes the object found by the scan, which is the element at the scan's position, so the model deletes at that index.
- The Exit command only shows up as a dispatch result. Loop termination is not modelled.

Two behaviours of the code that a reader might not expect are modelled as written:
- `get_all_tasks` returns its internal list (todo_app.py:98), not a copy (see above).
- `add_task` accepts any text, including empty text. Only the handlers refuse blank text (todo_app.py:212, 260), as `History.ScenarioAddEmptyDescription` and `Shell.SessionKeepsDescriptionsNonBlank` show.

## Findings

| source | as written | input that shows it | evidently intended | confidence | as-written member | corrected member |
|---|---|---|---|---|---|---|
| todo_app.py:181-196 | `main` validates the choice with `int(choice)` but picks the handler by comparing the stripped text with "1".."7". A choice that parses into range but is spelled differently matches no branch, so nothing runs, no error is printed, and the menu just reappears | "07" (also "+7"): `int` gives 7, so validation passes, but "07" != "7", so the program does not exit | dispatch on the validated integer, so "07" runs Exit like "7" | medium, not executed | Shell.MenuStepAsWrittenIgnoresPaddedChoice | Shell.MenuStep |
