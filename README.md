# Task store of a small task-tracking API

The API keeps its state in process memory: a list of task records
(`id`, `title`, `description`, `completed`) and an id counter that starts
at 1. Five HTTP handlers act on that state: create, list, get, update and
delete. This project models that store in Dafny and proves what the
handlers promise about it.

- `tasks.dfy`, module `Tasks`: the `Task` record, the `Response` a handler
  answers with (`Ok(value)` or `NotFound`, the 404 branch), and pure
  definitions of each operation on the sequence of tasks (`Find`, `Lookup`,
  `Appended`, `Overwrite`, `Remove`). It also holds the store invariant
  `Inv`, a reference definition `Discard` of "every task but the one with
  this id", and lemmas relating them.
- `store.dfy`, module `App`: class `Store`, which holds the two globals as
  fields `tasks: seq<Task>` and `nextId: int`, plus a ghost log `issued` of
  every id handed out. Each handler is one method. `Create`, `Update` and
  `Delete` change the store and tie the new state to the pure definitions.
  `Get` and the shared search loop `IndexOf` only read, and `List` is a
  function. `CrudSession` runs the test suite's sequence on a fresh store:
  create, list, get, update, get, delete and get. It also checks more than
  the suite does: the id 1, the count 1, that update and delete answer
  `Ok`, a second delete, and a final create that does not reuse the
  deleted id.

The invariant `Store.Valid()` says three things:
- the counter is at least 1;
- every stored id lies in `[1, nextId)`;
- ids strictly increase along the list, so ids are distinct and list order is creation order.

`issued` is exactly `[1, …, nextId - 1]`. `Create` appends the counter to
it. `Update` and `Delete` leave it, and the counter, untouched. So an id
is never handed out twice, even after its task was deleted.

The record's constructor is not part of this model. That it starts a task
with `completed` false is an assumption of `Create`, written as the
constant `Tasks.InitialCompleted`, and not something proved here.

Create answers with the new id only (app.py:17); update writes all three
fields without checking them (app.py:52-54).

## Model

| member | source | states |
|---|---|---|
| `Tasks.AscendingIsUnique` | app.py:7-8 | ids that increase along the list are pairwise distinct |
| `Tasks.Find` | app.py:42-45 | the result is the position of the first task with the id, or none exactly when no task has it |
| `Tasks.Lookup` | app.py:31-37 | an `Ok` answer is a stored task with the asked id; `NotFound` exactly when no stored task has that id |
| `Tasks.LookupUnique` | app.py:33-35 | with distinct ids, getting a stored task's id answers with that very task |
| `Tasks.Appended` | app.py:14-16 | the tasks plus one new task at the end: the earlier tasks stay as the prefix, and the new one has the counter as id, the given title, the description or "" when omitted, and `InitialCompleted` |
| `Tasks.CreateKeepsInv` | app.py:14-16 | appending a task with the counter as id and bumping the counter preserves the invariant |
| `Tasks.CreateIdIsFresh` | app.py:14-15 | under the invariant, the counter is the id of no stored task |
| `Tasks.CreateAppends` | app.py:14-16 | create adds one task at the end, leaves the earlier tasks and their order intact, and a get of the new id returns the given title, the description or "" when omitted, and the initial flag |
| `Tasks.Overwrite` | app.py:40-54 | update answers `NotFound` exactly when no task has the id |
| `Tasks.UpdateFrame` | app.py:52-54 | with distinct ids, update keeps the length and every id and position, sets the task with the id to the new title, description and completed, and leaves every other task equal |
| `Tasks.UpdateKeepsInv` | app.py:52-54 | a successful update preserves the invariant under the same counter |
| `Tasks.GetAfterUpdate` | tests.py:50-55 | after a successful update, a get of the id returns the new values |
| `Tasks.UpdateIdempotent` | app.py:52-54 | applying the same update to its own result succeeds and changes nothing |
| `Tasks.Remove` | app.py:60-71 | delete answers `NotFound` exactly when no task has the id, and otherwise shortens the list by one |
| `Tasks.Discard` | app.py:71 | reference: no longer than the input, and no task in it has the id |
| `Tasks.DiscardMembers` | app.py:71 | a task is in the reference result exactly when it is in the input and has another id |
| `Tasks.DeleteIsDiscard` | app.py:62-71 | with distinct ids, a successful delete equals the reference result, so it keeps the other tasks in their original relative order; a task remains exactly when it was stored and has another id |
| `Tasks.DeleteKeepsOrder` | app.py:71 | the tasks before the removed one keep their positions, the ones after it move down by one |
| `Tasks.DeleteKeepsInv` | app.py:71 | a successful delete preserves the invariant under the same counter |
| `Tasks.GetAfterDelete` | tests.py:63-65 | after a successful delete, a get of that id answers `NotFound` |
| `App.ValidIdsUnique` | app.py:7-8 | a store that satisfies its invariant holds no two tasks with the same id |
| `App.Store.constructor` | app.py:7-8 | the store starts empty with the counter at 1 and holds the invariant |
| `App.Store.Create` | app.py:11-17 | the new id is the old counter; the counter grows by exactly one; the task is appended and a get of the new id returns it; the invariant holds; the id is logged as issued, exceeds every earlier issued id and was used by no stored task |
| `App.Store.List` | app.py:20-28 | returns every stored task in insertion order with `total` equal to their number; ids increase along the list |
| `App.Store.Get` | app.py:31-37 | the scan with early return answers as `Lookup`: a stored task with the id, or `NotFound` exactly when none has it |
| `App.Store.IndexOf` | app.py:62-66 | the search loop with `break` stops at the first task with the id, as `Find` |
| `App.Store.Update` | app.py:40-57 | `NotFound` with the store unchanged when the id is absent; otherwise the tasks become `Overwrite`'s result and a get of the id returns the new values; counter and issued ids unchanged; invariant preserved |
| `App.Store.Delete` | app.py:60-73 | `NotFound` with the store unchanged when the id is absent; otherwise the tasks become `Remove`'s result and a get of the id answers `NotFound`; counter and issued ids unchanged; invariant preserved |
| `App.CrudSession` | tests.py:8-65 | following the suite and going beyond it, on a fresh store the first create gets id 1, the list counts 1, a get returns the created task, the update succeeds and a get reads the new values, the delete succeeds, a later get and a second delete answer `NotFound`, and the next create gets id 2 |

## Left out

- HTTP routing, JSON parsing and serialisation, status codes and `app.run` (app.py:1-5, 13, 17, 75-76). They are library glue; each handler's outcome is its `Response` value.
- The confirmation and error message strings. They carry no behaviour.
- The `print` calls in update and delete (app.py:47, 55, 63). They are output only.
- Missing JSON fields (`KeyError` on `title`, `description` or `completed`). The inputs are typed parameters instead. An omitted create description is modelled as `None`, which becomes "".
- `models/task.py` is not part of this model. `Task` is a plain datatype, `to_dict` is the identity, and `completed` starting false is the assumption `InitialCompleted`.
- Tasks are mutable objects in app.py; the model treats them as values. Only the list refers to them, so the update writes the new record back in the task's own position. `tasks.remove(task)` removes the first element equal to the found task. That element is the found task itself, at the found position, when `Task` compares by identity (Python's default) or by id, since ids are distinct. `models/task.py` is not part of this model, so its equality is an assumption.
- Concurrency: the globals are not synchronised, and the model assumes one request at a time.
- Path parsing of `<int:id>`: the model takes any integer id.
