/** The process-wide task store of the API: the list of tasks and the id
    counter, with one method per HTTP handler. The handlers' JSON and
    status-code glue is reduced to the Response value each returns. */
module App {
  import opened Tasks

  class Store {
    /** The tasks, in insertion order. */
    var tasks: seq<Task>
    /** The id the next created task gets. */
    var nextId: int
    /** Every id handed out so far, in the order it was handed out. */
    ghost var issued: seq<int>

    ghost predicate Valid()
      reads this
    {
      Inv(tasks, nextId)
      && |issued| == nextId - 1
      && (forall k :: 0 <= k < |issued| ==> issued[k] == k + 1)
    }

    /** Process start: no tasks, the counter at 1. */
    constructor ()
      ensures Valid()
      ensures tasks == [] && nextId == 1 && issued == []
    {
      tasks := [];
      nextId := 1;
      issued := [];
    }

    /** POST /tasks. The new task takes the counter as id, the counter grows
        by one and the task goes to the end; earlier tasks are untouched.
        The id was never handed out before and exceeds every earlier one. */
    method Create(title: string, description: Option<string>) returns (id: int)
      requires Valid()
      modifies this
      ensures Valid()
      ensures id == old(nextId) && nextId == old(nextId) + 1
      ensures tasks == Appended(old(tasks), id, title, description)
      ensures issued == old(issued) + [id]
      ensures forall k :: 0 <= k < |old(issued)| ==> old(issued)[k] < id
      ensures Lookup(old(tasks), id) == NotFound
      ensures Lookup(tasks, id) == Ok(Task(id, title, if description.Some? then description.value else "", InitialCompleted))
    {
      CreateIdIsFresh(tasks, nextId);
      CreateAppends(tasks, nextId, title, description);
      CreateKeepsInv(tasks, nextId, title, description);
      var d := match description case Some(s) => s case None => "";
      var newTask := Task(nextId, title, d, InitialCompleted);
      id := newTask.id;
      nextId := nextId + 1;
      issued := issued + [id];
      tasks := tasks + [newTask];
      assert tasks == Appended(old(tasks), id, title, description);
    }

    /** GET /tasks: every task in insertion order, which is the order of
        creation, and their number. */
    function List(): (r: Listing)
      reads this
      requires Valid()
      ensures r.total == |r.tasks| && r.tasks == tasks
      ensures forall i, j :: 0 <= i < j < |r.tasks| ==> r.tasks[i].id < r.tasks[j].id
    {
      Listing(tasks, |tasks|)
    }

    /** GET /tasks/<id>: a scan that returns the first match, or NotFound
        when the scan runs off the end. Changes nothing. */
    method Get(id: int) returns (r: Response<Task>)
      ensures r == Lookup(tasks, id)
      ensures r.Ok? ==> r.value in tasks && r.value.id == id
      ensures r.NotFound? <==> forall t :: t in tasks ==> t.id != id
    {
      var i := 0;
      while i < |tasks|
        invariant 0 <= i <= |tasks|
        invariant forall k :: 0 <= k < i ==> tasks[k].id != id
      {
        if tasks[i].id == id {
          return Ok(tasks[i]);
        }
        i := i + 1;
      }
      return NotFound;
    }

    /** The search loop that PUT and DELETE run before acting: stop at the
        first task with the id. */
    method IndexOf(id: int) returns (found: Option<nat>)
      ensures found == Find(tasks, id)
    {
      found := None;
      var i := 0;
      while i < |tasks|
        invariant 0 <= i <= |tasks|
        invariant forall k :: 0 <= k < i ==> tasks[k].id != id
      {
        if tasks[i].id == id {
          found := Some(i);
          break;
        }
        i := i + 1;
      }
    }

    /** PUT /tasks/<id>. NotFound leaves the store as it was; otherwise the
        task with the id gets the new title, description and completed flag
        in place. The counter and the issued ids never change. */
    method Update(id: int, title: string, description: string, completed: bool) returns (r: Response<()>)
      requires Valid()
      modifies this
      ensures Valid()
      ensures nextId == old(nextId) && issued == old(issued)
      ensures match Overwrite(old(tasks), id, title, description, completed)
        case NotFound => r == NotFound && tasks == old(tasks)
        case Ok(ts) => r == Ok(()) && tasks == ts
      ensures r.Ok? ==> Lookup(tasks, id) == Ok(Task(id, title, description, completed))
    {
      var found := IndexOf(id);
      if found.None? {
        return NotFound;
      }
      var i := found.value;
      ValidIdsUnique(this);
      GetAfterUpdate(tasks, id, title, description, completed);
      UpdateKeepsInv(tasks, nextId, id, title, description, completed);
      tasks := tasks[i := tasks[i].(title := title, description := description, completed := completed)];
      return Ok(());
    }

    /** DELETE /tasks/<id>. NotFound leaves the store as it was; otherwise
        the task with the id leaves the list. The counter and the issued ids
        never change, so the deleted id is not handed out again. */
    method Delete(id: int) returns (r: Response<()>)
      requires Valid()
      modifies this
      ensures Valid()
      ensures nextId == old(nextId) && issued == old(issued)
      ensures match Remove(old(tasks), id)
        case NotFound => r == NotFound && tasks == old(tasks)
        case Ok(ts) => r == Ok(()) && tasks == ts
      ensures r.Ok? ==> Lookup(tasks, id) == NotFound
    {
      var found := IndexOf(id);
      if found.None? {
        return NotFound;
      }
      var i := found.value;
      ValidIdsUnique(this);
      GetAfterDelete(tasks, id);
      DeleteKeepsInv(tasks, nextId, id);
      tasks := tasks[..i] + tasks[i + 1..];
      return Ok(());
    }
  }

  /** A valid store holds no two tasks with the same id, which is what the
      update and delete lemmas need. */
  lemma ValidIdsUnique(s: Store)
    requires s.Valid()
    ensures UniqueIds(s.tasks)
  {
    AscendingIsUnique(s.tasks);
  }

  /** A session on a fresh store in the order of the API's test suite:
      create a task, list, read it back, update it, read it back, delete
      it, read it again. It checks more than the suite does: the id 1, the
      count 1, that update and delete answer Ok, a second delete, and a
      final create, which must not reuse the deleted id. */
  method CrudSession() returns (created: int, afterCreate: Response<Task>, total: nat, updated: Response<()>,
                                afterUpdate: Response<Task>, deleted: Response<()>, afterDelete: Response<Task>,
                                deletedAgain: Response<()>, recreated: int)
    ensures created == 1 && total == 1
    ensures afterCreate == Ok(Task(1, "Nova tarefa", "Descrição da nova tarefa", InitialCompleted))
    ensures updated == Ok(()) && afterUpdate == Ok(Task(1, "Titulo atualizado", "Nova descrição", true))
    ensures deleted == Ok(()) && afterDelete == NotFound && deletedAgain == NotFound
    ensures recreated == 2
  {
    var store := new Store();
    created := store.Create("Nova tarefa", Some("Descrição da nova tarefa"));
    total := store.List().total;
    afterCreate := store.Get(created);
    updated := store.Update(created, "Titulo atualizado", "Nova descrição", true);
    afterUpdate := store.Get(created);
    deleted := store.Delete(created);
    afterDelete := store.Get(created);
    deletedAgain := store.Delete(created);
    recreated := store.Create("Outra tarefa", None);
  }
}
