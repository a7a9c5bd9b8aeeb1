/** The values the task API works on: a task record, the answer a
    handler gives (a value or NotFound, the 404 branch), and pure
    definitions of what each store operation does to the sequence of
    tasks, together with the store invariant and the lemmas about them. */
module Tasks {

  /** One to-do record as the API serves it. */
  datatype Task = Task(id: int, title: string, description: string, completed: bool)

  datatype Option<T> = None | Some(value: T)

  /** Either the value a handler answers with, or NotFound (HTTP 404). */
  datatype Response<T> = Ok(value: T) | NotFound

  /** The flag a freshly created task carries. The record's constructor is
      not part of this model; the store assumes it starts tasks as not
      completed. */
  const InitialCompleted := false

  /** The answer of GET /tasks: the tasks and their number. */
  datatype Listing = Listing(tasks: seq<Task>, total: nat)

  // ---------------------------------------------------------------------
  // The store invariant

  /** No two tasks share an id. */
  ghost predicate UniqueIds(ts: seq<Task>)
  {
    forall i, j :: 0 <= i < j < |ts| ==> ts[i].id != ts[j].id
  }

  /** Ids grow with position: the order of the list is creation order. */
  ghost predicate Ascending(ts: seq<Task>)
  {
    forall i, j :: 0 <= i < j < |ts| ==> ts[i].id < ts[j].id
  }

  /** Every id in the store was issued by the counter: it lies in
      [1, counter). */
  ghost predicate Issued(ts: seq<Task>, counter: int)
  {
    forall i :: 0 <= i < |ts| ==> 1 <= ts[i].id < counter
  }

  /** The invariant of the store: the counter is at least 1, every stored
      id is below it, and ids increase along the list. */
  ghost predicate Inv(ts: seq<Task>, counter: int)
  {
    1 <= counter && Issued(ts, counter) && Ascending(ts)
  }

  lemma AscendingIsUnique(ts: seq<Task>)
    requires Ascending(ts)
    ensures UniqueIds(ts)
  {
  }

  // ---------------------------------------------------------------------
  // Search

  /** The position of the first task with the given id, if any: the
      linear scan the get, update and delete handlers run. */
  function Find(ts: seq<Task>, id: int): (r: Option<nat>)
    ensures r.Some? ==> r.value < |ts| && ts[r.value].id == id
    ensures r.Some? ==> forall k :: 0 <= k < r.value ==> ts[k].id != id
    ensures r.None? <==> forall k :: 0 <= k < |ts| ==> ts[k].id != id
  {
    if ts == [] then None
    else if ts[0].id == id then Some(0)
    else match Find(ts[1..], id)
      case None => None
      case Some(k) => Some(k + 1)
  }

  /** GET /tasks/<id>: the task with that id, or NotFound. */
  function Lookup(ts: seq<Task>, id: int): (r: Response<Task>)
    ensures r.Ok? ==> r.value in ts && r.value.id == id
    ensures r.NotFound? <==> forall t :: t in ts ==> t.id != id
  {
    match Find(ts, id)
    case None => NotFound
    case Some(i) => Ok(ts[i])
  }

  lemma LookupUnique(ts: seq<Task>, i: nat)
    requires UniqueIds(ts) && i < |ts|
    ensures Lookup(ts, ts[i].id) == Ok(ts[i])
  {
  }

  // ---------------------------------------------------------------------
  // Create

  /** POST /tasks: the new task gets the counter as its id and goes to the
      end of the list; a missing description becomes the empty string. */
  function Appended(ts: seq<Task>, counter: int, title: string, description: Option<string>): (r: seq<Task>)
    ensures |r| == |ts| + 1 && r[..|ts|] == ts
    ensures r[|ts|].id == counter && r[|ts|].title == title && r[|ts|].completed == InitialCompleted
    ensures r[|ts|].description == if description.Some? then description.value else ""
  {
    var d := match description case Some(s) => s case None => "";
    ts + [Task(counter, title, d, InitialCompleted)]
  }

  lemma CreateKeepsInv(ts: seq<Task>, counter: int, title: string, description: Option<string>)
    requires Inv(ts, counter)
    ensures Inv(Appended(ts, counter, title, description), counter + 1)
  {
  }

  /** No stored task has the counter as its id, since every stored id is
      below it. */
  lemma CreateIdIsFresh(ts: seq<Task>, counter: int)
    requires Inv(ts, counter)
    ensures Lookup(ts, counter) == NotFound
  {
  }

  lemma CreateAppends(ts: seq<Task>, counter: int, title: string, description: Option<string>)
    requires Inv(ts, counter)
    ensures var r := Appended(ts, counter, title, description);
      |r| == |ts| + 1 && r[..|ts|] == ts
      && Lookup(r, counter) == Ok(Task(counter, title, if description.Some? then description.value else "", InitialCompleted))
  {
  }

  // ---------------------------------------------------------------------
  // Update

  /** PUT /tasks/<id>: overwrite title, description and completed of the
      first task with that id, keeping its id and position; NotFound when
      no task has the id. */
  function Overwrite(ts: seq<Task>, id: int, title: string, description: string, completed: bool): (r: Response<seq<Task>>)
    ensures r.NotFound? <==> forall t :: t in ts ==> t.id != id
  {
    match Find(ts, id)
    case None => NotFound
    case Some(i) => Ok(ts[i := ts[i].(title := title, description := description, completed := completed)])
  }

  /** Update changes exactly the task with the id and nothing else. */
  lemma UpdateFrame(ts: seq<Task>, id: int, title: string, description: string, completed: bool)
    requires UniqueIds(ts)
    requires Overwrite(ts, id, title, description, completed).Ok?
    ensures var r := Overwrite(ts, id, title, description, completed).value;
      |r| == |ts|
      && forall k :: 0 <= k < |ts| ==>
           r[k].id == ts[k].id
           && (ts[k].id == id ==> r[k] == Task(id, title, description, completed))
           && (ts[k].id != id ==> r[k] == ts[k])
  {
  }

  lemma UpdateKeepsInv(ts: seq<Task>, counter: int, id: int, title: string, description: string, completed: bool)
    requires Inv(ts, counter)
    requires Overwrite(ts, id, title, description, completed).Ok?
    ensures Inv(Overwrite(ts, id, title, description, completed).value, counter)
  {
  }

  /** A later GET of the id answers with the values just written. */
  lemma GetAfterUpdate(ts: seq<Task>, id: int, title: string, description: string, completed: bool)
    requires UniqueIds(ts)
    requires Overwrite(ts, id, title, description, completed).Ok?
    ensures Lookup(Overwrite(ts, id, title, description, completed).value, id)
         == Ok(Task(id, title, description, completed))
  {
    var r := Overwrite(ts, id, title, description, completed).value;
    var i := Find(ts, id).value;
    UpdateFrame(ts, id, title, description, completed);
    assert UniqueIds(r) by {
      forall a, b | 0 <= a < b < |r| ensures r[a].id != r[b].id {
        assert r[a].id == ts[a].id && r[b].id == ts[b].id;
      }
    }
    LookupUnique(r, i);
  }

  /** Sending the same PUT twice leaves the store as sending it once. */
  lemma {:induction false} UpdateIdempotent(ts: seq<Task>, id: int, title: string, description: string, completed: bool)
    requires Overwrite(ts, id, title, description, completed).Ok?
    ensures var once := Overwrite(ts, id, title, description, completed).value;
      Overwrite(once, id, title, description, completed) == Ok(once)
  {
    var i := Find(ts, id).value;
    var once := Overwrite(ts, id, title, description, completed).value;
    assert Find(once, id) == Some(i) by {
      assert once[i].id == id;
      assert forall k :: 0 <= k < i ==> once[k] == ts[k];
    }
    assert once[i := once[i].(title := title, description := description, completed := completed)] == once;
  }

  // ---------------------------------------------------------------------
  // Delete

  /** DELETE /tasks/<id>: drop the first task with that id; NotFound when
      no task has the id. */
  function Remove(ts: seq<Task>, id: int): (r: Response<seq<Task>>)
    ensures r.NotFound? <==> forall t :: t in ts ==> t.id != id
    ensures r.Ok? ==> |r.value| == |ts| - 1
  {
    match Find(ts, id)
    case None => NotFound
    case Some(i) => Ok(ts[..i] + ts[i + 1..])
  }

  /** The one-task part of Discard: the task unless it has the id. */
  function Keep(t: Task, id: int): seq<Task>
  {
    if t.id == id then [] else [t]
  }

  /** Reference definition of "the store without the task": every task
      whose id differs, in the order they come. */
  function Discard(ts: seq<Task>, id: int): (r: seq<Task>)
    ensures |r| <= |ts|
    ensures forall k :: 0 <= k < |r| ==> r[k].id != id
  {
    if ts == [] then []
    else Keep(ts[0], id) + Discard(ts[1..], id)
  }

  /** Discard keeps exactly the tasks whose id differs: each comes from
      the input, and none of the input's other tasks is lost. */
  lemma {:induction false} DiscardMembers(ts: seq<Task>, id: int)
    ensures forall t :: t in Discard(ts, id) <==> t in ts && t.id != id
  {
    if ts != [] {
      DiscardMembers(ts[1..], id);
      assert forall t :: t in ts <==> t == ts[0] || t in ts[1..];
    }
  }

  lemma {:induction false} DiscardAbsent(ts: seq<Task>, id: int)
    requires forall k :: 0 <= k < |ts| ==> ts[k].id != id
    ensures Discard(ts, id) == ts
  {
    if ts != [] {
      DiscardAbsent(ts[1..], id);
      assert ts == [ts[0]] + ts[1..];
    }
  }

  /** Discarding an id held only at position i cuts out position i. */
  lemma {:induction false} DiscardOne(ts: seq<Task>, i: nat, id: int)
    requires i < |ts| && ts[i].id == id
    requires forall k :: 0 <= k < |ts| && k != i ==> ts[k].id != id
    ensures Discard(ts, id) == ts[..i] + ts[i + 1..]
  {
    var tl := ts[1..];
    if i == 0 {
      assert forall k :: 0 <= k < |tl| ==> tl[k] == ts[k + 1];
      DiscardAbsent(tl, id);
    } else {
      assert forall k :: 0 <= k < |tl| ==> tl[k] == ts[k + 1];
      DiscardOne(tl, i - 1, id);
      assert ts[..i] + ts[i + 1..] == [ts[0]] + (tl[..i - 1] + tl[i..]);
    }
  }

  /** With distinct ids, delete removes exactly the task with the id and
      keeps all others in their relative order. */
  lemma DeleteIsDiscard(ts: seq<Task>, id: int)
    requires UniqueIds(ts)
    requires Remove(ts, id).Ok?
    ensures Remove(ts, id).value == Discard(ts, id)
    ensures forall t :: t in Remove(ts, id).value <==> t in ts && t.id != id
  {
    var i := Find(ts, id).value;
    assert forall k :: 0 <= k < |ts| && k != i ==> ts[k].id != id;
    DiscardOne(ts, i, id);
    assert Remove(ts, id).value == Discard(ts, id);
    DiscardMembers(ts, id);
  }

  /** Delete keeps the tasks before the removed one in place and shifts the
      ones after it down by one. */
  lemma DeleteKeepsOrder(ts: seq<Task>, id: int)
    requires Remove(ts, id).Ok?
    ensures var r := Remove(ts, id).value;
      var i := Find(ts, id).value;
      (forall k :: 0 <= k < i ==> r[k] == ts[k])
      && (forall k :: i <= k < |r| ==> r[k] == ts[k + 1])
  {
  }

  lemma DeleteKeepsInv(ts: seq<Task>, counter: int, id: int)
    requires Inv(ts, counter)
    requires Remove(ts, id).Ok?
    ensures Inv(Remove(ts, id).value, counter)
  {
  }

  /** A later GET of the deleted id answers NotFound. */
  lemma GetAfterDelete(ts: seq<Task>, id: int)
    requires UniqueIds(ts)
    requires Remove(ts, id).Ok?
    ensures Lookup(Remove(ts, id).value, id) == NotFound
  {
  }
}
