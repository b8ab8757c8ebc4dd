/** The in-memory task store and the five operations of the task service
    over it. The HTTP layer is not modelled: a 404 answer is the `NotFound`
    error of a `Result`, a 200 answer its `Ok` value. */
module Store {
  import opened Tasks
  import opened Table

  /** The only error the store signals: the id names no stored task. */
  datatype StoreError = NotFound

  /** The confirmation a successful deletion answers with. */
  const DeletedMessage: string := "Tarea eliminada"

  class TaskStore {
    /** The stored tasks by id. */
    var db: map<int, Task>
    /** The keys of `db` in insertion order: the order `List` reports. */
    var order: seq<int>
    /** The next id to assign. */
    var counter: int
    /** Every id handed out so far, deleted or not. */
    ghost var issued: set<int>

    ghost predicate Valid()
      reads this
    {
      && Inv(db, order, counter)
      && db.Keys <= issued
      && (forall k :: k in issued ==> 1 <= k < counter)
    }

    /** The store as the service starts: empty, first id 1. */
    constructor ()
      ensures Valid()
      ensures db == map[] && order == [] && counter == 1 && issued == {}
    {
      db := map[];
      order := [];
      counter := 1;
      issued := {};
    }

    /** Fetching one task: found exactly when the id is stored, and then it
        is the stored record, carrying that id. An id never handed out (below
        1 or from the counter on) is never found. */
    function Get(id: int): (r: Result<Task, StoreError>)
      reads this
      requires Valid()
      ensures r.Ok? <==> id in db
      ensures r.Ok? ==> r.value == db[id] && r.value.id == Some(id) && ValidPriority(r.value.priority)
      ensures r.Err? ==> r.error == NotFound
      ensures id < 1 || counter <= id ==> r == Err(NotFound)
    {
      if id !in db then Err(NotFound) else Ok(db[id])
    }

    /** Listing every task: one entry per stored task, in insertion order,
        and every stored task appears. */
    function List(): (r: seq<Task>)
      reads this
      requires Valid()
      ensures |r| == |order| == |db|
      ensures forall i :: 0 <= i < |r| ==> r[i] == db[order[i]] && r[i].id == Some(order[i])
      ensures forall k :: k in db ==> db[k] in r
      ensures forall i, j :: 0 <= i < j < |r| ==> r[i].id.value < r[j].id.value
    {
      OrderSize(db, order, counter);
      ValuesAreStored(db, order, counter);
      Values(db, order)
    }

    /** Creating a task: the payload, stamped with the current counter as
        its id, is stored under that id, which was never handed out before
        (so neither in use nor deleted); the counter
        moves on by one; no stored task changes; the listing gains the new
        task at its end. */
    method Create(t: Task) returns (r: Task)
      requires Valid()
      requires ValidPriority(t.priority)
      modifies this
      ensures Valid()
      ensures r == t.(id := Some(old(counter)))
      ensures old(counter) !in old(db) && old(counter) !in old(issued)
      ensures issued == old(issued) + {old(counter)}
      ensures db == old(db)[old(counter) := r]
      ensures order == old(order) + [old(counter)]
      ensures counter == old(counter) + 1
      ensures List() == old(List()) + [r]
    {
      r := t.(id := Some(counter));
      InsertKeepsInv(db, order, counter, r);
      db := db[counter := r];
      order := order + [counter];
      issued := issued + {counter};
      counter := counter + 1;
    }

    /** Updating a task: found exactly when the id is stored; then the
        payload, stamped with that id, replaces the stored record and takes
        its place in the listing. Neither the set of ids, nor the insertion
        order, nor the counter, nor any other record changes; an absent id
        changes nothing at all. */
    method Update(id: int, t: Task) returns (r: Result<Task, StoreError>)
      requires Valid()
      requires ValidPriority(t.priority)
      modifies this
      ensures Valid()
      ensures r.Ok? <==> id in old(db)
      ensures r.Ok? ==> r.value == t.(id := Some(id)) && db == old(db)[id := r.value]
      ensures r.Err? ==> r.error == NotFound && db == old(db)
      ensures db.Keys == old(db).Keys && order == old(order) && counter == old(counter)
      ensures issued == old(issued)
      ensures |List()| == |old(List())|
      ensures forall i :: 0 <= i < |order| ==>
        List()[i] == if order[i] == id then t.(id := Some(id)) else old(List())[i]
    {
      if id !in db {
        return Err(NotFound);
      }
      var stamped := t.(id := Some(id));
      ReplaceKeepsInv(db, order, counter, id, stamped);
      db := db[id := stamped];
      r := Ok(stamped);
    }

    /** Deleting a task: found exactly when the id is stored; then exactly
        that id leaves the table and the insertion order, and the listing
        loses exactly that task. The counter is untouched, so the id is
        never handed out again; an absent id changes nothing. */
    method Delete(id: int) returns (r: Result<string, StoreError>)
      requires Valid()
      modifies this
      ensures Valid()
      ensures r.Ok? <==> id in old(db)
      ensures r.Ok? ==> r.value == DeletedMessage
      ensures r.Err? ==> r.error == NotFound
      ensures db == old(db) - {id}
      ensures order == Without(old(order), id)
      ensures counter == old(counter) && issued == old(issued)
      ensures List() == RemoveTask(old(List()), id)
      ensures Get(id) == Err(NotFound)
    {
      DeleteKeepsInv(db, order, counter, id);
      if id !in db {
        DeleteAbsent(db, order, counter, id);
        return Err(NotFound);
      }
      db := db - {id};
      order := Without(order, id);
      r := Ok(DeletedMessage);
    }
  }

  /** An id handed out before a deletion is not handed out again: creating,
      deleting that task and creating another yields two different ids, and
      the deleted one stays unknown. */
  method CreateDeleteCreate(s: TaskStore, t: Task, u: Task) returns (a: Task, b: Task)
    requires s.Valid()
    requires ValidPriority(t.priority) && ValidPriority(u.priority)
    modifies s
    ensures s.Valid()
    ensures a.id.Some? && b.id.Some? && a.id != b.id
    ensures a.id.value in s.issued && a.id.value !in s.db
    ensures s.Get(a.id.value) == Err(NotFound)
    ensures s.Get(b.id.value) == Ok(b)
  {
    a := s.Create(t);
    var gone := s.Delete(a.id.value);
    assert gone.Ok?;
    b := s.Create(u);
  }

  // The service's tests, one method each. The tests share one store; each
  // method here starts from a fresh one, which their assertions do not
  // depend on (the never-issued id 9999 needs fewer than 9999 creations).
  // A payload is built by NewTask, with 0 as the load-time timestamp.

  /** Creating a task answers with the payload's fields and a new id. */
  method ScenarioCreate()
  {
    var s := new TaskStore();
    var payload := NewTask(None, "Hacer compras", "Comprar víveres para la semana", Some(false), None, Some(500), 0);
    assert payload.Ok?;
    var created := s.Create(payload.value);
    assert created.title == "Hacer compras" && created.description == "Comprar víveres para la semana";
    assert !created.completed && created.priority == 500 && created.id.Some?;
  }

  /** Priorities 1001 and -1001 are refused before reaching the store;
      1000 and -1000 are created. */
  method ScenarioPriorityBounds()
  {
    var s := new TaskStore();
    var tooHigh := NewTask(None, "Tarea inválida", "Esta tarea no debería crearse", None, None, Some(1001), 0);
    assert tooHigh == Err(PriorityOutOfRange);
    var tooLow := NewTask(None, "Tarea inválida", "Esta tarea no debería crearse", None, None, Some(-1001), 0);
    assert tooLow == Err(PriorityOutOfRange);
    var top := NewTask(None, "Tarea inválida", "Esta tarea no debería crearse", None, None, Some(1000), 0);
    assert top.Ok?;
    var a := s.Create(top.value);
    assert a.priority == 1000;
    var bottom := NewTask(None, "Tarea inválida", "Esta tarea no debería crearse", None, None, Some(-1000), 0);
    assert bottom.Ok?;
    var b := s.Create(bottom.value);
    assert b.priority == -1000;
    assert s.List() == [a, b];
  }

  /** A created task is fetched back by its id. */
  method ScenarioGetCreated()
  {
    var s := new TaskStore();
    var payload := NewTask(None, "Estudiar Python", "Repasar FastAPI", Some(false), None, None, 0);
    assert payload.Ok?;
    var created := s.Create(payload.value);
    var id := created.id.value;
    var fetched := s.Get(id);
    assert fetched.Ok? && fetched.value.title == "Estudiar Python" && fetched.value.id == Some(id);
    assert s.List() == [created];
  }

  /** Updating a created task answers with the new completion flag and priority. */
  method ScenarioUpdate()
  {
    var s := new TaskStore();
    var payload := NewTask(None, "Ejercicio", "Ir al gimnasio", Some(false), None, Some(0), 0);
    assert payload.Ok?;
    var created := s.Create(payload.value);
    var changed := NewTask(None, "Ejercicio", "Ir al gimnasio", Some(true), None, Some(100), 0);
    assert changed.Ok?;
    var updated := s.Update(created.id.value, changed.value);
    assert updated.Ok? && updated.value.completed && updated.value.priority == 100;
    assert updated.value.id == created.id;
  }

  /** A deleted task is no longer found. */
  method ScenarioDelete()
  {
    var s := new TaskStore();
    var payload := NewTask(None, "Tarea temporal", "Esta tarea será eliminada", Some(false), None, None, 0);
    assert payload.Ok?;
    var created := s.Create(payload.value);
    var deleted := s.Delete(created.id.value);
    assert deleted == Ok(DeletedMessage);
    var fetched := s.Get(created.id.value);
    assert fetched == Err(NotFound);
    assert s.List() == [];
  }

  /** Fetching, updating and deleting the never-issued id 9999 are NotFound. */
  method ScenarioMissing()
  {
    var s := new TaskStore();
    var missing := s.Get(9999);
    assert missing == Err(NotFound);
    var payload := NewTask(None, "Tarea inexistente", "Esta tarea no existe", Some(false), None, None, 0);
    assert payload.Ok?;
    var notUpdated := s.Update(9999, payload.value);
    assert notUpdated == Err(NotFound);
    var notDeleted := s.Delete(9999);
    assert notDeleted == Err(NotFound);
  }
}
