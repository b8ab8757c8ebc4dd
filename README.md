# In-memory task store, modelled in Dafny

The task service keeps its tasks in memory. A dictionary maps an integer id
to a task record. An id counter starts at 1 and is the next id to hand out.
Five handlers work on this table:

- create stamps the payload with the counter as its id, stores it and moves the counter on;
- list returns the stored records in insertion order;
- get, update and delete each check first that the id is stored, and answer 404 when it is not.

A validator guards the task record. It admits a priority only when it is an
integer from -1000 to 1000.

The model has three modules:

- `tasks.dfy`, module `Tasks`: the task record, `Option`/`Result`, the priority
  validator `ValidatePriority`, and `NewTask`, which builds a task from a
  request payload the way the record's declaration does. Missing fields take
  their defaults, and the validator runs on a supplied priority.
- `table.dfy`, module `Table`: the store's state as plain values. These are
  the table `db`, the insertion log `order` and the `counter`. The module holds
  the store invariant `Inv` and the pure functions that describe the operations:
  `Values` is the listing, `Without` is the log after a deletion, and
  `RemoveTask` is the listing after a deletion. The lemmas prove that each
  operation preserves the invariant.
- `store.dfy`, module `Store`: the class `TaskStore`. Its fields `db`, `order`
  and `counter` are the dictionary and the counter of the source, and `order`
  is the insertion order that the dictionary keeps internally. `Create`,
  `Update` and `Delete` are methods that change the store (`modifies this`).
  `Get` and `List` are read-only functions (`reads this`). A 404 answer is
  `Err(NotFound)`; a 200 answer is the `Ok` value.

The store invariant (`Table.Inv`, which is `TaskStore.Valid`) says:

- the counter is at least 1;
- every key is at least 1 and below the counter;
- every stored record's `id` is `Some(key)` and its priority is valid;
- the log holds exactly the keys, each once, in ascending order, because ids
  are handed out in increasing order;
- the ghost set `issued` of every id handed out so far contains every key, and
  every issued id lies below the counter.

Because every issued id is below the counter, the id that create hands out was
never issued before, whatever happened in between. `Create` adds exactly that
id to `issued`, and `Update` and `Delete` leave `issued` alone. So an id issued
before a delete is never issued again, for any history of operations. A
create, delete, create sequence illustrates this (`Store.CreateDeleteCreate`).

Choices that follow the code of `todo.py`:

- The default `fecha_creacion` is `datetime.now()`, evaluated once when the
  module loads (todo.py:20). `NewTask` therefore takes that single reading as
  `importTime`. An update stores the payload's timestamp in place of the old
  one, as the handler replaces the whole record (todo.py:63-64).
- `titulo` is any string, the empty one included (todo.py:17), and so is
  `title` in the model.
- The validator is declared for the `prioridad` field (todo.py:23). It does
  not run on a priority the client leaves out, which gets the default 0
  (todo.py:21). `NewTask` validates only a supplied priority.

The methods `Store.ScenarioCreate`, `Store.ScenarioPriorityBounds`,
`Store.ScenarioGetCreated`, `Store.ScenarioUpdate`, `Store.ScenarioDelete` and
`Store.ScenarioMissing` are worked examples with no contract of their own. Each
follows one test of test_todo.py with that test's data, on a fresh store, and
builds its payloads with `NewTask`:

- test_todo.py:9-25: a created task carries the payload's fields and an id;
- test_todo.py:27-50: priorities 1001 and -1001 are refused, and 1000 and -1000 are created;
- test_todo.py:58-74: a created task is fetched by its id;
- test_todo.py:76-99: an update sets the completion flag and the priority;
- test_todo.py:101-118: a deleted task is not found;
- test_todo.py:120-138: get, update and delete of the never-issued id 9999 give NotFound.

The list test (test_todo.py:52-56) checks only that the answer is a list. That
is a type fact here.

## Model

| member | source | states |
|---|---|---|
| `Tasks.ValidatePriority` | todo.py:23-29 | accepts exactly the priorities satisfying `ValidPriority` (from -1000 to 1000, see `Tasks.PriorityBoundaries`) and returns them unchanged; every other value fails with the out-of-range error |
| `Tasks.PriorityBoundaries` | test_todo.py:27-50 | `ValidPriority` admits exactly -1000 to 1000; -1001 and 1001 are rejected; -1000, 1000 and 500 are accepted as themselves |
| `Tasks.NewTask` | todo.py:15-29 | building a task from a payload succeeds exactly when no priority is given or the given one is in range; the task carries the given fields, with defaults not completed, priority 0 and the load-time timestamp; a built task always has a valid priority |
| `Tasks.NewTaskPriority` | todo.py:21-29 | a payload with priority p yields a task with priority p when `ValidPriority(p)`, and the validation error otherwise |
| `Table.Without` | todo.py:72 | after key k is deleted, the log holds exactly the other keys, still without repetitions; one fewer when k was present; unchanged when k was absent |
| `Table.WithoutIncreasing` | todo.py:72 | deleting a key from an ascending log leaves it ascending |
| `Table.Values` | todo.py:49 | the listing has one entry per logged key, and entry i is the record stored under key i of the log |
| `Table.RemoveTask` | todo.py:72 | a listing with the task of a given id taken out holds exactly the other tasks and is no longer |
| `Table.DistinctCardinality` | todo.py:32 | a log without repetitions has as many entries as it has distinct keys |
| `Table.OrderSize` | todo.py:32 | under the store invariant, the insertion log is as long as the table is large |
| `Table.ValuesAreStored` | todo.py:49 | under the store invariant, every stored record appears in the listing, and entry i carries the id of the i-th logged key |
| `Table.ValuesWithout` | todo.py:49 | listing after deleting key k equals the old listing with the task of id k removed |
| `Table.InsertKeepsInv` | todo.py:41-43 | the counter is not a key; storing a record stamped with the counter, logging it and incrementing the counter keeps the invariant and appends the record to the listing |
| `Table.ReplaceKeepsInv` | todo.py:63-64 | replacing a stored record with one stamped with its key keeps the invariant and changes the listing only at that key's position |
| `Table.DeleteKeepsInv` | todo.py:70-72 | deleting a key keeps the invariant, and the listing afterwards is the old one with that key's task removed |
| `Table.DeleteAbsent` | todo.py:70-71 | under the invariant, deleting a key that is not stored changes neither the table nor the log |
| `Store.TaskStore.constructor` | todo.py:32-33 | the store starts with an empty table, an empty log, no issued ids and counter 1, and satisfies the invariant |
| `Store.TaskStore.Get` | todo.py:51-56 | found exactly when the id is stored, and then returns the stored record, which carries that id; otherwise NotFound; an id never issued (below 1 or at least the counter, such as 9999 on a fresh store) is NotFound |
| `Store.TaskStore.List` | todo.py:46-49 | one entry per stored record, in insertion order, each carrying its key as id; every stored record appears; the ids ascend along the listing |
| `Store.TaskStore.Create` | todo.py:37-44 | returns the payload stamped with the pre-call counter; that id was neither in use nor ever issued, and is added to the issued ids; stores it under that key and changes no other entry; appends it to the log and the listing; increments the counter by exactly 1; keeps the invariant |
| `Store.TaskStore.Update` | todo.py:58-65 | succeeds exactly when the id is stored; then replaces that entry with the payload stamped with the id, and the listing changes only at that position; keys, log, counter and issued ids stay as they are; an absent id gives NotFound and changes nothing |
| `Store.TaskStore.Delete` | todo.py:67-73 | succeeds exactly when the id is stored, and answers with the confirmation message; afterwards exactly that key is gone from table and log, the listing is the old one without that task, get of the id is NotFound, and the counter and the issued ids are unchanged; an absent id gives NotFound and changes nothing |
| `Store.CreateDeleteCreate` | todo.py:41-43 | create, delete of that id, create: the two ids differ, the deleted id stays issued but NotFound, and the second task is found |

## Left out

- HTTP routing, response models, JSON serialisation and `HTTPException`: a 404 is modelled only as the `NotFound` result, and the delete confirmation as the string `"Tarea eliminada"`.
- The 422 answer for an out-of-range priority is not a store operation. It is the `Err` result of `NewTask`. `Create` and `Update` require a payload with a valid priority, because the service only calls them with a validated record.
- Request parsing: a missing required field (`titulo`, `descripcion`, todo.py:17-18) and a field of the wrong type, with the type coercion the parser applies, are not modelled. `NewTask` takes `title` and `description` as given strings, and its only error is the out-of-range priority.
- The validator's `isinstance(v, int)` check: in the model a priority is an integer by type.
- The wall clock: the load-time reading used as the default creation time is the parameter `importTime`, and timestamps are opaque integers.
- Several server worker processes: the handlers are `async def` with no `await` in their bodies (todo.py:38-73), so on the event loop each one runs to completion before the next starts, and the sequential methods model exactly that. Several worker processes would each hold their own table and counter; that deployment is not modelled.
- The relational-database variant of the store: it is not part of this model.
- Aliasing between the returned record and the stored one: records are values in the model. In the source, nothing modifies a record after it is stored.
