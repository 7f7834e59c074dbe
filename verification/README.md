# Todo store model

A Dafny model of the in-memory todo store of a small FastAPI todo-list
application (`main.py`). The application keeps two module-level globals: a
list of `Todo` records (`id`, `task`, `done`) and a `next_id` counter that
starts at 1. Four request handlers work on them:

- `read_root` shows the whole list, or only the records that are not done
  when `show_all` is false;
- `create_todo` appends a record carrying the counter's id and an open flag,
  then increments the counter;
- `mark_done` scans the list for an id and sets the flag of the first match;
- `delete_todo` scans the list for an id and removes the first match.

Every mutating handler answers with a 303 See Other redirect to the list
view: `/?show_all=true` after create and delete, `/?show_all=false` after
mark-done. The redirect is the same whether or not the id was found.

The model turns the two globals into an immutable `State(todos, nextId)` value.
Each handler becomes a pure transition that returns the next state together with
its redirect (`Outcome`). The files are:

- `todo_list.dfy` (module `TodoList`): the `Todo` record and the list logic.
  This covers the first-match scan (`FindFirst`), the mark-done and delete scans
  (`MarkFirst`, `RemoveFirst`) and the open-only filter (`Incomplete`). A
  subsequence predicate states order preservation.
- `store.dfy` (module `Store`): the state, the handlers, the redirects, and the
  invariant `Valid`. Under `Valid`, ids are at least 1, below the counter, and
  strictly increasing in list order, so they are also unique. The module also
  holds one preservation lemma per handler and the per-handler properties.
- `session.dfy` (module `Session`): sequences of requests. It shows that every
  reachable state is valid, that the counter never goes back, and that a deleted
  id never returns. It also replays a worked example session.

An unknown id gets exactly the same 303 redirect as a found one
(main.py:51, main.py:59): there is no 404 and no error marker. The model gives
the same `Redirect` either way and leaves the state unchanged.

## Model

| member | source | states |
|---|---|---|
| TodoList.FindFirst | main.py:47-48 | The scan by id finds the first position whose record carries the id: no earlier record carries it. It returns None exactly when no record carries the id. |
| TodoList.MarkFirst | main.py:47-51 | The mark-done scan gives the list with only the first matching record's flag set. With no match, the list is returned unchanged. |
| TodoList.RemoveFirst | main.py:55-59 | The delete scan gives the list with only the first matching position cut out, and the rest keep their order. With no match, the list is returned unchanged. |
| TodoList.Incomplete | main.py:26 | The open-only comprehension holds only records that are not done. It is a subsequence of the list, so order is kept. Every open record appears exactly as often as it does in the list. |
| TodoList.IncompleteUnique | main.py:26 | Those three properties fully determine the filter: any list that has all of them is the filtered list. |
| Store.ListView | main.py:43-59 | A redirect goes to the list view with status 303, and the view reads back from the redirect target exactly the `show_all` flag the handler chose. |
| Store.BareRootShowsAll | main.py:25 | A target without a `show_all` flag (the bare `/`) reads as `show_all` true, the parameter's default, so the list view shows the whole list. |
| Store.IdsUnique | main.py:40-42 | In a valid state, two positions carrying the same id are the same position: ids handed out by create are unique in the list. |
| Store.ReadRoot | main.py:25-26 | With `show_all`, which defaults to true, the view is the whole list. Without it, the view is exactly the open records in list order. Reading returns only a view and produces no new state. |
| Store.CreateTodo | main.py:37-43 | Create appends one record carrying the old counter, the given task and `done` false. Every earlier record is unchanged, the counter grows by exactly 1, and the response is a 303 redirect to `/?show_all=true`. |
| Store.MarkDone | main.py:45-51 | Mark-done sets the flag of the first record with the id and leaves every other record unchanged. Length, order and counter stay the same. An unknown id leaves the state unchanged. Either way the response is a 303 redirect to `/?show_all=false`. |
| Store.DeleteTodo | main.py:53-59 | Delete cuts out the first record with the id: the length drops by one and the rest keep their order. An unknown id leaves the state unchanged. The counter is never decreased. Either way the response is a 303 redirect to `/?show_all=true`. |
| Store.InitialValid | main.py:21-22 | The start-up state (empty list, counter 1) satisfies the id invariant. |
| Store.CreatePreservesValid | main.py:39-42 | Create keeps ids unique, strictly increasing and below the counter. |
| Store.MarkDonePreservesValid | main.py:47-50 | Mark-done keeps the id invariant. |
| Store.DeletePreservesValid | main.py:55-58 | Delete keeps the id invariant. |
| Store.MarkDoneExactlyOne | main.py:47-50 | In a valid state, mark-done of a present id sets the flag of the one record carrying that id and of no other record. |
| Store.MarkDoneIdempotent | main.py:47-51 | Marking the same id done twice gives the same state and response as marking it once. |
| Store.DeleteTwiceIsNoop | main.py:55-59 | In a valid state, after a delete no record carries the id, so a second delete of the same id leaves the state as it is. |
| Store.ViewAfterMarkDone | main.py:50-51 | After following the mark-done redirect, the client sees the open list, and in a valid state the marked id is not in it. |
| Store.ViewAfterCreate | main.py:43 | The create redirect decodes to `show_all` true, and following it the client sees the full list: the old list followed by the new open record. |
| Session.StepPreservesValid | main.py:37-59 | Every handler keeps the id invariant and never moves the counter back. |
| Session.RunPreservesValid | main.py:37-59 | Any sequence of requests keeps the id invariant and never moves the counter back. |
| Session.ReachableValid | main.py:21-22 | Every state reachable from start-up satisfies the id invariant. |
| Session.AbsentStaysAbsent | main.py:40-42 | An absent id below the counter is never handed out again by any later request sequence. |
| Session.DeletedIdNeverReturns | main.py:53-59 | Once a present id is deleted, no later sequence of requests brings back a record with that id. |
| Session.ExampleSession | main.py:37-59 | A worked session: two creates get ids 1 and 2. Marking 1 done hides it from the open list. Deleting 1 leaves only 2, and a later mark-done of 1 changes nothing. |

## Left out

- FastAPI wiring is not modelled: app construction, the static-file mount, route decorators, `Form(...)` extraction and Pydantic validation (main.py:1-14, main.py:38). `task` is an arbitrary string, and `todo_id` is an arbitrary integer.
- Template rendering and the `datetime.now()` value in the view context are not modelled (main.py:27-32). `ReadRoot` returns only the list the template would receive.
- Store.ShowAllOf recognises only the bare list-view path and the two targets the handlers send. FastAPI's general coercion of a query string to a bool is framework code and is not modelled.
- `async` handlers and the globals shared between requests are not modelled. Each request is an atomic transition on an explicit state value, so interleavings are out of scope.
- Python's object aliasing is not modelled. `read_root` with `show_all` hands out the live list itself, and the model returns an immutable value equal to it.
- The model has no persistence, search, categories, due dates or priorities. None of them appear in `main.py`.
