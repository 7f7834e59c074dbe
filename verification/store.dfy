/**
 The todo application's store as an explicit state value: the list of todos
 and the next-id counter, one transition per request handler, the redirect
 each handler answers with, and the invariant every transition keeps.
 */
module Store {
  import opened TodoList

  /** The whole mutable state of the application: the todo list and the id counter. */
  datatype State = State(todos: seq<Todo>, nextId: nat)

  /** The state at start-up: no todos, and the first id to hand out is 1. */
  const Initial: State := State([], 1)

  /** HTTP 303 See Other: the status of every redirect the mutating handlers send. */
  const SeeOther: nat := 303

  /** A redirect response: where the client is sent, and with which status. */
  datatype Redirect = Redirect(location: string, status: nat)

  /** What a mutating handler yields: the state after the request, and its response. */
  datatype Outcome = Outcome(state: State, response: Redirect)

  /**
   The `show_all` flag the list view reads from a target, if the target is the
   list view. A bare "/" carries no flag, and the view then shows everything.
   */
  function ShowAllOf(location: string): Option<bool>
  {
    if location == "/" || location == "/?show_all=true" then Some(true)
    else if location == "/?show_all=false" then Some(false)
    else None
  }

  /** The list-view target a handler redirects to; the view reads back the same flag. */
  function ListView(showAll: bool): (r: Redirect)
    ensures ShowAllOf(r.location) == Some(showAll)
    ensures r.status == SeeOther
  {
    Redirect(if showAll then "/?show_all=true" else "/?show_all=false", SeeOther)
  }

  /**
   The ids are at least 1, below the counter, and strictly increasing in list
   order (hence unique).
   */
  ghost predicate Valid(s: State)
  {
    && s.nextId >= 1
    && (forall i :: 0 <= i < |s.todos| ==> 1 <= s.todos[i].id < s.nextId)
    && (forall i, j :: 0 <= i < j < |s.todos| ==> s.todos[i].id < s.todos[j].id)
  }

  /** In a valid state a record is identified by its id. */
  lemma IdsUnique(s: State, i: nat, j: nat)
    requires Valid(s)
    requires i < |s.todos| && j < |s.todos|
    requires s.todos[i].id == s.todos[j].id
    ensures i == j
  {
  }

  /**
   The list view. With `showAll`, which is the default, it is the whole list;
   without it, exactly the open todos, in list order, each as often as in the list.
   */
  function ReadRoot(s: State, showAll: bool := true): (view: seq<Todo>)
    ensures showAll ==> view == s.todos
    ensures !showAll ==> forall j :: 0 <= j < |view| ==> !view[j].done
    ensures !showAll ==> Subsequence(view, s.todos)
    ensures !showAll ==> forall t: Todo :: !t.done ==> multiset(view)[t] == multiset(s.todos)[t]
  {
    if showAll then s.todos else Incomplete(s.todos)
  }

  /**
   Creating a todo: a record with the counter's id, the given task and an open
   flag goes to the end of the list, nothing before it changes, and the
   counter moves on by one. The client is sent to the full list.
   */
  function CreateTodo(s: State, task: string): (r: Outcome)
    ensures |r.state.todos| == |s.todos| + 1
    ensures r.state.todos[..|s.todos|] == s.todos
    ensures r.state.todos[|s.todos|] == Todo(s.nextId, task, false)
    ensures r.state.nextId == s.nextId + 1
    ensures r.response == ListView(true)
  {
    Outcome(State(s.todos + [Todo(s.nextId, task, false)], s.nextId + 1), ListView(true))
  }

  /**
   Marking a todo done: the first record carrying `todoId` gets its flag set,
   every other record, the order and the counter stay as they were; an unknown
   id leaves the state unchanged. The client is sent to the open list either way.
   */
  function MarkDone(s: State, todoId: int): (r: Outcome)
    ensures r.state.nextId == s.nextId
    ensures |r.state.todos| == |s.todos|
    ensures !HasId(s.todos, todoId) ==> r.state == s
    ensures forall j :: 0 <= j < |s.todos| ==>
              r.state.todos[j] == (if FindFirst(s.todos, todoId) == Some(j) then s.todos[j].(done := true) else s.todos[j])
    ensures r.response == ListView(false)
  {
    Outcome(s.(todos := MarkFirst(s.todos, todoId)), ListView(false))
  }

  /**
   Deleting a todo: the first record carrying `todoId` is cut out and the rest
   keep their order; an unknown id leaves the state unchanged. The counter is
   never touched. The client is sent to the full list either way.
   */
  function DeleteTodo(s: State, todoId: int): (r: Outcome)
    ensures r.state.nextId == s.nextId
    ensures !HasId(s.todos, todoId) ==> r.state == s
    ensures HasId(s.todos, todoId) ==>
              var i := FindFirst(s.todos, todoId).value;
              && |r.state.todos| == |s.todos| - 1
              && r.state.todos == s.todos[..i] + s.todos[i + 1..]
    ensures r.response == ListView(true)
  {
    Outcome(s.(todos := RemoveFirst(s.todos, todoId)), ListView(true))
  }

  lemma InitialValid()
    ensures Valid(Initial)
  {
  }

  /** The new id is above every id in the list, so the list stays ordered. */
  lemma CreatePreservesValid(s: State, task: string)
    requires Valid(s)
    ensures Valid(CreateTodo(s, task).state)
  {
  }

  lemma MarkDonePreservesValid(s: State, todoId: int)
    requires Valid(s)
    ensures Valid(MarkDone(s, todoId).state)
  {
  }

  /** Cutting one record out of a strictly increasing list leaves it strictly increasing. */
  lemma DeletePreservesValid(s: State, todoId: int)
    requires Valid(s)
    ensures Valid(DeleteTodo(s, todoId).state)
  {
  }

  /**
   In a valid state, marking `todoId` done when it is present sets the flag of
   the one record that carries it and of no other.
   */
  lemma MarkDoneExactlyOne(s: State, todoId: int, i: nat)
    requires Valid(s)
    requires i < |s.todos| && s.todos[i].id == todoId
    ensures MarkDone(s, todoId).state.todos == s.todos[i := s.todos[i].(done := true)]
  {
  }

  /** Marking the same id done a second time changes nothing more. */
  lemma MarkDoneIdempotent(s: State, todoId: int)
    ensures MarkDone(MarkDone(s, todoId).state, todoId) == MarkDone(s, todoId)
  {
  }

  /**
   In a valid state a delete removes the only record with that id, so a second
   delete of the same id finds nothing and leaves the state as it is.
   */
  lemma DeleteTwiceIsNoop(s: State, todoId: int)
    requires Valid(s)
    ensures !HasId(DeleteTodo(s, todoId).state.todos, todoId)
    ensures DeleteTodo(DeleteTodo(s, todoId).state, todoId) == DeleteTodo(s, todoId)
  {
  }

  /**
   What the client sees after following the redirect of a mark-done: in a
   valid state, the open list, and the marked id is not in it.
   */
  lemma ViewAfterMarkDone(s: State, todoId: int)
    requires Valid(s)
    ensures var r := MarkDone(s, todoId);
            && ShowAllOf(r.response.location) == Some(false)
            && !HasId(ReadRoot(r.state, false), todoId)
  {
    var r := MarkDone(s, todoId);
    var view := ReadRoot(r.state, false);
    SubsequenceMultiset(view, r.state.todos);
    forall j | 0 <= j < |view|
      ensures view[j].id != todoId
    {
      assert view[j] in multiset(view);
      var k :| 0 <= k < |r.state.todos| && r.state.todos[k] == view[j];
    }
  }

  /**
   What the client sees after following the redirect of a create: the full
   list, that is the old list followed by the new open record.
   */
  lemma ViewAfterCreate(s: State, task: string)
    ensures var r := CreateTodo(s, task);
            var view := ReadRoot(r.state, ShowAllOf(r.response.location).value);
            && ShowAllOf(r.response.location) == Some(true)
            && view == s.todos + [Todo(s.nextId, task, false)]
  {
  }

  /**
   The bare list-view path carries no `show_all` flag; it reads as the
   parameter's default, so the view is the whole list.
   */
  lemma BareRootShowsAll(s: State)
    ensures ShowAllOf("/").Some?
    ensures ReadRoot(s, ShowAllOf("/").value) == ReadRoot(s) == s.todos
  {
  }
}
