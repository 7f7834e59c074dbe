/**
 Sequences of requests against the store: every state reachable from
 start-up keeps the id invariant, the counter never goes back, and an id that
 has been deleted never comes back.
 */
module Session {
  import opened TodoList
  import opened Store

  /** The three mutating requests the application accepts. */
  datatype Request =
    | CreateReq(task: string)
    | MarkDoneReq(todoId: int)
    | DeleteReq(todoId: int)

  /** Dispatch one request to its handler. */
  function Step(s: State, req: Request): (r: Outcome)
  {
    match req
    case CreateReq(task) => CreateTodo(s, task)
    case MarkDoneReq(todoId) => MarkDone(s, todoId)
    case DeleteReq(todoId) => DeleteTodo(s, todoId)
  }

  /** The state after handling `reqs` one after the other, starting from `s`. */
  function Run(s: State, reqs: seq<Request>): (r: State)
    decreases |reqs|
  {
    if |reqs| == 0 then s else Run(Step(s, reqs[0]).state, reqs[1..])
  }

  /** Every handler keeps the invariant and never moves the counter back. */
  lemma StepPreservesValid(s: State, req: Request)
    requires Valid(s)
    ensures Valid(Step(s, req).state)
    ensures Step(s, req).state.nextId >= s.nextId
  {
    match req
    case CreateReq(task) => CreatePreservesValid(s, task);
    case MarkDoneReq(todoId) => MarkDonePreservesValid(s, todoId);
    case DeleteReq(todoId) => DeletePreservesValid(s, todoId);
  }

  lemma {:induction false} RunPreservesValid(s: State, reqs: seq<Request>)
    requires Valid(s)
    ensures Valid(Run(s, reqs))
    ensures Run(s, reqs).nextId >= s.nextId
    decreases |reqs|
  {
    if |reqs| > 0 {
      StepPreservesValid(s, reqs[0]);
      RunPreservesValid(Step(s, reqs[0]).state, reqs[1..]);
    }
  }

  /** Every state reachable from start-up has unique, increasing ids below the counter. */
  lemma ReachableValid(reqs: seq<Request>)
    ensures Valid(Run(Initial, reqs))
    ensures Run(Initial, reqs).nextId >= 1
  {
    InitialValid();
    RunPreservesValid(Initial, reqs);
  }

  /** An id below the counter that is absent stays absent: no handler hands it out again. */
  lemma {:induction false} AbsentStaysAbsent(s: State, todoId: int, reqs: seq<Request>)
    requires Valid(s)
    requires todoId < s.nextId
    requires !HasId(s.todos, todoId)
    ensures !HasId(Run(s, reqs).todos, todoId)
    decreases |reqs|
  {
    if |reqs| > 0 {
      var s1 := Step(s, reqs[0]).state;
      StepPreservesValid(s, reqs[0]);
      match reqs[0] {
        case CreateReq(task) =>
          assert !HasId(s1.todos, todoId) by {
            forall j | 0 <= j < |s1.todos|
              ensures s1.todos[j].id != todoId
            {
              if j < |s.todos| {
                assert s1.todos[j] == s1.todos[..|s.todos|][j];
              }
            }
          }
        case MarkDoneReq(id) =>
        case DeleteReq(id) =>
          assert !HasId(s1.todos, todoId) by {
            if HasId(s.todos, id) {
              var i := FindFirst(s.todos, id).value;
              forall j | 0 <= j < |s1.todos|
                ensures s1.todos[j].id != todoId
              {
                assert s1.todos[j] == s.todos[if j < i then j else j + 1];
              }
            }
          }
      }
      AbsentStaysAbsent(s1, todoId, reqs[1..]);
    }
  }

  /**
   A deleted id is never reissued: once a present id has been deleted, no
   later sequence of requests brings a record with that id back.
   */
  lemma DeletedIdNeverReturns(s: State, todoId: int, reqs: seq<Request>)
    requires Valid(s)
    requires HasId(s.todos, todoId)
    ensures !HasId(Run(DeleteTodo(s, todoId).state, reqs).todos, todoId)
  {
    DeleteTwiceIsNoop(s, todoId);
    DeletePreservesValid(s, todoId);
    AbsentStaysAbsent(DeleteTodo(s, todoId).state, todoId, reqs);
  }

  /**
   A short session: two creates get ids 1 and 2, marking 1 done hides it from
   the open list, deleting 1 leaves only 2, and a later mark-done of 1 finds
   nothing and changes nothing.
   */
  lemma ExampleSession()
    ensures var s1 := CreateTodo(Initial, "Buy milk").state;
            var s2 := CreateTodo(s1, "Wash car").state;
            var s3 := MarkDone(s2, 1).state;
            var s4 := DeleteTodo(s3, 1).state;
            && s2.todos == [Todo(1, "Buy milk", false), Todo(2, "Wash car", false)]
            && ReadRoot(s3, true) == [Todo(1, "Buy milk", true), Todo(2, "Wash car", false)]
            && ReadRoot(s3, false) == [Todo(2, "Wash car", false)]
            && ReadRoot(s4) == [Todo(2, "Wash car", false)]
            && MarkDone(s4, 1).state == s4
  {
    var s1 := CreateTodo(Initial, "Buy milk").state;
    var s2 := CreateTodo(s1, "Wash car").state;
    assert s2.todos == [Todo(1, "Buy milk", false), Todo(2, "Wash car", false)];
    var s3 := MarkDone(s2, 1).state;
    assert FindFirst(s2.todos, 1) == Some(0);
    assert s3.todos == [Todo(1, "Buy milk", true), Todo(2, "Wash car", false)];
    IncompleteUnique(s3.todos, [Todo(2, "Wash car", false)]);
    var s4 := DeleteTodo(s3, 1).state;
    assert s4.todos == [Todo(2, "Wash car", false)];
    assert !HasId(s4.todos, 1);
  }
}
