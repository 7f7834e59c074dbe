/**
 The todo record and the list logic the request handlers run over the
 in-memory collection: the first-match scan by id, marking a record done,
 removing a record, and the "not done" filter of the list view.
 */
module TodoList {

  /** One todo: an integer id, the task text, and a completion flag that is false on creation. */
  datatype Todo = Todo(id: int, task: string, done: bool)

  datatype Option<+T> = None | Some(value: T)

  /** True iff some record of `todos` carries `id`. */
  predicate HasId(todos: seq<Todo>, id: int)
  {
    exists i :: 0 <= i < |todos| && todos[i].id == id
  }

  /** `xs` can be obtained from `ys` by dropping elements, keeping the order of the rest. */
  ghost predicate Subsequence<T>(xs: seq<T>, ys: seq<T>)
  {
    || |xs| == 0
    || (&& |ys| > 0
        && ((xs[0] == ys[0] && Subsequence(xs[1..], ys[1..])) || Subsequence(xs, ys[1..])))
  }

  /** A subsequence never holds an element more often than the sequence it was taken from. */
  lemma {:induction false} SubsequenceMultiset<T>(xs: seq<T>, ys: seq<T>)
    requires Subsequence(xs, ys)
    ensures multiset(xs) <= multiset(ys)
  {
    if |xs| == 0 {
    } else {
      assert ys == [ys[0]] + ys[1..];
      if xs[0] == ys[0] && Subsequence(xs[1..], ys[1..]) {
        SubsequenceMultiset(xs[1..], ys[1..]);
        assert xs == [xs[0]] + xs[1..];
      } else {
        SubsequenceMultiset(xs, ys[1..]);
      }
    }
  }

  /**
   Position of the first record carrying `id`, scanning in list order, or
   None when no record carries it.
   */
  function FindFirst(todos: seq<Todo>, id: int): (r: Option<nat>)
    ensures r.Some? ==> r.value < |todos| && todos[r.value].id == id
    ensures r.Some? ==> forall j :: 0 <= j < r.value ==> todos[j].id != id
    ensures r.None? <==> !HasId(todos, id)
  {
    if |todos| == 0 then None
    else if todos[0].id == id then Some(0)
    else
      match FindFirst(todos[1..], id)
      case None =>
        assert forall j :: 1 <= j < |todos| ==> todos[1..][j - 1] == todos[j];
        None
      case Some(k) => Some(k + 1)
  }

  /**
   The scan of the mark-done handler: walk the list, and on the first record
   carrying `id` set its flag and stop. The result is the list with exactly
   that record updated, or the list itself when no record carries `id`.
   */
  function MarkFirst(todos: seq<Todo>, id: int): (r: seq<Todo>)
    ensures FindFirst(todos, id).None? ==> r == todos
    ensures FindFirst(todos, id).Some? ==>
              var i := FindFirst(todos, id).value;
              r == todos[i := todos[i].(done := true)]
  {
    if |todos| == 0 then []
    else if todos[0].id == id then [todos[0].(done := true)] + todos[1..]
    else [todos[0]] + MarkFirst(todos[1..], id)
  }

  /**
   The scan of the delete handler: walk the list, and on the first record
   carrying `id` remove it and stop. The result is the list with exactly that
   position cut out, the rest in their original order, or the list itself when
   no record carries `id`.
   */
  function RemoveFirst(todos: seq<Todo>, id: int): (r: seq<Todo>)
    ensures FindFirst(todos, id).None? ==> r == todos
    ensures FindFirst(todos, id).Some? ==>
              var i := FindFirst(todos, id).value;
              r == todos[..i] + todos[i + 1..]
  {
    if |todos| == 0 then []
    else if todos[0].id == id then todos[1..]
    else
      var rest := RemoveFirst(todos[1..], id);
      assert FindFirst(todos[1..], id).Some? ==>
               var k := FindFirst(todos[1..], id).value;
               [todos[0]] + (todos[1..][..k] + todos[1..][k + 1..]) == todos[..k + 1] + todos[k + 2..];
      [todos[0]] + rest
  }

  /**
   The comprehension of the list view when only open todos are shown: the
   records whose flag is false, in their original order, none dropped.
   */
  function Incomplete(todos: seq<Todo>): (r: seq<Todo>)
    ensures forall j :: 0 <= j < |r| ==> !r[j].done
    ensures Subsequence(r, todos)
    ensures forall t: Todo :: !t.done ==> multiset(r)[t] == multiset(todos)[t]
  {
    if |todos| == 0 then []
    else
      assert todos == [todos[0]] + todos[1..];
      if todos[0].done then Incomplete(todos[1..])
      else [todos[0]] + Incomplete(todos[1..])
  }

  /**
   The three properties of Incomplete pin it down: any list that is a
   subsequence of `todos`, holds only open records, and holds every open
   record as often as `todos` does, is the filtered list.
   */
  lemma {:induction false} IncompleteUnique(todos: seq<Todo>, view: seq<Todo>)
    requires forall j :: 0 <= j < |view| ==> !view[j].done
    requires Subsequence(view, todos)
    requires forall t: Todo :: !t.done ==> multiset(view)[t] == multiset(todos)[t]
    ensures view == Incomplete(todos)
  {
    if |todos| == 0 {
    } else {
      var t0 := todos[0];
      var tail := todos[1..];
      assert todos == [t0] + tail;
      if t0.done {
        if |view| > 0 {
          assert view[0] != t0;
        }
        assert Subsequence(view, tail);
        forall t: Todo | !t.done
          ensures multiset(view)[t] == multiset(tail)[t]
        {
          assert t != t0;
        }
        IncompleteUnique(tail, view);
      } else {
        assert multiset(view)[t0] == multiset(todos)[t0] == multiset(tail)[t0] + 1;
        if |view| > 0 && view[0] == t0 && Subsequence(view[1..], tail) {
          assert view == [t0] + view[1..];
          forall t: Todo | !t.done
            ensures multiset(view[1..])[t] == multiset(tail)[t]
          {
          }
          forall j | 0 <= j < |view[1..]|
            ensures !view[1..][j].done
          {
            assert view[1..][j] == view[j + 1];
          }
          IncompleteUnique(tail, view[1..]);
        } else {
          assert Subsequence(view, tail);
          SubsequenceMultiset(view, tail);
          assert false;
        }
      }
    }
  }
}
