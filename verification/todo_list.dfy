/** The page's to-do list: three seeded items and a toggle of their completion. */
module TodoList {

  datatype Todo = Todo(id: int, text: string, completed: bool)

  /** The list the page starts with: ids 1, 2, 3, only the first completed. */
  function SeedTodos(): (ts: seq<Todo>)
    ensures |ts| == 3
    ensures forall i :: 0 <= i < 3 ==> ts[i].id == i + 1 && (ts[i].completed <==> i == 0)
  {
    [
      Todo(1, "Finalize color palette for living room", true),
      Todo(2, "Source sustainable materials for flooring", false),
      Todo(3, "Create lighting plan for dining area", false)
    ]
  }

  /**
    `toggleTodo` (`todos.map(...)`): same length, order, ids and texts; the
    completion flag flips on exactly the items whose id matches.
  */
  function ToggleTodo(todos: seq<Todo>, id: int): (r: seq<Todo>)
    ensures |r| == |todos|
    ensures forall i :: 0 <= i < |r| ==> r[i].id == todos[i].id && r[i].text == todos[i].text
    ensures forall i :: 0 <= i < |r| ==> (r[i].completed != todos[i].completed <==> todos[i].id == id)
  {
    if |todos| == 0 then []
    else
      var t := todos[0];
      var head := if t.id == id then t.(completed := !t.completed) else t;
      var rest := ToggleTodo(todos[1..], id);
      var r := [head] + rest;
      assert forall i :: 1 <= i < |r| ==> r[i] == rest[i - 1] && todos[i] == todos[1..][i - 1];
      r
  }

  /** Toggling the same id twice gives back the original list. */
  lemma ToggleTwice(todos: seq<Todo>, id: int)
    ensures ToggleTodo(ToggleTodo(todos, id), id) == todos
  {
    var twice := ToggleTodo(ToggleTodo(todos, id), id);
    assert forall i :: 0 <= i < |todos| ==> twice[i] == todos[i];
  }

  /** Toggling an id no item carries changes nothing. */
  lemma ToggleMissing(todos: seq<Todo>, id: int)
    requires forall i :: 0 <= i < |todos| ==> todos[i].id != id
    ensures ToggleTodo(todos, id) == todos
  {
    var r := ToggleTodo(todos, id);
    assert forall i :: 0 <= i < |todos| ==> r[i] == todos[i];
  }

  /** Toggling different ids commutes. */
  lemma ToggleCommutes(todos: seq<Todo>, a: int, b: int)
    ensures ToggleTodo(ToggleTodo(todos, a), b) == ToggleTodo(ToggleTodo(todos, b), a)
  {
    var ab := ToggleTodo(ToggleTodo(todos, a), b);
    var ba := ToggleTodo(ToggleTodo(todos, b), a);
    assert forall i :: 0 <= i < |todos| ==> ab[i] == ba[i];
  }
}
