/**
 * The todo record, the seed collection, the collection invariants and the
 * scans the handlers perform over the collection (`find`, `findIndex`,
 * `some`, `filter` and the next-id rule).
 */
module Todos {
  import opened Options

  const MinTitleLength: nat := 3
  const MaxTitleLength: nat := 100

  datatype Todo = Todo(id: int, title: string, completed: bool)

  /** The collection every process starts with (app.js:7-11). */
  const Seed: seq<Todo> := [
    Todo(1, "Task 1", false),
    Todo(2, "Task 2", false),
    Todo(3, "Task 3", false)
  ]

  predicate TitleInRange(title: string)
  {
    MinTitleLength <= |title| <= MaxTitleLength
  }

  // ---------------------------------------------------------------------------
  // Collection invariants

  /** Ids strictly increase in list order (hence they are unique). */
  ghost predicate IdsIncreasing(todos: seq<Todo>)
  {
    forall i, j | 0 <= i < j < |todos| :: todos[i].id < todos[j].id
  }

  ghost predicate IdsPositive(todos: seq<Todo>)
  {
    forall i | 0 <= i < |todos| :: 0 < todos[i].id
  }

  ghost predicate TitlesInRange(todos: seq<Todo>)
  {
    forall i | 0 <= i < |todos| :: TitleInRange(todos[i].title)
  }

  ghost predicate TitlesDistinct(todos: seq<Todo>)
  {
    forall i, j | 0 <= i < j < |todos| :: todos[i].title != todos[j].title
  }

  /** Everything the handlers keep true of the collection. */
  ghost predicate Valid(todos: seq<Todo>)
  {
    IdsIncreasing(todos) && IdsPositive(todos) && TitlesInRange(todos) && TitlesDistinct(todos)
  }

  ghost predicate HasId(todos: seq<Todo>, id: int)
  {
    exists i | 0 <= i < |todos| :: todos[i].id == id
  }

  /** `k` is the first position holding `id`. */
  ghost predicate IsFirstWithId(todos: seq<Todo>, k: int, id: int)
  {
    0 <= k < |todos| && todos[k].id == id && forall j | 0 <= j < k :: todos[j].id != id
  }

  /** Under increasing ids, a position holding `id` is the only one. */
  lemma IdsUnique(todos: seq<Todo>, i: int, j: int)
    requires IdsIncreasing(todos)
    requires 0 <= i < |todos| && 0 <= j < |todos|
    requires todos[i].id == todos[j].id
    ensures i == j
  {
  }

  // ---------------------------------------------------------------------------
  // Scans

  /** `todos.findIndex(todo => todo.id === id)`: the first position with that
      id, or -1 when there is none. */
  function FindIndex(todos: seq<Todo>, id: int): (k: int)
    ensures -1 <= k < |todos|
    ensures k == -1 <==> !HasId(todos, id)
    ensures k != -1 ==> IsFirstWithId(todos, k, id)
  {
    if |todos| == 0 then -1
    else if todos[0].id == id then 0
    else
      var k := FindIndex(todos[1..], id);
      if k == -1 then
        assert forall i | 1 <= i < |todos| :: todos[i] == todos[1..][i - 1];
        -1
      else
        k + 1
  }

  /** `todos.find(todo => todo.id === id)`. */
  function Find(todos: seq<Todo>, id: int): (r: Option<Todo>)
    ensures r.None? <==> !HasId(todos, id)
    ensures r.Some? ==> exists k :: IsFirstWithId(todos, k, id) && r.value == todos[k]
  {
    var k := FindIndex(todos, id);
    if k == -1 then None else Some(todos[k])
  }

  /** Whether some element other than those with id `except` already carries
      `title`: `todos.some(todo => todo.title === title && todo.id !== except)`,
      and with `except == None` the unrestricted `some` of create. */
  function TitleTaken(todos: seq<Todo>, title: string, except: Option<int>): (b: bool)
    ensures b <==> exists i | 0 <= i < |todos| ::
                     todos[i].title == title && except != Some(todos[i].id)
  {
    if |todos| == 0 then false
    else if todos[0].title == title && except != Some(todos[0].id) then true
    else
      var b := TitleTaken(todos[1..], title, except);
      assert forall i | 1 <= i < |todos| :: todos[i] == todos[1..][i - 1];
      b
  }

  /** The id a new todo gets: one more than the last element's, or 1. Under
      increasing ids that is one more than the largest id present. */
  function NextId(todos: seq<Todo>): (id: int)
    ensures |todos| == 0 ==> id == 1
    ensures IdsIncreasing(todos) ==> forall i | 0 <= i < |todos| :: todos[i].id < id
    ensures IdsIncreasing(todos) && |todos| > 0 ==>
              exists i | 0 <= i < |todos| :: todos[i].id + 1 == id
    ensures IdsPositive(todos) ==> 0 < id
  {
    if |todos| > 0 then todos[|todos| - 1].id + 1 else 1
  }

  /** `todos.filter(todo => todo.id !== id)`. */
  function Without(todos: seq<Todo>, id: int): (r: seq<Todo>)
    ensures |r| <= |todos|
    ensures forall t :: t in r <==> t in todos && t.id != id
    ensures !HasId(todos, id) ==> r == todos
  {
    if |todos| == 0 then []
    else
      var rest := Without(todos[1..], id);
      assert forall t :: t in todos <==> t == todos[0] || t in todos[1..];
      assert HasId(todos[1..], id) ==> HasId(todos, id) by {
        if HasId(todos[1..], id) {
          var i :| 0 <= i < |todos[1..]| && todos[1..][i].id == id;
          assert todos[i + 1].id == id;
        }
      }
      assert todos == [todos[0]] + todos[1..];
      if todos[0].id != id then [todos[0]] + rest else rest
  }
}
