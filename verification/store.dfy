/**
 * The route handlers of the todo service as pure transitions: each takes the
 * current collection and the request's inputs and returns the response
 * together with the collection afterwards. Each handler checks its inputs in
 * the order the service does and stops at the first failing check.
 */
module Store {
  import opened Options
  import opened Json
  import opened Todos

  /** The error tags of the service. `MalformedRequestBody` and
      `InternalError` are raised outside the handlers. */
  datatype Error =
    | InvalidIdentifier
    | NotFound
    | EmptyBody
    | MissingTitle
    | InvalidTitle
    | DuplicateTitle
    | NoFieldsToUpdate
    | InvalidCompletedType
    | MalformedRequestBody
    | InternalError

  datatype Response =
    | Listed(items: seq<Todo>)
    | Found(todo: Todo)
    | Created(todo: Todo)
    | Updated(todo: Todo)
    | Deleted
    | Failed(error: Error)

  /** A handler's response and the collection it leaves behind. */
  datatype Step = Step(response: Response, todos: seq<Todo>)

  /** The HTTP status code a response is sent with. */
  function StatusCode(r: Response): (code: int)
    ensures 200 <= code < 300 <==> !r.Failed?
    ensures code == 201 <==> r.Created?
    ensures code == 404 <==> r == Failed(NotFound)
    ensures code == 500 <==> r == Failed(InternalError)
    ensures r.Failed? ==> code in {400, 404, 500}
    ensures !r.Failed? && !r.Created? ==> code == 200
  {
    match r
    case Created(_) => 201
    case Failed(NotFound) => 404
    case Failed(InternalError) => 500
    case Failed(_) => 400
    case _ => 200
  }

  /** A title a request may store: a string of 3 to 100 characters. */
  predicate IsValidTitle(v: JsonValue)
  {
    v.Str? && TitleInRange(v.s)
  }

  // ---------------------------------------------------------------------------
  // GET /api/todos and GET /api/todos/:todoId

  /** Answers with the whole collection, in order. */
  function List(todos: seq<Todo>): (r: Response)
    ensures r.Listed? && r.items == todos
  {
    Listed(todos)
  }

  /** `id` is the parsed path token; `None` stands for NaN. */
  function Get(todos: seq<Todo>, id: Option<int>): (r: Response)
    ensures r.Found? || r.Failed?
    ensures r.Failed? ==> r.error in {InvalidIdentifier, NotFound}
    ensures r.Found? <==> id.Some? && HasId(todos, id.value)
    ensures r == Failed(InvalidIdentifier) <==> id.None?
    ensures r == Failed(NotFound) <==> id.Some? && !HasId(todos, id.value)
    ensures r.Found? ==> id.Some? && exists k :: IsFirstWithId(todos, k, id.value) && r.todo == todos[k]
  {
    if id.None? then Failed(InvalidIdentifier)
    else
      match Find(todos, id.value)
      case None => Failed(NotFound)
      case Some(t) => Found(t)
  }

  // ---------------------------------------------------------------------------
  // POST /api/todos

  function Create(todos: seq<Todo>, body: Body): (r: Step)
    ensures r.response.Created? || r.response.Failed?
    ensures r.response.Failed? ==>
              r.response.error in {EmptyBody, MissingTitle, InvalidTitle, DuplicateTitle}
    ensures r.response.Failed? ==> r.todos == todos
    ensures r.response == Failed(EmptyBody) <==> IsEmptyBody(body)
    ensures r.response == Failed(MissingTitle) <==>
              !IsEmptyBody(body) && !Truthy(Member(body, "title"))
    ensures r.response == Failed(InvalidTitle) <==>
              && !IsEmptyBody(body)
              && Truthy(Member(body, "title"))
              && !IsValidTitle(Member(body, "title").value)
    ensures r.response == Failed(DuplicateTitle) <==>
              && !IsEmptyBody(body)
              && Truthy(Member(body, "title"))
              && IsValidTitle(Member(body, "title").value)
              && exists i | 0 <= i < |todos| :: todos[i].title == Member(body, "title").value.s
    ensures r.response.Created? <==>
              && !IsEmptyBody(body)
              && Truthy(Member(body, "title"))
              && IsValidTitle(Member(body, "title").value)
              && !exists i | 0 <= i < |todos| :: todos[i].title == Member(body, "title").value.s
    ensures r.response.Created? ==>
              && Member(body, "title") == Some(Str(r.response.todo.title))
              && r.response.todo.id == NextId(todos)
              && !r.response.todo.completed
              && r.todos == todos + [r.response.todo]
  {
    if IsEmptyBody(body) then Step(Failed(EmptyBody), todos)
    else
      var title := Member(body, "title");
      if !Truthy(title) then Step(Failed(MissingTitle), todos)
      else if !IsValidTitle(title.value) then Step(Failed(InvalidTitle), todos)
      else if TitleTaken(todos, title.value.s, None) then Step(Failed(DuplicateTitle), todos)
      else
        var t := Todo(NextId(todos), title.value.s, false);
        Step(Created(t), todos + [t])
  }

  // ---------------------------------------------------------------------------
  // PUT /api/todos/:todoId

  /** The checks of update that come before the body is looked at pass. */
  ghost predicate UpdateTargetExists(todos: seq<Todo>, id: Option<int>)
  {
    id.Some? && HasId(todos, id.value)
  }

  /** The checks of update up to and including the title checks pass. */
  ghost predicate UpdateTitleAccepted(todos: seq<Todo>, id: Option<int>, body: Body)
  {
    && UpdateTargetExists(todos, id)
    && !IsEmptyBody(body)
    && (Member(body, "title").Some? || Member(body, "completed").Some?)
    && (Member(body, "title").Some? ==>
          && IsValidTitle(Member(body, "title").value)
          && !exists i | 0 <= i < |todos| ::
                todos[i].title == Member(body, "title").value.s && todos[i].id != id.value)
  }

  /** Replaces the title of the element at `k`. */
  function SetTitle(todos: seq<Todo>, k: int, title: string): seq<Todo>
    requires 0 <= k < |todos|
  {
    todos[k := todos[k].(title := title)]
  }

  /** Replaces the completed flag of the element at `k`. */
  function SetCompleted(todos: seq<Todo>, k: int, completed: bool): seq<Todo>
    requires 0 <= k < |todos|
  {
    todos[k := todos[k].(completed := completed)]
  }

  /** A partial update. The new title is stored before `completed` is checked,
      so a request with a valid title and a non-boolean `completed` fails yet
      leaves the title replaced. */
  function Update(todos: seq<Todo>, id: Option<int>, body: Body): (r: Step)
    // only the first element with the id may change, and never its id
    ensures |r.todos| == |todos|
    ensures forall i | 0 <= i < |todos| :: r.todos[i].id == todos[i].id
    ensures forall i | 0 <= i < |todos| && r.todos[i] != todos[i] ::
              id.Some? && IsFirstWithId(todos, i, id.value)
    // the checks, in order
    ensures r.response.Updated? || r.response.Failed?
    ensures r.response.Failed? ==>
              r.response.error in {InvalidIdentifier, NotFound, EmptyBody, NoFieldsToUpdate,
                                   InvalidTitle, DuplicateTitle, InvalidCompletedType}
    ensures r.response.Updated? <==>
              && UpdateTitleAccepted(todos, id, body)
              && (Member(body, "completed").Some? ==> Member(body, "completed").value.Bool?)
    ensures r.response == Failed(InvalidIdentifier) <==> id.None?
    ensures r.response == Failed(NotFound) <==> id.Some? && !HasId(todos, id.value)
    ensures r.response == Failed(EmptyBody) <==>
              UpdateTargetExists(todos, id) && IsEmptyBody(body)
    ensures r.response == Failed(NoFieldsToUpdate) <==>
              && UpdateTargetExists(todos, id)
              && !IsEmptyBody(body)
              && Member(body, "title").None? && Member(body, "completed").None?
    ensures r.response == Failed(InvalidTitle) <==>
              && UpdateTargetExists(todos, id)
              && !IsEmptyBody(body)
              && Member(body, "title").Some?
              && !IsValidTitle(Member(body, "title").value)
    ensures r.response == Failed(DuplicateTitle) <==>
              && UpdateTargetExists(todos, id)
              && !IsEmptyBody(body)
              && Member(body, "title").Some?
              && IsValidTitle(Member(body, "title").value)
              && exists i | 0 <= i < |todos| ::
                   todos[i].title == Member(body, "title").value.s && todos[i].id != id.value
    ensures r.response == Failed(InvalidCompletedType) <==>
              && UpdateTitleAccepted(todos, id, body)
              && Member(body, "completed").Some?
              && !Member(body, "completed").value.Bool?
    // every failure but the last leaves the collection as it was
    ensures r.response.Failed? && r.response.error != InvalidCompletedType ==> r.todos == todos
    // what an accepted title and completed flag do to the target
    ensures UpdateTitleAccepted(todos, id, body) ==>
              forall k | IsFirstWithId(todos, k, id.value) ::
                && r.todos[k].title ==
                     (if Member(body, "title").Some? then Member(body, "title").value.s
                      else todos[k].title)
                && r.todos[k].completed ==
                     (if r.response.Updated? && Member(body, "completed").Some?
                      then Member(body, "completed").value.b
                      else todos[k].completed)
    ensures r.response.Updated? ==>
              exists k :: IsFirstWithId(todos, k, id.value) && r.response.todo == r.todos[k]
  {
    if id.None? then Step(Failed(InvalidIdentifier), todos)
    else
      var k := FindIndex(todos, id.value);
      if k == -1 then Step(Failed(NotFound), todos)
      else if IsEmptyBody(body) then Step(Failed(EmptyBody), todos)
      else
        var title := Member(body, "title");
        var completed := Member(body, "completed");
        if title.None? && completed.None? then Step(Failed(NoFieldsToUpdate), todos)
        else if title.Some? && !IsValidTitle(title.value) then Step(Failed(InvalidTitle), todos)
        else if title.Some? && TitleTaken(todos, title.value.s, id) then Step(Failed(DuplicateTitle), todos)
        else
          var titled := if title.Some? then SetTitle(todos, k, title.value.s) else todos;
          if completed.Some? && !completed.value.Bool? then Step(Failed(InvalidCompletedType), titled)
          else
            var done := if completed.Some? then SetCompleted(titled, k, completed.value.b) else titled;
            Step(Updated(done[k]), done)
  }

  // ---------------------------------------------------------------------------
  // DELETE /api/todos/:todoId

  function Delete(todos: seq<Todo>, id: Option<int>): (r: Step)
    ensures r.response == Deleted || r.response.Failed?
    ensures r.response.Failed? ==> r.response.error in {InvalidIdentifier, NotFound}
    ensures r.response == Deleted <==> id.Some? && HasId(todos, id.value)
    ensures r.response == Failed(InvalidIdentifier) <==> id.None?
    ensures r.response == Failed(NotFound) <==> id.Some? && !HasId(todos, id.value)
    ensures r.response.Failed? ==> r.todos == todos
    ensures r.response == Deleted ==>
              forall t :: t in r.todos <==> t in todos && t.id != id.value
  {
    if id.None? then Step(Failed(InvalidIdentifier), todos)
    else if FindIndex(todos, id.value) == -1 then Step(Failed(NotFound), todos)
    else Step(Deleted, Without(todos, id.value))
  }
}
