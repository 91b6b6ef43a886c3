/**
 * The service as a state machine: a request is routed to its handler, and a
 * sequence of requests is served one after the other from a given collection.
 */
module Router {
  import opened Options
  import opened Json
  import opened Todos
  import opened Store

  /** The five routes, plus a request whose JSON body failed to parse: that
      one is answered before any route sees it. */
  datatype Request =
    | ListTodos
    | GetTodo(id: Option<int>)
    | CreateTodo(body: Body)
    | UpdateTodo(id: Option<int>, body: Body)
    | DeleteTodo(id: Option<int>)
    | MalformedJson

  function Handle(todos: seq<Todo>, req: Request): (r: Step)
    ensures IsRead(req) ==> r.todos == todos
    ensures req.ListTodos? ==> r.response == Listed(todos)
    ensures req.MalformedJson? ==> r.response == Failed(MalformedRequestBody)
    ensures r.response.Failed? && r.response.error != InvalidCompletedType ==> r.todos == todos
    ensures r.response.Created? ==> req.CreateTodo?
    ensures r.response == Deleted ==> req.DeleteTodo?
  {
    match req
    case ListTodos => Step(List(todos), todos)
    case GetTodo(id) => Step(Get(todos, id), todos)
    case CreateTodo(body) => Create(todos, body)
    case UpdateTodo(id, body) => Update(todos, id, body)
    case DeleteTodo(id) => Delete(todos, id)
    case MalformedJson => Step(Failed(MalformedRequestBody), todos)
  }

  /** The collection after a run of requests and the response to each. */
  datatype Trace = Trace(todos: seq<Todo>, responses: seq<Response>)

  /** A request that only reads: the collection is the same afterwards. */
  predicate IsRead(req: Request)
  {
    req.ListTodos? || req.GetTodo? || req.MalformedJson?
  }

  /** Serves `reqs` in order, each against the collection the previous one
      left behind. */
  function Run(todos: seq<Todo>, reqs: seq<Request>): (t: Trace)
    ensures |t.responses| == |reqs|
    // a run of reads changes nothing
    ensures (forall i | 0 <= i < |reqs| :: IsRead(reqs[i])) ==> t.todos == todos
    // a run whose every request fails, none half-applied, changes nothing
    ensures (forall i | 0 <= i < |t.responses| ::
               t.responses[i].Failed? && t.responses[i].error != InvalidCompletedType)
            ==> t.todos == todos
    decreases |reqs|
  {
    if |reqs| == 0 then Trace(todos, [])
    else
      var s := Handle(todos, reqs[0]);
      var rest := Run(s.todos, reqs[1..]);
      assert forall i | 1 <= i < |reqs| :: reqs[1..][i - 1] == reqs[i];
      var t := Trace(rest.todos, [s.response] + rest.responses);
      assert t.responses[0] == s.response;
      assert forall j | 0 <= j < |rest.responses| :: rest.responses[j] == t.responses[j + 1];
      t
  }

  function CreatedCount(responses: seq<Response>): nat
  {
    if |responses| == 0 then 0
    else (if responses[0].Created? then 1 else 0) + CreatedCount(responses[1..])
  }

  function DeletedCount(responses: seq<Response>): nat
  {
    if |responses| == 0 then 0
    else (if responses[0] == Deleted then 1 else 0) + DeletedCount(responses[1..])
  }
}
