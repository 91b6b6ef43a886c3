/**
 * The collection invariants hold of the seed and are kept by every handler,
 * hence by every run of requests; and what the handlers promise about ids,
 * titles and removal, stated across several calls.
 */
module Invariants {
  import opened Options
  import opened Json
  import opened Todos
  import opened Store
  import opened Router

  lemma SeedValid()
    ensures Valid(Seed)
  {
  }

  // ---------------------------------------------------------------------------
  // Create

  /** The new id is greater than every id present, and is 1 on an empty
      collection and one more than the largest id otherwise. */
  lemma CreateAssignsFreshId(todos: seq<Todo>, body: Body)
    requires IdsIncreasing(todos)
    requires Create(todos, body).response.Created?
    ensures var t := Create(todos, body).response.todo;
      && (forall i | 0 <= i < |todos| :: todos[i].id < t.id)
      && (|todos| == 0 ==> t.id == 1)
      && (|todos| > 0 ==> exists i | 0 <= i < |todos| :: todos[i].id + 1 == t.id)
  {
    var t := Create(todos, body).response.todo;
    if |todos| > 0 {
      var last := |todos| - 1;
      forall i | 0 <= i < |todos| ensures todos[i].id < t.id {
        if i < last {
          assert todos[i].id < todos[last].id;
        }
      }
      assert todos[last].id + 1 == t.id;
    }
  }

  /** A body whose title is a fresh string of valid length is answered 201
      with a new, not yet completed todo carrying that title. */
  lemma CreateFreshTitleSucceeds(todos: seq<Todo>, title: string)
    requires TitleInRange(title)
    requires forall i | 0 <= i < |todos| :: todos[i].title != title
    ensures var r := Create(todos, Some(map["title" := Str(title)]));
      && StatusCode(r.response) == 201
      && r.response.todo == Todo(NextId(todos), title, false)
  {
    var body: Body := Some(map["title" := Str(title)]);
    assert Member(body, "title") == Some(Str(title));
    assert title != "";
  }

  lemma CreatePreservesValid(todos: seq<Todo>, body: Body)
    requires Valid(todos)
    ensures Valid(Create(todos, body).todos)
  {
    var r := Create(todos, body);
    if r.response.Created? {
      var t := r.response.todo;
      CreateAssignsFreshId(todos, body);
      assert r.todos == todos + [t];
      assert TitleInRange(t.title) by {
        assert IsValidTitle(Member(body, "title").value);
      }
      if |todos| > 0 {
        assert 0 < todos[|todos| - 1].id;
      }
    }
  }

  /** Fetching the id a create returned yields exactly the created todo. */
  lemma GetAfterCreate(todos: seq<Todo>, body: Body)
    requires IdsIncreasing(todos)
    requires Create(todos, body).response.Created?
    ensures var r := Create(todos, body);
      Get(r.todos, Some(r.response.todo.id)) == Found(r.response.todo)
  {
    var r := Create(todos, body);
    var t := r.response.todo;
    CreateAssignsFreshId(todos, body);
    var g := Get(r.todos, Some(t.id));
    assert r.todos[|todos|] == t;
    assert g.Found?;
    var k :| IsFirstWithId(r.todos, k, t.id) && g.todo == r.todos[k];
  }

  // ---------------------------------------------------------------------------
  // Update

  /** Every update outcome, including the non-atomic InvalidCompletedType
      failure, keeps the invariants. */
  lemma UpdatePreservesValid(todos: seq<Todo>, id: Option<int>, body: Body)
    requires Valid(todos)
    ensures Valid(Update(todos, id, body).todos)
  {
    var r := Update(todos, id, body);
    if r.todos != todos {
      assert id.Some?;
      var k := FindIndex(todos, id.value);
      assert k != -1 by {
        var i :| 0 <= i < |todos| && r.todos[i] != todos[i];
      }
      assert UpdateTitleAccepted(todos, id, body);
      assert forall i | 0 <= i < |todos| && i != k :: r.todos[i] == todos[i];
      assert TitleInRange(r.todos[k].title);
      forall i, j | 0 <= i < j < |todos| ensures r.todos[i].title != r.todos[j].title {
        if i == k || j == k {
          var o := if i == k then j else i;
          assert todos[o].id != id.value by {
            if todos[o].id == id.value {
              IdsUnique(todos, o, k);
            }
          }
          if Member(body, "title").None? {
            assert r.todos[k].title == todos[k].title;
          }
        }
      }
    }
  }

  /** A todo may be "renamed" to its own current title. */
  lemma UpdateToOwnTitle(todos: seq<Todo>, k: int)
    requires Valid(todos)
    requires 0 <= k < |todos|
    ensures var body := Some(map["title" := Str(todos[k].title)]);
      Update(todos, Some(todos[k].id), body) == Step(Updated(todos[k]), todos)
  {
    var id := todos[k].id;
    var body: Body := Some(map["title" := Str(todos[k].title)]);
    var r := Update(todos, Some(id), body);
    assert Member(body, "title") == Some(Str(todos[k].title));
    assert Member(body, "completed") == None;
    assert HasId(todos, id);
    assert |body.value| == 1;
    assert !exists i | 0 <= i < |todos| :: todos[i].title == todos[k].title && todos[i].id != id by {
    }
    assert UpdateTitleAccepted(todos, Some(id), body);
    assert IsFirstWithId(todos, k, id);
    assert r.response.Updated?;
    forall i | 0 <= i < |todos| ensures r.todos[i] == todos[i] {
      if r.todos[i] != todos[i] {
        IdsUnique(todos, i, k);
      }
    }
  }

  /** Update is not atomic: with a valid, unused title and a non-boolean
      `completed`, the request fails but the title has been replaced. */
  lemma UpdateNotAtomic(todos: seq<Todo>, id: Option<int>, body: Body)
    requires UpdateTitleAccepted(todos, id, body)
    requires Member(body, "title").Some?
    requires Member(body, "completed").Some? && !Member(body, "completed").value.Bool?
    ensures var r := Update(todos, id, body);
      && r.response == Failed(InvalidCompletedType)
      && r.todos == SetTitle(todos, FindIndex(todos, id.value), Member(body, "title").value.s)
  {
    var r := Update(todos, id, body);
    var k := FindIndex(todos, id.value);
    var s := Member(body, "title").value.s;
    assert r.todos[k].title == s;
    assert forall i | 0 <= i < |todos| && i != k :: r.todos[i] == todos[i];
  }

  /** Fetching an updated todo yields the todo update returned. */
  lemma GetAfterUpdate(todos: seq<Todo>, id: Option<int>, body: Body)
    requires UpdateTitleAccepted(todos, id, body)
    requires Member(body, "completed").Some? ==> Member(body, "completed").value.Bool?
    ensures var r := Update(todos, id, body);
      r.response.Updated? && Get(r.todos, id) == Found(r.response.todo)
  {
    var r := Update(todos, id, body);
    var k :| IsFirstWithId(todos, k, id.value) && r.response.todo == r.todos[k];
    var g := Get(r.todos, id);
    assert IsFirstWithId(r.todos, k, id.value);
    assert g.Found?;
    var k' :| IsFirstWithId(r.todos, k', id.value) && g.todo == r.todos[k'];
    assert k == k';
  }

  // ---------------------------------------------------------------------------
  // Delete

  /** Filtering distributes over concatenation. */
  lemma {:induction false} WithoutAppend(a: seq<Todo>, b: seq<Todo>, id: int)
    ensures Without(a + b, id) == Without(a, id) + Without(b, id)
  {
    if |a| == 0 {
      assert a + b == b;
    } else {
      assert (a + b)[1..] == a[1..] + b;
      WithoutAppend(a[1..], b, id);
    }
  }

  /** Filtering out an id held at exactly one position removes that position
      and keeps the others in order. */
  lemma WithoutSingle(todos: seq<Todo>, id: int, k: int)
    requires 0 <= k < |todos| && todos[k].id == id
    requires forall i | 0 <= i < |todos| && i != k :: todos[i].id != id
    ensures Without(todos, id) == todos[..k] + todos[k + 1..]
  {
    var before, after := todos[..k], todos[k + 1..];
    assert todos == before + ([todos[k]] + after);
    assert !HasId(before, id) by {
      forall i | 0 <= i < |before| ensures before[i].id != id {
        assert before[i] == todos[i];
      }
    }
    assert !HasId(after, id) by {
      forall i | 0 <= i < |after| ensures after[i].id != id {
        assert after[i] == todos[k + 1 + i];
      }
    }
    assert Without([todos[k]], id) == [];
    WithoutAppend([todos[k]], after, id);
    WithoutAppend(before, [todos[k]] + after, id);
  }

  /** Under increasing ids, a successful delete removes exactly the one
      element with that id and keeps the rest in order. */
  lemma DeleteRemovesExactlyOne(todos: seq<Todo>, id: Option<int>)
    requires IdsIncreasing(todos)
    requires Delete(todos, id).response == Deleted
    ensures exists k | 0 <= k < |todos| ::
              todos[k].id == id.value && Delete(todos, id).todos == todos[..k] + todos[k + 1..]
  {
    var k := FindIndex(todos, id.value);
    forall i | 0 <= i < |todos| && i != k ensures todos[i].id != id.value {
      if todos[i].id == id.value {
        IdsUnique(todos, i, k);
      }
    }
    WithoutSingle(todos, id.value, k);
  }

  /** Dropping one position keeps the invariants. */
  lemma RemoveAtPreservesValid(todos: seq<Todo>, k: int)
    requires Valid(todos)
    requires 0 <= k < |todos|
    ensures Valid(todos[..k] + todos[k + 1..])
  {
    var r := todos[..k] + todos[k + 1..];
    assert |r| == |todos| - 1;
    assert forall i | 0 <= i < |r| :: r[i] == todos[if i < k then i else i + 1];
    forall i, j | 0 <= i < j < |r|
      ensures r[i].id < r[j].id && r[i].title != r[j].title
    {
      var i', j' := if i < k then i else i + 1, if j < k then j else j + 1;
      assert r[i] == todos[i'] && r[j] == todos[j'] && i' < j';
    }
  }

  lemma DeletePreservesValid(todos: seq<Todo>, id: Option<int>)
    requires Valid(todos)
    ensures Valid(Delete(todos, id).todos)
  {
    var r := Delete(todos, id);
    if r.response == Deleted {
      DeleteRemovesExactlyOne(todos, id);
      var k :| 0 <= k < |todos| && todos[k].id == id.value && r.todos == todos[..k] + todos[k + 1..];
      RemoveAtPreservesValid(todos, k);
    }
  }

  /** After a successful delete, fetching the same id finds nothing. */
  lemma GetAfterDelete(todos: seq<Todo>, id: Option<int>)
    requires Delete(todos, id).response == Deleted
    ensures Get(Delete(todos, id).todos, id) == Failed(NotFound)
  {
    var r := Delete(todos, id);
    forall i | 0 <= i < |r.todos| ensures r.todos[i].id != id.value {
      assert r.todos[i] in r.todos;
    }
  }

  // ---------------------------------------------------------------------------
  // Runs of requests

  lemma HandlePreservesValid(todos: seq<Todo>, req: Request)
    requires Valid(todos)
    ensures Valid(Handle(todos, req).todos)
  {
    match req
    case CreateTodo(body) => CreatePreservesValid(todos, body);
    case UpdateTodo(id, body) => UpdatePreservesValid(todos, id, body);
    case DeleteTodo(id) => DeletePreservesValid(todos, id);
    case _ =>
  }

  /** One request grows the collection by one exactly when it creates, and
      shrinks it by one exactly when it deletes. */
  lemma HandleSize(todos: seq<Todo>, req: Request)
    requires Valid(todos)
    ensures var r := Handle(todos, req);
      |r.todos| + (if r.response == Deleted then 1 else 0)
        == |todos| + (if r.response.Created? then 1 else 0)
  {
    var r := Handle(todos, req);
    if r.response == Deleted {
      DeleteRemovesExactlyOne(todos, req.id);
    }
  }

  lemma {:induction false} RunPreservesValid(todos: seq<Todo>, reqs: seq<Request>)
    requires Valid(todos)
    ensures Valid(Run(todos, reqs).todos)
    decreases |reqs|
  {
    if |reqs| > 0 {
      HandlePreservesValid(todos, reqs[0]);
      RunPreservesValid(Handle(todos, reqs[0]).todos, reqs[1..]);
    }
  }

  lemma {:induction false} RunSize(todos: seq<Todo>, reqs: seq<Request>)
    requires Valid(todos)
    ensures var t := Run(todos, reqs);
      |t.todos| + DeletedCount(t.responses) == |todos| + CreatedCount(t.responses)
    decreases |reqs|
  {
    if |reqs| > 0 {
      var s := Handle(todos, reqs[0]);
      HandleSize(todos, reqs[0]);
      HandlePreservesValid(todos, reqs[0]);
      RunSize(s.todos, reqs[1..]);
      var t := Run(todos, reqs);
      assert t.responses[1..] == Run(s.todos, reqs[1..]).responses;
    }
  }

  /** Every collection the service can reach from its seed satisfies the
      invariants, and its size is three plus the successful creates minus the
      successful deletes. */
  lemma Reachable(reqs: seq<Request>)
    ensures var t := Run(Seed, reqs);
      && Valid(t.todos)
      && |t.todos| == 3 + CreatedCount(t.responses) - DeletedCount(t.responses)
  {
    SeedValid();
    RunPreservesValid(Seed, reqs);
    RunSize(Seed, reqs);
  }
}
