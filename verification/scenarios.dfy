/**
 * Concrete request sequences against the seed collection, computed by the
 * model.
 */
module Scenarios {
  import opened Options
  import opened Json
  import opened Todos
  import opened Store

  /** A body holding the single key `key`. */
  function One(key: string, v: JsonValue): Body
  {
    Some(map[key := v])
  }

  lemma GetSeedTodo()
    ensures Get(Seed, Some(1)) == Found(Todo(1, "Task 1", false))
    ensures Get(Seed, Some(999)) == Failed(NotFound)
    ensures Get(Seed, None) == Failed(InvalidIdentifier)
  {
    assert Seed[0].id == 1;
  }

  /** Which check rejects which title on create. */
  lemma CreateRejections()
    ensures Create(Seed, None).response == Failed(EmptyBody)
    ensures Create(Seed, Some(map[])).response == Failed(EmptyBody)
    ensures Create(Seed, One("name", Str("Task 9"))).response == Failed(MissingTitle)
    ensures Create(Seed, One("title", Bool(false))).response == Failed(MissingTitle)
    ensures Create(Seed, One("title", Num(0.0))).response == Failed(MissingTitle)
    ensures Create(Seed, One("title", Num(5.0))).response == Failed(InvalidTitle)
    ensures Create(Seed, One("title", Str("ab"))).response == Failed(InvalidTitle)
    ensures Create(Seed, One("title", Str("Task 2"))).response == Failed(DuplicateTitle)
  {
    assert Seed[1].title == "Task 2";
  }

  lemma CreateOnSeed()
    ensures Create(Seed, One("title", Str("Task 4")))
              == Step(Created(Todo(4, "Task 4", false)), Seed + [Todo(4, "Task 4", false)])
  {
    assert !TitleTaken(Seed, "Task 4", None) by {
      assert Seed[0].title != "Task 4" && Seed[1].title != "Task 4" && Seed[2].title != "Task 4";
    }
  }

  /** Only the fields present in the body change. */
  lemma UpdateCompletedOnly()
    ensures Update(Seed, Some(1), One("completed", Bool(true)))
              == Step(Updated(Todo(1, "Task 1", true)), [Todo(1, "Task 1", true)] + Seed[1..])
  {
    assert Seed[0].id == 1;
    assert Member(One("completed", Bool(true)), "title") == None;
  }

  /** An empty object is rejected by the empty-body check, before the
      no-fields check is reached. */
  lemma UpdateEmptyObject()
    ensures Update(Seed, Some(1), Some(map[])).response == Failed(EmptyBody)
    ensures Update(Seed, Some(1), One("done", Bool(true))).response == Failed(NoFieldsToUpdate)
  {
    assert Seed[0].id == 1;
  }

  /** A valid title with `completed: null` fails, and the title is replaced. */
  lemma UpdateHalfApplied()
    ensures var r := Update(Seed, Some(1), Some(map["title" := Str("Renamed"), "completed" := Null]));
      && r.response == Failed(InvalidCompletedType)
      && r.todos == [Todo(1, "Renamed", false)] + Seed[1..]
  {
    var body: Body := Some(map["title" := Str("Renamed"), "completed" := Null]);
    assert Seed[0].id == 1;
    assert Member(body, "title") == Some(Str("Renamed"));
    assert Member(body, "completed") == Some(Null);
    assert !TitleTaken(Seed, "Renamed", Some(1)) by {
      assert Seed[0].title != "Renamed" && Seed[1].title != "Renamed" && Seed[2].title != "Renamed";
    }
  }

  lemma DeleteThenGet()
    ensures var r := Delete(Seed, Some(1));
      && r == Step(Deleted, Seed[1..])
      && Get(r.todos, Some(1)) == Failed(NotFound)
  {
    assert Seed[0].id == 1;
    assert Seed == [Seed[0]] + Seed[1..];
    assert Seed[1..] == [Seed[1]] + Seed[2..];
    assert Seed[2..] == [Seed[2]] + Seed[3..];
  }

  /** Ids follow the last element, not a counter: after the todo with the
      highest id is deleted, the next create hands that id out again. */
  lemma IdReusedAfterDeletingLast()
    ensures var d := Delete(Seed, Some(3));
      && d.response == Deleted
      && Create(d.todos, One("title", Str("Task 9"))).response == Created(Todo(3, "Task 9", false))
  {
    var d := Delete(Seed, Some(3));
    assert Seed[2].id == 3;
    assert Seed == [Seed[0]] + ([Seed[1]] + ([Seed[2]] + []));
    assert d.todos == Seed[..2];
    assert !TitleTaken(d.todos, "Task 9", None) by {
      assert d.todos[0].title != "Task 9" && d.todos[1].title != "Task 9";
    }
  }
}
