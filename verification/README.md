# Todo list service: a Dafny model

A model of the todo list HTTP service. The service keeps an in-memory,
ordered collection of todos `{id, title, completed}`, seeded with three
entries. It answers five routes: list, get by id, create, partial update
and delete. Every route handler checks its inputs in a fixed order. It
then either answers with a tagged error or reads or changes the collection.

The model writes each handler as a pure function. The function takes the
collection and the request's inputs, and returns a `Step`: the response
and the collection afterwards. A router (`Router.Handle`) dispatches
requests. `Router.Run` serves a sequence of requests. The invariants are
proved over every such sequence from the seed.

- `options.dfy`: `Option`. It stands for a JavaScript value that may be `undefined`.
- `json.dfy`: request bodies as `Option<map<string, JsonValue>>`, with
  `JsonValue = Str | Bool | Num | Null | Other`. An absent key is `undefined`.
  `Truthy` is JavaScript truthiness on these values.
- `todos.dfy`: the `Todo` record and the seed. Also the invariants (ids
  strictly increasing and positive; titles 3 to 100 characters and pairwise
  distinct) and the scans the handlers use (`findIndex`, `find`, `some`,
  `filter`, next id).
- `store.dfy`: the error tags, the responses, and the five handlers with
  their check order.
- `router.dfy`: requests, dispatch and runs of requests.
- `invariants.dfy`: the seed satisfies the invariants and every handler
  keeps them. Also the cross-call properties: fresh ids, get-after-create,
  get-after-update, get-after-delete, exact removal, and the size of the
  collection after a run.
- `scenarios.dfy`: concrete requests against the seed.

Path ids are taken already parsed, as `Option<int>`; `None` stands for
`NaN`. A title's length is its number of `char`s.

Two behaviours of the code are modelled as written:

- Update is not atomic. With a valid, unused `title` and a non-boolean
  `completed`, the request fails with `InvalidCompletedType`, but the
  title has already been stored (`Invariants.UpdateNotAtomic`,
  `Scenarios.UpdateHalfApplied`). The invariants still hold afterwards.
- A new id is the last element's id plus one, not a counter. Once the
  todo with the highest id is deleted, the next create hands out that id
  again (`Scenarios.IdReusedAfterDeletingLast`). A counter would give each
  new id a value above every id ever handed out; the code does not. The
  model follows the code and proves only that a new id exceeds every id
  currently present (`Invariants.CreateAssignsFreshId`).

## Model

| member | source | states |
|---|---|---|
| `Json.IsEmptyBody` | app.js:42 | a body counts as empty exactly when no key reads as defined (no body, or an object without keys); the same test guards update at line 79 |
| `Json.Truthy` | app.js:47 | the values that `!title` rejects are exactly undefined, `""`, `null`, `false` and `0` |
| `Todos.FindIndex` | app.js:75 | result is -1 exactly when no todo has the id; otherwise it is the first position holding the id |
| `Todos.Find` | app.js:33 | no result exactly when no todo has the id; otherwise the todo at the first position holding it |
| `Todos.TitleTaken` | app.js:55 | true exactly when some todo has that title and its id is not the excluded id |
| `Todos.NextId` | app.js:61 | 1 on an empty collection; under increasing ids, above every id present and one more than some id present (the largest); positive under positive ids |
| `Todos.Without` | app.js:119 | keeps exactly the todos whose id differs, never grows, and returns the collection itself when the id is absent |
| `Store.StatusCode` | app.js:24-126 | 201 exactly for a create (line 66), 200 for every other success (the default of `res.json`, lines 24, 37, 106, 120), 404 exactly for not found (line 35), 500 exactly for the internal error (line 126), 400 for the other errors (lines 31, 43 and the like) |
| `Store.List` | app.js:23-25 | answers with the whole collection, in order |
| `Store.Get` | app.js:28-38 | InvalidIdentifier iff the id is NaN; NotFound iff no todo has it; no other error; Found iff some todo has the id, and then the first todo with it |
| `Store.Create` | app.js:41-67 | errors in order EmptyBody, MissingTitle (falsy title), InvalidTitle (not a string or length outside 3..100), DuplicateTitle, each iff its condition and the earlier checks passed, and no other error; Created iff every check passes; any error leaves the collection unchanged; success appends exactly one todo with the body's title, id `NextId` and completed false |
| `Store.Update` | app.js:70-107 | errors in order InvalidIdentifier, NotFound, EmptyBody, NoFieldsToUpdate, InvalidTitle, DuplicateTitle (another id has the title), InvalidCompletedType, each iff its condition, and no other error; Updated iff every check passes; only the first todo with the id can change and no id changes; every error but InvalidCompletedType leaves the collection unchanged; the title and flag of the target take the body's values when present and keep theirs otherwise |
| `Store.Delete` | app.js:110-121 | InvalidIdentifier iff NaN; NotFound iff no todo has the id; no other error; Deleted iff some todo has the id; errors change nothing; success keeps exactly the todos with other ids |
| `Router.Handle` | app.js:15-121 | list answers the whole collection in order; list, get and a malformed body never change the collection; a malformed body is answered MalformedRequestBody; no error except InvalidCompletedType changes it; only create creates and only delete deletes |
| `Router.Run` | app.js:22-121 | one response per request; a run of list, get and malformed requests leaves the collection as it was; so does a run in which every request fails other than by the half-applied update |
| `Invariants.SeedValid` | app.js:7-11 | the seed has strictly increasing positive ids and distinct titles of valid length |
| `Invariants.CreateAssignsFreshId` | app.js:60-64 | the new id exceeds every id present; it is 1 on an empty collection and otherwise the largest id plus one |
| `Invariants.CreateFreshTitleSucceeds` | app.js:60-66 | a body whose title is an unused string of 3 to 100 characters is answered 201 with `{NextId, title, false}` |
| `Invariants.CreatePreservesValid` | app.js:50-65 | create keeps the id and title invariants |
| `Invariants.GetAfterCreate` | app.js:60-66 | fetching the returned id yields exactly the created todo |
| `Invariants.UpdatePreservesValid` | app.js:87-105 | every update outcome, the half-applied one included, keeps the invariants |
| `Invariants.UpdateToOwnTitle` | app.js:93-98 | setting a todo's title to its own title succeeds and changes nothing |
| `Invariants.UpdateNotAtomic` | app.js:98-104 | a valid unused title with a non-boolean completed fails with InvalidCompletedType, yet the title is stored |
| `Invariants.GetAfterUpdate` | app.js:104-106 | a request passing every update check is answered Updated, and fetching the id then yields the todo the update returned |
| `Invariants.WithoutAppend` | app.js:119 | filtering an appended collection is appending the filtered parts |
| `Invariants.WithoutSingle` | app.js:119 | filtering out an id held at exactly one position removes that position and keeps the rest in order |
| `Invariants.DeleteRemovesExactlyOne` | app.js:115-119 | under increasing ids a successful delete removes exactly the one todo with the id, order kept |
| `Invariants.RemoveAtPreservesValid` | app.js:119 | dropping one todo keeps the invariants |
| `Invariants.DeletePreservesValid` | app.js:110-121 | delete keeps the invariants |
| `Invariants.GetAfterDelete` | app.js:33-35 | after a successful delete, fetching the same id answers NotFound |
| `Invariants.HandlePreservesValid` | app.js:22-121 | every request keeps the invariants |
| `Invariants.HandleSize` | app.js:65-119 | a request adds one todo exactly when it creates and removes one exactly when it deletes |
| `Invariants.RunPreservesValid` | app.js:41-121 | any sequence of requests keeps the invariants |
| `Invariants.RunSize` | app.js:65-119 | after a run, size + deletes = initial size + creates |
| `Invariants.Reachable` | app.js:7-11 | every collection reached from the seed satisfies the invariants and holds 3 + creates - deletes todos |
| `Scenarios.GetSeedTodo` | app.js:28-37 | on the seed, id 1 gives `{1, "Task 1", false}`, id 999 NotFound, NaN InvalidIdentifier |
| `Scenarios.CreateRejections` | app.js:42-59 | absent or `{}` body, missing/false/0 title, non-string or "ab" title, and "Task 2" are rejected with the matching error |
| `Scenarios.CreateOnSeed` | app.js:60-66 | creating "Task 4" on the seed appends `{4, "Task 4", false}` |
| `Scenarios.UpdateCompletedOnly` | app.js:100-106 | `{completed: true}` on id 1 sets only the flag |
| `Scenarios.UpdateEmptyObject` | app.js:79-86 | `{}` is answered EmptyBody; a body without either field NoFieldsToUpdate |
| `Scenarios.UpdateHalfApplied` | app.js:98-102 | a new title with `completed: null` fails yet renames todo 1 |
| `Scenarios.DeleteThenGet` | app.js:110-121 | deleting id 1 removes the first seed todo and a later get answers NotFound |
| `Scenarios.IdReusedAfterDeletingLast` | app.js:61 | after deleting id 3 from the seed, the next create gets id 3 again |

## Left out

- Express setup, `bodyParser.json()`, `app.listen` and logging (app.js:1-5, 13, 129-131): framework plumbing and I/O.
- The JSON syntax-error middleware (app.js:15-20) is reduced to a `MalformedJson` request answered with `MalformedRequestBody`. Its `next()` for other body-parser errors depends on library exception types and is not modelled.
- The global error handler (app.js:123-127): `InternalError` is only a tag that no handler produces.
- `parseInt` (app.js:29, 71, 111): leading whitespace, signs, trailing junk and radix prefixes. The parsed id is an input.
- Number precision: ids and parsed ids are unbounded integers. JavaScript's 53-bit safe range is not modelled.
- Title length counts `char`s, not UTF-16 code units.
- JSON serialisation of responses. HTTP status codes are only the `StatusCode` function.
