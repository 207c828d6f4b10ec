# Teams REST API — a Dafny model

This project models a small Express + knex service that exposes CRUD operations over
one `teams` table. The model has three parts, one module per source file:

- `TeamsTable` (`teams_table.dfy`) is the table the migration creates. It is an immutable
  value: the rows in insertion order, plus the AUTOINCREMENT counter. The schema
  constraints are stated as the predicate `Valid`:
  - ids are assigned from 1 and sit below the counter;
  - ids strictly increase along the rows, so they are distinct;
  - names are pairwise distinct.

  NOT NULL is carried by the row type itself: a stored `Team` always holds both strings.
  `CheckRow` is the store's constraint check for a write. It runs the checks in the
  store's order: NOT NULL column by column, then UNIQUE on `name`.
- `TeamModel` (`team_model.dfy`) is the data-access layer: `Insert`, `GetAll`, `FindById`,
  `Update` and `Remove`. Each write (`Insert`, `Update`, `Remove`) returns the table
  afterwards together with a `Result`; `GetAll` and `FindById` return only their result.
  A rejected write leaves the table as it was. A missing row and a zero affected-row count
  both become `NotFound`, whose message is `"Invalid: id does not exist"`. Constraint
  failures (`NotNullName`, `NotNullLocation`, `DuplicateName`) and the query builder's
  `EmptyUpdate` pass through unchanged.
- `TeamModelLemmas` (`team_model_lemmas.dfy`) relates several calls. It covers:
  - preservation of `Valid` by every write;
  - each write being observed by a later `FindById`;
  - ids never being reused;
  - N inserts into the empty table yielding rows numbered 1..N in insertion order.
- `Server` (`server.dfy`) has one pure handler per route. Each maps the table and the
  request to the table afterwards and the reply, which is a status with a JSON body, or
  `Unhandled` for a rejection the handler does not catch.

A JSON body field is `Absent`, `Null` or `Text(s)`. On insert, a missing key is written
as NULL, the same as `null`: a single-row insert lists only the keys the object has, and
neither column has a default, so an unlisted column gets NULL.
On update, a missing key leaves the column alone, while `null` writes NULL and fails
NOT NULL.

Three behaviours of the code that are easy to miss:

- `update` never resolves with a count of 0: a zero count is turned into `NotFound`.
- `GET /api/teams/:id`, `PUT` and `DELETE` turn every rejection into a 404, not just
  `NotFound`. So an empty update or a constraint failure on PUT is a 404 carrying the
  message of the store or the query builder.
- An empty changes object fails with `EmptyUpdate` even when the id does not exist. The
  query builder refuses it before any statement reaches the store.

## Model

| member | source | states |
|---|---|---|
| TeamsTable.Empty | data/migrations/20190207221608_teams.js:1-7 | The freshly created table satisfies the schema invariant, holds no row for any id, and will hand out id 1 first. |
| TeamsTable.Find | data/models/teamModel.js:22-24 | The lookup by id yields the position of the first row with that id, and yields nothing exactly when no row has it. |
| TeamsTable.CheckRow | data/migrations/20190207221608_teams.js:4-5 | A write is accepted iff name and location are both non-null and no other row holds the name. Otherwise it fails with NotNullName, then NotNullLocation, then DuplicateName, in that order of precedence. |
| TeamModel.Insert | data/models/teamModel.js:11-15 | Succeeds iff name and location are present and the name is new. It then resolves with the counter's id and appends exactly that row. A missing name, a missing location and a duplicate name each fail with their own constraint error, and a failure leaves the table unchanged. |
| TeamModel.GetAll | data/models/teamModel.js:17-19 | Returns every stored row exactly once. In a valid table the rows come in ascending id order, which is insertion order. |
| TeamModel.FindById | data/models/teamModel.js:21-28 | Succeeds iff some row has the id, and returns a stored row with that id. Otherwise it fails with NotFound. |
| TeamModel.Update | data/models/teamModel.js:30-37 | Succeeds iff changes name at least one field, the id is stored, no field is set to null, and the resulting name is held by no other row. An empty changes object fails with EmptyUpdate. A missing id fails with NotFound. On a stored id, a null name fails with NotNullName, else a null location with NotNullLocation, else a taken name with DuplicateName. On success it resolves with count 1 and the row carries each new value in changes and the old value of the other field. Every other row and the counter are unchanged. Any failure leaves the table unchanged. |
| TeamModel.Remove | data/models/teamModel.js:39-46 | Succeeds iff some row has the id, and resolves with count 1. It deletes exactly that row and keeps the counter. Otherwise it fails with NotFound and leaves the table unchanged. |
| TeamModelLemmas.InsertKeepsValid | data/migrations/20190207221608_teams.js:3-5 | Insert preserves the schema invariant: distinct ascending ids below the counter, and unique names. |
| TeamModelLemmas.InsertThenFind | data/models/teamModel.js:11-28 | The id an accepted insert returns is fresh and the set of ids grows by exactly it. findById on it returns the inserted name and location. Every other id is looked up as before. |
| TeamModelLemmas.FirstInsertGetsOne | data/models/teamModel.spec.js:12-15 | On the empty table the first insert of a name and location resolves with id 1, and getAll then returns just that row. |
| TeamModelLemmas.InsertEachAppends | data/migrations/20190207221608_teams.js:3 | A batch of new, pairwise distinct names appends one row per pair, in order, with consecutive ids starting at the counter. |
| TeamModelLemmas.GetAllAfterInserts | data/models/teamModel.spec.js:53-65 | After N inserts with distinct names into the empty table, getAll returns exactly those N rows in insertion order with ids 1..N. |
| TeamModelLemmas.GetAllEmpty | data/models/teamModel.spec.js:67-70 | getAll on the empty table is the empty sequence. |
| TeamModelLemmas.UpdateKeepsValid | data/migrations/20190207221608_teams.js:3-5 | Update preserves the schema invariant. A rename onto another row's name is refused, so names stay unique. |
| TeamModelLemmas.UpdateThenFind | data/models/teamModel.js:30-37 | After an accepted update, findById on the id returns the new values of the changed fields and the old value of the unchanged one. The set of ids and every other lookup are unchanged. |
| TeamModelLemmas.EmptyUpdateIsError | data/models/teamModel.spec.js:134-143 | An update naming no field fails with EmptyUpdate, whether or not the id exists, and leaves the table unchanged. |
| TeamModelLemmas.RemoveKeepsValid | data/migrations/20190207221608_teams.js:3-5 | Remove preserves the schema invariant. |
| TeamModelLemmas.RemoveThenFind | data/models/teamModel.js:39-46 | After an accepted remove the id is gone from the set of ids, and findById on it fails with NotFound. Every other id is looked up as before. |
| TeamModelLemmas.RemovedIdNotReused | data/migrations/20190207221608_teams.js:3 | After a remove, the next accepted insert gets an id that differs from the removed one and from every id stored before. |
| Server.HandleRoot | api/server.js:9-11 | `GET /` always answers 200 `{api: "up"}` and leaves the table alone. |
| Server.HandlePost | api/server.js:13-21 | Without a truthy name and location, answers 400 "Missing name or location" with the table unchanged. With both, answers 201 with the counter's id iff the name is new, and appends that row. A duplicate name is not caught: no 201, no 400, and the table is unchanged. |
| Server.HandleGetAll | api/server.js:23-26 | Answers 200 with every stored row once. In a valid table the rows are in ascending id order. The table is unchanged. |
| Server.HandleGet | api/server.js:28-35 | Answers 200 with a stored row carrying the id iff the id exists. Otherwise it answers 404 with the not-found message. The table is unchanged. |
| Server.HandlePut | api/server.js:37-44 | Answers 200 `{count: 1}` iff the update is accepted. Every rejection becomes a 404 that carries that rejection's own message and leaves the table unchanged: an empty body gives the query builder's empty-update message, a missing id the not-found message, and a constraint failure the store's message for it. After a 200 the table is exactly the one the update produces. |
| Server.HandleDelete | api/server.js:46-53 | Answers 200 `{count: 1}` iff the id exists, and then removes that row. A missing id answers 404 with the not-found message and leaves the table unchanged. |
| Server.Handle | api/server.js:9-53 | Every reply has status 200, 201, 400 or 404, or is the uncaught duplicate-name rejection of a POST. 201 and 400 come only from POST. 400 and 404 leave the table unchanged. Only POST, PUT and DELETE change the table. |
| Server.HandleKeepsValid | data/migrations/20190207221608_teams.js:3-5 | Serving any request preserves the schema invariant. |
| Server.ScenarioCreate | api/server.spec.js:34-56 | On the empty table, POST Broncos/Denver answers 201 `{id: 1}` and stores row 1. A following POST `{}` answers 400 and changes nothing. |
| Server.ScenarioLookups | api/server.spec.js:114-124 | With row 1 stored, GET 1 answers 200 with the Broncos row, and GET 999 answers 404 with the not-found message. On the empty table, GET 1 answers 404 with the not-found message. |
| Server.ScenarioWrites | api/server.js:37-53 | PUT 1 `{name: "X"}` answers 200 `{count: 1}` and renames the row. DELETE 1 then answers 200 `{count: 1}` and empties the table. A last GET 1 answers 404. |

## Left out

- Express routing, JSON body parsing and content-type headers. Each route is a `Request`
  constructor with an already parsed body.
- Conversion of the `:id` path parameter from a string. Ids are natural numbers, so a
  non-numeric `:id` is not modelled.
- Promises and `async`. Every call is a sequential function, and the `.catch(e => { throw e })`
  rethrows are the identity on errors.
- The exact text of the store's and query builder's error messages. `StoreText(cause)`
  stands for the message of an error raised by the store or the query builder.
- What Express does with a rejected POST handler. It is modelled as the reply
  `Unhandled(cause)`, with no status and no body.
- JSON values other than strings and `null` in `name` and `location` (numbers, booleans,
  objects). Keys other than `name` and `location` are also left out, including a
  client-supplied `id`. Their effect depends on the store's type coercion and columns.
- The knex/SQLite connection configuration, including `useNullAsDefault`, which only
  affects multi-row inserts. The model writes NULL for a missing key because the
  single-row insert leaves that column out and the column has no default.
- The migration's `down` (drop table) and the migration and seed tooling.
- The test harness's `truncate`. The model starts from `TeamsTable.Empty`, whose counter
  is 1.
- Concurrency between requests. Each call is one atomic statement against the store.
- The order of `getAll`'s rows is taken to be rowid order, which is insertion order.
  The query has no ORDER BY, so this is the store's behaviour, not a promise of the code.
- TeamModel.Insert: does not model the width of ids. Ids and the counter are unbounded
  natural numbers here, so an insert with a new name always succeeds. The store's
  AUTOINCREMENT rowid is a signed 64-bit integer: once it has reached 2^63-1 a further
  insert fails. Ids above 2^53 also lose precision as JSON numbers in `{id}` and in the
  returned rows.
- Statements that affect several rows. Ids are a primary key, so `update` and `remove`
  act on the first, and in a valid table the only, row with the id.
