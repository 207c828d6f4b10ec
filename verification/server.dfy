/**
  The HTTP layer: one handler per route, each a pure function from the table
  and the request to the table afterwards and the reply. The handlers check
  presence of fields on creation, call the data-access layer, and map its
  outcome to a status code and a JSON body.
 */
module Server {
  import opened TeamsTable
  import opened TeamModel
  import TeamModelLemmas

  /** The routes the server answers, with the path parameter and the parsed
      JSON body where the route takes them. */
  datatype Request =
    | GetRoot
    | PostTeams(body: Fields)
    | GetTeams
    | GetTeam(id: nat)
    | PutTeam(id: nat, body: Fields)
    | DeleteTeam(id: nat)

  /** The `error` member of an error reply: a message the program writes
      itself, or the message of a failure raised by the store or the query
      builder. */
  datatype ErrorText = Literal(message: string) | StoreText(cause: Error)

  /** The JSON bodies the server sends. */
  datatype Json =
    | ApiUp                    // {api: "up"}
    | IdObject(id: nat)        // {id}
    | TeamArray(rows: seq<Team>)
    | TeamObject(team: Team)   // {id, name, location}
    | CountObject(count: nat)  // {count}
    | ErrorObject(error: ErrorText)

  /** What a handler produces: a response, or a rejection it does not catch,
      after which no response is sent. */
  datatype Reply = Reply(status: nat, body: Json) | Unhandled(cause: Error)

  /** The table after a request, and the reply to it. */
  datatype Exchange = Exchange(table: Table, reply: Reply)

  const MissingFieldsMessage: string := "Missing name or location"

  /** JavaScript truthiness of a body field: a non-empty string. */
  predicate Truthy(f: Field)
  {
    f.Text? && f.text != ""
  }

  /** The `message` of a rejection from the data-access layer. */
  function MessageOf(e: Error): ErrorText
  {
    if e == NotFound then Literal(NotFoundMessage) else StoreText(e)
  }

  /** The reply of a handler that catches every rejection as a 404. */
  function OkOr404<T>(r: Result<T>, body: T -> Json): Reply
  {
    match r
    case Ok(v) => Reply(200, body(v))
    case Err(e) => Reply(404, ErrorObject(MessageOf(e)))
  }

  /** `GET /`. */
  function HandleRoot(t: Table): (x: Exchange)
    ensures x.table == t
    ensures x.reply == Reply(200, ApiUp)
  {
    Exchange(t, Reply(200, ApiUp))
  }

  /** `POST /api/teams`: refuses a body without a truthy name and location
      before touching the table; otherwise inserts, and does not catch a
      rejected insert. */
  function HandlePost(t: Table, body: Fields): (x: Exchange)
    ensures !(Truthy(body.name) && Truthy(body.location)) ==>
      x == Exchange(t, Reply(400, ErrorObject(Literal(MissingFieldsMessage))))
    ensures Truthy(body.name) && Truthy(body.location) ==>
      ((forall i :: 0 <= i < |t.rows| ==> t.rows[i].name != body.name.text)
       <==> x.reply == Reply(201, IdObject(t.nextId)))
    ensures x.reply == Reply(201, IdObject(t.nextId)) ==>
      x.table == Table(t.rows + [Team(t.nextId, body.name.text, body.location.text)], t.nextId + 1)
    ensures (&& Truthy(body.name) && Truthy(body.location)
             && exists i :: 0 <= i < |t.rows| && t.rows[i].name == body.name.text) ==>
      x == Exchange(t, Unhandled(DuplicateName))
    ensures x.reply.Unhandled? ==>
      && Truthy(body.name) && Truthy(body.location)
      && x.reply.cause == DuplicateName
      && x.table == t
      && exists i :: 0 <= i < |t.rows| && t.rows[i].name == body.name.text
  {
    if Truthy(body.name) && Truthy(body.location) then
      var s := Insert(t, body);
      match s.result
      case Ok(id) => Exchange(s.table, Reply(201, IdObject(id)))
      case Err(e) => Exchange(s.table, Unhandled(e))
    else
      Exchange(t, Reply(400, ErrorObject(Literal(MissingFieldsMessage))))
  }

  /** `GET /api/teams`: the whole table, `[]` when it is empty. */
  function HandleGetAll(t: Table): (x: Exchange)
    ensures x.table == t
    ensures x.reply.Reply? && x.reply.status == 200 && x.reply.body.TeamArray?
    ensures multiset(x.reply.body.rows) == multiset(t.rows)
    ensures Valid(t) ==> IdsIncreasing(x.reply.body.rows)
  {
    Exchange(t, Reply(200, TeamArray(GetAll(t))))
  }

  /** `GET /api/teams/:id`: the row, or 404 with the not-found message. */
  function HandleGet(t: Table, id: nat): (x: Exchange)
    ensures x.table == t
    ensures (exists i :: 0 <= i < |t.rows| && t.rows[i].id == id) <==> x.reply.Reply? && x.reply.status == 200
    ensures x.reply.Reply? && x.reply.status == 200 ==>
      x.reply.body.TeamObject? && x.reply.body.team in t.rows && x.reply.body.team.id == id
    ensures (forall i :: 0 <= i < |t.rows| ==> t.rows[i].id != id) ==>
      x.reply == Reply(404, ErrorObject(Literal(NotFoundMessage)))
  {
    Exchange(t, OkOr404(FindById(t, id), (team: Team) => TeamObject(team)))
  }

  /** `PUT /api/teams/:id`: `{count}` on success; every rejection of the
      update, whatever its cause, becomes a 404 and the table is unchanged. */
  function HandlePut(t: Table, id: nat, changes: Fields): (x: Exchange)
    ensures x.reply.Reply? && x.reply.status in {200, 404}
    ensures x.reply.status == 200 <==> Update(t, id, changes).result.Ok?
    ensures x.reply.status == 200 ==> x.reply.body == CountObject(1)
    ensures x.reply.status == 200 ==> x.table == Update(t, id, changes).table
    ensures x.reply.status == 404 ==> x.table == t && x.reply.body.ErrorObject?
    ensures x.reply.status == 404 ==>
      x.reply.body == ErrorObject(MessageOf(Update(t, id, changes).result.error))
    ensures NoChanges(changes) ==> x == Exchange(t, Reply(404, ErrorObject(StoreText(EmptyUpdate))))
    ensures !NoChanges(changes) && (forall i :: 0 <= i < |t.rows| ==> t.rows[i].id != id) ==>
      x == Exchange(t, Reply(404, ErrorObject(Literal(NotFoundMessage))))
  {
    var s := Update(t, id, changes);
    Exchange(s.table, OkOr404(s.result, (count: nat) => CountObject(count)))
  }

  /** `DELETE /api/teams/:id`: `{count: 1}` for a stored id, 404 otherwise. */
  function HandleDelete(t: Table, id: nat): (x: Exchange)
    ensures (exists i :: 0 <= i < |t.rows| && t.rows[i].id == id) <==> x.reply == Reply(200, CountObject(1))
    ensures (forall i :: 0 <= i < |t.rows| ==> t.rows[i].id != id) ==>
      x == Exchange(t, Reply(404, ErrorObject(Literal(NotFoundMessage))))
    ensures x.reply.Reply? && x.reply.status == 200 ==> x.table == Remove(t, id).table
  {
    var s := Remove(t, id);
    Exchange(s.table, OkOr404(s.result, (count: nat) => CountObject(count)))
  }

  /** Dispatch a request to its route's handler. */
  function Handle(t: Table, req: Request): (x: Exchange)
    ensures x.reply.Reply? ==> x.reply.status in {200, 201, 400, 404}
    ensures x.reply.Unhandled? ==> req.PostTeams? && x.reply.cause == DuplicateName && x.table == t
    ensures x.reply.Reply? && x.reply.status == 201 ==> req.PostTeams?
    ensures x.reply.Reply? && x.reply.status == 400 ==> req.PostTeams? && x.table == t
    ensures x.reply.Reply? && x.reply.status == 404 ==> x.table == t
    ensures x.table != t ==> req.PostTeams? || req.PutTeam? || req.DeleteTeam?
  {
    match req
    case GetRoot => HandleRoot(t)
    case PostTeams(body) => HandlePost(t, body)
    case GetTeams => HandleGetAll(t)
    case GetTeam(id) => HandleGet(t, id)
    case PutTeam(id, changes) => HandlePut(t, id, changes)
    case DeleteTeam(id) => HandleDelete(t, id)
  }

  /** Serving any request keeps the schema invariant of the table. */
  lemma HandleKeepsValid(t: Table, req: Request)
    requires Valid(t)
    ensures Valid(Handle(t, req).table)
  {
    match req
    case PostTeams(body) =>
      if Truthy(body.name) && Truthy(body.location) {
        TeamModelLemmas.InsertKeepsValid(t, body);
      }
    case PutTeam(id, changes) => TeamModelLemmas.UpdateKeepsValid(t, id, changes);
    case DeleteTeam(id) => TeamModelLemmas.RemoveKeepsValid(t, id);
    case _ =>
  }

  /** Creating a team on the empty table, then refusing an empty body. */
  lemma ScenarioCreate()
    ensures Handle(Empty(), PostTeams(Fields(Text("Broncos"), Text("Denver"))))
      == Exchange(Table([Team(1, "Broncos", "Denver")], 2), Reply(201, IdObject(1)))
    ensures Handle(Table([Team(1, "Broncos", "Denver")], 2), PostTeams(Fields(Absent, Absent)))
      == Exchange(Table([Team(1, "Broncos", "Denver")], 2), Reply(400, ErrorObject(Literal(MissingFieldsMessage))))
  {
  }

  /** Looking up a present and an absent id, and an id on the empty table. */
  lemma ScenarioLookups()
    ensures Handle(Empty(), GetTeam(1))
      == Exchange(Empty(), Reply(404, ErrorObject(Literal(NotFoundMessage))))
    ensures Handle(Table([Team(1, "Broncos", "Denver")], 2), GetTeam(1))
      == Exchange(Table([Team(1, "Broncos", "Denver")], 2), Reply(200, TeamObject(Team(1, "Broncos", "Denver"))))
    ensures Handle(Table([Team(1, "Broncos", "Denver")], 2), GetTeam(999))
      == Exchange(Table([Team(1, "Broncos", "Denver")], 2), Reply(404, ErrorObject(Literal(NotFoundMessage))))
  {
  }

  /** Renaming, deleting, and looking up the deleted id. */
  lemma ScenarioWrites()
    ensures Handle(Table([Team(1, "Broncos", "Denver")], 2), PutTeam(1, Fields(Text("X"), Absent)))
      == Exchange(Table([Team(1, "X", "Denver")], 2), Reply(200, CountObject(1)))
    ensures Handle(Table([Team(1, "X", "Denver")], 2), DeleteTeam(1))
      == Exchange(Table([], 2), Reply(200, CountObject(1)))
    ensures Handle(Table([], 2), GetTeam(1))
      == Exchange(Table([], 2), Reply(404, ErrorObject(Literal(NotFoundMessage))))
  {
  }
}
