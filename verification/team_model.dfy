/**
  The data-access layer over the teams table: `insert`, `getAll`, `findById`,
  `update` and `remove`. Each call is one atomic statement against the store:
  it either succeeds and yields the new table, or fails and leaves the table as
  it was. An absent row after a lookup and a zero count after a mutation both
  become the `NotFound` error; constraint failures from the store and the
  query builder's empty-update failure pass through unchanged.
 */
module TeamModel {
  import opened TeamsTable

  datatype Result<+T> = Ok(value: T) | Err(error: Error)

  /** The table after a call, and what the call resolved or rejected with. */
  datatype Step<+T> = Step(table: Table, result: Result<T>)

  /** The message the layer attaches to `NotFound`. */
  const NotFoundMessage: string := "Invalid: id does not exist"

  /** The value of one key of a JSON object handed to the store: the key is
      missing, it is `null`, or it holds a string. */
  datatype Field = Absent | Null | Text(text: string)

  /** The `name` and `location` keys of a team object or a changes object. */
  datatype Fields = Fields(name: Field, location: Field)

  /** The column value an insert writes: the query lists only the keys the
      object has, so a missing key leaves the column to its default, which is
      NULL for both columns, the same as an explicit `null`. */
  function Inserted(f: Field): Option<string>
  {
    if f.Text? then Some(f.text) else None
  }

  /** The column value an update writes over `current`: a key missing from the
      changes leaves the column alone, `null` writes NULL. */
  function Updated(current: string, f: Field): Option<string>
  {
    match f
    case Absent => Some(current)
    case Null => None
    case Text(s) => Some(s)
  }

  /** The changes object has no key the store could write. */
  predicate NoChanges(changes: Fields)
  {
    changes.name.Absent? && changes.location.Absent?
  }

  /** `insert(team)`: the store assigns the next id, checks the constraints,
      and the call resolves with the assigned id. */
  function Insert(t: Table, team: Fields): (s: Step<nat>)
    ensures s.result.Ok? <==>
      && team.name.Text? && team.location.Text?
      && forall i :: 0 <= i < |t.rows| ==> t.rows[i].name != team.name.text
    ensures s.result.Ok? ==>
      && s.result.value == t.nextId
      && s.table.rows == t.rows + [Team(t.nextId, team.name.text, team.location.text)]
      && s.table.nextId == t.nextId + 1
    ensures s.result.Err? ==> s.table == t
    ensures !team.name.Text? ==> s.result == Err(NotNullName)
    ensures team.name.Text? && !team.location.Text? ==> s.result == Err(NotNullLocation)
    ensures team.name.Text? && team.location.Text? && s.result.Err? ==> s.result.error == DuplicateName
  {
    var name := Inserted(team.name);
    var location := Inserted(team.location);
    match CheckRow(t.rows, name, location, |t.rows|)
    case Some(e) => Step(t, Err(e))
    case None =>
      var row := Team(t.nextId, name.value, location.value);
      Step(Table(t.rows + [row], t.nextId + 1), Ok(t.nextId))
  }

  /** `getAll()`: every stored row once, in the order the store keeps them. */
  function GetAll(t: Table): (rows: seq<Team>)
    ensures multiset(rows) == multiset(t.rows)
    ensures Valid(t) ==> IdsIncreasing(rows)
  {
    t.rows
  }

  /** `findById(id)`: the row with that id, or `NotFound`. */
  function FindById(t: Table, id: nat): (r: Result<Team>)
    ensures r.Ok? <==> exists i :: 0 <= i < |t.rows| && t.rows[i].id == id
    ensures r.Ok? ==> r.value in t.rows && r.value.id == id
    ensures r.Err? ==> r.error == NotFound
  {
    match Find(t.rows, id)
    case Some(i) => Ok(t.rows[i])
    case None => Err(NotFound)
  }

  /** `update(id, changes)`: rewrites the named fields of the row with that
      id and resolves with the count of affected rows. */
  function Update(t: Table, id: nat, changes: Fields): (s: Step<nat>)
    ensures s.result.Err? ==> s.table == t
    ensures s.result.Ok? <==>
      && !NoChanges(changes)
      && Find(t.rows, id).Some?
      && !changes.name.Null? && !changes.location.Null?
      && var i := Find(t.rows, id).value;
         var name := if changes.name.Text? then changes.name.text else t.rows[i].name;
         forall j :: 0 <= j < |t.rows| && j != i ==> t.rows[j].name != name
    ensures NoChanges(changes) ==> s.result == Err(EmptyUpdate)
    ensures !NoChanges(changes) && Find(t.rows, id).Some? && changes.name.Null? ==>
      s.result == Err(NotNullName)
    ensures !NoChanges(changes) && Find(t.rows, id).Some? && !changes.name.Null? && changes.location.Null? ==>
      s.result == Err(NotNullLocation)
    ensures !NoChanges(changes) && Find(t.rows, id).Some? && !changes.name.Null? && !changes.location.Null? && s.result.Err? ==>
      s.result.error == DuplicateName
    ensures !NoChanges(changes) && (forall i :: 0 <= i < |t.rows| ==> t.rows[i].id != id) ==>
      s.result == Err(NotFound)
    ensures s.result.Ok? ==>
      && s.result.value == 1
      && !changes.name.Null? && !changes.location.Null?
      && Find(t.rows, id).Some?
      && s.table.nextId == t.nextId
      && |s.table.rows| == |t.rows|
      && var i := Find(t.rows, id).value;
         && s.table.rows[i].id == id
         && s.table.rows[i].name == (if changes.name.Text? then changes.name.text else t.rows[i].name)
         && s.table.rows[i].location == (if changes.location.Text? then changes.location.text else t.rows[i].location)
         && forall j :: 0 <= j < |t.rows| && j != i ==> s.table.rows[j] == t.rows[j]
  {
    if NoChanges(changes) then Step(t, Err(EmptyUpdate))
    else
      match Find(t.rows, id)
      case None => Step(t, Err(NotFound))
      case Some(i) =>
        var name := Updated(t.rows[i].name, changes.name);
        var location := Updated(t.rows[i].location, changes.location);
        match CheckRow(t.rows, name, location, i)
        case Some(e) => Step(t, Err(e))
        case None =>
          var row := Team(id, name.value, location.value);
          Step(Table(t.rows[i := row], t.nextId), Ok(1))
  }

  /** `remove(id)`: deletes the row with that id and resolves with the count
      of deleted rows. */
  function Remove(t: Table, id: nat): (s: Step<nat>)
    ensures s.result.Ok? <==> exists i :: 0 <= i < |t.rows| && t.rows[i].id == id
    ensures s.result.Err? ==> s.result.error == NotFound && s.table == t
    ensures s.result.Ok? ==>
      && s.result.value == 1
      && s.table.nextId == t.nextId
      && exists i :: 0 <= i < |t.rows| && t.rows[i].id == id && s.table.rows == t.rows[..i] + t.rows[i + 1..]
  {
    match Find(t.rows, id)
    case None => Step(t, Err(NotFound))
    case Some(i) => Step(Table(t.rows[..i] + t.rows[i + 1..], t.nextId), Ok(1))
  }
}
