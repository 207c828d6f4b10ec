/**
  The `teams` table created by the migration: an auto-incrementing integer
  primary key `id`, a `name` text column that is NOT NULL and UNIQUE, and a
  `location` text column that is NOT NULL. The table is an immutable value; the
  store's constraint checks are functions over it, and the schema constraints
  are the predicate `Valid`.
 */
module TeamsTable {

  datatype Option<+T> = None | Some(value: T)

  /** One stored row. Both texts are always present: a row with a NULL name or
      location can never be stored, so NOT NULL is carried by the type. */
  datatype Team = Team(id: nat, name: string, location: string)

  /** The rows in rowid order (which is insertion order, since ids only grow)
      and the AUTOINCREMENT counter: the id the next accepted insert receives. */
  datatype Table = Table(rows: seq<Team>, nextId: nat)

  /** Every way a call on the teams resource can fail. `NotNullName`,
      `NotNullLocation` and `DuplicateName` are the store's constraint failures,
      `EmptyUpdate` is the query builder's refusal of an update without fields,
      and `NotFound` is the data-access layer's own "no such id". */
  datatype Error = NotFound | EmptyUpdate | NotNullName | NotNullLocation | DuplicateName

  /** Ids are handed out from 1 and every stored id is below the counter. */
  predicate IdsAssigned(t: Table)
  {
    forall i :: 0 <= i < |t.rows| ==> 1 <= t.rows[i].id < t.nextId
  }

  /** Rows sit in strictly ascending id order, so ids are pairwise distinct. */
  predicate IdsIncreasing(rows: seq<Team>)
  {
    forall i, j :: 0 <= i < j < |rows| ==> rows[i].id < rows[j].id
  }

  /** The UNIQUE constraint on `name`. */
  predicate NamesUnique(rows: seq<Team>)
  {
    forall i, j :: 0 <= i < j < |rows| ==> rows[i].name != rows[j].name
  }

  /** The schema invariant of the table. */
  predicate Valid(t: Table)
  {
    && 1 <= t.nextId
    && IdsAssigned(t)
    && IdsIncreasing(t.rows)
    && NamesUnique(t.rows)
  }

  /** The freshly migrated (or truncated) table: no rows, and the first id to
      be handed out is 1. */
  function Empty(): (t: Table)
    ensures Valid(t)
    ensures forall id :: Find(t.rows, id).None?
    ensures t.nextId == 1
  {
    Table([], 1)
  }

  /** The ids currently stored. */
  function Ids(t: Table): set<nat>
  {
    set i | 0 <= i < |t.rows| :: t.rows[i].id
  }

  /** Position of the first row whose id is `id`: the row a `where id = ?`
      query yields first. */
  function Find(rows: seq<Team>, id: nat): (r: Option<nat>)
    ensures r.Some? ==> r.value < |rows| && rows[r.value].id == id
    ensures r.Some? ==> forall j :: 0 <= j < r.value ==> rows[j].id != id
    ensures r.None? <==> forall j :: 0 <= j < |rows| ==> rows[j].id != id
  {
    if |rows| == 0 then None
    else if rows[0].id == id then Some(0)
    else
      match Find(rows[1..], id)
      case None => None
      case Some(k) => Some(k + 1)
  }

  /** Some row other than the one at position `self` already holds `name`. */
  predicate NameTaken(rows: seq<Team>, name: string, self: int)
  {
    exists j :: 0 <= j < |rows| && j != self && rows[j].name == name
  }

  /** The store's constraint checks for writing the values `name` and
      `location` as the row at position `self` (`|rows|` for a new row), in the
      order the store runs them: NOT NULL column by column, then UNIQUE. */
  function CheckRow(rows: seq<Team>, name: Option<string>, location: Option<string>, self: int): (r: Option<Error>)
    ensures r.None? <==>
      && name.Some? && location.Some?
      && forall j :: 0 <= j < |rows| && j != self ==> rows[j].name != name.value
    ensures r == Some(NotNullName) <==> name.None?
    ensures r == Some(NotNullLocation) <==> name.Some? && location.None?
    ensures r.Some? ==> r.value in {NotNullName, NotNullLocation, DuplicateName}
  {
    if name.None? then Some(NotNullName)
    else if location.None? then Some(NotNullLocation)
    else if NameTaken(rows, name.value, self) then Some(DuplicateName)
    else None
  }
}
