/**
  Properties of the data-access layer that relate several calls: every
  successful write keeps the schema invariant, each write is observed by a
  later `findById`, and a run of inserts into the empty table yields rows
  numbered from 1 in insertion order.
 */
module TeamModelLemmas {
  import opened TeamsTable
  import opened TeamModel

  /** In a valid table the row holding `id`, if any, is the only one. */
  lemma FindIsUnique(t: Table, id: nat, k: nat)
    requires Valid(t)
    requires k < |t.rows| && t.rows[k].id == id
    ensures Find(t.rows, id) == Some(k)
    ensures FindById(t, id) == Ok(t.rows[k])
  {
  }

  /** The rows left after deleting position `i`. */
  lemma RemoveAtIndices(rows: seq<Team>, i: nat)
    requires i < |rows|
    ensures |rows[..i] + rows[i + 1..]| == |rows| - 1
    ensures forall k :: 0 <= k < i ==> (rows[..i] + rows[i + 1..])[k] == rows[k]
    ensures forall k :: i < k < |rows| ==> (rows[..i] + rows[i + 1..])[k - 1] == rows[k]
  {
  }

  // ---------------------------------------------------------------- insert

  /** An accepted insert keeps the schema invariant. */
  lemma InsertKeepsValid(t: Table, team: Fields)
    requires Valid(t)
    ensures Valid(Insert(t, team).table)
  {
  }

  /** The id an accepted insert resolves with is fresh, and `findById` on it
      yields exactly the inserted name and location; every other id is looked
      up as before. */
  lemma InsertThenFind(t: Table, team: Fields)
    requires Valid(t)
    requires Insert(t, team).result.Ok?
    ensures var s := Insert(t, team);
      && s.result.value !in Ids(t)
      && Ids(s.table) == Ids(t) + {s.result.value}
      && FindById(s.table, s.result.value) == Ok(Team(s.result.value, team.name.text, team.location.text))
      && forall id :: id != s.result.value ==> FindById(s.table, id) == FindById(t, id)
  {
    var s := Insert(t, team);
    var id := s.result.value;
    InsertKeepsValid(t, team);
    var n := |t.rows|;
    assert forall i :: 0 <= i < n ==> s.table.rows[i] == t.rows[i];
    assert s.table.rows[n] == Team(id, team.name.text, team.location.text);
    FindIsUnique(s.table, id, n);
    forall other | other != id
      ensures FindById(s.table, other) == FindById(t, other)
    {
      if k :| 0 <= k < n && t.rows[k].id == other {
        FindIsUnique(t, other, k);
        FindIsUnique(s.table, other, k);
      }
    }
    assert Ids(s.table) == Ids(t) + {id} by {
      forall x | x in Ids(s.table) ensures x in Ids(t) + {id} {
        var k :| 0 <= k < |s.table.rows| && s.table.rows[k].id == x;
        if k < n { assert t.rows[k].id == x; }
      }
      forall x | x in Ids(t) + {id} ensures x in Ids(s.table) {
        if x == id { assert s.table.rows[n].id == x; }
        else {
          var k :| 0 <= k < n && t.rows[k].id == x;
          assert s.table.rows[k].id == x;
        }
      }
    }
  }

  /** On the empty table the first accepted insert is given id 1. */
  lemma FirstInsertGetsOne(name: string, location: string)
    ensures Insert(Empty(), Fields(Text(name), Text(location))).result == Ok(1)
    ensures GetAll(Insert(Empty(), Fields(Text(name), Text(location))).table) == [Team(1, name, location)]
  {
  }

  /** Insert each (name, location) pair in turn, ignoring rejections. */
  function InsertEach(t: Table, batch: seq<(string, string)>): Table
    decreases |batch|
  {
    if |batch| == 0 then t
    else InsertEach(Insert(t, Fields(Text(batch[0].0), Text(batch[0].1))).table, batch[1..])
  }

  /** No two pairs of the batch share a name. */
  predicate DistinctNames(batch: seq<(string, string)>)
  {
    forall i, j :: 0 <= i < j < |batch| ==> batch[i].0 != batch[j].0
  }

  /** The rows a batch is expected to become, numbered from `first`. */
  function Numbered(first: nat, batch: seq<(string, string)>): (rows: seq<Team>)
    ensures |rows| == |batch|
  {
    seq(|batch|, i requires 0 <= i < |batch| => Team(first + i, batch[i].0, batch[i].1))
  }

  /** Inserting a batch of new, pairwise distinct names appends one row per
      pair, in order, with consecutive ids starting at the counter. */
  lemma {:induction false} InsertEachAppends(t: Table, batch: seq<(string, string)>)
    requires DistinctNames(batch)
    requires forall i, j :: 0 <= i < |t.rows| && 0 <= j < |batch| ==> t.rows[i].name != batch[j].0
    ensures InsertEach(t, batch) == Table(t.rows + Numbered(t.nextId, batch), t.nextId + |batch|)
    decreases |batch|
  {
    if |batch| == 0 {
      assert t.rows + Numbered(t.nextId, batch) == t.rows;
    } else {
      var s := Insert(t, Fields(Text(batch[0].0), Text(batch[0].1)));
      assert s.result.Ok?;
      var t' := s.table;
      var rest := batch[1..];
      assert t'.rows == t.rows + [Team(t.nextId, batch[0].0, batch[0].1)];
      assert forall i, j :: 0 <= i < |t'.rows| && 0 <= j < |rest| ==> t'.rows[i].name != rest[j].0 by {
        forall i, j | 0 <= i < |t'.rows| && 0 <= j < |rest|
          ensures t'.rows[i].name != rest[j].0
        {
          assert rest[j] == batch[j + 1];
          if i < |t.rows| { assert t'.rows[i] == t.rows[i]; }
        }
      }
      assert DistinctNames(rest) by {
        forall i, j | 0 <= i < j < |rest| ensures rest[i].0 != rest[j].0 {
          assert rest[i] == batch[i + 1] && rest[j] == batch[j + 1];
        }
      }
      InsertEachAppends(t', rest);
      assert t'.rows + Numbered(t'.nextId, rest) == t.rows + Numbered(t.nextId, batch);
    }
  }

  /** After inserting N pairs with distinct names into the empty table,
      `getAll` returns exactly those N rows in insertion order with ids 1..N. */
  lemma GetAllAfterInserts(batch: seq<(string, string)>)
    requires DistinctNames(batch)
    ensures var rows := GetAll(InsertEach(Empty(), batch));
      && |rows| == |batch|
      && forall i :: 0 <= i < |batch| ==> rows[i] == Team(i + 1, batch[i].0, batch[i].1)
  {
    InsertEachAppends(Empty(), batch);
  }

  /** `getAll` on the empty table is the empty sequence. */
  lemma GetAllEmpty()
    ensures GetAll(Empty()) == []
  {
  }

  // ---------------------------------------------------------------- update

  /** An accepted update keeps the schema invariant. */
  lemma UpdateKeepsValid(t: Table, id: nat, changes: Fields)
    requires Valid(t)
    ensures Valid(Update(t, id, changes).table)
  {
  }

  /** After an accepted update, `findById` on the id yields the row carrying
      each new value in `changes` and the old value of every other field;
      every other id is looked up as before and the set of ids is unchanged. */
  lemma UpdateThenFind(t: Table, id: nat, changes: Fields)
    requires Valid(t)
    requires Update(t, id, changes).result.Ok?
    ensures var s := Update(t, id, changes);
      && FindById(t, id).Ok?
      && var before := FindById(t, id).value;
         FindById(s.table, id) == Ok(Team(id,
           if changes.name.Text? then changes.name.text else before.name,
           if changes.location.Text? then changes.location.text else before.location))
    ensures var s := Update(t, id, changes);
      && Ids(s.table) == Ids(t)
      && forall other :: other != id ==> FindById(s.table, other) == FindById(t, other)
  {
    var s := Update(t, id, changes);
    UpdateKeepsValid(t, id, changes);
    var i := Find(t.rows, id).value;
    FindIsUnique(t, id, i);
    FindIsUnique(s.table, id, i);
    forall other | other != id
      ensures FindById(s.table, other) == FindById(t, other)
    {
      if k :| 0 <= k < |t.rows| && t.rows[k].id == other {
        FindIsUnique(t, other, k);
        FindIsUnique(s.table, other, k);
      }
    }
    assert Ids(s.table) == Ids(t) by {
      forall x | x in Ids(s.table) ensures x in Ids(t) {
        var k :| 0 <= k < |s.table.rows| && s.table.rows[k].id == x;
        assert t.rows[k].id == x;
      }
      forall x | x in Ids(t) ensures x in Ids(s.table) {
        var k :| 0 <= k < |t.rows| && t.rows[k].id == x;
        assert s.table.rows[k].id == x;
      }
    }
  }

  /** An update that names no field fails with `EmptyUpdate`, not with a
      count of 0, whether or not the id exists. */
  lemma EmptyUpdateIsError(t: Table, id: nat)
    ensures Update(t, id, Fields(Absent, Absent)) == Step(t, Err(EmptyUpdate))
  {
  }

  // ---------------------------------------------------------------- remove

  /** An accepted remove keeps the schema invariant. */
  lemma RemoveKeepsValid(t: Table, id: nat)
    requires Valid(t)
    ensures Valid(Remove(t, id).table)
  {
    var s := Remove(t, id);
    if s.result.Ok? {
      var i := Find(t.rows, id).value;
      RemoveAtIndices(t.rows, i);
    }
  }

  /** The ids left after deleting the row at position `i`. */
  lemma RemoveAtIds(t: Table, i: nat)
    requires IdsIncreasing(t.rows)
    requires i < |t.rows|
    ensures Ids(Table(t.rows[..i] + t.rows[i + 1..], t.nextId)) == Ids(t) - {t.rows[i].id}
  {
    var rows := t.rows;
    var after := rows[..i] + rows[i + 1..];
    RemoveAtIndices(rows, i);
    forall x | x in Ids(Table(after, t.nextId)) ensures x in Ids(t) - {rows[i].id} {
      var k :| 0 <= k < |after| && after[k].id == x;
      if k < i {
        assert rows[k].id == x;
      } else {
        assert rows[k + 1].id == x;
      }
    }
    forall x | x in Ids(t) - {rows[i].id} ensures x in Ids(Table(after, t.nextId)) {
      var k :| 0 <= k < |rows| && rows[k].id == x;
      if k < i {
        assert after[k].id == x;
      } else {
        assert after[k - 1].id == x;
      }
    }
  }

  /** After deleting the row at position `i`, the first row holding any other
      id is the same row as before, one position earlier if it came after `i`. */
  lemma RemoveAtFindOther(t: Table, i: nat, other: nat)
    requires i < |t.rows| && other != t.rows[i].id
    ensures FindById(Table(t.rows[..i] + t.rows[i + 1..], t.nextId), other) == FindById(t, other)
  {
    var rows := t.rows;
    var after := rows[..i] + rows[i + 1..];
    RemoveAtIndices(rows, i);
    match Find(rows, other)
    case None =>
      forall k | 0 <= k < |after| ensures after[k].id != other {
        if k < i { assert after[k] == rows[k]; } else { assert after[k] == rows[k + 1]; }
      }
      assert Find(after, other).None?;
    case Some(k) =>
      var k' := if k < i then k else k - 1;
      assert after[k'] == rows[k];
      forall j | 0 <= j < k' ensures after[j].id != other {
        if j < i { assert after[j] == rows[j]; } else { assert after[j] == rows[j + 1]; }
      }
      var f := Find(after, other);
      assert f.Some?;
      assert f.value == k';
      assert FindById(Table(after, t.nextId), other) == Ok(rows[k]);
  }

  /** After an accepted remove the id is gone and `findById` on it fails with
      `NotFound`; every other id is looked up as before. */
  lemma RemoveThenFind(t: Table, id: nat)
    requires Valid(t)
    requires Remove(t, id).result.Ok?
    ensures var s := Remove(t, id);
      && Ids(s.table) == Ids(t) - {id}
      && FindById(s.table, id) == Err(NotFound)
      && forall other :: other != id ==> FindById(s.table, other) == FindById(t, other)
  {
    var s := Remove(t, id);
    var i := Find(t.rows, id).value;
    RemoveAtIds(t, i);
    assert id !in Ids(s.table);
    forall other | other != id
      ensures FindById(s.table, other) == FindById(t, other)
    {
      RemoveAtFindOther(t, i, other);
    }
  }

  /** Ids are never reused: after a remove, the next accepted insert is given
      an id different from every id the table has ever handed out, the removed
      one included. */
  lemma RemovedIdNotReused(t: Table, id: nat, team: Fields)
    requires Valid(t)
    requires Remove(t, id).result.Ok?
    requires Insert(Remove(t, id).table, team).result.Ok?
    ensures Insert(Remove(t, id).table, team).result.value != id
    ensures Insert(Remove(t, id).table, team).result.value !in Ids(t)
  {
  }
}
