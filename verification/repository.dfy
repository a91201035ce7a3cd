/**
 * The store behind the three controllers: one SQLite table per entity, seen as a sequence of rows
 * in rowid order. Each row has an integer primary key; a table may also declare one UNIQUE text
 * column. The operations are the handlers' queries: look one row up by id, count the rows, read a
 * `LIMIT` window, insert a row, and delete by id.
 */
module Repository {
  import opened Base
  import opened ValidationErrors
  import opened Browsing

  /** A stored row: its rowid and its column values. */
  datatype Row<R> = Row(id: Id, record: R)

  /** A table's rows in rowid order, the order a `SELECT` without `ORDER BY` scans them in. */
  type Table<R> = seq<Row<R>>

  /** A UNIQUE column: how to read it off a record, and the error a duplicate insert is reported as. */
  datatype Unique<-R> = Unique(key: R -> string, conflict: string -> ValidationError)

  /** What a controller knows about its table: the entity name its errors use, and its UNIQUE column if any. */
  datatype Schema<-R> = Schema(entity: string, unique: Option<Unique<R>>)

  function Ids<R>(t: Table<R>): set<Id> {
    set i | 0 <= i < |t| :: t[i].id
  }

  /** Rowids are the primary key, and the table is kept in increasing rowid order. */
  ghost predicate Ordered<R>(t: Table<R>) {
    forall i, j | 0 <= i < j < |t| :: t[i].id < t[j].id
  }

  /** Some row already holds `k` in the UNIQUE column. */
  predicate KeyTaken<R>(t: Table<R>, u: Unique<R>, k: string) {
    exists i | 0 <= i < |t| :: u.key(t[i].record) == k
  }

  /** No two rows share a value of the UNIQUE column, if the table has one. */
  ghost predicate DistinctKeys<R>(t: Table<R>, s: Schema<R>) {
    s.unique.Some? ==> forall i, j | 0 <= i < j < |t| :: s.unique.value.key(t[i].record) != s.unique.value.key(t[j].record)
  }

  /** The table invariants SQLite maintains. */
  ghost predicate Valid<R>(t: Table<R>, s: Schema<R>) {
    Ordered(t) && DistinctKeys(t, s)
  }

  /** The ids of a non-empty table: its first row's and those of the rest. */
  lemma IdsSplit<R>(t: Table<R>)
    requires |t| > 0
    ensures Ids(t) == {t[0].id} + Ids(t[1..])
  {
    forall x | x in Ids(t) ensures x in {t[0].id} + Ids(t[1..]) {
      var k :| 0 <= k < |t| && t[k].id == x;
      if k > 0 {
        assert t[1..][k - 1] == t[k];
      }
    }
    forall x | x in Ids(t[1..]) ensures x in Ids(t) {
      var k :| 0 <= k < |t| - 1 && t[1..][k].id == x;
      assert t[k + 1] == t[1..][k];
    }
  }

  /** The rest of an ordered table is ordered, and does not use the first row's id. */
  lemma OrderedTail<R>(t: Table<R>)
    requires Ordered(t) && |t| > 0
    ensures Ordered(t[1..]) && t[0].id !in Ids(t[1..])
  {
    assert forall k | 0 <= k < |t| - 1 :: t[1..][k] == t[k + 1];
  }

  /** The record stored under `id`, if any row has that id; the first such row's in storage order. */
  function Find<R>(t: Table<R>, id: Id): (r: Option<R>)
    ensures r.None? <==> id !in Ids(t)
    ensures r.Some? ==> exists i | 0 <= i < |t| :: t[i] == Row(id, r.value)
  {
    if |t| == 0 then None
    else if t[0].id == id then Some(t[0].record)
    else
      var r := Find(t[1..], id);
      assert forall i | 1 <= i < |t| :: t[i] == t[1..][i - 1];
      IdsSplit(t);
      r
  }

  /** `SELECT * ... WHERE id = ?`: the row's record, or `EntityNotExists` naming the entity when there is none. */
  function Get<R>(t: Table<R>, s: Schema<R>, id: Id): (r: Result<R, ValidationError>)
    ensures r.Ok? <==> id in Ids(t)
    ensures r.Ok? ==> exists i | 0 <= i < |t| :: t[i] == Row(id, r.value)
    ensures r.Err? ==> r.error == EntityNotExists(s.entity)
  {
    match Find(t, id)
    case Some(rec) => Ok(rec)
    case None => Err(EntityNotExists(s.entity))
  }

  /** In an ordered table each id names one row, so the record `Get` returns is that row's. */
  lemma GetFindsTheRow<R>(t: Table<R>, s: Schema<R>, i: nat)
    requires Ordered(t) && i < |t|
    ensures Get(t, s, t[i].id) == Ok(t[i].record)
  {
  }

  /** `SELECT COUNT(*)`: the number of rows. */
  function Count<R>(t: Table<R>): (n: nat)
    ensures Ordered(t) ==> n == |Ids(t)|
  {
    OrderedIdsCount(t);
    |t|
  }

  /** In an ordered table the rows have distinct ids, so there are as many ids as rows. */
  lemma {:induction false} OrderedIdsCount<R>(t: Table<R>)
    ensures Ordered(t) ==> |Ids(t)| == |t|
  {
    if Ordered(t) && |t| > 0 {
      OrderedTail(t);
      OrderedIdsCount(t[1..]);
      IdsSplit(t);
    }
  }

  /** The largest rowid in use, or 0 for an empty table. */
  function MaxId<R>(t: Table<R>): (m: nat)
    ensures forall i | 0 <= i < |t| :: t[i].id <= m
    ensures |t| > 0 ==> m in Ids(t)
    ensures |t| == 0 ==> m == 0
  {
    if |t| == 0 then 0
    else
      var m := MaxId(t[..|t| - 1]);
      assert forall i | 0 <= i < |t| - 1 :: t[i] == t[..|t| - 1][i];
      if t[|t| - 1].id > m then t[|t| - 1].id else m
  }

  /**
   * The rowid SQLite gives an inserted row when the key is an `INTEGER PRIMARY KEY` without
   * `AUTOINCREMENT`: one more than the largest rowid in use, or 1 in an empty table.
   */
  function NextId<R>(t: Table<R>): (id: Id)
    ensures id !in Ids(t)
    ensures forall i | 0 <= i < |t| :: t[i].id < id
    ensures id >= 1
  {
    MaxId(t) + 1
  }

  /**
   * `INSERT`: fails with the schema's conflict error, carrying the key, when the record's key is
   * already taken; otherwise appends a row whose id is greater than every id in use, and returns the
   * new table and that id.
   */
  function Create<R>(t: Table<R>, s: Schema<R>, rec: R): (r: Result<(Table<R>, Id), ValidationError>)
    ensures r.Err? <==> s.unique.Some? && KeyTaken(t, s.unique.value, s.unique.value.key(rec))
    ensures r.Err? ==> r.error == s.unique.value.conflict(s.unique.value.key(rec))
    ensures r.Ok? ==> r.value.1 !in Ids(t) && (forall i | 0 <= i < |t| :: t[i].id < r.value.1)
    ensures r.Ok? ==> r.value.0 == t + [Row(r.value.1, rec)]
  {
    if s.unique.Some? && KeyTaken(t, s.unique.value, s.unique.value.key(rec)) then
      Err(s.unique.value.conflict(s.unique.value.key(rec)))
    else
      var id := NextId(t);
      Ok((t + [Row(id, rec)], id))
  }

  /** The rows whose id is not `id`, in their original order. */
  function Remove<R>(t: Table<R>, id: Id): (r: Table<R>)
    ensures Ids(r) == Ids(t) - {id}
    ensures |r| <= |t|
    ensures id in Ids(t) ==> |r| < |t|
  {
    if |t| == 0 then []
    else
      var rest := Remove(t[1..], id);
      IdsSplit(t);
      if t[0].id == id then rest
      else
        assert ([t[0]] + rest)[1..] == rest;
        IdsSplit([t[0]] + rest);
        [t[0]] + rest
  }

  /**
   * `DELETE ... WHERE id = ?`: when no row was affected, `EntityNotExists` naming the entity;
   * otherwise the table without the row that had that id.
   */
  function Delete<R>(t: Table<R>, s: Schema<R>, id: Id): (r: Result<Table<R>, ValidationError>)
    ensures r.Err? <==> id !in Ids(t)
    ensures r.Err? ==> r.error == EntityNotExists(s.entity)
    ensures r.Ok? ==> Ids(r.value) == Ids(t) - {id} && |r.value| < |t|
    ensures r.Ok? && Ordered(t) ==> |r.value| == |t| - 1
    ensures r.Ok? ==> forall x: Id | x != id :: Find(r.value, x) == Find(t, x)
  {
    if id in Ids(t) then
      RemoveShrinksByOne(t, id);
      RemoveKeepsOthers(t, id);
      Ok(Remove(t, id))
    else
      Err(EntityNotExists(s.entity))
  }

  // ---------------------------------------------------------------------------
  // How the operations change the table

  /** Removing an id no row has changes nothing. */
  lemma {:induction false} RemoveAbsent<R>(t: Table<R>, id: Id)
    requires id !in Ids(t)
    ensures Remove(t, id) == t
  {
    if |t| > 0 {
      IdsSplit(t);
      RemoveAbsent(t[1..], id);
      assert t == [t[0]] + t[1..];
    }
  }

  /** Removing an id from an ordered table removes exactly the one row that has it, and keeps the order. */
  lemma {:induction false} RemoveOne<R>(t: Table<R>, i: nat)
    requires Ordered(t) && i < |t|
    ensures Remove(t, t[i].id) == t[..i] + t[i + 1..]
  {
    var rest := t[1..];
    OrderedTail(t);
    if i == 0 {
      RemoveAbsent(rest, t[0].id);
      assert t[..0] + t[1..] == rest;
    } else {
      assert rest[i - 1] == t[i];
      assert t[0].id < t[i].id;
      RemoveOne(rest, i - 1);
      assert t[..i] == [t[0]] + rest[..i - 1];
      assert t[i + 1..] == rest[i..];
    }
  }

  /** Dropping one row of a valid table leaves a valid table. */
  lemma DropPreservesValid<R>(t: Table<R>, s: Schema<R>, i: nat)
    requires Valid(t, s) && i < |t|
    ensures Valid(t[..i] + t[i + 1..], s)
  {
    var t' := t[..i] + t[i + 1..];
    assert forall k | 0 <= k < |t'| :: t'[k] == if k < i then t[k] else t[k + 1];
  }

  /** Deleting an existing row from an ordered table removes that row alone and keeps the others in order. */
  lemma DeleteRemovesExactlyOne<R>(t: Table<R>, s: Schema<R>, i: nat)
    requires Ordered(t) && i < |t|
    ensures Delete(t, s, t[i].id) == Ok(t[..i] + t[i + 1..])
  {
    RemoveOne(t, i);
  }

  lemma CreatePreservesValid<R>(t: Table<R>, s: Schema<R>, rec: R)
    requires Valid(t, s)
    requires Create(t, s, rec).Ok?
    ensures Valid(Create(t, s, rec).value.0, s)
  {
    var (t', id) := Create(t, s, rec).value;
    assert forall i | 0 <= i < |t| :: t'[i] == t[i];
    if s.unique.Some? {
      var u := s.unique.value;
      assert !KeyTaken(t, u, u.key(rec));
    }
  }

  lemma DeletePreservesValid<R>(t: Table<R>, s: Schema<R>, id: Id)
    requires Valid(t, s)
    requires Delete(t, s, id).Ok?
    ensures Valid(Delete(t, s, id).value, s)
  {
    var i :| 0 <= i < |t| && t[i].id == id;
    DeleteRemovesExactlyOne(t, s, i);
    DropPreservesValid(t, s, i);
  }

  /** Looking an id up after appending a row: rows already there win, and otherwise the new row is found by its id. */
  lemma {:induction false} FindAfterAppend<R>(t: Table<R>, row: Row<R>, x: Id)
    ensures Find(t + [row], x) == if Find(t, x).Some? || x != row.id then Find(t, x) else Some(row.record)
  {
    if |t| > 0 {
      assert (t + [row])[1..] == t[1..] + [row];
      FindAfterAppend(t[1..], row, x);
    } else {
      assert ([row])[1..] == [];
    }
  }

  /** Looking an id up after removing a different one finds what it found before. */
  lemma {:induction false} FindAfterRemove<R>(t: Table<R>, id: Id, x: Id)
    requires x != id
    ensures Find(Remove(t, id), x) == Find(t, x)
  {
    if |t| > 0 {
      FindAfterRemove(t[1..], id, x);
      if t[0].id != id {
        assert ([t[0]] + Remove(t[1..], id))[1..] == Remove(t[1..], id);
      }
    }
  }

  /** Removing one id leaves every other id reading exactly as before. */
  lemma RemoveKeepsOthers<R>(t: Table<R>, id: Id)
    ensures forall x: Id | x != id :: Find(Remove(t, id), x) == Find(t, x)
  {
    forall x: Id | x != id ensures Find(Remove(t, id), x) == Find(t, x) {
      FindAfterRemove(t, id, x);
    }
  }

  /** In an ordered table an id names one row, so removing a stored id removes exactly one row. */
  lemma RemoveShrinksByOne<R>(t: Table<R>, id: Id)
    ensures Ordered(t) && id in Ids(t) ==> |Remove(t, id)| == |t| - 1
  {
    if Ordered(t) && id in Ids(t) {
      var i :| 0 <= i < |t| && t[i].id == id;
      RemoveOne(t, i);
    }
  }

  /** A row just created can be read back under the id the insert returned. */
  lemma CreateThenGet<R>(t: Table<R>, s: Schema<R>, rec: R)
    requires Create(t, s, rec).Ok?
    ensures Get(Create(t, s, rec).value.0, s, Create(t, s, rec).value.1) == Ok(rec)
  {
    var (t', id) := Create(t, s, rec).value;
    FindAfterAppend(t, Row(id, rec), id);
  }

  /** Creating a row leaves every other id reading exactly as before. */
  lemma CreateKeepsOthers<R>(t: Table<R>, s: Schema<R>, rec: R, other: Id)
    requires Create(t, s, rec).Ok? && other != Create(t, s, rec).value.1
    ensures Get(Create(t, s, rec).value.0, s, other) == Get(t, s, other)
  {
    var (t', id) := Create(t, s, rec).value;
    FindAfterAppend(t, Row(id, rec), other);
  }

  /** Creating a row adds one to the count. */
  lemma CreateCounts<R>(t: Table<R>, s: Schema<R>, rec: R)
    requires Create(t, s, rec).Ok?
    ensures Count(Create(t, s, rec).value.0) == Count(t) + 1
  {
  }

  /** Deleting a row takes one from the count of an ordered table. */
  lemma DeleteCounts<R>(t: Table<R>, s: Schema<R>, id: Id)
    requires Ordered(t)
    requires Delete(t, s, id).Ok?
    ensures Count(Delete(t, s, id).value) == Count(t) - 1
  {
    var i :| 0 <= i < |t| && t[i].id == id;
    DeleteRemovesExactlyOne(t, s, i);
  }

  /** Once deleted, a row is gone: reading it, or deleting it again, reports that the entity does not exist. */
  lemma DeleteThenGet<R>(t: Table<R>, s: Schema<R>, id: Id)
    requires Delete(t, s, id).Ok?
    ensures Get(Delete(t, s, id).value, s, id) == Err(EntityNotExists(s.entity))
    ensures Delete(Delete(t, s, id).value, s, id) == Err(EntityNotExists(s.entity))
  {
  }

  /** Deleting one row leaves every other id reading exactly as before. */
  lemma DeleteKeepsOthers<R>(t: Table<R>, s: Schema<R>, id: Id, other: Id)
    requires Delete(t, s, id).Ok? && other != id
    ensures Get(Delete(t, s, id).value, s, other) == Get(t, s, other)
  {
    FindAfterRemove(t, id, other);
  }

  /**
   * With no AUTOINCREMENT, deleting the newest row frees its id, and the next insert reuses it: the
   * store hands out the same id to two different rows over time.
   */
  lemma NewestIdIsReused<R>(t: Table<R>, s: Schema<R>, rec: R, rec': R)
    requires Create(t, s, rec).Ok?
    requires Delete(Create(t, s, rec).value.0, s, Create(t, s, rec).value.1).Ok?
    requires Create(Delete(Create(t, s, rec).value.0, s, Create(t, s, rec).value.1).value, s, rec').Ok?
    ensures Create(Delete(Create(t, s, rec).value.0, s, Create(t, s, rec).value.1).value, s, rec').value.1
         == Create(t, s, rec).value.1
  {
    var (t', id) := Create(t, s, rec).value;
    RemoveAbsentAppend(t, id, rec);
  }

  /** Removing the id of a row appended after a table that does not use it gives back the table. */
  lemma {:induction false} RemoveAbsentAppend<R>(t: Table<R>, id: Id, rec: R)
    requires id !in Ids(t)
    ensures Remove(t + [Row(id, rec)], id) == t
  {
    if |t| == 0 {
      assert [Row(id, rec)][1..] == [];
    } else {
      IdsSplit(t);
      RemoveAbsentAppend(t[1..], id, rec);
      assert (t + [Row(id, rec)])[1..] == t[1..] + [Row(id, rec)];
      assert t == [t[0]] + t[1..];
    }
  }
}
