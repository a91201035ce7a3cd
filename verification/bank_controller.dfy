/**
 * The `/bank` endpoints: get, count, browse, create and delete over the banks table, which has no
 * UNIQUE column, so an insert that passes validation always succeeds.
 */
module BankController {
  import opened Base
  import opened Text
  import opened ValidationErrors
  import opened Browsing
  import opened Banks
  import Repository

  /** A row of the banks table after its id. */
  datatype BankColumns = BankColumns(country: string, city: string, zipcode: string, street: string, buildingNumber: string)

  type BankTable = Repository.Table<BankColumns>

  /** The banks table: errors name the entity "Bank"; there is no UNIQUE column. */
  const Schema: Repository.Schema<BankColumns> := Repository.Schema("Bank", None)

  /** The columns an insert binds for a validated payload. */
  function Columns(c: CreateBank): BankColumns {
    BankColumns(c.country, c.city, c.zipcode, c.street, c.buildingNumber)
  }

  /** A row read back as a bank. */
  function ToBank(row: Repository.Row<BankColumns>): Bank {
    var r := row.record;
    Bank(row.id, r.country, r.city, r.zipcode, r.street, r.buildingNumber)
  }

  /** `GET /bank/:id`: the bank with that id, or `EntityNotExists("Bank")`. */
  function Get(db: BankTable, id: u32): (r: Result<Bank, ValidationError>)
    ensures r.Ok? <==> id in Repository.Ids(db)
    ensures r.Ok? ==> exists i | 0 <= i < |db| :: db[i].id == id && r.value == ToBank(db[i])
    ensures r.Err? ==> r.error == EntityNotExists("Bank")
  {
    match Repository.Get(db, Schema, id)
    case Ok(cols) => Ok(ToBank(Repository.Row(id, cols)))
    case Err(e) => Err(e)
  }

  /** `GET /bank/count`: the number of stored banks, one per id. */
  function Count(db: BankTable): (n: nat)
    ensures Repository.Ordered(db) ==> n == |Repository.Ids(db)|
  {
    Repository.Count(db)
  }

  /**
   * `POST /bank/browse`: the `LIMIT skip, count` window with `skip` the `u32` product of page number and
   * page size, for requests whose product fits in a `u32`: the `count` banks that follow `pageNumber`
   * full pages, or fewer at the end of the table, in storage order.
   */
  function BrowseBanks(db: BankTable, b: Browse): (r: seq<Bank>)
    requires SkipFits(b)
    ensures Skip(b) >= |db| ==> r == []
    ensures Skip(b) < |db| ==> |r| == Min(b.count, |db| - Skip(b))
    ensures forall i | 0 <= i < |r| :: Skip(b) + i < |db| && r[i] == ToBank(db[Skip(b) + i])
  {
    var page := WrappedPage(db, b);
    WrappedPageAgrees(db, b);
    seq(|page|, i requires 0 <= i < |page| => ToBank(page[i]))
  }

  /** The insert that follows validation: the bank is appended under the next rowid, returned narrowed to `u32`. */
  function Insert(db: BankTable, t: CreateBank): (r: (BankTable, u32))
    ensures r.0 == db + [Repository.Row(Repository.NextId(db), Columns(t))]
    ensures r.1 == Repository.NextId(db) % U32_LIMIT
  {
    var (db', id) := Repository.Create(db, Schema, Columns(t)).value;
    (db', id % U32_LIMIT)
  }

  /**
   * `POST /bank`: validate (trimming the payload), then insert. An invalid payload is rejected with
   * its validation error, leaving the table alone; any valid payload is stored, duplicates included.
   */
  function Create(db: BankTable, c: CreateBank): (r: Result<(BankTable, u32), ValidationError>)
    ensures r.Ok? <==> Validate(c).Ok?
    ensures Validate(c).Err? ==> r == Err(Validate(c).error)
    ensures r.Ok? ==> r.value.0 == db + [Repository.Row(Repository.NextId(db), Columns(Trimmed(c)))]
    ensures r.Ok? ==> r.value.1 == Repository.NextId(db) % U32_LIMIT
  {
    match Validate(c)
    case Err(e) => Err(e)
    case Ok(t) => Ok(Insert(db, t))
  }

  /** `DELETE /bank/:id`: removes the bank, or reports `EntityNotExists("Bank")` when no row had that id. */
  function Delete(db: BankTable, id: u32): (r: Result<BankTable, ValidationError>)
    ensures r.Err? <==> id !in Repository.Ids(db)
    ensures r.Err? ==> r.error == EntityNotExists("Bank")
    ensures r.Ok? ==> Repository.Ids(r.value) == Repository.Ids(db) - {id as Id}
    ensures r.Ok? ==> forall k: u32 | k != id :: Get(r.value, k) == Get(db, k)
  {
    Repository.Delete(db, Schema, id)
  }

  /** An inserted bank reads back under the returned id, when that id fits in a `u32`. */
  lemma InsertThenGet(db: BankTable, t: CreateBank)
    requires Repository.NextId(db) < U32_LIMIT
    ensures Get(Insert(db, t).0, Insert(db, t).1)
         == Ok(Bank(Insert(db, t).1, t.country, t.city, t.zipcode, t.street, t.buildingNumber))
  {
    var (db', id) := Insert(db, t);
    assert id as Id == Repository.NextId(db);
    Repository.FindAfterAppend(db, Repository.Row(id, Columns(t)), id);
  }

  /**
   * A bank just created reads back, under the returned id, as the trimmed payload, as long as the id
   * fits in the `u32` the endpoint returns.
   */
  lemma CreateThenGet(db: BankTable, c: CreateBank)
    requires Validate(c).Ok?
    requires Repository.NextId(db) < U32_LIMIT
    ensures Get(Create(db, c).value.0, Create(db, c).value.1)
         == Ok(Bank(Create(db, c).value.1, Trim(c.country), Trim(c.city), Trim(c.zipcode), Trim(c.street), Trim(c.buildingNumber)))
  {
    InsertThenGet(db, Trimmed(c));
  }

  /** Storing the same valid payload twice gives two rows with distinct ids: banks are never rejected as duplicates. */
  lemma SameBankTwice(db: BankTable, c: CreateBank)
    requires Validate(c).Ok?
    ensures Create(Create(db, c).value.0, c).Ok?
    ensures Create(Create(db, c).value.0, c).value.0[|db|].record == Create(Create(db, c).value.0, c).value.0[|db| + 1].record
    ensures Create(Create(db, c).value.0, c).value.0[|db|].id < Create(Create(db, c).value.0, c).value.0[|db| + 1].id
  {
  }

  /** Creating a bank keeps the table ordered by id. */
  lemma CreatePreservesValid(db: BankTable, c: CreateBank)
    requires Repository.Valid(db, Schema)
    requires Validate(c).Ok?
    ensures Repository.Valid(Create(db, c).value.0, Schema)
  {
    Repository.CreatePreservesValid(db, Schema, Columns(Trimmed(c)));
  }

  /** A deleted bank is gone: reading it, or deleting it again, reports `EntityNotExists("Bank")`. */
  lemma DeleteThenGet(db: BankTable, id: u32)
    requires Delete(db, id).Ok?
    ensures Get(Delete(db, id).value, id) == Err(EntityNotExists("Bank"))
    ensures Delete(Delete(db, id).value, id) == Err(EntityNotExists("Bank"))
  {
  }
}
