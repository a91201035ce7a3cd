/**
 * The `/user` endpoints: get, count, browse, create and delete over the users table, whose `email`
 * column is UNIQUE. The user type is stored as its discriminant and decoded leniently on the way out.
 */
module UserController {
  import opened Base
  import opened Text
  import opened ValidationErrors
  import opened Browsing
  import opened Users
  import Repository

  /** A row of the users table after its id: the user type is stored as its `u32` discriminant. */
  datatype UserColumns = UserColumns(firstName: string, lastName: string, email: string, phone: string, birthday: Date, userType: u32)

  type UserTable = Repository.Table<UserColumns>

  /** The users table: errors name the entity "User", and a duplicate email is reported with that email. */
  const Schema: Repository.Schema<UserColumns> :=
    Repository.Schema("User", Some(Repository.Unique((r: UserColumns) => r.email, (k: string) => UserEmailAlreadyExists(k))))

  /** The columns an insert binds for a validated payload. */
  function Columns(c: CreateUser): UserColumns {
    UserColumns(c.firstName, c.lastName, c.email, c.phone, c.birthday, Discriminant(c.userType))
  }

  /** A row read back as a user, the stored discriminant decoded with its fallback. */
  function ToUser(row: Repository.Row<UserColumns>): User {
    var r := row.record;
    User(row.id, r.firstName, r.lastName, r.email, r.phone, r.birthday, FromU32(r.userType))
  }

  /** Writing a payload's columns and reading the row back gives the payload's values under the row's id. */
  lemma ColumnsRoundTrip(id: Id, c: CreateUser)
    ensures ToUser(Repository.Row(id, Columns(c))) == User(id, c.firstName, c.lastName, c.email, c.phone, c.birthday, c.userType)
  {
    DecodeEncode(c.userType);
  }

  /** Some stored user already has this email. */
  predicate EmailTaken(db: UserTable, email: string) {
    Repository.KeyTaken(db, Schema.unique.value, email)
  }

  /** `GET /user/:id`: the user with that id, or `EntityNotExists("User")`. */
  function Get(db: UserTable, id: u32): (r: Result<User, ValidationError>)
    ensures r.Ok? <==> id in Repository.Ids(db)
    ensures r.Ok? ==> exists i | 0 <= i < |db| :: db[i].id == id && r.value == ToUser(db[i])
    ensures r.Err? ==> r.error == EntityNotExists("User")
  {
    match Repository.Get(db, Schema, id)
    case Ok(cols) => Ok(ToUser(Repository.Row(id, cols)))
    case Err(e) => Err(e)
  }

  /** `GET /user/count`: the number of stored users, one per id. */
  function Count(db: UserTable): (n: nat)
    ensures Repository.Ordered(db) ==> n == |Repository.Ids(db)|
  {
    Repository.Count(db)
  }

  /**
   * `POST /user/browse`: the `LIMIT skip, count` window with `skip` the `u32` product of page number and
   * page size, for requests whose product fits in a `u32`: the `count` users that follow `pageNumber`
   * full pages, or fewer at the end of the table, in storage order.
   */
  function BrowseUsers(db: UserTable, b: Browse): (r: seq<User>)
    requires SkipFits(b)
    ensures Skip(b) >= |db| ==> r == []
    ensures Skip(b) < |db| ==> |r| == Min(b.count, |db| - Skip(b))
    ensures forall i | 0 <= i < |r| :: Skip(b) + i < |db| && r[i] == ToUser(db[Skip(b) + i])
  {
    var page := WrappedPage(db, b);
    WrappedPageAgrees(db, b);
    seq(|page|, i requires 0 <= i < |page| => ToUser(page[i]))
  }

  /**
   * The insert that follows validation: a taken email is reported with `UserEmailAlreadyExists`
   * carrying it, leaving the table alone; otherwise the user is appended under the next rowid, which
   * is returned narrowed to `u32`.
   */
  function Insert(db: UserTable, t: CreateUser): (r: Result<(UserTable, u32), ValidationError>)
    ensures r.Err? <==> EmailTaken(db, t.email)
    ensures r.Err? ==> r.error == UserEmailAlreadyExists(t.email)
    ensures r.Ok? ==> r.value.0 == db + [Repository.Row(Repository.NextId(db), Columns(t))]
    ensures r.Ok? ==> r.value.1 == Repository.NextId(db) % U32_LIMIT
  {
    match Repository.Create(db, Schema, Columns(t))
    case Err(e) => Err(e)
    case Ok((db', id)) => Ok((db', id % U32_LIMIT))
  }

  /**
   * `POST /user`: validate (trimming the payload), then insert. An invalid payload is rejected with
   * its validation error and a taken email with `UserEmailAlreadyExists` carrying the trimmed email,
   * neither touching the table; otherwise the trimmed user is appended and its id returned.
   */
  function Create(db: UserTable, c: CreateUser): (r: Result<(UserTable, u32), ValidationError>)
    ensures r.Ok? <==> Validate(c).Ok? && !EmailTaken(db, Trim(c.email))
    ensures Validate(c).Err? ==> r == Err(Validate(c).error)
    ensures Validate(c).Ok? && r.Err? ==> r.error == UserEmailAlreadyExists(Trim(c.email))
    ensures r.Ok? ==> r.value.0 == db + [Repository.Row(Repository.NextId(db), Columns(Trimmed(c)))]
    ensures r.Ok? ==> r.value.1 == Repository.NextId(db) % U32_LIMIT
  {
    match Validate(c)
    case Err(e) => Err(e)
    case Ok(t) => Insert(db, t)
  }

  /** `DELETE /user/:id`: removes the user, or reports `EntityNotExists("User")` when no row had that id. */
  function Delete(db: UserTable, id: u32): (r: Result<UserTable, ValidationError>)
    ensures r.Err? <==> id !in Repository.Ids(db)
    ensures r.Err? ==> r.error == EntityNotExists("User")
    ensures r.Ok? ==> Repository.Ids(r.value) == Repository.Ids(db) - {id as Id}
    ensures r.Ok? ==> forall k: u32 | k != id :: Get(r.value, k) == Get(db, k)
  {
    Repository.Delete(db, Schema, id)
  }

  /** An inserted user reads back under the returned id, when that id fits in a `u32`. */
  lemma InsertThenGet(db: UserTable, t: CreateUser)
    requires Insert(db, t).Ok?
    requires Repository.NextId(db) < U32_LIMIT
    ensures Get(Insert(db, t).value.0, Insert(db, t).value.1)
         == Ok(User(Insert(db, t).value.1, t.firstName, t.lastName, t.email, t.phone, t.birthday, t.userType))
  {
    var (db', id) := Insert(db, t).value;
    assert id as Id == Repository.NextId(db);
    Repository.FindAfterAppend(db, Repository.Row(id, Columns(t)), id);
    ColumnsRoundTrip(id, t);
  }

  /**
   * A user just created reads back, under the returned id, as the trimmed payload with its birthday
   * and user type, as long as the id fits in the `u32` the endpoint returns.
   */
  lemma CreateThenGet(db: UserTable, c: CreateUser)
    requires Validate(c).Ok? && !EmailTaken(db, Trim(c.email))
    requires Repository.NextId(db) < U32_LIMIT
    ensures Get(Create(db, c).value.0, Create(db, c).value.1)
         == Ok(User(Create(db, c).value.1, Trim(c.firstName), Trim(c.lastName), Trim(c.email), Trim(c.phone), c.birthday, c.userType))
  {
    InsertThenGet(db, Trimmed(c));
  }

  /** After an insert, a second insert with the same email is refused with that email. */
  lemma InsertDuplicate(db: UserTable, t: CreateUser, t': CreateUser)
    requires Insert(db, t).Ok? && t'.email == t.email
    ensures Insert(Insert(db, t).value.0, t') == Err(UserEmailAlreadyExists(t.email))
  {
    var db' := Insert(db, t).value.0;
    assert db'[|db|].record.email == t.email;
  }

  /** Once a user is stored, creating another whose trimmed email is the same fails with the duplicate email. */
  lemma DuplicateEmailRejected(db: UserTable, c: CreateUser, c': CreateUser)
    requires Validate(c).Ok? && !EmailTaken(db, Trim(c.email))
    requires Validate(c').Ok? && Trim(c'.email) == Trim(c.email)
    ensures Create(Create(db, c).value.0, c') == Err(UserEmailAlreadyExists(Trim(c.email)))
  {
    InsertDuplicate(db, Trimmed(c), Trimmed(c'));
  }

  /** Creating a user keeps the table ordered by id with no two users sharing an email. */
  lemma CreatePreservesValid(db: UserTable, c: CreateUser)
    requires Repository.Valid(db, Schema)
    requires Validate(c).Ok? && !EmailTaken(db, Trim(c.email))
    ensures Repository.Valid(Create(db, c).value.0, Schema)
  {
    Repository.CreatePreservesValid(db, Schema, Columns(Trimmed(c)));
  }

  /** A deleted user is gone: reading it, or deleting it again, reports `EntityNotExists("User")`. */
  lemma DeleteThenGet(db: UserTable, id: u32)
    requires Delete(db, id).Ok?
    ensures Get(Delete(db, id).value, id) == Err(EntityNotExists("User"))
    ensures Delete(Delete(db, id).value, id) == Err(EntityNotExists("User"))
  {
  }
}
