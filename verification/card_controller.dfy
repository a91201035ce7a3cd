/**
 * The `/card` endpoints: get, count, browse, create and delete over the cards table, whose `number`
 * column is UNIQUE. The card type is stored as its discriminant and decoded leniently on the way out.
 */
module CardController {
  import opened Base
  import opened Text
  import opened ValidationErrors
  import opened Browsing
  import opened Cards
  import Repository

  /** A row of the cards table after its id: the card type is stored as its `u32` discriminant. */
  datatype CardColumns = CardColumns(cardType: u32, number: string, expiration: string, owner: string)

  type CardTable = Repository.Table<CardColumns>

  /** The cards table: errors name the entity "Card", and a duplicate number is reported with that number. */
  const Schema: Repository.Schema<CardColumns> :=
    Repository.Schema("Card", Some(Repository.Unique((r: CardColumns) => r.number, (k: string) => CardNumberAlreadyExists(k))))

  /** The columns an insert binds for a validated payload. */
  function Columns(c: CreateCard): CardColumns {
    CardColumns(Discriminant(c.cardType), c.number, c.expiration, c.owner)
  }

  /** A row read back as a card, the stored discriminant decoded with its fallback. */
  function ToCard(row: Repository.Row<CardColumns>): Card {
    Card(row.id, FromU32(row.record.cardType), row.record.number, row.record.expiration, row.record.owner)
  }

  /** Writing a payload's columns and reading the row back gives the payload's values under the row's id. */
  lemma ColumnsRoundTrip(id: Id, c: CreateCard)
    ensures ToCard(Repository.Row(id, Columns(c))) == Card(id, c.cardType, c.number, c.expiration, c.owner)
  {
    DecodeEncode(c.cardType);
  }

  /** Some stored card already has this number. */
  predicate NumberTaken(db: CardTable, number: string) {
    Repository.KeyTaken(db, Schema.unique.value, number)
  }

  /** `GET /card/:id`: the card with that id, or `EntityNotExists("Card")`. */
  function Get(db: CardTable, id: u32): (r: Result<Card, ValidationError>)
    ensures r.Ok? <==> id in Repository.Ids(db)
    ensures r.Ok? ==> exists i | 0 <= i < |db| :: db[i].id == id && r.value == ToCard(db[i])
    ensures r.Err? ==> r.error == EntityNotExists("Card")
  {
    match Repository.Get(db, Schema, id)
    case Ok(cols) => Ok(ToCard(Repository.Row(id, cols)))
    case Err(e) => Err(e)
  }

  /** `GET /card/count`: the number of stored cards, one per id. */
  function Count(db: CardTable): (n: nat)
    ensures Repository.Ordered(db) ==> n == |Repository.Ids(db)|
  {
    Repository.Count(db)
  }

  /**
   * `POST /card/browse`: the `LIMIT skip, count` window with `skip` the `u32` product of page number and
   * page size, for requests whose product fits in a `u32`: the `count` cards that follow `pageNumber`
   * full pages, or fewer at the end of the table, in storage order.
   */
  function BrowseCards(db: CardTable, b: Browse): (r: seq<Card>)
    requires SkipFits(b)
    ensures Skip(b) >= |db| ==> r == []
    ensures Skip(b) < |db| ==> |r| == Min(b.count, |db| - Skip(b))
    ensures forall i | 0 <= i < |r| :: Skip(b) + i < |db| && r[i] == ToCard(db[Skip(b) + i])
  {
    var page := WrappedPage(db, b);
    WrappedPageAgrees(db, b);
    seq(|page|, i requires 0 <= i < |page| => ToCard(page[i]))
  }

  /**
   * The insert that follows validation: a taken number is reported with `CardNumberAlreadyExists`
   * carrying it, leaving the table alone; otherwise the card is appended under the next rowid, which
   * is returned narrowed to `u32`.
   */
  function Insert(db: CardTable, t: CreateCard): (r: Result<(CardTable, u32), ValidationError>)
    ensures r.Err? <==> NumberTaken(db, t.number)
    ensures r.Err? ==> r.error == CardNumberAlreadyExists(t.number)
    ensures r.Ok? ==> r.value.0 == db + [Repository.Row(Repository.NextId(db), Columns(t))]
    ensures r.Ok? ==> r.value.1 == Repository.NextId(db) % U32_LIMIT
  {
    match Repository.Create(db, Schema, Columns(t))
    case Err(e) => Err(e)
    case Ok((db', id)) => Ok((db', id % U32_LIMIT))
  }

  /**
   * `POST /card`: validate (trimming the payload), then insert. An invalid payload is rejected with
   * its validation error and a taken number with `CardNumberAlreadyExists` carrying the trimmed
   * number, neither touching the table; otherwise the trimmed card is appended and its id returned.
   */
  function Create(db: CardTable, c: CreateCard): (r: Result<(CardTable, u32), ValidationError>)
    ensures r.Ok? <==> Validate(c).Ok? && !NumberTaken(db, Trim(c.number))
    ensures Validate(c).Err? ==> r == Err(Validate(c).error)
    ensures Validate(c).Ok? && r.Err? ==> r.error == CardNumberAlreadyExists(Trim(c.number))
    ensures r.Ok? ==> r.value.0 == db + [Repository.Row(Repository.NextId(db), Columns(Trimmed(c)))]
    ensures r.Ok? ==> r.value.1 == Repository.NextId(db) % U32_LIMIT
  {
    match Validate(c)
    case Err(e) => Err(e)
    case Ok(t) => Insert(db, t)
  }

  /** `DELETE /card/:id`: removes the card, or reports `EntityNotExists("Card")` when no row had that id. */
  function Delete(db: CardTable, id: u32): (r: Result<CardTable, ValidationError>)
    ensures r.Err? <==> id !in Repository.Ids(db)
    ensures r.Err? ==> r.error == EntityNotExists("Card")
    ensures r.Ok? ==> Repository.Ids(r.value) == Repository.Ids(db) - {id as Id}
    ensures r.Ok? ==> forall k: u32 | k != id :: Get(r.value, k) == Get(db, k)
  {
    Repository.Delete(db, Schema, id)
  }

  /** An inserted card reads back under the returned id, when that id fits in a `u32`. */
  lemma InsertThenGet(db: CardTable, t: CreateCard)
    requires Insert(db, t).Ok?
    requires Repository.NextId(db) < U32_LIMIT
    ensures Get(Insert(db, t).value.0, Insert(db, t).value.1)
         == Ok(Card(Insert(db, t).value.1, t.cardType, t.number, t.expiration, t.owner))
  {
    var (db', id) := Insert(db, t).value;
    assert id as Id == Repository.NextId(db);
    Repository.FindAfterAppend(db, Repository.Row(id, Columns(t)), id);
    ColumnsRoundTrip(id, t);
  }

  /**
   * A card just created reads back, under the returned id, as the trimmed payload with its card type,
   * as long as the id fits in the `u32` the endpoint returns.
   */
  lemma CreateThenGet(db: CardTable, c: CreateCard)
    requires Validate(c).Ok? && !NumberTaken(db, Trim(c.number))
    requires Repository.NextId(db) < U32_LIMIT
    ensures Get(Create(db, c).value.0, Create(db, c).value.1)
         == Ok(Card(Create(db, c).value.1, c.cardType, Trim(c.number), Trim(c.expiration), Trim(c.owner)))
  {
    InsertThenGet(db, Trimmed(c));
  }

  /** After an insert, a second insert with the same number is refused with that number. */
  lemma InsertDuplicate(db: CardTable, t: CreateCard, t': CreateCard)
    requires Insert(db, t).Ok? && t'.number == t.number
    ensures Insert(Insert(db, t).value.0, t') == Err(CardNumberAlreadyExists(t.number))
  {
    var db' := Insert(db, t).value.0;
    assert db'[|db|].record.number == t.number;
  }

  /** Once a card is stored, creating another whose trimmed number is the same fails with the duplicate number. */
  lemma DuplicateNumberRejected(db: CardTable, c: CreateCard, c': CreateCard)
    requires Validate(c).Ok? && !NumberTaken(db, Trim(c.number))
    requires Validate(c').Ok? && Trim(c'.number) == Trim(c.number)
    ensures Create(Create(db, c).value.0, c') == Err(CardNumberAlreadyExists(Trim(c.number)))
  {
    InsertDuplicate(db, Trimmed(c), Trimmed(c'));
  }

  /** Creating a card keeps the table ordered by id with no two cards sharing a number. */
  lemma CreatePreservesValid(db: CardTable, c: CreateCard)
    requires Repository.Valid(db, Schema)
    requires Validate(c).Ok? && !NumberTaken(db, Trim(c.number))
    ensures Repository.Valid(Create(db, c).value.0, Schema)
  {
    Repository.CreatePreservesValid(db, Schema, Columns(Trimmed(c)));
  }

  /** A deleted card is gone: reading it, or deleting it again, reports `EntityNotExists("Card")`. */
  lemma DeleteThenGet(db: CardTable, id: u32)
    requires Delete(db, id).Ok?
    ensures Get(Delete(db, id).value, id) == Err(EntityNotExists("Card"))
    ensures Delete(Delete(db, id).value, id) == Err(EntityNotExists("Card"))
  {
  }
}
