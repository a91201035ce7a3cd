# bublik server core, modelled in Dafny

bublik is a small REST server with three resources: users, payment cards and banks. Each resource
is stored in its own SQLite table and has the same five endpoints:

- get by id;
- count;
- browse a page;
- create from a validated payload;
- delete by id.

This project models that core as pure functions over immutable values:

- the entities and their `u32`-coded enumerations (`Cards`, `Users`, `Banks`);
- the declarative field validation:
  - the trim rule, in `Text`;
  - the length bounds and patterns, in `FieldRules`;
  - the three regular expressions, as character-level predicates in `Patterns`;
- the browse request and its `LIMIT skip, count` window (`Browsing`);
- the closed error enumeration and the 400 response body each error becomes (`ValidationErrors`);
- the handlers themselves (`CardController`, `UserController`, `BankController`), over a table
  model (`Repository`). A table is a sequence of rows in rowid order with an optional UNIQUE column.

A handler is a function from the current table and the request to its answer. A creating or
deleting handler that succeeds also returns the new table. An `Err` answer carries no table, so the
table stays as it was.

Ids are unbounded (`Id = nat`), as SQLite's 64-bit rowids effectively are. Of the places where
the code narrows a value to `u32`, the model treats them as follows:

- the id a create returns (`last_insert_rowid() as u32`) is written out as a remainder modulo 2^32;
- the page offset `page_number * count` is written out, wrap-around included, in
  `Browsing.WrappingSkip` and `Browsing.WrappedPage`. The browse handlers themselves require the
  product to fit in `u32`;
- the `id: u32` field of a read entity and the `(u32,)` tuple that `COUNT(*)` is read into are kept
  unbounded (see "Left out").

## Model

| member | source | states |
|---|---|---|
| Cards.FromU32 | server/src/models/card.rs:21-41 | A stored code 1..5 decodes to the variant with that discriminant; any other code falls back to `Visa`. |
| Cards.DecodeEncode | server/src/models/card.rs:21-41 | Storing a card type as its `u32` (`Cards.Discriminant`, the `repr(u32)` cast) and decoding it gives back the same card type. |
| Cards.DecodeTable | server/src/models/card.rs:23-39 | The five discriminants in order: Visa 1, Visa Retired 2, MasterCard 3, Discover 4, American Express 5. Codes 0, 6 and 99 decode to `Visa`. |
| Users.FromU32 | server/src/models/user.rs:24-36 | A stored code 1..3 decodes to its variant; any other code falls back to `Worker`. |
| Users.DecodeEncode | server/src/models/user.rs:24-36 | Storing a user type as its `u32` (`Users.Discriminant`, the `repr(u32)` cast) and decoding it gives back the same user type. |
| Users.DecodeTable | server/src/models/user.rs:24-36 | Worker 1, Manager 2, Customer 3. Codes 0 and 4 decode to `Worker`. |
| Users.FromRequest | server/src/models/user.rs:49-50 | A payload without a birthday gets the default date 1970-01-01. A given birthday and every other field are kept. |
| Text.Trim | server/src/models/card.rs:45 | Trimming never lengthens a string, and the result neither starts nor ends with whitespace (Unicode White_Space). |
| Text.TrimStrips | server/src/models/card.rs:45 | Trimming removes only a whitespace prefix and a whitespace suffix, and keeps the middle of the string unchanged. |
| Text.TrimIdempotent | server/src/models/card.rs:45 | Trimming twice gives the same result as trimming once. |
| Text.TrimKeepsTrimmed | server/src/models/card.rs:45 | A string without surrounding whitespace is unchanged by trimming. |
| Patterns.CardNumberIffDigits | server/src/models/card.rs:48-49 | `^[0-9]*$` accepts exactly the all-digit strings, including the empty string. |
| Patterns.ExpirationIffMonthAndYear | server/src/models/card.rs:50-51 | The expiration regex accepts a string exactly when:<br>- it has 4 to 7 characters;<br>- its first two digits name a month 1..12;<br>- the rest is digits, after a '/' exactly when the length is odd. |
| Patterns.ExpirationExamples | server/src/models/card.rs:50-51 | `12/25`, `1225` and `01/2030` are accepted. `13/25`, `1/25`, `12/225`, `00/25` and `12//25` are rejected. |
| Patterns.EmailIffFirstAtSplit | server/src/models/user.rs:44-47 | The email regex holds exactly when:<br>- the text before the first '@' is a valid local part;<br>- the text after it begins with a host, a '.' and two lower-case letters. |
| Patterns.EmailIgnoresSuffix | server/src/models/user.rs:44-47 | The regex has no `$`, so any text may follow a matching email. |
| Patterns.EmailRejectsLeadingUpperOrDot | server/src/models/user.rs:45 | The leading class excludes upper case and '.', so a string starting with either never matches. |
| Patterns.AssembledEmailMatches | server/src/models/user.rs:44-47 | Local part + '@' + host + '.' + top-level part is always matched. |
| Patterns.EmailAcceptsPlainAddress | server/src/models/user.rs:44-47 | `john.doe@example.com` is accepted. |
| Patterns.EmailAcceptsSymbolsAndHyphens | server/src/models/user.rs:44-47 | `a_b+c@x-y.co.uk` is accepted: `_` and `+` in the local part, '-' and '.' in the host. |
| Patterns.EmailAcceptsTrailingRemainder | server/src/models/user.rs:44-47 | `ab@cd.efGH!` is accepted, because only a prefix has to match. |
| Patterns.EmailRejectsBadLeadingCharacter | server/src/models/user.rs:45 | `John@example.com` and `.ab@example.com` are rejected. |
| Patterns.EmailRejectsBadLocalEndOrShortTopLevel | server/src/models/user.rs:44-47 | A local part ending in '.' is rejected, and so is a one-letter top-level part. |
| FieldRules.CheckRule | server/src/models/card.rs:45-51 | One field's check returns no error iff its length is within bounds and its pattern, if any, matches. An error names that field and the requirement it breaks. |
| FieldRules.CheckAll | server/src/models/card.rs:43-57 | Checking all fields returns no error iff every rule holds. An error is one that some violated rule reports. |
| FieldRules.CheckAllIgnoresOrder | server/src/models/card.rs:43-57 | Whether a payload passes does not depend on the order the fields are checked in. |
| FieldRules.ReportsOnlyViolations | server/src/models/card.rs:45-51 | An error is only ever reported for a field whose rule fails. |
| Cards.RulesHoldIffAcceptable | server/src/models/card.rs:43-57 | The declared rules hold iff each trimmed field has 3..64 characters, the number is all digits and the expiration is month-and-year. |
| Cards.Validate | server/src/models/card.rs:43-57 | A card payload is accepted iff its trimmed fields are acceptable. Accepted means returned trimmed; a rejection names a field its trimmed value fails. |
| Cards.CardTypeNotValidated | server/src/models/card.rs:46-47 | The card type takes no part in validation. |
| Cards.EmptyNumberRejectedByLength | server/src/models/card.rs:45-49 | The empty number matches the digits pattern but fails the minimum length. |
| Cards.OnlyNumberPatternBroken | server/src/models/card.rs:48-49 | When only the number's pattern fails, the error is `Pattern("number", trimmed number)`, whatever order the rules run in. |
| Cards.NumberWithLetterRejected | server/src/models/card.rs:48-49 | Card `12a3` / `12/25` / `Ann` is rejected with `Pattern("number", "12a3")`. |
| Users.RulesHoldIffAcceptable | server/src/models/user.rs:38-56 | The rules hold iff every trimmed string field has 3..64 characters and the trimmed email starts with an address. |
| Users.Validate | server/src/models/user.rs:38-56 | A user payload is accepted iff its trimmed fields are acceptable. Accepted means returned trimmed; a rejection names a field its trimmed value fails. |
| Users.BirthdayAndTypeNotValidated | server/src/models/user.rs:49-51 | The birthday and user type take no part in validation and pass through unchanged. |
| Users.CapitalisedEmailRejected | server/src/models/user.rs:44-47 | If the other fields are valid and the trimmed email is 3..64 characters, an email starting with a capital or a '.' is rejected with `Pattern("email", trimmed email)`. |
| Users.PaddedShortNameRejected | server/src/models/user.rs:40 | Whitespace padding cannot lift a first name over the 3-character minimum, because trimming comes first. |
| Users.OnlyShortFirstNameBlamed | server/src/models/user.rs:38-42 | When the first name is the only field that fails a rule, by being too short (the email also matches its pattern), any outcome that rejects exactly the invalid payloads and blames a failing field is `MinLength("firstName", 3)`. |
| Users.ShortFirstNameRejected | server/src/models/user.rs:38-42 | A first name under 3 characters once trimmed, with the other fields valid, is rejected with exactly `MinLength("firstName", 3)`. |
| Users.FirstNameAlRejected | server/src/models/user.rs:38-42 | The first name "Al", with a valid last name, email and phone, is rejected with `MinLength("firstName", 3)`. |
| Banks.RulesHoldIffAcceptable | server/src/models/bank.rs:19-37 | The rules hold iff the four trimmed address fields have 3..64 characters and the trimmed building number has 1..32. |
| Banks.Validate | server/src/models/bank.rs:19-37 | A bank payload is accepted iff its trimmed fields are within their lengths. Accepted means returned trimmed; a rejection names a field its trimmed value fails. |
| Banks.OnlyLengthErrors | server/src/models/bank.rs:21-28 | No pattern is declared, so every bank error is a length error. |
| Banks.OneCharacterBuildingNumberAccepted | server/src/models/bank.rs:27-28 | The building-number override wins over the struct bounds: with the other four fields valid, one character is accepted, though it fails the 3..64 rule. |
| Banks.LongBuildingNumberRejected | server/src/models/bank.rs:27-28 | A building number over 32 characters, with the other four fields valid, is rejected with `MaxLength("buildingNumber", 32)`. |
| Banks.ShortCityRejected | server/src/models/bank.rs:21-24 | A city under 3 characters is rejected. |
| Browsing.FromRequest | server/src/models/browse.rs:3-23 | A browse request keeps the page number, and keeps the count when one is given. An omitted count becomes the default. |
| Browsing.OmittedCountIsTen | server/src/models/browse.rs:21-23 | The default page size is 10. |
| Browsing.Limit | server/src/api/controllers/user.rs:53-55 | `LIMIT offset, count` returns the rows from `offset` on, `min(count, rest)` of them, and none past the end. |
| Browsing.WrappingSkip | server/src/api/controllers/user.rs:51 | The `u32` product equals the true product exactly when the true product fits. |
| Browsing.WrappedPage | server/src/api/controllers/user.rs:51-55 | The page as written: at most `count` rows, namely the rows that follow the wrapped `u32` offset. It is empty once that offset is past the end. |
| Browsing.WrappedPageRepeatsFirstPage | server/src/api/controllers/user.rs:51-55 | Page 65536 with count 65536, on a non-empty table, returns the first page again instead of nothing. |
| Browsing.Page | server/src/api/controllers/user.rs:49-60 | A page has at most `count` rows, namely the rows that follow `pageNumber * count` rows. It is empty once that offset is past the end. |
| Browsing.WrappedPageAgrees | server/src/api/controllers/user.rs:51-55 | While `pageNumber * count` fits in `u32`, the page as written is the intended page. |
| Browsing.ZeroCountIsEmpty | server/src/api/controllers/user.rs:51-55 | A page size of 0 returns no rows. |
| Browsing.PagesCoverTable | server/src/api/controllers/user.rs:49-60 | Reading pages 0, 1, 2, … of one size yields every row exactly once, in storage order. |
| Browsing.PagesFromUnfoldsToPage | server/src/api/controllers/user.rs:49-60 | Each step of the page-by-page reading is one browse window of that page number and size. |
| Browsing.PagesAreAdjacent | server/src/api/controllers/user.rs:51-55 | Page `p + 1` starts where page `p` ends. |
| ValidationErrors.Parameters | server/src/api/validation_error.rs:6-15 | `Unknown` has no parameters. Every other kind lists its payload fields, all present. |
| ValidationErrors.AsResponse | server/src/api/validation_error.rs:25-36 | Every error is answered with status 400 and a body holding its code and parameters. |
| ValidationErrors.CodeTable | server/src/api/validation_error.rs:6-15 | The code of each kind (`ValidationErrors.Code`, the `DisplayUpperSnake` derive) is its name in upper snake case, e.g. `ENTITY_NOT_EXISTS`. |
| ValidationErrors.BodyRoundTrip | server/src/api/validation_error.rs:17-36 | The body loses nothing: decoding code and parameters gives back the error. |
| ValidationErrors.CodeIdentifiesKind | server/src/api/validation_error.rs:6-15 | Different kinds never share a code. |
| ValidationErrors.MissingUserResponse | server/src/api/controllers/user.rs:32 | A missing user is answered with 400 and `{code: "ENTITY_NOT_EXISTS", parameters: ["User"]}`. |
| Repository.Find | server/src/api/controllers/user.rs:26-28 | The lookup by id finds nothing iff no row has that id. Otherwise it returns the record of a row with that id. |
| Repository.Get | server/src/api/controllers/user.rs:25-33 | A get succeeds iff the id is stored. A failed get reports `EntityNotExists(entity)`. |
| Repository.GetFindsTheRow | server/src/db.rs:28 | The id is the primary key, so a get returns the record of the one row that has it. |
| Repository.Count | server/src/api/controllers/user.rs:37-45 | In a table keyed by id, the count is the number of distinct ids stored. |
| Repository.NextId | server/src/db.rs:28 | A new rowid (largest plus one) is not in use, exceeds every id in use, and is at least 1. |
| Repository.Create | server/src/api/controllers/user.rs:66-81 | An insert fails iff the UNIQUE key is already taken, with the conflict error for that key. Otherwise it appends one row under a fresh, larger id. |
| Repository.Remove | server/src/api/controllers/user.rs:89 | `DELETE WHERE id = ?` leaves exactly the ids other than that one. |
| Repository.Delete | server/src/api/controllers/user.rs:88-99 | A delete fails with `EntityNotExists` iff no row had the id. Otherwise that id is gone, every other id reads as before, and an ordered table is one row shorter. |
| Repository.RemoveKeepsOthers | server/src/api/controllers/user.rs:89 | `DELETE WHERE id = ?` leaves what every other id reads unchanged. |
| Repository.RemoveShrinksByOne | server/src/api/controllers/user.rs:89-94 | In a table keyed by id, deleting a stored id removes exactly one row. |
| Repository.RemoveAbsent | server/src/api/controllers/user.rs:89-94 | Deleting an id nobody has changes nothing. |
| Repository.RemoveOne | server/src/api/controllers/user.rs:89-94 | Deleting an id removes exactly its row and keeps the others in order. |
| Repository.DeleteRemovesExactlyOne | server/src/api/controllers/user.rs:88-99 | A successful delete returns the table minus exactly that one row. |
| Repository.DropPreservesValid | server/src/db.rs:28 | Dropping a row keeps the ids increasing and the UNIQUE keys distinct. |
| Repository.CreatePreservesValid | server/src/db.rs:28 | An insert keeps the ids increasing and the UNIQUE column duplicate-free. |
| Repository.DeletePreservesValid | server/src/db.rs:28 | A delete keeps the ids increasing and the UNIQUE column duplicate-free. |
| Repository.FindAfterAppend | server/src/api/controllers/user.rs:26-28 | After an insert, existing ids read as before and the new id reads the new row. |
| Repository.FindAfterRemove | server/src/api/controllers/user.rs:26-28 | After a delete, every other id reads as before. |
| Repository.CreateThenGet | server/src/api/controllers/user.rs:64-84 | A row just inserted is read back under the id the insert returned. |
| Repository.CreateKeepsOthers | server/src/api/controllers/user.rs:64-84 | An insert changes what no other id reads. |
| Repository.CreateCounts | server/src/api/controllers/user.rs:37-45 | An insert adds one to the count. |
| Repository.DeleteCounts | server/src/api/controllers/user.rs:37-45 | A delete takes one from the count. |
| Repository.DeleteThenGet | server/src/api/controllers/user.rs:88-99 | After a delete, getting or deleting the id again reports `EntityNotExists`. |
| Repository.DeleteKeepsOthers | server/src/api/controllers/user.rs:88-99 | A delete changes what no other id reads. |
| Repository.NewestIdIsReused | server/src/db.rs:28 | Without AUTOINCREMENT, after the newest row is deleted the next insert gets that id again. |
| Repository.RemoveAbsentAppend | server/src/api/controllers/user.rs:89-94 | Deleting the id just appended gives back the table from before the insert. |
| CardController.ColumnsRoundTrip | server/src/api/controllers/card.rs:67-71 | A card written as columns (`CardController.Columns`, type as `u32`) reads back through `CardController.ToCard` as the same card. |
| CardController.Count | server/src/api/controllers/card.rs:37-45 | In a table keyed by id, the card count is the number of distinct ids stored. |
| CardController.Get | server/src/api/controllers/card.rs:25-33 | A card get succeeds iff the id is stored and returns that row's card. Otherwise it reports `EntityNotExists("Card")`. |
| CardController.BrowseCards | server/src/api/controllers/card.rs:49-60 | For a request whose `pageNumber * count` fits in `u32`: the cards at positions `skip + i` of the table, in order, `min(count, rows - skip)` of them, and none once `skip` is past the end. |
| CardController.Insert | server/src/api/controllers/card.rs:66-82 | A taken number is refused with `CardNumberAlreadyExists(number)`. Otherwise the card is appended under the next rowid, and the `u32` truncation of that rowid is returned. |
| CardController.Create | server/src/api/controllers/card.rs:64-83 | Creating succeeds iff the payload is valid and its trimmed number is free. Otherwise it is refused:<br>- an invalid payload with its validation error, before any insert;<br>- a taken number with `CardNumberAlreadyExists(trimmed number)`.<br>On success the trimmed card is appended under the next rowid, and that rowid's `u32` truncation is returned. |
| CardController.Delete | server/src/api/controllers/card.rs:87-98 | A card delete fails with `EntityNotExists("Card")` iff the id is absent. Otherwise it removes that id, and every other id reads as before. |
| CardController.InsertThenGet | server/src/api/controllers/card.rs:66-82 | An inserted card reads back under the returned id while that id fits in `u32`. |
| CardController.CreateThenGet | server/src/api/controllers/card.rs:64-83 | A created card reads back with its trimmed fields and its card type. |
| CardController.InsertDuplicate | server/src/db.rs:66 | A second insert with the same number is refused with that number. |
| CardController.DuplicateNumberRejected | server/src/api/controllers/card.rs:74-80 | A valid card whose trimmed number is already stored is refused with `CardNumberAlreadyExists`. |
| CardController.CreatePreservesValid | server/src/db.rs:66 | Creating cards keeps ids increasing and numbers unique. |
| CardController.DeleteThenGet | server/src/api/controllers/card.rs:87-98 | A deleted card is gone for get and for a second delete. |
| UserController.ColumnsRoundTrip | server/src/api/controllers/user.rs:66-72 | A user written as columns (`UserController.Columns`, type as `u32`) reads back through `UserController.ToUser` as the same user. |
| UserController.Count | server/src/api/controllers/user.rs:37-45 | In a table keyed by id, the user count is the number of distinct ids stored. |
| UserController.Get | server/src/api/controllers/user.rs:25-33 | A user get succeeds iff the id is stored and returns that row's user. Otherwise it reports `EntityNotExists("User")`. |
| UserController.BrowseUsers | server/src/api/controllers/user.rs:49-60 | For a request whose `pageNumber * count` fits in `u32`: the users at positions `skip + i` of the table, in order, `min(count, rows - skip)` of them, and none once `skip` is past the end. |
| UserController.Insert | server/src/api/controllers/user.rs:66-83 | A taken email is refused with `UserEmailAlreadyExists(email)`. Otherwise the user is appended under the next rowid, and the `u32` truncation of that rowid is returned. |
| UserController.Create | server/src/api/controllers/user.rs:64-84 | Creating succeeds iff the payload is valid and its trimmed email is free. Otherwise it is refused:<br>- an invalid payload with its validation error, before any insert;<br>- a taken email with `UserEmailAlreadyExists(trimmed email)`.<br>On success the trimmed user is appended under the next rowid, and that rowid's `u32` truncation is returned. |
| UserController.Delete | server/src/api/controllers/user.rs:88-99 | A user delete fails with `EntityNotExists("User")` iff the id is absent. Otherwise it removes that id, and every other id reads as before. |
| UserController.InsertThenGet | server/src/api/controllers/user.rs:66-83 | An inserted user reads back under the returned id while that id fits in `u32`. |
| UserController.CreateThenGet | server/src/api/controllers/user.rs:64-84 | A created user reads back trimmed, with its birthday and type. |
| UserController.InsertDuplicate | server/src/db.rs:28 | A second insert with the same email is refused with that email. |
| UserController.DuplicateEmailRejected | server/src/api/controllers/user.rs:75-81 | A valid user whose trimmed email is already stored is refused with `UserEmailAlreadyExists`. |
| UserController.CreatePreservesValid | server/src/db.rs:28 | Creating users keeps ids increasing and emails unique. |
| UserController.DeleteThenGet | server/src/api/controllers/user.rs:88-99 | A deleted user is gone for get and for a second delete. |
| BankController.Count | server/src/api/controllers/bank.rs:37-45 | In a table keyed by id, the bank count is the number of distinct ids stored. |
| BankController.Get | server/src/api/controllers/bank.rs:25-33 | A bank get succeeds iff the id is stored and returns that row's bank. Otherwise it reports `EntityNotExists("Bank")`. |
| BankController.BrowseBanks | server/src/api/controllers/bank.rs:49-60 | For a request whose `pageNumber * count` fits in `u32`: the banks at positions `skip + i` of the table, in order, `min(count, rows - skip)` of them, and none once `skip` is past the end. |
| BankController.Insert | server/src/api/controllers/bank.rs:66-76 | A bank insert always appends under the next rowid and returns its `u32` truncation. |
| BankController.Create | server/src/api/controllers/bank.rs:64-77 | Creating a bank succeeds iff the payload is valid; an invalid payload is refused with its validation error. On success the trimmed bank is appended under the next rowid, and that rowid's `u32` truncation is returned. |
| BankController.Delete | server/src/api/controllers/bank.rs:81-92 | A bank delete fails with `EntityNotExists("Bank")` iff the id is absent. Otherwise it removes that id, and every other id reads as before. |
| BankController.InsertThenGet | server/src/api/controllers/bank.rs:66-76 | An inserted bank reads back under the returned id while that id fits in `u32`. |
| BankController.CreateThenGet | server/src/api/controllers/bank.rs:64-77 | A created bank, written as columns (`BankController.Columns`), reads back through `BankController.ToBank` with its trimmed fields. |
| BankController.SameBankTwice | server/src/db.rs:102 | The banks table has no UNIQUE column, so the same valid bank is stored twice under two increasing ids. |
| BankController.CreatePreservesValid | server/src/db.rs:102 | Creating banks keeps ids increasing. |
| BankController.DeleteThenGet | server/src/api/controllers/bank.rs:81-92 | A deleted bank is gone for get and for a second delete. |

## Left out

- I/O: the HTTP server, poem routing, the OpenAPI metadata, JSON (de)serialisation and the sqlx connection pool. The handlers are pure functions of the table and the request. `server/src/main.rs`, `server/src/api/mod.rs` and `server/src/api/controllers/mod.rs` only wire these together and are not part of this model.
- Schema creation and seeding. `server/src/db.rs` is not part of this model beyond three facts its `CREATE TABLE` statements fix:
  - `id` is an `INTEGER PRIMARY KEY` without AUTOINCREMENT;
  - `users.email` and `cards.number` are UNIQUE;
  - `banks` has no UNIQUE column.
- Database failures other than a UNIQUE violation are not modelled. These are I/O errors, turned into a 500 by the `anyhow` context.
- Concurrency between requests is not modelled. Each handler runs as one atomic step.
- The validation derive macro is not among the source files. The model assumes the behaviour its attributes describe:
  - every string field is trimmed before any check;
  - lengths are counted in Unicode scalar values (`seq<char>`, not bytes);
  - error field names are the camelCase serialised names;
  - a field-level `length` replaces the struct-level bounds for that field rather than adding to
    them. `CreateBank::building_number` (server/src/models/bank.rs:27-28) is therefore checked
    against 1..32 only, which `Banks.OneCharacterBuildingNumberAccepted` relies on.
- `FieldRules.CheckAll`: fields are checked in declaration order, and within a field, length before pattern. No property depends on that order (`FieldRules.CheckAllIgnoresOrder`). When several fields fail, no lemma claims which one is reported first.
- `ValidationErrors.Parameters`: the `JsonParameters` derive is not among the source files. `Unknown` is taken to have no parameter list, and every other kind to list its fields positionally.
- `ValidationErrors.Code`: the `DisplayUpperSnake` derive is not among the source files. The model splits each variant name at its capital letters.
- Dates are an opaque year/month/day triple. chrono's calendar rules, and the date parsing in JSON, are not modelled.
- Repository.Count: `COUNT(*)` is returned through a `(u32,)` tuple. The model returns the unbounded count and does not model a table with 2^32 or more rows.
- Repository.NextId: SQLite falls back to a random unused rowid once the largest rowid is 2^63 - 1. The model always uses largest-plus-one.
- The `u32` truncation of `last_insert_rowid()` is written out in each controller's `Insert`. The read-back lemmas assume the id fits.
- Browsing: in a build with overflow checks, `page_number * count` panics instead of wrapping. The model shows the wrapping release-build behaviour as written (`Browsing.WrappedPage`), and `Browsing.Page` is the intended window (see Findings).
- CardController.BrowseCards, UserController.BrowseUsers, BankController.BrowseBanks: require `pageNumber * count` to fit in `u32` (`Browsing.SkipFits`). For a larger product the code wraps in a release build and panics in a debug build; the handlers promise nothing there, and `Browsing.WrappedPage` states the release-build result.
- The `id: u32` field of `Card`, `User` and `Bank` is read back from an `INTEGER` rowid. The model keeps it unbounded and does not model the narrowing on read; the read-back lemmas assume the id fits.
- `Browse::page_number` and `Browse::count` only return the stored fields. They are the fields of the `Browsing.Browse` datatype, with no member of their own.
- The email pattern has `^` but no `$`, so only a prefix of the email has to be an address. This is modelled as written and stated by `Patterns.EmailIgnoresSuffix` and `Patterns.EmailAcceptsTrailingRemainder`. It is not listed as a finding, because the intent cannot be told from the code.

## Findings

| source | as written | input that shows it | evidently intended | confidence | as-written member | corrected member |
|---|---|---|---|---|---|---|
| server/src/api/controllers/user.rs:51 (also card.rs:51, bank.rs:51) | `let skip = data.page_number() * data.count();` is a `u32` product: it wraps in a release build and panics in a debug build | `{pageNumber: 65536, count: 65536}` on a non-empty table: the true offset 2^32 is past the end, yet the wrapped offset is 0 and the first page is returned | the rows after `pageNumber * count` rows, with the product computed without overflow (empty past the end) | not executed | Browsing.WrappedPageRepeatsFirstPage | Browsing.Page |
