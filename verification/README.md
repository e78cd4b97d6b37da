# User and family records: validation and persistence

A model, in Dafny, of the core of the `booking_togo` service: a user with a
nested list of family members, validated by the service layer and persisted
in two relational tables (`customer` and `family_list`) with a read-only
`nationality` table.

The model has eight modules:

- `Model` (`model.dfy`) holds the entities of `internal/model/user_family.go`: `User`, `Family`, `Nationality` and `UserDetailResponse`. It also holds the validation vocabulary (fields and rules), the error taxonomy, and the `Fault` that names which statement the environment makes fail.
- `Dates` (`dates.dfy`) is the date-of-birth check: the pattern `^\d{4}-\d{2}-\d{2}$` as Go's regexp reads it, and `time.Parse` with layout `2006-01-02`. It proves that together they accept exactly the texts of real Gregorian dates, so the pattern adds nothing.
- `Validation` (`validation.dfy`) covers the ozzo-validation rules: `Required`, `Length(5, 50)`, `Match`, the date check and `Min`.
  - A struct's errors form a map from field to that field's first failing rule, because `ValidateStruct` checks every field.
  - The family loop stops at the first invalid family.
- `Tables` (`tables.dfy`) is the store: the three tables as maps keyed by primary key, plus the two id sequences. It also holds the read model: a user's family rows filtered by `cst_id` and ordered by ascending `fl_id`, with nationality columns defaulting to `""`.
- `Repository` (`repository.dfy`) holds Create, Update (with the batched family upsert), Delete, DeleteFamily, GetUserDetail and GetAll as pure functions on the store.
  - Multi-statement operations run on a working copy and either commit it or roll back.
  - A rollback restores the tables but not the sequences, because PostgreSQL's `nextval` is not transactional.
- `Usecase` (`usecase.dfy`) is the service layer: validation gates Create and Update, and the reads and deletes pass straight through.
- `Properties` (`properties.dfy`) relates several calls.
  - Read-after-write round trips.
  - Which writes leave which rows alone.
  - The customer-sequence invariant.
  - Three concrete runs showing how explicit family ids interact with the family sequence.
  - Failures that still consume sequence values, and the list returned from a broken result stream.
- `Wrappers` (`wrappers.dfy`) holds `Option` and `Result`.

Failures of the database environment (lost connection, cancelled context, a constraint the model cannot see) are a `Fault` parameter. The fault names the one step that fails: `Begin`, `CustomerStmt`, `FamilyStmt(i)`, the `i`-th result row of the list query (`ResultRow(i)`) or `Commit`. The model itself produces the failures that follow from the data:
- a sequence value that collides with an existing key (`UniqueViolation`);
- an Update or a detail read of a missing id (`NoRows`);
- a payload family id that pgx cannot encode as the `int4` parameter of the upsert (`ParameterOutOfRange`).

Four behaviours of the code that its messages and names do not make obvious:
- Name lengths are counted in UTF-8 bytes, because `Length` uses `len`. The family error message at `internal/usecase/user_usecase.go:52` nevertheless speaks of "between 5 to 50 characters".
- `ValidateStruct` checks every field, so a struct's error records every failing field, not only the first.
- DeleteFamily's statement filters on both `fl_id` and `cst_id`. It removes at most one row, and none when the family belongs to another user.
- Delete removes the customer row before the family rows. No foreign key is visible, so this order is harmless in the model.

## Model

| member | source | states |
|---|---|---|
| Dates.ParseAcceptsExactlyCalendarDates | internal/usecase/user_usecase.go:146-158 | `time.Parse` with layout `2006-01-02` succeeds on a string exactly when it is the text of a real calendar date (month 1 to 12, day within the month, leap years by the Gregorian rule) |
| Dates.ParseFormatRoundTrip | internal/usecase/user_usecase.go:153 | parsing the layout text of any valid date gives that date back |
| Dates.FormatParseRoundTrip | internal/usecase/user_usecase.go:153 | a string that parses is the layout text of the date it parses to |
| Dates.MatchesDobPattern | internal/usecase/user_usecase.go:138 | `^\d{4}-\d{2}-\d{2}$` holds exactly for ten-character strings with `-` at positions 4 and 7 and an ASCII digit everywhere else |
| Dates.ParseDate | internal/usecase/user_usecase.go:146-158 | every string `time.Parse` accepts already matches `^\d{4}-\d{2}-\d{2}$` and yields a valid date made of its three digit groups; a string matching the pattern fails exactly when those groups do not form a valid date |
| Dates.DaysIn | internal/usecase/user_usecase.go:153 | a month has 28 to 31 days, and 29 exactly for February of a leap year |
| Dates.LeapDayAccepted | internal/usecase/user_usecase.go:146-158 | "2024-02-29" is a valid date of birth |
| Dates.CenturyLeapDayAccepted | internal/usecase/user_usecase.go:146-158 | "2000-02-29" is valid: a year divisible by 400 is a leap year |
| Dates.NonLeapDayRejected | internal/usecase/user_usecase.go:146-158 | "2023-02-29" and "1900-02-29" are rejected |
| Dates.OutOfRangeRejected | internal/usecase/user_usecase.go:138-139 | "2024-13-01" matches the pattern but fails to parse; day 31 of April is rejected |
| Validation.ByteLengthBounds | internal/usecase/user_usecase.go:137 | the byte length of a name is between its character count and four times it, and equals the character count exactly when every character is ASCII |
| Validation.NameLengthCountsBytes | internal/usecase/user_usecase.go:137 | the four-character name "José" passes `Length(5, 50)` because it is five bytes |
| Validation.CheckName | internal/usecase/user_usecase.go:137 | the chain `Required`, `Length(5, 50)` passes exactly the names of 5 to 50 bytes; the empty name fails `Required` and any other name outside the range fails `Length` |
| Validation.CheckDob | internal/usecase/user_usecase.go:138-139 | the chain passes exactly what `time.Parse` accepts; the empty string fails `Required`, a non-empty string off the pattern fails `Match`, and a string on the pattern that does not parse fails the date rule |
| Validation.CheckDobAcceptsCalendarDates | internal/usecase/user_usecase.go:138-139 | the chain `Required`, `Match`, `validateDOBFormat` accepts exactly real calendar dates; it fails with the date rule exactly on pattern-shaped strings that are not dates |
| Validation.UserErrors | internal/usecase/user_usecase.go:136-141 | each user field is in the error map exactly when it is invalid (name 5 to 50 bytes, real date, nationality id not 0, so negative ids pass); the map is empty exactly for a valid user |
| Validation.FamilyErrors | internal/usecase/user_usecase.go:95-101 | each family field is in the error map exactly when it is invalid; on Update the family id must be at least 0 and the user id at least 1, while on Create (lines 55-58) the ids are not checked |
| Validation.FirstInvalidFamily | internal/usecase/user_usecase.go:91-107 | no result exactly when every family is valid; otherwise the index of the first invalid family with its error map, all earlier families being valid |
| Validation.FamilyLoopIgnoresLater | internal/usecase/user_usecase.go:51-65 | the loop's verdict does not depend on the families after the first invalid one |
| Usecase.Validate | internal/usecase/user_usecase.go:84-107 | a payload passes exactly when the user and every family are valid; user errors are reported before any family error |
| Usecase.Create | internal/usecase/user_usecase.go:44-73 | a payload that fails validation returns its error with the store unchanged and the repository not called; a valid one is the repository's Create |
| Usecase.Update | internal/usecase/user_usecase.go:84-115 | as Create, with the stricter family rules; success implies every family id is at least 0 and every family user id at least 1 |
| Usecase.Detail | internal/usecase/user_usecase.go:75-82 | the repository's answer, unchanged; it succeeds exactly when the id exists and no fault strikes |
| Usecase.GetAll | internal/usecase/user_usecase.go:34-42 | the repository's list, unchanged: never more entries than customers, and exactly one per customer when no fault strikes |
| Usecase.Delete | internal/usecase/user_usecase.go:117-124 | the repository's Delete, unchanged; on success the user is gone |
| Usecase.DeleteFamily | internal/usecase/user_usecase.go:126-133 | the repository's DeleteFamily, unchanged; on success no row with that family id belongs to that user |
| Tables.FamiliesOf | internal/repository/user_repository.go:169-184 | a user's families are exactly the family rows with that `cst_id`, each with its stored name and dob, in strictly ascending `fl_id` order |
| Repository.CopyRows | internal/repository/user_repository.go:132-143 | COPY succeeds exactly when no row faults and none of the drawn ids exists yet; then it adds one row per family under consecutive ids from the sequence, stamped with the new user id; the ids of all buffered rows are drawn before the primary key is checked, so a clash still advances the family sequence by the whole payload and reports the least clashing id |
| Repository.Create | internal/repository/user_repository.go:109-153 | success exactly when no fault strikes and neither the customer id nor the family ids drawn clash; success adds exactly the customer row and one family row per payload family and writes the new id back; any failure leaves every table as it was, while the sequences may have advanced |
| Repository.UpsertIds | internal/repository/user_repository.go:308 | an upsert with a non-zero family id writes that id verbatim; one with id 0 writes the sequence's value at that point, the start value plus the number of earlier families sent with id 0 |
| Repository.UpsertOne | internal/repository/user_repository.go:305-316 | with id 0 the row goes under the sequence's next value and the sequence advances by one; any other id is written verbatim and leaves the sequence alone; in both cases the row under that id is replaced or added, and nothing else changes |
| Repository.UpsertedCounters | internal/repository/user_repository.go:308 | the batch advances the family sequence once per family sent with id 0 and touches no other table |
| Repository.UpsertedKeys | internal/repository/user_repository.go:304-317 | after the batch the family table holds its old ids plus exactly the ids the batch wrote: no row is deleted |
| Repository.UpsertedUntouched | internal/repository/user_repository.go:298-327 | a row whose id the batch does not write keeps its contents |
| Repository.UpsertedLastWrite | internal/repository/user_repository.go:305-316 | the row under a written id holds the last family of the batch that writes it, with `cst_id` taken from that family's own `UserID` |
| Repository.UpsertFamilies | internal/repository/user_repository.go:298-327 | the batch succeeds exactly when none of its statements faults, and then equals the statements applied in payload order |
| Repository.FirstUnencodable | internal/repository/user_repository.go:308-319 | finds the first payload family whose id lies outside `int4`, the type PostgreSQL gives `$1` because it is compared with the literal 0; none exactly when every id fits |
| Repository.Update | internal/repository/user_repository.go:259-327 | a missing user id gives `NoRows` and writes the id 0 back; success exactly when the id exists, no fault strikes and every family id fits `int4`; an id outside `int4` fails the batch as it is encoded, before any statement runs, and leaves the store as it was; success overwrites exactly that customer row and applies the batch; any failure, a failing upsert included, rolls the customer change back |
| Repository.DeleteFamiliesOf | internal/repository/user_repository.go:235 | afterwards the read model lists no family for the user, and every other user's families read exactly as before |
| Repository.Delete | internal/repository/user_repository.go:220-246 | success exactly when no fault strikes, even if nothing matched; it removes exactly the customer row and that user's family rows; a failure changes nothing |
| Repository.DeleteFamily | internal/repository/user_repository.go:248-257 | the one statement removes the row only when both `fl_id` and `cst_id` match, so at most that one row goes; zero matches still succeed |
| Repository.GetUserDetail | internal/repository/user_repository.go:155-218 | `NoRows` exactly when no customer has the id; otherwise the customer's fields, the joined nationality and the user's families |
| Repository.GetAll | internal/repository/user_repository.go:69-105 | fails only when the query cannot be sent; otherwise one entry per row read, each the user's detail, in ascending id order, with every customer left out having a larger id than every listed one; all customers when the stream is read to the end, but only the first `i` as a success when the stream breaks after `i` rows, since `rows.Err()` is never read |
| Repository.ListedIds | internal/repository/user_repository.go:74-103 | the customer ids whose rows the loop reads: ascending, each a real customer, every unread customer above every read one, and all of them unless the stream breaks first |
| Repository.GetAllChecked | internal/repository/user_repository.go:69-105 | with the `rows.Err()` check added: success exactly when neither the query nor the result stream fails, and then exactly one entry per customer |
| Properties.CreateThenDetail | internal/repository/user_repository.go:109-153 | after a successful Create, reading the new id returns the payload with that id, the joined nationality, and its families under consecutive drawn ids in payload order, when no earlier row already carried the new id |
| Properties.CreateIgnoresSuppliedIds | internal/repository/user_repository.go:132-138 | two payloads differing only in user id, family ids and family user ids leave the same store, error and returned id |
| Properties.CopyRowsReadsNamesAndDobs | internal/repository/user_repository.go:135-138 | COPY depends only on the families' names and dobs |
| Properties.DeleteThenDetailNotFound | internal/repository/user_repository.go:220-246 | after a successful Delete, the detail read reports `NoRows` and no family row refers to the user |
| Properties.DeleteLeavesOtherUsers | internal/repository/user_repository.go:228-236 | Delete leaves every other user's detail unchanged |
| Properties.DeleteFamilyNeedsOwner | internal/repository/user_repository.go:250 | a family row that belongs to another user survives DeleteFamily |
| Properties.DeleteFamilyThenDetail | internal/repository/user_repository.go:248-257 | after DeleteFamily the owner's detail lacks that family and keeps every other family of the user |
| Properties.DeleteFamilyLeavesOtherUsers | internal/repository/user_repository.go:250-251 | DeleteFamily leaves every other user's detail unchanged |
| Properties.UpdateKeepsOmittedFamilies | internal/repository/user_repository.go:298-317 | a successful Update leaves every family row the payload does not write as it was (partial sync) |
| Properties.UpdateFamilyIds | internal/repository/user_repository.go:304-316 | after a successful Update the family ids are the old ones plus those the batch wrote |
| Properties.UpdateLastWriteWins | internal/repository/user_repository.go:310-316 | the row under each written id holds the last payload family writing it, owned by that family's `UserID` |
| Properties.UpdateWithoutFamilies | internal/repository/user_repository.go:298-301 | an Update with no families leaves the family table and its sequence untouched |
| Properties.WritesPreserveWf | internal/repository/user_repository.go:118-121 | every write keeps all customer ids below the customer sequence |
| Properties.CreateOnWfStore | internal/repository/user_repository.go:118-130 | when the customer ids lie below the sequence, the customer insert never clashes |
| Properties.GetAllAgreesWithDetail | internal/repository/user_repository.go:42-66 | each entry of a list read to the end is what the detail read returns for that user |
| Properties.BrokenStreamLooksLikeFewerUsers | internal/repository/user_repository.go:74-105 | a stream broken after `i` of more than `i` rows makes GetAll succeed with `i` users, while the checked list reports the failure |
| Properties.CreateClashConsumesEveryFamilyId | internal/repository/user_repository.go:132-143 | a Create whose drawn family ids clash fails on the family table and leaves both tables as they were, with the customer sequence one ahead and the family sequence ahead by the whole payload |
| Properties.HugeFamilyIdFailsUpdate | internal/repository/user_repository.go:308-323 | an existing user's Update carrying a family id of 2^31 or more fails with `ParameterOutOfRange` and leaves the store, sequences included, as it was |
| Properties.ExplicitFamilyIdCollidesWithCopy | internal/repository/user_repository.go:305-316 | a family id written explicitly ahead of the sequence makes the next Create's COPY fail on that id; the failed Create still consumed ids, so its retry succeeds under customer id 3 |
| Properties.ZeroIdUpsertOverwritesExplicitRow | internal/repository/user_repository.go:308-314 | a family sent with id 0 draws a value an explicit id already took and overwrites that row instead of adding one |
| Properties.OrphanAdoptedByCreate | internal/repository/user_repository.go:312-316 | Update can stamp a family with the id of a user not yet created; that user, once created, lists the family |
| Properties.InvalidUserWritesNothing | internal/usecase/user_usecase.go:45-49 | a payload with an invalid user field returns the user's error map and leaves the store unchanged, on Create and on Update |
| Properties.ShortNameRejected | internal/usecase/user_usecase.go:137 | a four-character ASCII name is refused before any statement runs |

## Left out

- Logging (logrus), the HTTP layer, JSON encoding and decoding, configuration and server start-up are plumbing around the core. At the HTTP layer the path id overrides the body's user id; here the user id is a plain input.
- Context deadlines and cancellation, the connection pool, and the transport of batches and COPY are all I/O. Their effect on a call is the `Fault` parameter: one named statement fails.
- The `updated_at = CURRENT_TIMESTAMP` column is a clock value, so the model leaves it out.
- The `json.Unmarshal` error in the detail read and scan errors in the list are left out. The database builds that JSON, so it is always well-formed.
- Foreign keys and their deferrability are not part of this model. The schema is not visible and the code relies on none.
- The text of ozzo's error messages is left out. Errors are maps from field to the first failing rule.
- Go's `int` is 64 bits wide and the model's integers are unbounded. The model covers the family upsert's `$1`, which PostgreSQL types `int4` because it is compared with the literal 0. The types of the other parameters follow the column types of a schema that is not part of this model, so the user id of Update, Delete and DeleteFamily, a family's `UserID`, and the sequences' own upper limits are not range-checked.
- Repository.GetAll: the query has no `ORDER BY`, so the order of users is not promised. The model returns them by ascending id, which is one of the orders the database may produce; a broken stream therefore yields the customers with the smallest ids, where the database may yield any of them.
- Usecase.GetAll: one entry per customer is promised only when no fault strikes. A stream that breaks part-way yields a shorter list as a success, because the code never reads `rows.Err()` (see Findings).
- Repository.CopyRows: COPY sends its rows in buffers of at most 1000 rows or 64 kB, and the model treats a payload as one buffer. For a larger payload that clashes in an early buffer, the ids of the later buffers are never drawn, so the family sequence advances less than the model says.
- Concurrent requests and interleaved transactions are left out. Each call runs alone against the store.

## Findings

| source | as written | input that shows it | evidently intended | confidence | as-written member | corrected member |
|---|---|---|---|---|---|---|
| internal/repository/user_repository.go:74-105 | the row loop ends when `rows.Next()` returns false and returns the users read so far with a nil error; `rows.Err()`, where pgx keeps an error that ends the stream, is never read | two customers, and the connection drops after the first result row: GetAll returns one user and no error | return the stream's error, as pgx requires a caller to check `rows.Err()` after the loop | not executed | Repository.GetAll, Properties.BrokenStreamLooksLikeFewerUsers | Repository.GetAllChecked |
