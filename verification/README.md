# Library book store — a Dafny model

The service keeps one record per physical book. Each record is keyed by a unique six-digit
serial number, has a title and an author, and carries a borrow state: a flag, the borrower's
number and the date the book was borrowed. Four HTTP handlers sit over four store operations:
add a book, list the books, change a book's borrow state, and remove a book. Before a handler
runs, its request is checked against a schema.

This project models that core as pure functions over an immutable table and proves what the
code promises about it:

- `wrappers.dfy`, module `Wrappers`: `Option`, Python's "a value or `None`".
- `records.dfy`, module `Records` (app/models.py): the `Book` row, the row constructor with the
  `is_borrowed` column default, and the one borrow-state transition (`SetStatus`). It also holds
  the keyed `Store` (serial number → record, plus the next internal id) and its well-formedness
  predicate: every record is filed under its own serial number, and internal ids are distinct.
- `schemas.dfy`, module `Schemas` (app/schemas.py): JSON body fields (omitted, `null` or given),
  the serial range check, and the validator that fills in defaults. `BookCreate` and `Book` add
  nothing to `BookBase`, so one validator serves all three. The range check is also proved equal
  to "a natural number with exactly six decimal digits".
- `crud.dfy`, module `Crud` (app/crud.py): lookup, create, delete, list and status update.
  Create, delete and status update take a store and return the store after the call together
  with the call's return value (`None` where the source returns `None`). Lookup returns only the
  optional record, and listing returns the records; neither changes the store.
- `table.dfy`, module `Table`: the table as the engine holds it. Rows are kept in insertion
  order, and lookups are `filter(serial_number == s).first()`, proved to return the first
  matching row. While serial numbers are unique, lookup, create, delete and status update are
  proved to be the matching row operations seen through `View`, and the rows that
  `query(Book).all()` returns are proved to be exactly the store's records. It is also shown
  that a duplicate row would survive a delete.
- `api.dfy`, module `Api` (app/main.py): the handlers. Each returns a `Response`: 200 with a
  record or a list, 400 "Book with this serial number already exists", 404 "Book not found",
  or 422 for failed validation. The stores they produce keep the well-formedness invariant and
  the six-digit range.

`date.today()` is the parameter `today`. The database session, its commit and refresh, and
FastAPI's dependency injection are all replaced by passing the store value explicitly.

Behaviour worth noting:

- Returning a book assigns `borrowed_by` verbatim (app/crud.py:96). A returned record always
  has no date, but it has no borrower only if the caller passed none. `Records.SetStatusConsistentIff`
  states exactly when the record ends in a consistent borrow state (`Records.ConsistentBorrowState`).
- The PUT handler does not range-check `serial_number` or `borrowed_by` (app/main.py:42). The
  422 that tests/test_main.py:106-108 expects comes from the required `is_borrowed` query
  parameter being missing, because the test sends it in the JSON body. See `Api.BorrowerNotRangeChecked`.
- A created record takes `is_borrowed`, `borrowed_by` and `borrowed_date` from the request
  body. Its flag is true only when the body sends `true`. Its borrower and date are whatever the
  body sends, so a record can be created in any borrow state, including an inconsistent one.
- The unique column does reject a duplicate insert. `Crud.CreateBook` models that rejection
  as `None` with the store unchanged. Through `add_book` this path is unreachable, because of
  the pre-check.

## Model

| member | source | states |
|---|---|---|
| Records.NewRow | app/models.py:7-13 | the stored row carries the given serial, title, author, borrower and date; `is_borrowed` is true only when true was supplied, so an omitted or null flag takes the column default false |
| Records.SetStatus | app/crud.py:94-100 | the flag and borrower are set as given; the date is present exactly when borrowing and is then today's; id, serial, title and author are untouched |
| Records.SetStatusConsistentIff | app/crud.py:95-100 | the updated record is in a consistent borrow state iff the caller passes a borrower exactly when borrowing |
| Records.KeyedIsUnique | app/models.py:8 | filing records under their serial numbers makes serial numbers unique across records |
| Records.EmptyWellFormed | app/models.py:7-8 | the empty table satisfies the keyed, distinct-id invariant |
| Schemas.Validate | app/schemas.py:5-11 | a body is accepted iff serial, title and author are given and 99999 < serial < 1000000; every given field is kept; omitted `is_borrowed` becomes false and null `is_borrowed` becomes none; omitted or null `borrowed_by`/`borrowed_date` become none |
| Schemas.ValidateEncode | app/schemas.py:5-18 | serialising a book and validating it again yields the same book iff its serial is in range (one validator for BookBase, BookCreate and Book) |
| Schemas.ValidateDefaults | app/schemas.py:9-11 | a body with only the required fields gets is_borrowed false, no borrower and no date |
| Schemas.SerialBounds | app/schemas.py:6 | 123456, 100000 and 999999 are accepted; 99999, 1000000 and 1234567 are refused |
| Schemas.SerialIsSixDigits | app/schemas.py:6 | the range check holds iff the serial is a natural number with exactly six decimal digits |
| Crud.GetBookBySerialNumber | app/crud.py:14-25 | returns a record iff the serial is stored, and that record is the stored one, carrying the asked serial |
| Crud.CreateBook | app/crud.py:28-43 | on a fresh serial the new record has the input fields and a fresh id, is stored under its serial, and every earlier record is kept; on a stored serial the unique column rejects it and nothing changes; well-formedness is kept |
| Crud.DeleteBook | app/crud.py:46-62 | a present serial returns the record as it was and is gone afterwards; an absent serial returns none and leaves the store identical; no other key changes |
| Crud.GetAllBooks | app/crud.py:65-75 | returns exactly the stored records: as many as there are keys, each the record of a distinct stored serial, every stored record among them |
| Crud.UpdateBookStatus | app/crud.py:78-104 | on a present serial sets flag and borrower verbatim and the date iff borrowing; keeps id, serial, title, author, key set and every other record; on an absent serial returns none with the store unchanged |
| Crud.CreateThenGet | app/crud.py:14-43 | a lookup right after creating finds the created record |
| Crud.CreateThenDelete | app/crud.py:28-62 | deleting a just-created book returns it and restores the earlier records |
| Crud.DeleteThenDelete | app/crud.py:46-62 | after a delete the serial is not found, and a second delete returns none and changes nothing |
| Crud.BorrowThenReturn | app/crud.py:93-104 | borrowing then returning with no borrower leaves the record available, with no borrower and no date, all else as before |
| Crud.UpdateIdempotent | app/crud.py:93-104 | repeating the same status update on the same day changes nothing more |
| Table.First | app/crud.py:25 | `.first()` returns a row with the asked serial, and returns none iff no row has it |
| Table.FirstAt | app/crud.py:25 | when row `i` is the first with the asked serial, `.first()` returns exactly that row |
| Table.View | app/models.py:8 | the rows seen by serial number file each record under its own serial |
| Table.ViewContents | app/models.py:8 | the view has a key for every row's serial, and each record in it is one of the rows |
| Table.FirstIsLookup | app/crud.py:25 | `.first()` on the rows equals lookup in their keyed view, for any rows |
| Table.AllIsEveryRecord | app/crud.py:75 | with unique serials, `query.all()` yields as many rows as keys, each the record its serial leads to, and every stored record |
| Table.ViewAppend | app/crud.py:39-43 | appending a row adds it to the view unless an earlier row already has its serial |
| Table.AppendUniqueIff | app/models.py:8 | an insert keeps serials unique iff no row already has the new serial |
| Table.RemoveFirst | app/crud.py:57-61 | deletes one row when a match exists, none otherwise, and adds no row |
| Table.RemoveFirstAt | app/crud.py:57-61 | the deleted row is the first match: the rows before and after it stay, in order |
| Table.RemoveFirstView | app/crud.py:57-61 | with unique serials, deleting the first match removes exactly that key from the view and keeps uniqueness |
| Table.DuplicateSurvivesDelete | app/crud.py:57-61 | with two rows sharing a serial, a delete leaves the second one findable |
| Table.SetStatusFirst | app/crud.py:93-100 | keeps the number of rows, every row's serial and every non-matching row |
| Table.SetStatusFirstAt | app/crud.py:93-100 | the transition is applied to the first matching row and every other row, later matches included, stays as it was |
| Table.SetStatusFirstView | app/crud.py:93-102 | with unique serials, the row update is the transition applied to the record the serial leads to |
| Table.CreateRefines | app/crud.py:14-43 | the store's duplicate check is `.first()` on the rows, and a create is an append that keeps serials unique |
| Table.ListRefines | app/crud.py:65-75 | with unique serials, the rows `query(Book).all()` returns are as many as the stored records, each the record under its serial, every stored record among them |
| Table.DeleteRefines | app/crud.py:46-62 | a store delete returns the first matching row and is the removal of that row |
| Table.UpdateRefines | app/crud.py:78-104 | a store status update is the update of the first matching row and returns that row updated |
| Api.AddBook | app/main.py:23-28 | an invalid body gives 422, a stored serial gives 400 "Book with this serial number already exists", both with the store unchanged; otherwise 200 with a record whose serial, title and author are the request's, stored under its serial; invariants kept |
| Api.RemoveBook | app/main.py:30-35 | 404 "Book not found" iff the serial is absent, with the store unchanged; otherwise 200 with the deleted record and only that key removed |
| Api.ListBooks | app/main.py:37-39 | 200 with every stored record, each once |
| Api.UpdateBookStatus | app/main.py:41-48 | a missing `is_borrowed` gives 422; an absent serial gives 404 without touching the store; otherwise 200 with flag and borrower as requested, date iff borrowing, the rest of the record and store untouched |
| Api.AddBookKeepsRowsUnique | app/main.py:24-28 | whatever POST answers, the table keeps one row per serial, gaining the created row only on success |
| Api.AddTwice | tests/test_main.py:55-66 | posting the same valid book twice gives 200 then 400 with the first record kept |
| Api.RemoveTwice | tests/test_main.py:90-100 | deleting a stored serial twice gives 200 with the record, then 404 |
| Api.SevenDigitSerialRefused | tests/test_main.py:102-104 | a body with serial 1234567 gives 422 and leaves the store unchanged |
| Api.BorrowerNotRangeChecked | app/main.py:41-48 | a seven-digit borrower is accepted by PUT; a request without `is_borrowed` gives 422 |
| Api.Scenario | tests/test_main.py:55-100 | from an empty store: create gives 200 and an available book, a repeat gives 400, borrowing sets flag, borrower and today's date, delete returns the borrowed record, a second delete gives 404 and the store is empty |

## Left out

- The database session, commit, refresh, `get_db` and `SessionLocal`: the store is passed as a value.
- FastAPI routing, `Depends` and `HTTPException`: only the status code and the detail text are kept, in `Api.Response`.
- `date.today()`: it is the `today` parameter.
- The race between the duplicate check and the insert in `add_book`: concurrency is outside a sequential model.
- Api.UpdateBookStatus: does not model the database driver refusing to bind an integer outside the signed 64-bit range. A path serial or a `borrowed_by` beyond it would fail in the lookup (app/crud.py:25) or at the commit (app/crud.py:101), answering 500. The model answers 404 or 200 instead, because integers here are unbounded and the driver is not part of this model. The same holds for `Crud.UpdateBookStatus` and `Crud.CreateBook`, which the handlers call.
- Api.AddBook: likewise does not model a `borrowed_by` outside the signed 64-bit range failing at the commit (app/crud.py:41) with 500; the model answers 200 and stores the value.
- The `String(6)` column type of `serial_number` and `borrowed_by` against the integer and string parameters: this is the engine's type coercion, and serial numbers are integers here. For the same reason a path segment that is not a number is not modelled.
- JSON value coercion by the schema library (for example the string `"123456"` accepted as an integer): body fields are already typed.
- The engine's choice of internal id: a counter gives a fresh, distinct id; SQLite's exact rowid choice is not modelled.
- Calendar validity of `Date`: dates are opaque day triples.
- The database error and 500 answer that a duplicate insert would raise: `Crud.CreateBook` returns `None` with the store unchanged. `add_book` never reaches that path.
- Re-validation of outgoing records against `response_model`: `Schemas.ValidateEncode` states what it would accept.
- The root "Hello World" endpoint, the `print` calls and the `orm_mode` setting.
- Crud.GetAllBooks: states which records are listed, not their order; `Table.AllIsEveryRecord` covers the engine's insertion-order rows.
