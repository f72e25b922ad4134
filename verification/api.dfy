/**
 * The request handlers of app/main.py over the keyed store. Validation of
 * the body and the query runs before a handler: when it fails the answer is
 * status 422 and the store is not touched.
 */
module Api {
  import opened Wrappers
  import opened Records
  import opened Schemas
  import Crud
  import Table

  /** What a handler answers: a record, a list of records, or an error status with its detail text. */
  datatype Response =
    | Ok(book: Book)
    | Listed(books: seq<Book>)
    | BadRequest(detail: string)
    | NotFound(detail: string)
    | Unprocessable

  /** The HTTP status code of a response. */
  function StatusCode(r: Response): int {
    match r
    case Ok(_) => 200
    case Listed(_) => 200
    case BadRequest(_) => 400
    case NotFound(_) => 404
    case Unprocessable => 422
  }

  const AlreadyExists: string := "Book with this serial number already exists"
  const BookNotFound: string := "Book not found"

  /** Every stored serial number lies in the range the request schema accepts. */
  ghost predicate SixDigitSerials(s: Store) {
    forall k :: k in s.books ==> ValidSerial(k)
  }

  /** POST /books/: validate the body, refuse a serial number already stored, otherwise create. */
  function AddBook(s: Store, req: BookIn): (r: Crud.Effect<Response>)
    ensures Validate(req).None? ==> r == Crud.Effect(s, Unprocessable)
    ensures Validate(req).Some? && req.serialNumber.value in s.books ==>
              r == Crud.Effect(s, BadRequest(AlreadyExists))
    ensures r.value.Ok? <==> Validate(req).Some? && req.serialNumber.value !in s.books
    ensures r.value.Ok? ==>
              && r.value.book.serialNumber == req.serialNumber.value
              && r.value.book.title == req.title.value
              && r.value.book.author == req.author.value
              && (r.value.book.isBorrowed <==> req.isBorrowed == Given(true))
              && r.value.book.borrowedBy == (if req.borrowedBy.Given? then Some(req.borrowedBy.value) else None)
              && r.value.book.borrowedDate == (if req.borrowedDate.Given? then Some(req.borrowedDate.value) else None)
              && r.store.books == s.books[req.serialNumber.value := r.value.book]
    ensures StatusCode(r.value) in {200, 400, 422}
    ensures WellFormed(s) ==> WellFormed(r.store)
    ensures SixDigitSerials(s) ==> SixDigitSerials(r.store)
  {
    match Validate(req)
    case None => Crud.Effect(s, Unprocessable)
    case Some(d) =>
      if Crud.GetBookBySerialNumber(s, d.serialNumber).Some? then
        Crud.Effect(s, BadRequest(AlreadyExists))
      else
        var e := Crud.CreateBook(s, d);
        match e.value
        case Some(b) => Crud.Effect(e.store, Ok(b))
  }

  /** DELETE /books/{serial}: the deleted record, or 404 when there was none. */
  function RemoveBook(s: Store, serial: int): (r: Crud.Effect<Response>)
    ensures r.value.NotFound? <==> serial !in s.books
    ensures serial !in s.books ==> r == Crud.Effect(s, NotFound(BookNotFound))
    ensures serial in s.books ==>
              && r.value == Ok(s.books[serial])
              && r.store.books.Keys == s.books.Keys - {serial}
    ensures forall k :: k in s.books && k != serial ==> r.store.books[k] == s.books[k]
    ensures WellFormed(s) ==> WellFormed(r.store)
    ensures SixDigitSerials(s) ==> SixDigitSerials(r.store)
  {
    var e := Crud.DeleteBook(s, serial);
    match e.value
    case None => Crud.Effect(e.store, NotFound(BookNotFound))
    case Some(b) => Crud.Effect(e.store, Ok(b))
  }

  /** GET /books/: every stored record, each once. */
  method ListBooks(s: Store) returns (r: Response)
    ensures r.Listed? && |r.books| == |s.books|
    ensures forall k :: k in s.books ==> s.books[k] in r.books
    ensures forall b :: b in r.books ==> b in s.books.Values
  {
    var books, serials := Crud.GetAllBooks(s);
    r := Listed(books);
  }

  /** The query of PUT /books/{serial}: `is_borrowed` is required, `borrowed_by` optional. */
  datatype StatusRequest = StatusRequest(serialNumber: int, isBorrowed: Option<bool>, borrowedBy: Option<int>)

  /** PUT /books/{serial}: 404 unless the record exists, otherwise the borrow-state transition. */
  function UpdateBookStatus(s: Store, req: StatusRequest, today: Date): (r: Crud.Effect<Response>)
    ensures req.isBorrowed.None? ==> r == Crud.Effect(s, Unprocessable)
    ensures req.isBorrowed.Some? && req.serialNumber !in s.books ==>
              r == Crud.Effect(s, NotFound(BookNotFound))
    ensures r.value.Ok? <==> req.isBorrowed.Some? && req.serialNumber in s.books
    ensures r.value.Ok? ==>
              && r.value.book.isBorrowed == req.isBorrowed.value
              && r.value.book.borrowedBy == req.borrowedBy
              && (r.value.book.borrowedDate == if req.isBorrowed.value then Some(today) else None)
              && r.value.book.id == s.books[req.serialNumber].id
              && r.value.book.serialNumber == s.books[req.serialNumber].serialNumber
              && r.value.book.title == s.books[req.serialNumber].title
              && r.value.book.author == s.books[req.serialNumber].author
              && r.store.books == s.books[req.serialNumber := r.value.book]
    ensures WellFormed(s) && r.value.Ok? ==> r.value.book.serialNumber == req.serialNumber
    ensures StatusCode(r.value) in {200, 404, 422}
    ensures WellFormed(s) ==> WellFormed(r.store)
    ensures SixDigitSerials(s) ==> SixDigitSerials(r.store)
  {
    match req.isBorrowed
    case None => Crud.Effect(s, Unprocessable)
    case Some(borrowing) =>
      if Crud.GetBookBySerialNumber(s, req.serialNumber).None? then
        Crud.Effect(s, NotFound(BookNotFound))
      else
        var e := Crud.UpdateBookStatus(s, req.serialNumber, borrowing, req.borrowedBy, today);
        match e.value
        case Some(b) => Crud.Effect(e.store, Ok(b))
  }

  /**
   * Whatever POST /books/ answers, the table keeps one row per serial
   * number: it gains the created row at the end on success and is
   * unchanged otherwise.
   */
  lemma AddBookKeepsRowsUnique(rows: seq<Book>, s: Store, req: BookIn)
    requires Table.Represents(rows, s)
    ensures var r := AddBook(s, req);
            if r.value.Ok? then Table.Represents(rows + [r.value.book], r.store)
            else Table.Represents(rows, r.store)
  {
    var r := AddBook(s, req);
    if Validate(req).Some? {
      Table.CreateRefines(rows, s, Validate(req).value);
    }
  }

  /** Posting the same valid book twice: created, then refused with the first record intact. */
  lemma AddTwice(s: Store, req: BookIn)
    requires Validate(req).Some? && req.serialNumber.value !in s.books
    ensures var r1 := AddBook(s, req);
            var r2 := AddBook(r1.store, req);
            && StatusCode(r1.value) == 200
            && r2 == Crud.Effect(r1.store, BadRequest(AlreadyExists))
  {
  }

  /** Deleting a stored serial number twice: 200 with the record, then 404. */
  lemma RemoveTwice(s: Store, serial: int)
    requires serial in s.books
    ensures var r1 := RemoveBook(s, serial);
            var r2 := RemoveBook(r1.store, serial);
            && r1.value == Ok(s.books[serial])
            && r2 == Crud.Effect(r1.store, NotFound(BookNotFound))
  {
  }

  /** A seven-digit serial number in the body is refused with 422 before the store is consulted. */
  lemma SevenDigitSerialRefused(s: Store, title: string, author: string)
    ensures AddBook(s, BookIn(Given(1234567), Given(title), Given(author), Omitted, Omitted, Omitted))
            == Crud.Effect(s, Unprocessable)
  {
  }

  /**
   * The status update does not range-check the borrower: a seven-digit
   * `borrowed_by` is stored. Sending the parameters in the body instead of
   * the query leaves `is_borrowed` missing, which is what yields 422.
   */
  lemma BorrowerNotRangeChecked(s: Store, today: Date)
    requires 123456 in s.books
    ensures UpdateBookStatus(s, StatusRequest(123456, Some(true), Some(6543217)), today).value.Ok?
    ensures UpdateBookStatus(s, StatusRequest(123456, None, None), today) == Crud.Effect(s, Unprocessable)
  {
  }

  /**
   * The request sequence of the service's own scenario, from an empty
   * store: create, create again, borrow, delete, delete again.
   */
  lemma Scenario(today: Date)
    ensures var req := BookIn(Given(123456), Given("Test Book"), Given("Test Author"), Omitted, Omitted, Omitted);
            var a1 := AddBook(EmptyStore, req);
            var a2 := AddBook(a1.store, req);
            var u := UpdateBookStatus(a2.store, StatusRequest(123456, Some(true), Some(987654)), today);
            var d1 := RemoveBook(u.store, 123456);
            var d2 := RemoveBook(d1.store, 123456);
            && a1.value.Ok? && !a1.value.book.isBorrowed
            && a1.value.book.title == "Test Book" && a1.value.book.author == "Test Author"
            && StatusCode(a2.value) == 400 && a2.value.detail == AlreadyExists
            && u.value.Ok? && u.value.book.isBorrowed && u.value.book.borrowedBy == Some(987654)
            && u.value.book.borrowedDate == Some(today)
            && d1.value == u.value
            && StatusCode(d2.value) == 404 && d2.value.detail == BookNotFound
            && d2.store.books == map[]
  {
  }
}
