/**
 * The store operations of app/crud.py over an immutable table: each takes
 * the table and its arguments and gives back the table after the call and
 * what the call returned (`None` where the source returns `None`).
 */
module Crud {
  import opened Wrappers
  import opened Records

  /** A store operation's outcome: the table after the call, and the call's return value. */
  datatype Effect<T> = Effect(store: Store, value: T)

  /** Lookup by serial number; the table is not touched. */
  function GetBookBySerialNumber(s: Store, serial: int): (r: Option<Book>)
    ensures r.Some? <==> serial in s.books
    ensures r.Some? ==> r.value == s.books[serial]
    ensures WellFormed(s) && r.Some? ==> r.value.serialNumber == serial
  {
    if serial in s.books then Some(s.books[serial]) else None
  }

  /**
   * Insert a row built from `d` under a fresh internal key. A serial number
   * already present violates the unique column: the commit is rejected and
   * the table stays as it was.
   */
  function CreateBook(s: Store, d: BookData): (r: Effect<Option<Book>>)
    ensures d.serialNumber in s.books ==> r == Effect(s, None)
    ensures d.serialNumber !in s.books ==>
              && r.value.Some?
              && r.value.value.serialNumber == d.serialNumber
              && r.value.value.title == d.title
              && r.value.value.author == d.author
              && (r.value.value.isBorrowed <==> d.isBorrowed == Some(true))
              && r.value.value.borrowedBy == d.borrowedBy
              && r.value.value.borrowedDate == d.borrowedDate
              && r.store.books.Keys == s.books.Keys + {d.serialNumber}
              && r.store.books[d.serialNumber] == r.value.value
              && (forall k :: k in s.books ==> r.store.books[k] == s.books[k])
    ensures d.serialNumber !in s.books && WellFormed(s) ==>
              forall k :: k in s.books ==> s.books[k].id != r.value.value.id
    ensures WellFormed(s) ==> WellFormed(r.store)
  {
    if d.serialNumber in s.books then Effect(s, None)
    else
      var b := NewRow(s.nextId, d);
      Effect(Store(s.books[d.serialNumber := b], s.nextId + 1), Some(b))
  }

  /** Delete by serial number, returning the record as it was before the deletion. */
  function DeleteBook(s: Store, serial: int): (r: Effect<Option<Book>>)
    ensures serial !in s.books ==> r == Effect(s, None)
    ensures serial in s.books ==>
              && r.value == Some(s.books[serial])
              && serial !in r.store.books
              && r.store.nextId == s.nextId
    ensures forall k :: k != serial ==> (k in r.store.books <==> k in s.books)
    ensures forall k :: k != serial && k in s.books ==> r.store.books[k] == s.books[k]
    ensures WellFormed(s) ==> WellFormed(r.store)
  {
    if serial in s.books then Effect(Store(s.books - {serial}, s.nextId), Some(s.books[serial]))
    else Effect(s, None)
  }

  /**
   * Every stored record, each once. The engine's order is not modelled; the
   * ghost `serials` says under which key each listed record is stored.
   */
  method GetAllBooks(s: Store) returns (books: seq<Book>, ghost serials: seq<int>)
    ensures |books| == |s.books| && |serials| == |books|
    ensures forall i :: 0 <= i < |books| ==> serials[i] in s.books && books[i] == s.books[serials[i]]
    ensures forall i, j :: 0 <= i < j < |serials| ==> serials[i] != serials[j]
    ensures forall k :: k in s.books ==> k in serials && s.books[k] in books
  {
    books, serials := [], [];
    var rest := s.books.Keys;
    while rest != {}
      invariant rest <= s.books.Keys
      invariant |serials| == |books| && |books| + |rest| == |s.books.Keys|
      invariant forall i :: 0 <= i < |books| ==> serials[i] in s.books && books[i] == s.books[serials[i]]
      invariant forall i :: 0 <= i < |serials| ==> serials[i] !in rest
      invariant forall i, j :: 0 <= i < j < |serials| ==> serials[i] != serials[j]
      invariant forall k :: k in s.books ==> k in rest || (k in serials && s.books[k] in books)
      decreases rest
    {
      if forall x :: x !in rest {
        assert false;
      }
      var k :| k in rest;
      books, serials := books + [s.books[k]], serials + [k];
      rest := rest - {k};
    }
  }

  /** The borrow-state transition of one record, found by serial number. */
  function UpdateBookStatus(s: Store, serial: int, isBorrowed: bool, borrowedBy: Option<int>, today: Date)
    : (r: Effect<Option<Book>>)
    ensures serial !in s.books ==> r == Effect(s, None)
    ensures serial in s.books ==>
              && r.value.Some?
              && r.value.value.isBorrowed == isBorrowed
              && r.value.value.borrowedBy == borrowedBy
              && (r.value.value.borrowedDate.Some? <==> isBorrowed)
              && (isBorrowed ==> r.value.value.borrowedDate == Some(today))
              && r.value.value.id == s.books[serial].id
              && r.value.value.serialNumber == s.books[serial].serialNumber
              && r.value.value.title == s.books[serial].title
              && r.value.value.author == s.books[serial].author
              && r.store.books.Keys == s.books.Keys
              && r.store.books[serial] == r.value.value
              && r.store.nextId == s.nextId
    ensures forall k :: k != serial && k in s.books ==> r.store.books[k] == s.books[k]
    ensures WellFormed(s) ==> WellFormed(r.store)
  {
    if serial in s.books then
      var b := SetStatus(s.books[serial], isBorrowed, borrowedBy, today);
      Effect(Store(s.books[serial := b], s.nextId), Some(b))
    else Effect(s, None)
  }

  /** A created record is what a later lookup finds. */
  lemma CreateThenGet(s: Store, d: BookData)
    requires d.serialNumber !in s.books
    ensures GetBookBySerialNumber(CreateBook(s, d).store, d.serialNumber) == CreateBook(s, d).value
  {
  }

  /** Deleting what was just created gives back that record and the records from before. */
  lemma CreateThenDelete(s: Store, d: BookData)
    requires d.serialNumber !in s.books
    ensures DeleteBook(CreateBook(s, d).store, d.serialNumber).value == CreateBook(s, d).value
    ensures DeleteBook(CreateBook(s, d).store, d.serialNumber).store.books == s.books
  {
  }

  /** After a deletion the key is gone, and a second deletion finds nothing and changes nothing. */
  lemma DeleteThenDelete(s: Store, serial: int)
    ensures GetBookBySerialNumber(DeleteBook(s, serial).store, serial).None?
    ensures var s' := DeleteBook(s, serial).store;
            DeleteBook(s', serial) == Effect(s', None)
  {
  }

  /**
   * Borrowing and then returning with no borrower leaves the record
   * available, with its identity and other fields as they were, and every
   * other record untouched.
   */
  lemma BorrowThenReturn(s: Store, serial: int, borrower: Option<int>, day1: Date, day2: Date)
    requires serial in s.books
    ensures var s1 := UpdateBookStatus(s, serial, true, borrower, day1).store;
            var e := UpdateBookStatus(s1, serial, false, None, day2);
            && e.value == Some(s.books[serial].(isBorrowed := false, borrowedBy := None, borrowedDate := None))
            && e.store == Store(s.books[serial := e.value.value], s.nextId)
  {
  }

  /** Repeating a status update on the same day changes nothing more. */
  lemma UpdateIdempotent(s: Store, serial: int, isBorrowed: bool, borrowedBy: Option<int>, today: Date)
    ensures var e := UpdateBookStatus(s, serial, isBorrowed, borrowedBy, today);
            UpdateBookStatus(e.store, serial, isBorrowed, borrowedBy, today) == e
  {
  }
}
