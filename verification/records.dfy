/**
 * The `books` table of the library service (app/models.py): one record per
 * book, keyed by its six-digit serial number, with the borrow state beside it.
 */
module Records {
  import opened Wrappers

  /** A calendar day as the `Date` column stores it; calendar validity is not modelled. */
  datatype Date = Date(year: int, month: int, day: int)

  /**
   * One row of the table. `id` is the internal primary key, `serialNumber`
   * the unique, non-null business key; `borrowedBy` and `borrowedDate` are
   * nullable columns.
   */
  datatype Book = Book(
    id: int,
    serialNumber: int,
    title: string,
    author: string,
    isBorrowed: bool,
    borrowedBy: Option<int>,
    borrowedDate: Option<Date>)

  /** Column default of `is_borrowed`. */
  const IsBorrowedDefault: bool := false

  /**
   * The keyword arguments handed to the row constructor. A `None` in
   * `isBorrowed` is a null value: the insert leaves that column out, so the
   * column default applies.
   */
  datatype BookData = BookData(
    serialNumber: int,
    title: string,
    author: string,
    isBorrowed: Option<bool>,
    borrowedBy: Option<int>,
    borrowedDate: Option<Date>)

  /** The row the engine stores for `d` under the internal key `id`. */
  function NewRow(id: int, d: BookData): (b: Book)
    ensures b.id == id && b.serialNumber == d.serialNumber
    ensures b.title == d.title && b.author == d.author
    ensures b.isBorrowed <==> d.isBorrowed == Some(true)
    ensures b.borrowedBy == d.borrowedBy && b.borrowedDate == d.borrowedDate
  {
    Book(id, d.serialNumber, d.title, d.author,
         d.isBorrowed.GetOr(IsBorrowedDefault), d.borrowedBy, d.borrowedDate)
  }

  /**
   * The borrow-state transition applied to one record: the flag and the
   * borrower are assigned as given, the date is today's exactly when the book
   * is being borrowed and is cleared otherwise.
   */
  function SetStatus(b: Book, isBorrowed: bool, borrowedBy: Option<int>, today: Date): (b': Book)
    ensures b'.isBorrowed == isBorrowed && b'.borrowedBy == borrowedBy
    ensures b'.borrowedDate.Some? <==> isBorrowed
    ensures isBorrowed ==> b'.borrowedDate == Some(today)
    ensures b'.id == b.id && b'.serialNumber == b.serialNumber
    ensures b'.title == b.title && b'.author == b.author
  {
    b.(isBorrowed := isBorrowed,
       borrowedBy := borrowedBy,
       borrowedDate := if isBorrowed then Some(today) else None)
  }

  /**
   * The two consistent borrow states: available (no borrower, no date) or
   * borrowed (a borrower and a date).
   */
  predicate ConsistentBorrowState(b: Book) {
    if b.isBorrowed then b.borrowedBy.Some? && b.borrowedDate.Some?
    else b.borrowedBy.None? && b.borrowedDate.None?
  }

  /**
   * Whether the transition leaves a record in a consistent borrow state:
   * only when the caller passes a borrower exactly when borrowing,
   * since the borrower is stored verbatim even on a return.
   */
  lemma SetStatusConsistentIff(b: Book, isBorrowed: bool, borrowedBy: Option<int>, today: Date)
    ensures ConsistentBorrowState(SetStatus(b, isBorrowed, borrowedBy, today))
            <==> (isBorrowed <==> borrowedBy.Some?)
  {
  }

  /** The whole table: records by serial number, and the next internal key the engine hands out. */
  datatype Store = Store(books: map<int, Book>, nextId: int)

  /** The table before anything is inserted. */
  const EmptyStore: Store := Store(map[], 1)

  /** Every record is filed under its own serial number. */
  ghost predicate Keyed(m: map<int, Book>) {
    forall k :: k in m ==> m[k].serialNumber == k
  }

  /** No two records share an internal key. */
  ghost predicate DistinctIds(m: map<int, Book>) {
    forall k1, k2 :: k1 in m && k2 in m && k1 != k2 ==> m[k1].id != m[k2].id
  }

  /** Every internal key was handed out before `next`. */
  ghost predicate IdsBelow(m: map<int, Book>, next: int) {
    forall k :: k in m ==> 1 <= m[k].id < next
  }

  /** What every reachable table satisfies. */
  ghost predicate WellFormed(s: Store) {
    Keyed(s.books) && DistinctIds(s.books) && IdsBelow(s.books, s.nextId) && s.nextId >= 1
  }

  /** The empty table is well formed. */
  lemma EmptyWellFormed()
    ensures WellFormed(EmptyStore)
  {
  }

  /** No two stored records carry the same serial number (the `unique=True` column). */
  ghost predicate UniqueSerials(m: map<int, Book>) {
    forall k1, k2 :: k1 in m && k2 in m && k1 != k2 ==> m[k1].serialNumber != m[k2].serialNumber
  }

  /** Filing records under their serial numbers makes serial numbers unique. */
  lemma KeyedIsUnique(m: map<int, Book>)
    requires Keyed(m)
    ensures UniqueSerials(m)
  {
  }
}
