/**
 * The table as the storage engine holds it: rows in insertion order, looked
 * up with `filter(serial_number == s).first()`. Nothing in the row sequence
 * itself stops two rows from sharing a serial number. While serial numbers
 * are unique the rows and the keyed store of `Crud` say the same thing, and
 * each store operation is the corresponding row operation seen through `View`.
 */
module Table {
  import opened Wrappers
  import opened Records
  import Crud

  /** No two rows carry the same serial number. */
  ghost predicate UniqueRows(rows: seq<Book>) {
    forall i, j :: 0 <= i < j < |rows| ==> rows[i].serialNumber != rows[j].serialNumber
  }

  /** Row `i` is the first row with serial number `serial`. */
  ghost predicate FirstMatchAt(rows: seq<Book>, serial: int, i: int) {
    && 0 <= i < |rows|
    && rows[i].serialNumber == serial
    && forall j :: 0 <= j < i ==> rows[j].serialNumber != serial
  }

  /** A first match past the head row is the tail's first match, one place earlier. */
  lemma FirstMatchShift(rows: seq<Book>, serial: int, i: int)
    requires i > 0 && FirstMatchAt(rows, serial, i)
    ensures rows[0].serialNumber != serial && FirstMatchAt(rows[1..], serial, i - 1)
  {
    assert rows[0].serialNumber != serial;
    forall j | 0 <= j < i - 1
      ensures rows[1..][j].serialNumber != serial
    {
      assert rows[1..][j] == rows[j + 1];
    }
  }

  /** The first row with serial number `serial`, the one `.first()` returns. */
  function First(rows: seq<Book>, serial: int): (r: Option<Book>)
    ensures r.Some? ==> r.value in rows && r.value.serialNumber == serial
    ensures r.None? <==> forall i :: 0 <= i < |rows| ==> rows[i].serialNumber != serial
  {
    if |rows| == 0 then None
    else if rows[0].serialNumber == serial then Some(rows[0])
    else
      var r := First(rows[1..], serial);
      assert forall i :: 1 <= i < |rows| ==> rows[i] == rows[1..][i - 1];
      r
  }

  /** `.first()` returns the first matching row, not merely some matching row. */
  lemma {:induction false} FirstAt(rows: seq<Book>, serial: int, i: int)
    requires FirstMatchAt(rows, serial, i)
    ensures First(rows, serial) == Some(rows[i])
    decreases i
  {
    if i > 0 {
      FirstMatchShift(rows, serial, i);
      FirstAt(rows[1..], serial, i - 1);
    }
  }

  /** The rows seen by serial number: each serial number maps to its first row. */
  function View(rows: seq<Book>): (m: map<int, Book>)
    ensures Keyed(m)
  {
    if |rows| == 0 then map[] else View(rows[1..])[rows[0].serialNumber := rows[0]]
  }

  /** `.first()` on the rows is lookup in their view, whatever the rows hold. */
  lemma {:induction false} FirstIsLookup(rows: seq<Book>, k: int)
    ensures First(rows, k) == (if k in View(rows) then Some(View(rows)[k]) else None)
  {
    if |rows| > 0 {
      FirstIsLookup(rows[1..], k);
    }
  }

  /** The view holds a key for every row's serial number, and only records taken from the rows. */
  lemma ViewContents(rows: seq<Book>)
    ensures forall i :: 0 <= i < |rows| ==> rows[i].serialNumber in View(rows)
    ensures forall k :: k in View(rows) ==> View(rows)[k] in rows
  {
    forall i | 0 <= i < |rows|
      ensures rows[i].serialNumber in View(rows)
    {
      FirstIsLookup(rows, rows[i].serialNumber);
    }
    forall k | k in View(rows)
      ensures View(rows)[k] in rows
    {
      FirstIsLookup(rows, k);
    }
  }

  /** With unique serial numbers, every row is the record its serial number leads to. */
  lemma {:induction false} EveryRowIsInView(rows: seq<Book>)
    requires UniqueRows(rows)
    ensures forall i :: 0 <= i < |rows| ==>
              rows[i].serialNumber in View(rows) && View(rows)[rows[i].serialNumber] == rows[i]
  {
    if |rows| > 0 {
      var tail := rows[1..];
      assert UniqueRows(tail);
      EveryRowIsInView(tail);
      forall i | 0 <= i < |rows|
        ensures rows[i].serialNumber in View(rows) && View(rows)[rows[i].serialNumber] == rows[i]
      {
        if i > 0 {
          assert rows[i] == tail[i - 1];
        }
      }
    }
  }

  /** With unique serial numbers the view has one record per row. */
  lemma {:induction false} ViewSize(rows: seq<Book>)
    requires UniqueRows(rows)
    ensures |View(rows)| == |rows|
  {
    if |rows| > 0 {
      var tail := rows[1..];
      assert UniqueRows(tail);
      ViewSize(tail);
      FirstIsLookup(tail, rows[0].serialNumber);
      assert forall i :: 0 <= i < |tail| ==> tail[i] == rows[i + 1];
      assert rows[0].serialNumber !in View(tail);
    }
  }

  /**
   * `query(Book).all()` returns the rows; with unique serial numbers they
   * are exactly the stored records: as many as there are keys, each the
   * record stored under its serial number, and every stored record among them.
   */
  lemma {:induction false} AllIsEveryRecord(rows: seq<Book>)
    requires UniqueRows(rows)
    ensures |rows| == |View(rows)|
    ensures forall i :: 0 <= i < |rows| ==>
              rows[i].serialNumber in View(rows) && View(rows)[rows[i].serialNumber] == rows[i]
    ensures forall k :: k in View(rows) ==> View(rows)[k] in rows
  {
    ViewSize(rows);
    EveryRowIsInView(rows);
    forall k | k in View(rows)
      ensures View(rows)[k] in rows
    {
      FirstIsLookup(rows, k);
    }
  }

  /** Appending a row: an earlier row with the same serial number still wins every lookup. */
  lemma {:induction false} ViewAppend(rows: seq<Book>, b: Book)
    ensures View(rows + [b]) ==
            if b.serialNumber in View(rows) then View(rows) else View(rows)[b.serialNumber := b]
  {
    if |rows| == 0 {
      assert rows + [b] == [b];
      assert [b][1..] == [];
    } else {
      assert (rows + [b])[1..] == rows[1..] + [b];
      ViewAppend(rows[1..], b);
    }
  }

  /** The insert keeps serial numbers unique exactly when no row already has the new one. */
  lemma AppendUniqueIff(rows: seq<Book>, b: Book)
    requires UniqueRows(rows)
    ensures UniqueRows(rows + [b]) <==> First(rows, b.serialNumber).None?
  {
    if First(rows, b.serialNumber).Some? {
      var i :| 0 <= i < |rows| && rows[i].serialNumber == b.serialNumber;
      assert (rows + [b])[i].serialNumber == (rows + [b])[|rows|].serialNumber;
    }
  }

  /** Delete the first row with serial number `serial`, as `session.delete(first)` does. */
  function RemoveFirst(rows: seq<Book>, serial: int): (r: seq<Book>)
    ensures First(rows, serial).None? ==> r == rows
    ensures First(rows, serial).Some? ==> |r| == |rows| - 1
    ensures forall b :: b in r ==> b in rows
  {
    if |rows| == 0 then []
    else if rows[0].serialNumber == serial then rows[1..]
    else [rows[0]] + RemoveFirst(rows[1..], serial)
  }

  /** The row deleted is the first match: everything before it and after it stays, in order. */
  lemma {:induction false} RemoveFirstAt(rows: seq<Book>, serial: int, i: int)
    requires FirstMatchAt(rows, serial, i)
    ensures RemoveFirst(rows, serial) == rows[..i] + rows[i + 1..]
    decreases i
  {
    if i == 0 {
      assert rows[..0] + rows[1..] == rows[1..];
    } else {
      FirstMatchShift(rows, serial, i);
      RemoveFirstAt(rows[1..], serial, i - 1);
      SpliceCons(rows, i);
    }
  }

  /** Cutting out position `i > 0` keeps the head in front of the tail with position `i - 1` cut out. */
  lemma SpliceCons(rows: seq<Book>, i: int)
    requires 0 < i < |rows|
    ensures rows[..i] + rows[i + 1..] == [rows[0]] + (rows[1..][..i - 1] + rows[1..][i..])
  {
    assert rows[..i] == [rows[0]] + rows[1..][..i - 1];
    assert rows[i + 1..] == rows[1..][i..];
  }

  /** A row whose serial number no row of `rows` has can be put in front while keeping uniqueness. */
  lemma ConsUnique(b: Book, rows: seq<Book>)
    requires UniqueRows(rows)
    requires forall i :: 0 <= i < |rows| ==> rows[i].serialNumber != b.serialNumber
    ensures UniqueRows([b] + rows)
  {
    var r := [b] + rows;
    forall i, j | 0 <= i < j < |r|
      ensures r[i].serialNumber != r[j].serialNumber
    {
      assert r[j] == rows[j - 1];
      if i > 0 {
        assert r[i] == rows[i - 1];
      }
    }
  }

  /** With unique serial numbers, the head row's serial number is nowhere in the tail. */
  lemma HeadAlone(rows: seq<Book>)
    requires UniqueRows(rows) && |rows| > 0
    ensures UniqueRows(rows[1..])
    ensures forall b :: b in rows[1..] ==> b.serialNumber != rows[0].serialNumber
    ensures rows[0].serialNumber !in View(rows[1..])
  {
    var tail := rows[1..];
    assert forall i :: 0 <= i < |tail| ==> tail[i] == rows[i + 1];
    FirstIsLookup(tail, rows[0].serialNumber);
  }

  /** With unique serial numbers, deleting the first row with `k` removes `k` from the view and nothing else. */
  lemma {:induction false} RemoveFirstView(rows: seq<Book>, k: int)
    requires UniqueRows(rows)
    ensures UniqueRows(RemoveFirst(rows, k))
    ensures View(RemoveFirst(rows, k)) == View(rows) - {k}
  {
    if |rows| > 0 {
      HeadAlone(rows);
      if rows[0].serialNumber == k {
        assert View(rows) - {k} == View(rows[1..]);
      } else {
        RemoveFirstView(rows[1..], k);
        RemoveBehindHeadUnique(rows, k);
        RemoveBehindHeadView(rows, k);
      }
    }
  }

  /** The step of `RemoveFirstView` when the head row is kept: uniqueness. */
  lemma RemoveBehindHeadUnique(rows: seq<Book>, k: int)
    requires |rows| > 0 && rows[0].serialNumber != k
    requires forall b :: b in rows[1..] ==> b.serialNumber != rows[0].serialNumber
    requires UniqueRows(RemoveFirst(rows[1..], k))
    ensures UniqueRows(RemoveFirst(rows, k))
  {
    var rest := RemoveFirst(rows[1..], k);
    forall i | 0 <= i < |rest|
      ensures rest[i].serialNumber != rows[0].serialNumber
    {
      assert rest[i] in rows[1..];
    }
    ConsUnique(rows[0], rest);
  }

  /** The step of `RemoveFirstView` when the head row is kept: the view. */
  lemma RemoveBehindHeadView(rows: seq<Book>, k: int)
    requires |rows| > 0 && rows[0].serialNumber != k
    requires View(RemoveFirst(rows[1..], k)) == View(rows[1..]) - {k}
    ensures View(RemoveFirst(rows, k)) == View(rows) - {k}
  {
    var rest := RemoveFirst(rows[1..], k);
    assert RemoveFirst(rows, k) == [rows[0]] + rest;
    ViewCons(rows[0], rest);
    UpdateThenRemove(View(rows[1..]), rows[0].serialNumber, rows[0], k);
  }

  /** The view of a row put in front of others. */
  lemma ViewCons(b: Book, rest: seq<Book>)
    ensures View([b] + rest) == View(rest)[b.serialNumber := b]
  {
    assert ([b] + rest)[1..] == rest;
  }

  /** Setting one key and removing another commute. */
  lemma UpdateThenRemove(m: map<int, Book>, a: int, v: Book, k: int)
    requires a != k
    ensures (m - {k})[a := v] == m[a := v] - {k}
  {
  }

  /** Two rows with one serial number: deleting "the" book leaves the other one behind. */
  lemma DuplicateSurvivesDelete(b1: Book, b2: Book)
    requires b1.serialNumber == b2.serialNumber
    ensures First(RemoveFirst([b1, b2], b1.serialNumber), b1.serialNumber) == Some(b2)
  {
  }

  /** Apply the borrow-state transition to the first row with serial number `serial`. */
  function SetStatusFirst(rows: seq<Book>, serial: int, isBorrowed: bool, borrowedBy: Option<int>, today: Date)
    : (r: seq<Book>)
    ensures |r| == |rows|
    ensures forall i :: 0 <= i < |rows| ==> r[i].serialNumber == rows[i].serialNumber
    ensures forall i :: 0 <= i < |rows| && rows[i].serialNumber != serial ==> r[i] == rows[i]
  {
    if |rows| == 0 then []
    else if rows[0].serialNumber == serial then [SetStatus(rows[0], isBorrowed, borrowedBy, today)] + rows[1..]
    else [rows[0]] + SetStatusFirst(rows[1..], serial, isBorrowed, borrowedBy, today)
  }

  /** The row updated is the first match, and only that row changes. */
  lemma {:induction false} SetStatusFirstAt(rows: seq<Book>, serial: int, i: int,
                                            isBorrowed: bool, borrowedBy: Option<int>, today: Date)
    requires FirstMatchAt(rows, serial, i)
    ensures SetStatusFirst(rows, serial, isBorrowed, borrowedBy, today)
            == rows[..i] + [SetStatus(rows[i], isBorrowed, borrowedBy, today)] + rows[i + 1..]
    decreases i
  {
    if i == 0 {
      assert rows[..0] == [];
    } else {
      FirstMatchShift(rows, serial, i);
      SetStatusFirstAt(rows[1..], serial, i - 1, isBorrowed, borrowedBy, today);
      ReplaceCons(rows, i, SetStatus(rows[i], isBorrowed, borrowedBy, today));
    }
  }

  /** Replacing position `i > 0` keeps the head in front of the tail with position `i - 1` replaced. */
  lemma ReplaceCons(rows: seq<Book>, i: int, x: Book)
    requires 0 < i < |rows|
    ensures rows[..i] + [x] + rows[i + 1..] == [rows[0]] + (rows[1..][..i - 1] + [x] + rows[1..][i..])
  {
    assert rows[..i] == [rows[0]] + rows[1..][..i - 1];
    assert rows[i + 1..] == rows[1..][i..];
  }

  /** With unique serial numbers, updating the first row with `k` updates the record `k` leads to. */
  lemma {:induction false} SetStatusFirstView(rows: seq<Book>, k: int, isBorrowed: bool, borrowedBy: Option<int>, today: Date)
    requires UniqueRows(rows)
    ensures UniqueRows(SetStatusFirst(rows, k, isBorrowed, borrowedBy, today))
    ensures View(SetStatusFirst(rows, k, isBorrowed, borrowedBy, today)) ==
            if k in View(rows) then View(rows)[k := SetStatus(View(rows)[k], isBorrowed, borrowedBy, today)]
            else View(rows)
  {
    var r := SetStatusFirst(rows, k, isBorrowed, borrowedBy, today);
    if |rows| > 0 {
      HeadAlone(rows);
      var tail := rows[1..];
      var s0 := rows[0].serialNumber;
      assert rows == [rows[0]] + tail;
      ViewCons(rows[0], tail);
      if s0 == k {
        var b := SetStatus(rows[0], isBorrowed, borrowedBy, today);
        assert r == [b] + tail;
        ViewCons(b, tail);
        ConsUnique(b, tail);
      } else {
        var rt := SetStatusFirst(tail, k, isBorrowed, borrowedBy, today);
        SetStatusFirstView(tail, k, isBorrowed, borrowedBy, today);
        assert r == [rows[0]] + rt;
        ViewCons(rows[0], rt);
        ConsUnique(rows[0], rt);
        if k in View(tail) {
          UpdateCommute(View(tail), s0, rows[0], k, SetStatus(View(tail)[k], isBorrowed, borrowedBy, today));
        }
      }
    }
  }

  /** Setting two distinct keys commutes. */
  lemma UpdateCommute(m: map<int, Book>, a: int, v: Book, k: int, w: Book)
    requires a != k
    ensures m[k := w][a := v] == m[a := v][k := w]
  {
  }

  /** A table whose rows the keyed store `s` describes. */
  ghost predicate Represents(rows: seq<Book>, s: Store) {
    UniqueRows(rows) && View(rows) == s.books
  }

  /**
   * Creating through the store is appending a row: the duplicate check on
   * the store is `.first()` on the rows, and on success the new table is the
   * old one with the created row at the end, serial numbers still unique.
   */
  lemma CreateRefines(rows: seq<Book>, s: Store, d: BookData)
    requires Represents(rows, s)
    ensures Crud.GetBookBySerialNumber(s, d.serialNumber) == First(rows, d.serialNumber)
    ensures var e := Crud.CreateBook(s, d);
            if e.value.Some? then Represents(rows + [e.value.value], e.store)
            else Represents(rows, e.store)
  {
    FirstIsLookup(rows, d.serialNumber);
    var e := Crud.CreateBook(s, d);
    if e.value.Some? {
      AppendUniqueIff(rows, e.value.value);
      ViewAppend(rows, e.value.value);
    }
  }

  /**
   * Listing through the store is `query(Book).all()` on the rows: the rows
   * are as many as the stored records, each is the record stored under its
   * serial number, and every stored record is among them.
   */
  lemma ListRefines(rows: seq<Book>, s: Store)
    requires Represents(rows, s)
    ensures |rows| == |s.books|
    ensures forall i :: 0 <= i < |rows| ==>
              rows[i].serialNumber in s.books && s.books[rows[i].serialNumber] == rows[i]
    ensures forall k :: k in s.books ==> s.books[k] in rows
  {
    AllIsEveryRecord(rows);
  }

  /** Deleting through the store is deleting the first matching row, and returns that row. */
  lemma DeleteRefines(rows: seq<Book>, s: Store, serial: int)
    requires Represents(rows, s)
    ensures var e := Crud.DeleteBook(s, serial);
            e.value == First(rows, serial) && Represents(RemoveFirst(rows, serial), e.store)
  {
    FirstIsLookup(rows, serial);
    RemoveFirstView(rows, serial);
  }

  /** The store's status update is the update of the first matching row, and returns that row updated. */
  lemma UpdateRefines(rows: seq<Book>, s: Store, serial: int, isBorrowed: bool, borrowedBy: Option<int>, today: Date)
    requires Represents(rows, s)
    ensures var e := Crud.UpdateBookStatus(s, serial, isBorrowed, borrowedBy, today);
            && e.value == First(SetStatusFirst(rows, serial, isBorrowed, borrowedBy, today), serial)
            && Represents(SetStatusFirst(rows, serial, isBorrowed, borrowedBy, today), e.store)
  {
    var r := SetStatusFirst(rows, serial, isBorrowed, borrowedBy, today);
    SetStatusFirstView(rows, serial, isBorrowed, borrowedBy, today);
    FirstIsLookup(r, serial);
  }
}
