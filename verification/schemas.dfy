/**
 * Request-body validation for a book (app/schemas.py). `BookCreate` and the
 * response schema `Book` add nothing to `BookBase`, so one validator serves
 * all three.
 */
module Schemas {
  import opened Wrappers
  import opened Records

  /** One field of a JSON body: left out, sent as `null`, or sent with a value. */
  datatype Field<+T> = Omitted | Null | Given(value: T)

  /** A request body for a book, before validation. */
  datatype BookIn = BookIn(
    serialNumber: Field<int>,
    title: Field<string>,
    author: Field<string>,
    isBorrowed: Field<bool>,
    borrowedBy: Field<int>,
    borrowedDate: Field<Date>)

  /** The serial-number constraint: strictly above 99999 and strictly below 1000000. */
  predicate ValidSerial(n: int) {
    99999 < n < 1000000
  }

  /** A field declared `Optional[T] = default`: a missing field takes the default, `null` is `None`. */
  function OptionalField<T>(f: Field<T>, default: Option<T>): Option<T> {
    match f
    case Omitted => default
    case Null => None
    case Given(v) => Some(v)
  }

  /**
   * Validation of a book body: `None` is a validation failure (status 422),
   * otherwise the fields the row constructor receives, defaults filled in.
   */
  function Validate(req: BookIn): (r: Option<BookData>)
    ensures r.Some? <==>
              && req.serialNumber.Given? && ValidSerial(req.serialNumber.value)
              && req.title.Given? && req.author.Given?
    ensures r.Some? ==>
              && r.value.serialNumber == req.serialNumber.value
              && r.value.title == req.title.value
              && r.value.author == req.author.value
    ensures r.Some? && req.isBorrowed.Omitted? ==> r.value.isBorrowed == Some(false)
    ensures r.Some? && req.isBorrowed.Null? ==> r.value.isBorrowed.None?
    ensures r.Some? && req.isBorrowed.Given? ==> r.value.isBorrowed == Some(req.isBorrowed.value)
    ensures r.Some? && !req.borrowedBy.Given? ==> r.value.borrowedBy.None?
    ensures r.Some? && req.borrowedBy.Given? ==> r.value.borrowedBy == Some(req.borrowedBy.value)
    ensures r.Some? && !req.borrowedDate.Given? ==> r.value.borrowedDate.None?
    ensures r.Some? && req.borrowedDate.Given? ==> r.value.borrowedDate == Some(req.borrowedDate.value)
  {
    match (req.serialNumber, req.title, req.author)
    case (Given(n), Given(t), Given(a)) =>
      if ValidSerial(n) then
        Some(BookData(n, t, a,
                      OptionalField(req.isBorrowed, Some(false)),
                      OptionalField(req.borrowedBy, None),
                      OptionalField(req.borrowedDate, None)))
      else None
    case _ => None
  }

  /** The body that serialises `d`: every field sent, `None` sent as `null`. */
  function Encode(d: BookData): BookIn {
    BookIn(Given(d.serialNumber), Given(d.title), Given(d.author),
           EncodeField(d.isBorrowed), EncodeField(d.borrowedBy), EncodeField(d.borrowedDate))
  }

  function EncodeField<T>(o: Option<T>): Field<T> {
    match o
    case Some(v) => Given(v)
    case None => Null
  }

  /** Serialising a book and validating it again gives the same book back exactly when its serial is valid. */
  lemma ValidateEncode(d: BookData)
    ensures Validate(Encode(d)) == (if ValidSerial(d.serialNumber) then Some(d) else None)
  {
  }

  /** A body with only the three required fields gets the documented defaults. */
  lemma ValidateDefaults(n: int, title: string, author: string)
    requires ValidSerial(n)
    ensures Validate(BookIn(Given(n), Given(title), Given(author), Omitted, Omitted, Omitted))
            == Some(BookData(n, title, author, Some(false), None, None))
  {
  }

  /** The serial range at and around its bounds. */
  lemma SerialBounds()
    ensures ValidSerial(123456) && ValidSerial(100000) && ValidSerial(999999)
    ensures !ValidSerial(99999) && !ValidSerial(1000000) && !ValidSerial(1234567)
  {
  }

  /** Number of decimal digits of `n`. */
  function NumDigits(n: nat): (d: nat)
    ensures d >= 1
  {
    if n < 10 then 1 else 1 + NumDigits(n / 10)
  }

  function Pow10(k: nat): (p: nat)
    ensures p >= 1
  {
    if k == 0 then 1 else 10 * Pow10(k - 1)
  }

  /** `n` has at most `k` digits exactly when it is below `10^k`. */
  lemma {:induction false} DigitsAtMost(n: nat, k: nat)
    requires k >= 1
    ensures NumDigits(n) <= k <==> n < Pow10(k)
    decreases k
  {
    if k == 1 {
      assert Pow10(1) == 10;
    } else if n < 10 {
      assert Pow10(k) == 10 * Pow10(k - 1);
    } else {
      DigitsAtMost(n / 10, k - 1);
      assert Pow10(k) == 10 * Pow10(k - 1);
    }
  }

  /** The serial-number constraint says exactly: a natural number written with six decimal digits. */
  lemma SerialIsSixDigits(n: int)
    ensures ValidSerial(n) <==> n >= 0 && NumDigits(n) == 6
  {
    if n >= 0 {
      DigitsAtMost(n, 6);
      DigitsAtMost(n, 5);
      assert Pow10(5) == 100000;
      assert Pow10(6) == 1000000;
    }
  }
}
