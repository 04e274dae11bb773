/**
 * The server-side lending state of the book bank (app.js): the Book record,
 * the per-record decision taken by a request, and the catalog of records
 * keyed by title that the request, add, delete and seeding handlers update.
 *
 * Time is an integer number of milliseconds supplied by the caller; the
 * float comparison "hours passed >= 24" is the integer comparison
 * "elapsed milliseconds >= DayMillis".
 */
module Lending {
  import opened Optional

  /** Countdown value a record starts with, and the value re-armed on first exhaustion. */
  const DefaultDays: int := 15

  /** Length of one countdown window: 24 hours in milliseconds. */
  const DayMillis: int := 24 * 60 * 60 * 1000

  /** A stored book: `requestedAt` is unset until the first request on an exhausted record. */
  datatype Book = Book(
    title: string,
    author: string,
    category: string,
    copies: int,
    requestedAt: Option<int>,
    daysAvailable: int)

  /** The fields a client supplies for a new title (seed entry or add request). */
  datatype Listing = Listing(title: string, author: string, category: string, copies: int)

  /** What a successful handler reports, reduced to a tag and the numbers it shows. */
  datatype Message =
    | Requested            // "You have successfully requested ..."
    | AvailableIn(days: int) // "... will be available in <days> days."
    | CopiesUpdated
    | BookAdded
    | Deleted

  /** Handler outcome: a 200/201 body, a 400 or a 404. */
  datatype Response = Ok(message: Message, book: Option<Book>) | BadRequest | NotFound

  /** New record and reply produced by one request on one record. */
  datatype Served = Served(book: Book, response: Response)

  function Max(a: int, b: int): int { if a < b then b else a }

  /**
   * What every stored record satisfies: required strings present, counters in
   * range, and the countdown still at its default while no timer has been set
   * (records are created with it, and only arming the timer sets `requestedAt`).
   */
  predicate WellFormed(b: Book) {
    && b.title != "" && b.author != "" && b.category != ""
    && b.copies >= 0
    && 0 <= b.daysAvailable <= DefaultDays
    && (b.requestedAt.None? ==> b.daysAvailable == DefaultDays)
  }

  /** A listing the add handler accepts and the seed list satisfies. */
  predicate ListingOk(x: Listing) {
    x.title != "" && x.author != "" && x.category != "" && x.copies >= 1
  }

  /** A record created from a listing: timer unset, countdown at its default. */
  function NewRecord(x: Listing): (b: Book)
    ensures ListingOk(x) ==> WellFormed(b)
    ensures b.requestedAt == None && b.daysAvailable == DefaultDays
    ensures b.title == x.title && b.author == x.author && b.category == x.category
    ensures b.copies == x.copies
  {
    Book(x.title, x.author, x.category, x.copies, None, DefaultDays)
  }

  /**
   * One request on one stored record at clock `now`, in the handler's order:
   * an exhausted record (copies <= 0) arms its timer if unset, ticks the
   * countdown if a whole window has elapsed, and otherwise stays as it is;
   * a record with copies lends one.
   */
  function Serve(b: Book, now: int): (s: Served)
    ensures s.book.title == b.title && s.book.author == b.author && s.book.category == b.category
    ensures WellFormed(b) ==> WellFormed(s.book)
    ensures WellFormed(b) ==> s.book.daysAvailable <= b.daysAvailable
    ensures s.response.Ok? && (s.response.message == Requested <==> b.copies > 0)
    ensures b.copies > 0 ==>
      s.book.copies == b.copies - 1 && s.response.book == Some(s.book)
    ensures b.copies <= 0 ==>
      s.book.copies == b.copies && s.response == Ok(AvailableIn(s.book.daysAvailable), None)
  {
    if b.copies <= 0 then
      match b.requestedAt
      case Some(t) =>
        if now - t >= DayMillis then
          var b' := b.(daysAvailable := Max(b.daysAvailable - 1, 0), requestedAt := Some(now));
          Served(b', Ok(AvailableIn(b'.daysAvailable), None))
        else
          Served(b, Ok(AvailableIn(b.daysAvailable), None))
      case None =>
        var b' := b.(requestedAt := Some(now), daysAvailable := DefaultDays);
        Served(b', Ok(AvailableIn(b'.daysAvailable), None))
    else
      var b' := b.(copies := b.copies - 1);
      Served(b', Ok(Requested, Some(b')))
  }

  /** A record after `existing.copies += delta`: the timer fields are left as they were. */
  function Restock(b: Book, delta: int): (r: Book)
    ensures r.copies == b.copies + delta
    ensures r.title == b.title && r.author == b.author && r.category == b.category
    ensures r.requestedAt == b.requestedAt && r.daysAvailable == b.daysAvailable
    ensures delta >= 1 && WellFormed(b) ==> WellFormed(r) && r.copies > 0
  {
    b.(copies := b.copies + delta)
  }

  /** The four titles the server seeds at start-up. */
  const SeedListings: seq<Listing> := [
    Listing("The Great Gatsby", "F. Scott Fitzgerald", "Fiction", 5),
    Listing("Sapiens: A Brief History of Humankind", "Yuval Noah Harari", "Non-Fiction", 3),
    Listing("A Brief History of Time", "Stephen Hawking", "Science", 4),
    Listing("The Innovators", "Walter Isaacson", "Technology", 2)
  ]

  /** Seeding `xs` in order into `m`: each listing is inserted only when its title is absent. */
  function Seed(m: map<string, Book>, xs: seq<Listing>): (r: map<string, Book>)
    ensures forall t :: t in m ==> t in r && r[t] == m[t]
    decreases |xs|
  {
    if xs == [] then m
    else
      var prev := Seed(m, xs[..|xs| - 1]);
      var x := xs[|xs| - 1];
      if x.title in prev then prev else prev[x.title := NewRecord(x)]
  }

  /** The store: one record per title, mutated in place by the handlers. */
  class Catalog {
    var books: map<string, Book>

    /** Every record is filed under its own title and is well formed. */
    ghost predicate Valid()
      reads this
    {
      forall t :: t in books ==> books[t].title == t && WellFormed(books[t])
    }

    constructor ()
      ensures Valid() && books == map[]
    {
      books := map[];
    }

    /** `initializeBooks`: insert each seed listing whose title is not yet stored. */
    method InitializeBooks()
      requires Valid()
      modifies this
      ensures Valid()
      ensures books == Seed(old(books), SeedListings)
    {
      for i := 0 to |SeedListings|
        invariant Valid()
        invariant books == Seed(old(books), SeedListings[..i])
      {
        var x := SeedListings[i];
        assert SeedListings[..i + 1][..i] == SeedListings[..i];
        if x.title !in books {
          books := books[x.title := NewRecord(x)];
        }
      }
      assert SeedListings[..|SeedListings|] == SeedListings;
    }

    /** `/requestBook` at clock `now`. */
    method RequestBook(title: string, now: int) returns (res: Response)
      requires Valid()
      modifies this
      ensures Valid()
      ensures title == "" ==> res == BadRequest && books == old(books)
      ensures title != "" && title !in old(books) ==> res == NotFound && books == old(books)
      ensures title != "" && title in old(books) ==>
        var s := Serve(old(books)[title], now);
        books == old(books)[title := s.book] && res == s.response
    {
      if title == "" {
        return BadRequest;
      }
      if title !in books {
        return NotFound;
      }
      var book := books[title];
      if book.copies <= 0 {
        if book.requestedAt.Some? {
          if now - book.requestedAt.value >= DayMillis {
            book := book.(daysAvailable := Max(book.daysAvailable - 1, 0));
            book := book.(requestedAt := Some(now));
            books := books[title := book];
            return Ok(AvailableIn(book.daysAvailable), None);
          } else {
            return Ok(AvailableIn(book.daysAvailable), None);
          }
        } else {
          book := book.(requestedAt := Some(now));
          book := book.(daysAvailable := DefaultDays);
          books := books[title := book];
          return Ok(AvailableIn(book.daysAvailable), None);
        }
      }
      book := book.(copies := book.copies - 1);
      books := books[title := book];
      res := Ok(Requested, Some(book));
    }

    /** `/addBook`: validate, then add to an existing title's copies or create the record. */
    method AddBook(title: string, author: string, category: string, copies: Option<int>)
      returns (res: Response)
      requires Valid()
      modifies this
      ensures Valid()
      ensures !(title != "" && author != "" && category != "" && copies.Some? && copies.value >= 1) ==>
        res == BadRequest && books == old(books)
      ensures title != "" && author != "" && category != "" && copies.Some? && copies.value >= 1 ==>
        if title in old(books) then
          var b := Restock(old(books)[title], copies.value);
          books == old(books)[title := b] && res == Ok(CopiesUpdated, Some(b))
        else
          var b := NewRecord(Listing(title, author, category, copies.value));
          books == old(books)[title := b] && res == Ok(BookAdded, Some(b))
    {
      if title == "" || author == "" || category == "" || copies.None? || copies.value < 1 {
        return BadRequest;
      }
      var delta := copies.value;
      if title in books {
        var existing := books[title];
        existing := existing.(copies := existing.copies + delta);
        books := books[title := existing];
        return Ok(CopiesUpdated, Some(existing));
      }
      var created := NewRecord(Listing(title, author, category, delta));
      books := books[title := created];
      res := Ok(BookAdded, Some(created));
    }

    /** `/deleteBook`: remove the record with that title. */
    method DeleteBook(title: string) returns (res: Response)
      requires Valid()
      modifies this
      ensures Valid()
      ensures title == "" ==> res == BadRequest && books == old(books)
      ensures title != "" && title !in old(books) ==> res == NotFound && books == old(books)
      ensures title != "" && title in old(books) ==>
        res == Ok(Deleted, None) && books == old(books) - {title}
    {
      if title == "" {
        return BadRequest;
      }
      if title !in books {
        return NotFound;
      }
      books := books - {title};
      res := Ok(Deleted, None);
    }
  }
}
