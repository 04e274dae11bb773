/**
 * The browser-side rules of the book bank (script.js): registration input
 * checks, the search filter, the keyword chat responder, and the local book
 * list that the details view updates in place.
 *
 * Only ASCII letters are case-folded; see README for the rest of Unicode.
 */
module Client {
  import opened Optional

  // ---------------------------------------------------------------------------
  // Text helpers: toLowerCase, includes, endsWith, replace(/\D/g, '')

  predicate IsUpper(c: char) { 'A' <= c <= 'Z' }

  predicate IsDigit(c: char) { '0' <= c <= '9' }

  function LowerChar(c: char): (d: char)
    ensures !IsUpper(d)
    ensures IsUpper(c) ==> d as int == c as int + 32
    ensures !IsUpper(c) ==> d == c
  {
    if IsUpper(c) then (c as int + 32) as char else c
  }

  /** `s.toLowerCase()`, character by character. */
  function Lower(s: string): (r: string)
    ensures |r| == |s|
    ensures forall i :: 0 <= i < |s| ==> r[i] == LowerChar(s[i])
  {
    if s == [] then [] else [LowerChar(s[0])] + Lower(s[1..])
  }

  /** `q` occurs in `s` starting at index `i`. */
  predicate OccursAt(s: string, q: string, i: int) {
    0 <= i && i + |q| <= |s| && s[i..i + |q|] == q
  }

  /** `s.includes(q)`: some window of `s` equals `q`. */
  function Includes(s: string, q: string): (r: bool)
    ensures r <==> exists i :: OccursAt(s, q, i)
    decreases |s|
  {
    if |q| > |s| then false
    else if s[..|q|] == q then assert OccursAt(s, q, 0); true
    else
      var r := Includes(s[1..], q);
      assert forall i :: OccursAt(s[1..], q, i) <==> OccursAt(s, q, i + 1);
      assert r ==> exists i :: OccursAt(s, q, i) by {
        if r {
          var i :| OccursAt(s[1..], q, i);
          assert OccursAt(s, q, i + 1);
        }
      }
      assert (exists i :: OccursAt(s, q, i)) ==> r by {
        if exists i :: OccursAt(s, q, i) {
          var i :| OccursAt(s, q, i);
          assert i != 0;
          assert OccursAt(s[1..], q, i - 1);
        }
      }
      r
  }

  /** `s.endsWith(suffix)`: `s` is some text followed by `suffix`. */
  function EndsWith(s: string, suffix: string): (r: bool)
    ensures r <==> exists p :: s == p + suffix
  {
    assert forall p :: s == p + suffix ==> |suffix| <= |s| && s[|s| - |suffix|..] == suffix by {
      forall p | s == p + suffix
        ensures |suffix| <= |s| && s[|s| - |suffix|..] == suffix
      {
        assert s[|p|..] == suffix;
      }
    }
    if |suffix| <= |s| && s[|s| - |suffix|..] == suffix then
      assert s == s[..|s| - |suffix|] + suffix;
      true
    else
      false
  }

  /** `s.replace(/\D/g, '')`: the decimal digits of `s`, in order. */
  function Digits(s: string): (r: string)
    ensures |r| <= |s|
    ensures forall i :: 0 <= i < |r| ==> IsDigit(r[i])
    ensures (forall i :: 0 <= i < |s| ==> IsDigit(s[i])) ==> r == s
  {
    if s == [] then []
    else if IsDigit(s[0]) then [s[0]] + Digits(s[1..])
    else Digits(s[1..])
  }

  // ---------------------------------------------------------------------------
  // Registration checks in `register`

  const GmailSuffix: string := "@gmail.com"
  const PasswordLength: nat := 8
  const PhoneDigits: nat := 10

  /** The outcome of the local checks: the first failing rule, or acceptance. */
  datatype Registration = Accepted | BadPasswordLength | BadPhone | BadEmail | UsernameTaken

  /**
   * The checks run in the order password, phone, email, username; the first
   * that fails decides the outcome. `taken` holds the usernames already known
   * locally.
   */
  function CheckRegistration(username: string, password: string, email: string, phone: string,
                             taken: seq<string>): (r: Registration)
    ensures r == Accepted <==>
      |password| == PasswordLength && |Digits(phone)| == PhoneDigits &&
      EndsWith(email, GmailSuffix) && username !in taken
    ensures r == BadPasswordLength <==> |password| != PasswordLength
    ensures r == BadPhone <==> |password| == PasswordLength && |Digits(phone)| != PhoneDigits
    ensures r == BadEmail <==>
      |password| == PasswordLength && |Digits(phone)| == PhoneDigits && !EndsWith(email, GmailSuffix)
    ensures r == UsernameTaken <==>
      |password| == PasswordLength && |Digits(phone)| == PhoneDigits &&
      EndsWith(email, GmailSuffix) && username in taken
  {
    if |password| != PasswordLength then BadPasswordLength
    else if |Digits(phone)| != PhoneDigits then BadPhone
    else if !EndsWith(email, GmailSuffix) then BadEmail
    else if username in taken then UsernameTaken
    else Accepted
  }

  // ---------------------------------------------------------------------------
  // Chat responder

  datatype ChatReply = ReadyForCollection | ReturnAtReception | GeneralHelp

  /** `generateChatbotResponse`: "status" is looked for before "return", ignoring case. */
  function ChatbotResponse(message: string): (r: ChatReply)
    ensures r == ReadyForCollection <==> Includes(Lower(message), "status")
    ensures r == ReturnAtReception <==>
      !Includes(Lower(message), "status") && Includes(Lower(message), "return")
  {
    if Includes(Lower(message), "status") then ReadyForCollection
    else if Includes(Lower(message), "return") then ReturnAtReception
    else GeneralHelp
  }

  // ---------------------------------------------------------------------------
  // Local book list, search filter and details view

  /** A book as the page keeps it; `availabilityDays` is absent until the details view sets it. */
  datatype LocalBook = LocalBook(
    title: string,
    author: string,
    category: string,
    copies: int,
    availabilityDays: Option<int>)

  /**
   * The `searchBooks` filter: the lower-cased query occurs in the lower-cased
   * title or author, and the category filter is empty or equals the
   * lower-cased category.
   */
  predicate Matches(b: LocalBook, query: string, category: string)
    ensures category == "" && query == "" ==> Matches(b, query, category)
  {
    var q := Lower(query);
    var c := Lower(category);
    (Includes(Lower(b.title), q) || Includes(Lower(b.author), q)) &&
    (c == "" || Lower(b.category) == c)
  }

  /** `bookList.filter(...)`: the matching books, in their original order. */
  function SearchBooks(list: seq<LocalBook>, query: string, category: string): (r: seq<LocalBook>)
    ensures |r| <= |list|
    ensures forall b :: b in r <==> b in list && Matches(b, query, category)
  {
    if list == [] then []
    else if Matches(list[0], query, category) then [list[0]] + SearchBooks(list[1..], query, category)
    else SearchBooks(list[1..], query, category)
  }

  /** `books.find(b => b.title === title)`, as an index: the first book with that title. */
  function FirstIndex(books: seq<LocalBook>, title: string): (r: Option<nat>)
    ensures r.Some? ==>
      r.value < |books| && books[r.value].title == title &&
      forall j :: 0 <= j < r.value ==> books[j].title != title
    ensures r.None? ==> forall j :: 0 <= j < |books| ==> books[j].title != title
  {
    if books == [] then None
    else if books[0].title == title then Some(0)
    else
      match FirstIndex(books[1..], title)
      case None => None
      case Some(i) => Some(i + 1)
  }

  /** The list the page starts with, before a login replaces it. */
  const InitialShelf: seq<LocalBook> := [
    LocalBook("The Great Gatsby", "F. Scott Fitzgerald", "Fiction", 5, None),
    LocalBook("Sapiens: A Brief History of Humankind", "Yuval Noah Harari", "Non-Fiction", 3, None),
    LocalBook("A Brief History of Time", "Stephen Hawking", "Science", 4, None),
    LocalBook("The Innovators", "Walter Isaacson", "Technology", 2, None)
  ]

  /** Local availability window the details view announces for an exhausted book. */
  const LocalWaitDays: int := 15

  /** What the details view shows: the reading modal, an availability alert, or nothing (no such book). */
  datatype View = Opened(title: string, author: string, category: string) | WillBeAvailable(days: int) | Missing

  /** The page's shared `books` array. */
  class Shelf {
    var books: seq<LocalBook>

    constructor ()
      ensures books == InitialShelf
    {
      books := InitialShelf;
    }

    /** After a login: the array is emptied and refilled with the server's books. */
    method Refill(fetched: seq<LocalBook>)
      modifies this
      ensures books == fetched
    {
      books := [];
      books := books + fetched;
    }

    /**
     * `viewBookDetails`: the first book with that title lends one copy if it
     * has any, otherwise it is marked available in 15 days; no other book
     * changes. An unknown title changes nothing.
     */
    method ViewBookDetails(title: string) returns (v: View)
      modifies this
      ensures |books| == |old(books)|
      ensures FirstIndex(old(books), title).None? ==> v == Missing && books == old(books)
      ensures FirstIndex(old(books), title).Some? ==>
        var i := FirstIndex(old(books), title).value;
        var b := old(books)[i];
        if b.copies > 0 then
          books == old(books)[i := b.(copies := b.copies - 1)] &&
          v == Opened(b.title, b.author, b.category)
        else
          books == old(books)[i := b.(availabilityDays := Some(LocalWaitDays))] &&
          v == WillBeAvailable(LocalWaitDays)
      ensures (forall j :: 0 <= j < |old(books)| ==> old(books)[j].copies >= 0) ==>
        forall j :: 0 <= j < |books| ==> books[j].copies >= 0
    {
      var found := FirstIndex(books, title);
      if found.None? {
        return Missing;
      }
      var i := found.value;
      var book := books[i];
      if book.copies > 0 {
        book := book.(copies := book.copies - 1);
        books := books[i := book];
        v := Opened(book.title, book.author, book.category);
      } else {
        book := book.(availabilityDays := Some(LocalWaitDays));
        books := books[i := book];
        v := WillBeAvailable(book.availabilityDays.value);
      }
    }
  }

  // ---------------------------------------------------------------------------
  // Properties

  /** Lower-casing twice is lower-casing once. */
  lemma LowerIdempotent(s: string)
    ensures Lower(Lower(s)) == Lower(s)
  {
  }

  /** Lower-casing works piecewise on a concatenation. */
  lemma LowerAppend(a: string, b: string)
    ensures Lower(a + b) == Lower(a) + Lower(b)
  {
  }

  /** An occurrence survives adding text on either side. */
  lemma IncludesExtend(pre: string, s: string, post: string, q: string)
    requires Includes(s, q)
    ensures Includes(pre + s + post, q)
  {
    var i :| OccursAt(s, q, i);
    assert (pre + s + post)[|pre| + i..|pre| + i + |q|] == s[i..i + |q|];
    assert OccursAt(pre + s + post, q, |pre| + i);
  }

  /** The chat reply does not depend on letter case. */
  lemma ChatbotIgnoresCase(message: string)
    ensures ChatbotResponse(Lower(message)) == ChatbotResponse(message)
  {
    LowerIdempotent(message);
  }

  /** A capitalised keyword is recognised: "STATUS?" gets the collection reply. */
  lemma ChatbotUpperStatus()
    ensures ChatbotResponse("STATUS?") == ReadyForCollection
  {
    assert Lower("STATUS?") == "status?";
    assert OccursAt("status?", "status", 0);
  }

  /** Once a message mentions "status", no added text can turn the reply into another one. */
  lemma StatusReplyPersists(pre: string, message: string, post: string)
    requires ChatbotResponse(message) == ReadyForCollection
    ensures ChatbotResponse(pre + message + post) == ReadyForCollection
  {
    LowerAppend(pre, message);
    LowerAppend(pre + message, post);
    IncludesExtend(Lower(pre), Lower(message), Lower(post), "status");
  }

  /** The search does not depend on the letter case of the query or the category. */
  lemma SearchIgnoresCase(b: LocalBook, query: string, category: string)
    ensures Matches(b, Lower(query), Lower(category)) == Matches(b, query, category)
  {
    LowerIdempotent(query);
    LowerIdempotent(category);
  }

  /** An empty query with no category selected lists every book, in order. */
  lemma {:induction false} EmptySearchMatchesAll(list: seq<LocalBook>)
    ensures SearchBooks(list, "", "") == list
  {
    if list != [] {
      var b := list[0];
      assert OccursAt(Lower(b.title), "", 0);
      EmptySearchMatchesAll(list[1..]);
    }
  }

  /** A one-book list is kept exactly when that book matches. */
  lemma SearchSingle(b: LocalBook, query: string, category: string)
    ensures SearchBooks([b], query, category) == if Matches(b, query, category) then [b] else []
  {
    assert [b][1..] == [];
  }

  /**
   * Filtering works piecewise on a concatenation: the result keeps the
   * matching books in list order, each as often as it occurs.
   */
  lemma {:induction false} SearchAppend(a: seq<LocalBook>, b: seq<LocalBook>, query: string, category: string)
    ensures SearchBooks(a + b, query, category) == SearchBooks(a, query, category) + SearchBooks(b, query, category)
  {
    if a == [] {
      assert a + b == b;
    } else {
      assert (a + b)[0] == a[0] && (a + b)[1..] == a[1..] + b;
      SearchAppend(a[1..], b, query, category);
    }
  }

  /** Stripping non-digits works piecewise on a concatenation. */
  lemma {:induction false} DigitsAppend(a: string, b: string)
    ensures Digits(a + b) == Digits(a) + Digits(b)
  {
    if a != [] {
      assert (a + b)[0] == a[0] && (a + b)[1..] == a[1..] + b;
      DigitsAppend(a[1..], b);
      if IsDigit(a[0]) {
        assert Digits(a + b) == [a[0]] + Digits(a[1..] + b);
      } else {
        assert Digits(a + b) == Digits(a[1..] + b);
      }
    } else {
      assert a + b == b;
    }
  }

  /**
   * Separators typed into the phone field (spaces, dashes, brackets, a plus
   * sign) do not change the outcome of registration.
   */
  lemma PhoneFormattingIgnored(username: string, password: string, email: string,
                               a: string, sep: string, b: string, taken: seq<string>)
    requires forall i :: 0 <= i < |sep| ==> !IsDigit(sep[i])
    ensures CheckRegistration(username, password, email, a + sep + b, taken) ==
            CheckRegistration(username, password, email, a + b, taken)
  {
    assert Digits(sep) == [] by { NoDigits(sep); }
    DigitsAppend(a, sep);
    DigitsAppend(a + sep, b);
    DigitsAppend(a, b);
  }

  lemma {:induction false} NoDigits(s: string)
    requires forall i :: 0 <= i < |s| ==> !IsDigit(s[i])
    ensures Digits(s) == []
  {
    if s != [] {
      NoDigits(s[1..]);
    }
  }
}
