/**
 * Properties of the lending decision: each branch of a single request, the
 * 24-hour boundary, what repeated requests do to a record, and the
 * idempotence of seeding.
 */
module LendingProperties {
  import opened Optional
  import opened Lending

  // ---------------------------------------------------------------------------
  // One request

  /** A record with copies lends one and keeps its timer fields. */
  lemma RequestInStock(b: Book, now: int)
    requires b.copies > 0
    ensures Serve(b, now).book == b.(copies := b.copies - 1)
    ensures Serve(b, now).response == Ok(Requested, Some(b.(copies := b.copies - 1)))
  {
  }

  /** The first request on an exhausted record arms the timer at 15 days and lends nothing. */
  lemma RequestArmsTimer(b: Book, now: int)
    requires b.copies <= 0 && b.requestedAt == None
    ensures Serve(b, now).book == b.(requestedAt := Some(now), daysAvailable := DefaultDays)
    ensures Serve(b, now).response == Ok(AvailableIn(DefaultDays), None)
  {
  }

  /** A whole window after the timer, the countdown drops by one (not below 0) and re-arms. */
  lemma RequestTicks(b: Book, now: int)
    requires b.copies <= 0 && b.requestedAt.Some?
    requires now - b.requestedAt.value >= DayMillis
    ensures Serve(b, now).book ==
      b.(daysAvailable := Max(b.daysAvailable - 1, 0), requestedAt := Some(now))
    ensures Serve(b, now).response == Ok(AvailableIn(Max(b.daysAvailable - 1, 0)), None)
  {
  }

  /** Within a window of the timer nothing changes and the current countdown is reported. */
  lemma RequestWaits(b: Book, now: int)
    requires b.copies <= 0 && b.requestedAt.Some?
    requires now - b.requestedAt.value < DayMillis
    ensures Serve(b, now).book == b
    ensures Serve(b, now).response == Ok(AvailableIn(b.daysAvailable), None)
  {
  }

  /** Exactly 24h00m00s after the timer ticks; 23h59m59s does not. */
  lemma TickBoundary(b: Book, t: int)
    requires b.copies <= 0 && b.requestedAt == Some(t) && b.daysAvailable > 0
    ensures Serve(b, t + DayMillis).book.daysAvailable == b.daysAvailable - 1
    ensures Serve(b, t + DayMillis - 1000).book == b
  {
  }

  /** Two requests inside the current window give the same record and the same reply. */
  lemma WaitIsIdempotent(b: Book, t1: int, t2: int)
    requires b.copies <= 0 && b.requestedAt.Some?
    requires t1 - b.requestedAt.value < DayMillis && t2 - b.requestedAt.value < DayMillis
    ensures Serve(Serve(b, t1).book, t2) == Serve(b, t1)
  {
  }

  /** After a request that arms or ticks at t1, no request before t1 + 24h can tick again. */
  lemma NoEarlyTick(b: Book, t1: int, t2: int)
    requires b.copies <= 0
    requires b.requestedAt.None? || t1 - b.requestedAt.value >= DayMillis
    requires t1 <= t2 < t1 + DayMillis
    ensures Serve(b, t1).book.requestedAt == Some(t1)
    ensures Serve(Serve(b, t1).book, t2) == Serve(b, t1)
  {
  }

  // ---------------------------------------------------------------------------
  // A run of requests

  /** The record and the replies after one request per clock value in `times`. */
  datatype Run = Run(book: Book, responses: seq<Response>)

  function ServeAll(b: Book, times: seq<int>): (r: Run)
    ensures |r.responses| == |times|
    ensures r.book.title == b.title && r.book.author == b.author && r.book.category == b.category
    ensures WellFormed(b) ==> WellFormed(r.book)
    ensures WellFormed(b) ==> r.book.daysAvailable <= b.daysAvailable
    decreases |times|
  {
    if times == [] then Run(b, [])
    else
      var s := Serve(b, times[0]);
      var rest := ServeAll(s.book, times[1..]);
      Run(rest.book, [s.response] + rest.responses)
  }

  /**
   * As many requests as there are copies, whatever the clock, lend every copy
   * and leave the timer fields as they were: the countdown is not touched
   * while the record has stock.
   */
  lemma {:induction false} DrainToExhaustion(b: Book, times: seq<int>)
    requires b.copies >= 0 && |times| == b.copies
    ensures ServeAll(b, times).book == b.(copies := 0)
    ensures forall i :: 0 <= i < |times| ==> ServeAll(b, times).responses[i].Ok? && ServeAll(b, times).responses[i].message == Requested
    decreases |times|
  {
    if times != [] {
      var s := Serve(b, times[0]);
      DrainToExhaustion(s.book, times[1..]);
      var rest := ServeAll(s.book, times[1..]);
      forall i | 0 <= i < |times|
        ensures ServeAll(b, times).responses[i].Ok? && ServeAll(b, times).responses[i].message == Requested
      {
        if i > 0 {
          assert ServeAll(b, times).responses[i] == rest.responses[i - 1];
        }
      }
    }
  }

  /** Clock values each at least one window after the previous one (and after `start`). */
  predicate Spaced(start: int, times: seq<int>) {
    && (|times| > 0 ==> times[0] - start >= DayMillis)
    && forall i :: 0 < i < |times| ==> times[i] - times[i - 1] >= DayMillis
  }

  /**
   * On an armed, exhausted record, requests one window apart tick once each:
   * after n of them the countdown is max(d - n, 0) and the timer sits at the
   * last request.
   */
  lemma {:induction false} CountdownPerWindow(b: Book, times: seq<int>)
    requires b.copies <= 0 && b.requestedAt.Some? && b.daysAvailable >= 0
    requires Spaced(b.requestedAt.value, times)
    ensures ServeAll(b, times).book == b.(
      daysAvailable := Max(b.daysAvailable - |times|, 0),
      requestedAt := if times == [] then b.requestedAt else Some(times[|times| - 1]))
    decreases |times|
  {
    if times != [] {
      var b' := Serve(b, times[0]).book;
      assert b' == b.(daysAvailable := Max(b.daysAvailable - 1, 0), requestedAt := Some(times[0]));
      assert Spaced(times[0], times[1..]) by {
        if |times| > 1 {
          assert times[1] - times[0] >= DayMillis;
        }
        forall i | 0 < i < |times[1..]|
          ensures times[1..][i] - times[1..][i - 1] >= DayMillis
        {
          assert times[1..][i] == times[i + 1];
        }
      }
      CountdownPerWindow(b', times[1..]);
    }
  }

  /**
   * Whatever the clock does, requests on an exhausted record never add copies
   * and never raise the countdown once the timer is armed, and each lowers it
   * by at most one.
   */
  lemma {:induction false} CountdownBounds(b: Book, times: seq<int>)
    requires b.copies <= 0 && b.requestedAt.Some? && b.daysAvailable >= 0
    ensures ServeAll(b, times).book.copies == b.copies
    ensures ServeAll(b, times).book.requestedAt.Some?
    ensures Max(b.daysAvailable - |times|, 0) <= ServeAll(b, times).book.daysAvailable <= b.daysAvailable
    decreases |times|
  {
    if times != [] {
      CountdownBounds(Serve(b, times[0]).book, times[1..]);
    }
  }

  /**
   * Adding a new title with `delta` copies, then `delta` requests, then one
   * more: the extra request is the first on an exhausted record, so it arms
   * the timer and reports 15 days.
   */
  lemma AddDrainArm(x: Listing, times: seq<int>, now: int)
    requires ListingOk(x) && |times| == x.copies
    ensures ServeAll(NewRecord(x), times).book.copies == 0
    ensures Serve(ServeAll(NewRecord(x), times).book, now).book.requestedAt == Some(now)
    ensures Serve(ServeAll(NewRecord(x), times).book, now).response == Ok(AvailableIn(DefaultDays), None)
  {
    DrainToExhaustion(NewRecord(x), times);
  }

  /**
   * Restocking never clears an armed timer: a record exhausted again after a
   * restock ticks from its old countdown instead of starting from 15 days,
   * provided a window has passed since the old timer.
   */
  lemma StaleTimerSurvivesRestock(b: Book, delta: int, times: seq<int>, now: int)
    requires WellFormed(b) && b.copies == 0 && b.requestedAt.Some?
    requires delta >= 1 && |times| == delta
    requires now - b.requestedAt.value >= DayMillis
    ensures ServeAll(Restock(b, delta), times).book == b
    ensures Serve(ServeAll(Restock(b, delta), times).book, now).response ==
      Ok(AvailableIn(Max(b.daysAvailable - 1, 0)), None)
  {
    DrainToExhaustion(Restock(b, delta), times);
  }

  // ---------------------------------------------------------------------------
  // Seeding

  function Titles(xs: seq<Listing>): set<string> {
    set i | 0 <= i < |xs| :: xs[i].title
  }

  /** Seeding adds exactly the listed titles that were missing. */
  lemma {:induction false} SeedKeys(m: map<string, Book>, xs: seq<Listing>)
    ensures Seed(m, xs).Keys == m.Keys + Titles(xs)
    decreases |xs|
  {
    if xs != [] {
      var init := xs[..|xs| - 1];
      SeedKeys(m, init);
      assert Titles(xs) == Titles(init) + {xs[|xs| - 1].title} by {
        forall t | t in Titles(xs) ensures t in Titles(init) + {xs[|xs| - 1].title} {
          var i :| 0 <= i < |xs| && xs[i].title == t;
          if i < |xs| - 1 { assert init[i] == xs[i]; }
        }
        forall t | t in Titles(init) ensures t in Titles(xs) {
          var i :| 0 <= i < |init| && init[i].title == t;
          assert xs[i] == init[i];
        }
      }
    }
  }

  /** `xs[i]` is the first listing titled `t`. */
  predicate FirstListing(xs: seq<Listing>, i: int, t: string) {
    0 <= i < |xs| && xs[i].title == t && forall j :: 0 <= j < i ==> xs[j].title != t
  }

  /**
   * A title that seeding adds holds the record created from the first listing
   * with that title: the listing's fields, no timer, a 15-day countdown.
   */
  lemma SeedInserts(m: map<string, Book>, xs: seq<Listing>)
    ensures forall t :: t in Seed(m, xs) && t !in m ==>
      exists i :: FirstListing(xs, i, t) && Seed(m, xs)[t] == NewRecord(xs[i])
  {
    forall t | t in Seed(m, xs) && t !in m
      ensures exists i :: FirstListing(xs, i, t) && Seed(m, xs)[t] == NewRecord(xs[i])
    {
      SeedInsertsAt(m, xs, t);
    }
  }

  lemma {:induction false} SeedInsertsAt(m: map<string, Book>, xs: seq<Listing>, t: string)
    requires t in Seed(m, xs) && t !in m
    ensures exists i :: FirstListing(xs, i, t) && Seed(m, xs)[t] == NewRecord(xs[i])
    decreases |xs|
  {
    var n := |xs|;
    var init := xs[..n - 1];
    var prev := Seed(m, init);
    if t in prev {
      SeedInsertsAt(m, init, t);
      var i :| FirstListing(init, i, t) && prev[t] == NewRecord(init[i]);
      assert xs[i] == init[i];
      assert forall j :: 0 <= j < i ==> xs[j] == init[j];
      assert FirstListing(xs, i, t);
    } else {
      SeedKeys(m, init);
      forall j | 0 <= j < n - 1 ensures xs[j].title != t {
        assert xs[j] == init[j];
        assert init[j].title in Titles(init);
      }
      assert FirstListing(xs, n - 1, t);
    }
  }

  /** Seeding a store that already holds every listed title changes nothing. */
  lemma {:induction false} SeedNoOp(m: map<string, Book>, xs: seq<Listing>)
    requires Titles(xs) <= m.Keys
    ensures Seed(m, xs) == m
    decreases |xs|
  {
    if xs != [] {
      var init := xs[..|xs| - 1];
      assert Titles(init) <= Titles(xs) by {
        forall t | t in Titles(init) ensures t in Titles(xs) {
          var i :| 0 <= i < |init| && init[i].title == t;
          assert xs[i] == init[i];
        }
      }
      SeedNoOp(m, init);
      assert xs[|xs| - 1].title in Titles(xs);
    }
  }

  /** Running the start-up seeding twice gives the store of running it once. */
  lemma SeedIdempotent(m: map<string, Book>, xs: seq<Listing>)
    ensures Seed(Seed(m, xs), xs) == Seed(m, xs)
  {
    SeedKeys(m, xs);
    SeedNoOp(Seed(m, xs), xs);
  }

  /** Every seed listing is acceptable, so seeding keeps every stored record well formed. */
  lemma {:induction false} SeedKeepsWellFormed(m: map<string, Book>, xs: seq<Listing>)
    requires forall t :: t in m ==> m[t].title == t && WellFormed(m[t])
    requires forall i :: 0 <= i < |xs| ==> ListingOk(xs[i])
    ensures forall t :: t in Seed(m, xs) ==> Seed(m, xs)[t].title == t && WellFormed(Seed(m, xs)[t])
    decreases |xs|
  {
    if xs != [] {
      SeedKeepsWellFormed(m, xs[..|xs| - 1]);
    }
  }
}
