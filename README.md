# Book Bank lending model

A Dafny model of the lending core of the Book Bank web application.

**Server (`app.js`).** The catalog is a map from title to `Book` record,
held by the class `Lending.Catalog` and updated in place by the handlers:

- `/requestBook` follows a fixed decision order, captured per record by `Lending.Serve`:
  - a record with copies lends one;
  - an exhausted record with no timer arms it at 15 days;
  - an exhausted record whose timer is at least 24 hours old loses one day of its countdown (never below 0) and re-arms;
  - otherwise nothing changes, and the reply reports the current countdown.
- `/addBook` either increments an existing title's copies or creates a record with the default timer fields.
- `/deleteBook` removes a title.
- `initializeBooks` inserts the four seed titles that are missing.

Handlers return a tagged `Response`: `Ok(message, book?)`, `BadRequest` (HTTP 400) or `NotFound` (HTTP 404). Messages are a tag plus the number of days shown. The clock is an integer millisecond parameter. The source's float test `hoursPassed >= 24` becomes `now - requestedAt >= DayMillis`, where `DayMillis` is 86 400 000.

**Browser (`script.js`).** The module `Client` holds:

- the registration checks, applied in order (password length, phone digits, Gmail address, local username clash);
- the search filter;
- the keyword chat responder;
- the page's local book list (`Client.Shelf`), which the details view updates in place and a login refills.

Three facts about the code that a reader might not expect:

- A request on a record with one copy only lends that copy. The timer is armed by the *next* request, the first one made on the exhausted record, not by the request that reaches zero.
- `requestedAt` is never cleared, and restocking does not reset `daysAvailable`. After a restock, a later exhaustion counts down from the old value. `LendingProperties.StaleTimerSurvivesRestock` states this.
- The exhausted test is `copies <= 0`, not `copies == 0`.

## Model

| member | source | states |
|---|---|---|
| Lending.NewRecord | app.js:28-35 | a created record has the listing's title, author, category and copies, no timer and a 15-day countdown, and is well formed when the listing passes validation |
| Lending.Serve | app.js:190-228 | one request never changes title, author or category, keeps a record well formed (copies >= 0, 0 <= daysAvailable <= 15, countdown 15 while no timer is set) and never raises its countdown; it lends (copies - 1, book returned) exactly when copies > 0; otherwise copies are unchanged and the reply reports the stored countdown |
| Lending.Restock | app.js:159-163 | adding delta copies raises copies by delta and leaves title, author, category, requestedAt and daysAvailable as stored; with delta >= 1 the record stays well formed and is in stock |
| Lending.Seed | app.js:47-52 | seeding never alters or removes a record already stored |
| Lending.Catalog.InitializeBooks | app.js:39-53 | the store after start-up seeding equals Seed(old store, seed list), and every record stays well formed and filed under its title |
| Lending.Catalog.RequestBook | app.js:177-233 | empty title gives BadRequest and an unknown title gives NotFound, both leaving the store unchanged; otherwise only that title's record is replaced by Serve's record and Serve's reply is returned; the store invariant is kept |
| Lending.Catalog.AddBook | app.js:148-174 | a missing field or copies < 1 gives BadRequest with no change; an existing title is restocked with its timer fields kept (CopiesUpdated); a new title gets {copies, daysAvailable 15, no timer} (BookAdded); no other title changes |
| Lending.Catalog.DeleteBook | app.js:99-116 | empty title gives BadRequest, an absent title gives NotFound, both with no change; otherwise exactly that title is removed |
| LendingProperties.RequestInStock | app.js:225-228 | with copies > 0 a request decrements copies by exactly one, keeps requestedAt and daysAvailable, and returns the updated book |
| LendingProperties.RequestArmsTimer | app.js:213-221 | on an exhausted record with no timer, a request sets requestedAt := now and daysAvailable := 15, keeps copies, and reports 15 days |
| LendingProperties.RequestTicks | app.js:195-206 | on an exhausted record whose timer is 24h or older, a request sets daysAvailable := max(daysAvailable - 1, 0) and requestedAt := now, keeps copies, and reports the new countdown |
| LendingProperties.RequestWaits | app.js:207-212 | on an exhausted record whose timer is under 24h old, a request changes nothing and reports the current countdown |
| LendingProperties.TickBoundary | app.js:196-198 | exactly 24h after the timer the countdown drops; 23h59m59s after it the record is unchanged |
| LendingProperties.WaitIsIdempotent | app.js:207-212 | two requests within 24h of the timer give the same record and the same reply as one |
| LendingProperties.NoEarlyTick | app.js:195-221 | after a request that arms or ticks at t1, the timer is t1 and any request before t1 + 24h leaves the record and the reply as they were |
| LendingProperties.ServeAll | app.js:177-233 | a run of requests yields one reply per request, never changes title, author or category, keeps a well-formed record well formed and never raises its countdown |
| LendingProperties.DrainToExhaustion | app.js:225-228 | as many requests as copies, at any clock values, all lend and leave the record at copies 0 with its timer fields untouched |
| LendingProperties.CountdownPerWindow | app.js:195-206 | requests spaced at least 24h apart on an armed exhausted record bring the countdown to max(d - n, 0), with the timer at the last request |
| LendingProperties.CountdownBounds | app.js:190-223 | on an armed exhausted record, any run of n requests keeps copies and the timer armed, and leaves the countdown between max(d - n, 0) and d |
| LendingProperties.AddDrainArm | app.js:148-233 | a new title with k copies, drained by k requests, is exhausted; the next request arms the timer at now and reports 15 days |
| LendingProperties.StaleTimerSurvivesRestock | app.js:159-206 | restocking then draining an armed record brings back the exact old record, so the next request after 24h ticks from the old countdown instead of 15 |
| LendingProperties.SeedInserts | app.js:47-52 | every title that seeding adds holds NewRecord of the first listing with that title: its fields, no timer, 15 days |
| LendingProperties.SeedInsertsAt | app.js:47-52 | a title that seeding adds was listed, and its record is NewRecord of the first listing with that title |
| LendingProperties.SeedKeys | app.js:47-52 | seeding stores exactly the old titles plus the listed titles |
| LendingProperties.SeedNoOp | app.js:47-52 | seeding a store that already has every listed title changes nothing |
| LendingProperties.SeedIdempotent | app.js:39-56 | seeding twice gives the same store as seeding once |
| LendingProperties.SeedKeepsWellFormed | app.js:40-52 | seeding acceptable listings into a valid store keeps every record well formed and filed under its own title |
| Client.LowerChar | script.js:246-248 | each upper-case ASCII letter becomes its lower-case letter (code + 32); every other character is unchanged |
| Client.Lower | script.js:246-248 | lower-casing keeps the length and maps each character by itself, so each upper-case ASCII letter becomes its lower-case letter and no upper-case ASCII letter is left |
| Client.Includes | script.js:269-270 | includes holds exactly when some window of the text equals the query |
| Client.EndsWith | script.js:55 | the email check holds exactly when the text is some prefix followed by the suffix |
| Client.Digits | script.js:45 | the stripped phone has only digits, is no longer than the input, and is the input itself when the input is all digits |
| Client.CheckRegistration | script.js:45-63 | accepted iff password length is 8, the phone has exactly 10 digits, the email ends with @gmail.com and the username is not taken; otherwise the first failing check, in that order, decides the outcome |
| Client.ChatbotResponse | script.js:245-253 | the collection reply iff the lower-cased message contains "status"; the return reply iff it contains "return" but not "status"; otherwise the default |
| Client.Matches | script.js:268-273 | the filter predicate: the lower-cased query occurs in the lower-cased title or author, and the category filter is empty or equals the lower-cased category; an empty query with no category matches every book |
| Client.SearchBooks | script.js:268-273 | a book is kept iff its lower-cased title or author contains the lower-cased query and the category filter is empty or equals its lower-cased category |
| Client.FirstIndex | script.js:305 | the lookup finds the first book with the title, or reports that none has it |
| Client.Shelf.constructor | script.js:2-7 | the page starts with the four local books |
| Client.Shelf.Refill | script.js:95-96 | after a login the local list is exactly the fetched books |
| Client.Shelf.ViewBookDetails | script.js:304-321 | the first book with the title loses one copy if it has any, or else gets availabilityDays 15 with copies unchanged; no other book changes and copies stay non-negative; an unknown title changes nothing |
| Client.LowerIdempotent | script.js:246-248 | lower-casing twice equals lower-casing once |
| Client.ChatbotIgnoresCase | script.js:246-248 | the chat reply is the same for a message and its lower-cased form |
| Client.ChatbotUpperStatus | script.js:246-249 | the capitalised message "STATUS?" gets the collection reply |
| Client.StatusReplyPersists | script.js:246-249 | a message that gets the collection reply keeps it whatever text is added before or after, "return" included |
| Client.SearchIgnoresCase | script.js:258-271 | the filter gives the same answer for a query and category as for their lower-cased forms |
| Client.SearchSingle | script.js:268-273 | a one-book list is kept exactly when that book matches |
| Client.SearchAppend | script.js:268-273 | filtering a concatenation is the concatenation of the filtered parts, so matching books keep their list order and their repeats |
| Client.EmptySearchMatchesAll | script.js:268-273 | an empty query with no category keeps every book, in order |
| Client.DigitsAppend | script.js:45 | stripping non-digits distributes over concatenation |
| Client.PhoneFormattingIgnored | script.js:45-53 | inserting non-digit separators into the phone number never changes the registration outcome |

## Left out

- Express, body-parser, CORS, and the Mongoose connection and persistence calls are not modelled. The store is the map field of `Catalog`, and HTTP status codes become `Response` tags. The 500 "Server error" path (a store failure) is not modelled.
- The server routes `/register`, `/login` and `/resetPassword` are not modelled. This leaves out two rules of `/register`: a missing field gives 400, and a duplicate username or email gives 409. `generateRandomPassword` depends on `Math.random`.
- The clock is a parameter. `new Date()` and the float hour arithmetic are replaced by integer milliseconds. `remainingHours` is computed and never used, so it is not modelled.
- Concurrent requests on one title are not modelled. Each handler is one atomic read-modify-write, so the double-decrement race between overlapping requests cannot appear in the model.
- Message texts are reduced to a tag plus the day count they show.
- `copies` and `daysAvailable` are modelled as integers. The source takes JSON numbers, which may be fractional or strings, and the model does not follow those inputs.
- The store is modelled as keyed by title. The schema does not declare titles unique, but the add and seeding paths insert a title only when it is absent.
- `Lower` folds only the ASCII letters A-Z. `toLowerCase` also folds other Unicode letters. Lengths count Unicode scalar values, whereas JavaScript counts UTF-16 code units.
- CheckRegistration: the password length counts Unicode scalar values, whereas `password.length` counts UTF-16 code units, so the two differ for text outside the Basic Multilingual Plane (`"abcdef😀"` has length 8 in JavaScript and 7 here).
- `searchBooks` in the source filters a fixed three-book example list. The model filters any given list. Rendering the results and the "no books found" message are not modelled.
- In `register`, the local `users` list is a parameter (`taken`), and the fetch that follows the checks is not modelled. In the program `users` is declared empty (script.js:1) and nothing adds to it, so the username check never fires there and `UsernameTaken` cannot occur; the model allows any `taken` list.
- All DOM code, page switching, modals, menus, the profile editor, logout and the phone-input widget are not modelled. The two definitions of `showBookList` are only rendering.
- The client `fetch` calls are not modelled. This includes the client `requestBook` and `addBook`, which copy server results into the local list.
- `Client.Shelf.ViewBookDetails`: JavaScript throws a TypeError on an unknown title. The model returns `Missing` with no change instead. The local books are values in a sequence, so the sharing of book objects between the list and other references is not modelled.
