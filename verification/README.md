# Movie booking demo: the seat reservation and its helpers, in Dafny

This project models the core of a small ticket-booking web application.
Customers pick a showtime, select seats on a seat map and check out with a
mocked payment. The server then reserves the seats in one database
transaction.

The model covers three parts of the application:

- **The reservation transaction** (`POST /api/bookings`, module `Bookings`).
  A `Store` class holds the Seat table as an array of `Seat` rows, which are
  updated in place. It holds the Booking table as a growing sequence.
  `Store.Reserve` runs the handler's steps in order:
  1. Reject a request that lacks a showtime id or a non-empty seat list.
  2. Look up the seats of that showtime that the request names.
  3. Reject the request if fewer rows match than were requested.
  4. Reject it if any matched seat is already booked, and report those seats.
  5. Charge 1000 cents per seat and create a `pending` booking.
  6. Mark every matched seat booked under that booking.
  7. Set the booking to `paid`, and record the payment ids when a payment id was supplied.

  The transaction becomes a single atomic method call. A rejected request
  changes nothing.

  The pure functions `Outcome` and `After` give the answer and the committed
  tables for one request on plain values. The method is proved equal to them,
  and the lemmas state the handler's promises in terms of them. These
  promises are: the error cases, success exactly when every named seat
  exists, is named once and is free, the frame condition, and preservation
  of the store invariant. The store invariant says four things: seat names
  are unique per showtime, a seat is booked exactly when it has a booking id,
  booking ids are sequential, and every booking id names a booking of the
  seat's showtime.
- **The seat picker** of the front end (module `SeatSelector`). It covers
  grouping seats by row (a loop that fills a map, then a sort of each
  bucket), toggling a seat in the selection, the price total and the two
  checkout guards.
- **The seeding script** (module `Seed`). It covers aligning a showtime to
  the nearest half hour, and the 6 × 10 seat grid created for each showtime.
  The grid is the store's starting state: `SeededStoreWellFormed` proves that
  it satisfies the store invariant.

Module `Models` holds the record types of the database schema. Module
`Sequences` holds general facts about sequences and the sets of their
elements, which the count check and the seat selection share.

Time in `Seed` is an integer count of milliseconds on the local clock. This
way the `setSeconds(0, 0)` step is visible, and rolling over into the next
hour or day is plain addition.

Three facts about the handler are easy to overlook:

- The handler does not require distinct seats. A list that names a seat
  twice fails the count check as "some seats not found" (`NotFoundExactly`).
- The booking is created `pending` and then set to `paid` within the same
  transaction, so only the `paid` row is ever committed.
- The count check uses `!==`. Under the store invariant the lookup can only
  return fewer rows than requested, never more (`LookupNeverExceedsRequest`).

## Model

| member | source | states |
|---|---|---|
| `Bookings.Store.Reserve` | backend/index.js:121-182 | The answer is `Outcome` and the new tables are `After` of the old tables; the store invariant (unique seat names per showtime, booked iff holding a booking id, sequential booking ids, every booking id names a booking of the seat's showtime) is kept |
| `Bookings.Store.constructor` | backend/seed.js:67 | A store over freshly created seat rows with no bookings, which must satisfy the store invariant |
| `Bookings.Store.FindSeats` | backend/index.js:130-137 | Returns, in table order, the positions of exactly the seats of the showtime whose (row, number) is requested |
| `Bookings.Store.AlreadyBooked` | backend/index.js:144 | Returns the matched seats whose status is `booked`, in order |
| `Bookings.Store.Commit` | backend/index.js:150-176 | Called once every check has passed, it answers with the next booking id, which is `Outcome` of the old tables; the new tables are `After` of the old ones, and the store invariant is kept |
| `Bookings.Store.MarkBooked` | backend/index.js:155-159 | Every matched seat becomes `booked` with the new booking id; every other seat is unchanged |
| `Bookings.MatchedIndices` | backend/index.js:130-137 | The lookup result: strictly increasing positions, each a seat of the showtime with a requested name, and containing every such seat |
| `Bookings.BookedAmong` | backend/index.js:144 | The filtered list holds only booked seats and is no longer than the list of positions |
| `Bookings.BookedAmongExactly` | backend/index.js:144 | A seat is in the filtered list exactly when it is booked and sits at one of the given positions |
| `Bookings.BookedAmongEmpty` | backend/index.js:144-145 | The filtered list is empty exactly when no seat at the given positions is booked |
| `Bookings.MissingFieldsRejected` | backend/index.js:123-125 | The answer is "missing showtimeId or seats" exactly when the showtime id is absent or 0, or the seat list is absent or empty; the tables are then unchanged |
| `Bookings.MatchedCount` | backend/index.js:130-139 | With unique seat names, the lookup returns one row per requested name that exists, however often that name is requested |
| `Bookings.LookupNeverExceedsRequest` | backend/index.js:130-139 | With unique seat names, the lookup never returns more rows than were requested, so the count check fails only by finding fewer |
| `Bookings.CountMatchesRequest` | backend/index.js:130-139 | The number of matched rows equals the number requested exactly when no seat is named twice and every named seat exists for the showtime |
| `Bookings.NotFoundExactly` | backend/index.js:139-142 | Past the field check, the answer is "some seats not found" exactly when a named seat is missing from the showtime or a seat is named twice; nothing changes |
| `Bookings.BookedMatchedSeats` | backend/index.js:144 | The collected seats are exactly the booked seats of the showtime with a requested name |
| `Bookings.ConflictReportsBookedSeats` | backend/index.js:144-148 | The "already booked" answer carries a non-empty list of exactly the matched seats that are booked, and nothing changes |
| `Bookings.NoneBookedExactly` | backend/index.js:144-145 | No matched seat is booked exactly when every requested seat of the showtime is available |
| `Bookings.SucceedsExactly` | backend/index.js:123-148 | A request succeeds exactly when the fields are present, no seat is named twice, every named seat exists for the showtime, and all of them are available |
| `Bookings.SuccessBooksRequestedSeats` | backend/index.js:150-176 | On success the returned id is the next booking id; every requested seat of the showtime is `booked` with that id; a seat holds that id exactly when it was requested for that showtime |
| `Bookings.SuccessRecordsBooking` | backend/index.js:150-172 | On success exactly one booking is appended after the untouched old ones: it has the returned id, the showtime, the customer, 1000 cents per seat and status `paid`; it carries the payment and order ids when a payment id was supplied, and none otherwise |
| `Bookings.FrameCondition` | backend/index.js:130-181 | Seats not requested for the showtime are unchanged; every seat keeps its showtime, row and number; old bookings are unchanged; one booking is added on success and none on failure |
| `Bookings.NoSeatReassigned` | backend/index.js:144-158 | Under the store invariant, a seat that already holds a booking is left exactly as it was, and a booked seat stays booked, so no seat passes to a second booking |
| `Bookings.PreservesWellFormed` | backend/index.js:150-159 | Every request, accepted or refused, keeps the store invariant |
| `Bookings.CommittedSeatStaysTaken` | backend/index.js:127-148 | After a successful request, no request for the same showtime that names one of its seats succeeds, whatever else it asks for |
| `Bookings.BookedSeatBlocks` | backend/index.js:130-148 | A request whose lookup finds a seat that is already booked is not reserved |
| `Bookings.OverlappingRequestLoses` | backend/index.js:127-148 | Run after a successful request, a request for the same showtime that shares a seat and otherwise passes the lookup is refused as "already booked"; the shared seat is reported with the first booking's id |
| `SeatSelector.BucketByRow` | frontend/src/components/SeatSelector.jsx:8-12 | After the first loop, the keys are the rows in order of first appearance, and each bucket is that row's seats in input order |
| `SeatSelector.GroupSeats` | frontend/src/components/SeatSelector.jsx:7-16 | There is one key per row that occurs, each listed once in first-appearance order; each bucket is sorted by seat number and holds exactly the input seats of that row, with their multiplicities |
| `SeatSelector.RowOrderListsEachRowOnce` | frontend/src/components/SeatSelector.jsx:10 | The key order lists each row once, and exactly the rows that some seat has |
| `SeatSelector.RowBucketExactly` | frontend/src/components/SeatSelector.jsx:11 | A row's bucket holds every seat of that row as often as the input does, and no other seat |
| `SeatSelector.InsertAddsSeat` | frontend/src/components/SeatSelector.jsx:14 | Inserting a seat into a bucket adds exactly that seat and loses none |
| `SeatSelector.InsertKeepsSorted` | frontend/src/components/SeatSelector.jsx:14 | Inserting into a bucket sorted by seat number keeps it sorted |
| `SeatSelector.SortByNumber` | frontend/src/components/SeatSelector.jsx:14 | The sorted bucket is ordered by ascending seat number and is a permutation of the bucket |
| `SeatSelector.SortBuckets` | frontend/src/components/SeatSelector.jsx:14 | The keys stay the same, and every bucket becomes sorted by seat number while keeping the same seats |
| `SeatSelector.Without` | frontend/src/components/SeatSelector.jsx:37 | The filter keeps exactly the entries other than the given seat, and is shorter when the seat was present |
| `SeatSelector.ToggleSeat` | frontend/src/components/SeatSelector.jsx:34-39 | A booked seat leaves the selection unchanged; an unselected seat is appended at the end as its (row, number); a selected seat is no longer in the selection, which gets shorter and is the selection with every entry of that seat filtered out (`Without`), the other entries in their order |
| `SeatSelector.WithoutKeepsOrder` | frontend/src/components/SeatSelector.jsx:37 | The filter distributes over concatenation, so the remaining entries keep their order |
| `SeatSelector.WithoutAbsent` | frontend/src/components/SeatSelector.jsx:37 | Filtering out a seat that is not selected changes nothing |
| `SeatSelector.WithoutOne` | frontend/src/components/SeatSelector.jsx:37 | On a duplicate-free selection the filter removes exactly one entry when the seat is present, and keeps the selection duplicate-free |
| `SeatSelector.ToggleFlipsMembership` | frontend/src/components/SeatSelector.jsx:34-39 | For an available seat, toggling flips whether that seat is selected and leaves every other seat's membership alone |
| `SeatSelector.ToggleKeepsNoDuplicates` | frontend/src/components/SeatSelector.jsx:36-38 | A duplicate-free selection stays duplicate-free |
| `SeatSelector.ToggleTwice` | frontend/src/components/SeatSelector.jsx:36-38 | Toggling an available, unselected seat twice gives back the selection; for a selected seat, toggling twice keeps the same entries and moves that seat to the end |
| `SeatSelector.Total` | frontend/src/components/SeatSelector.jsx:133-134 | The total is non-negative and is zero exactly when nothing is selected |
| `SeatSelector.TotalAfterToggle` | frontend/src/components/SeatSelector.jsx:133-134 | On a duplicate-free selection, toggling an available seat raises or lowers the total by 250, and toggling a booked seat leaves it |
| `SeatSelector.CheckoutGuard` | frontend/src/components/SeatSelector.jsx:41-43 | Checkout goes on exactly when the name, the email and the selection are all non-empty; a missing name or email is reported first, and with both present an empty selection is reported as "select seats first" |
| `SeatSelector.ReadyCheckoutIsBookable` | frontend/src/components/SeatSelector.jsx:42-43 | A checkout that passes both guards yields a booking request that the server's field check accepts, at a positive total |
| `Seed.AlignToHalfHour` | backend/seed.js:36-44 | The result is a multiple of 30 minutes (zero seconds and milliseconds, minutes 0 or 30) and lies within a quarter hour of the input: result − 15 min ≤ t < result + 15 min |
| `Seed.NearestMarkIsAligned` | backend/seed.js:36-44 | The result is the only half-hour mark with that property, so it is the nearest mark, with a quarter past or a quarter to rounding up |
| `Seed.AlignIdempotent` | backend/seed.js:36-44 | Aligning an aligned time changes nothing |
| `Seed.AlignCases` | backend/seed.js:38-42 | Below minute 15, same hour at :00; from minute 15 up to 45, same hour at :30; from minute 45, next hour at :00; seconds and milliseconds are always zero |
| `Seed.AlignRollsOverDay` | backend/seed.js:42 | From minute 45, the next hour is in the same day before 23:00, and at 23:xx it is 00:00 of the next day |
| `Seed.BuildSeatGrid` | backend/seed.js:62-66 | The nested loop yields exactly the grid: row `Rows[i / 10]`, number `i % 10 + 1` for i < 60 |
| `Seed.GridShape` | backend/seed.js:62-66 | The grid has 60 seats, all of the showtime, all available with no booking, in rows A to F with numbers 1 to 10 |
| `Seed.GridCoversEverySeat` | backend/seed.js:62-66 | Every row A to F and number 1 to 10 has a seat in the grid |
| `Seed.GridNamesDistinct` | backend/seed.js:62-66 | No two seats of the grid share a (row, number) |
| `Seed.SeedSeats` | backend/seed.js:59-67 | The seats of several showtimes: 60 per showtime, each available and with no booking; the k-th block of 60 seats is exactly the grid of the k-th showtime |
| `Seed.SeededStoreWellFormed` | backend/seed.js:59-67 | With distinct showtime ids, the seeded Seat table and an empty Booking table satisfy the store invariant |

## Left out

- Concurrency: the transaction is one atomic call. Interleavings are not modelled, and neither is whether the `LOCK.UPDATE` option has any effect on the SQLite store. `OverlappingRequestLoses` and `CommittedSeatStaysTaken` cover requests run one after the other.
- The internal-error path (backend/index.js:177-181): the model has no failing storage and no malformed seat entries, so this rollback branch cannot be reached in it. In the source it is also reached when the body is malformed, for example a `null` entry in `seats`, which throws when `s.row` is read (backend/index.js:133). The typed `SeatRef` list of the model rules such inputs out.
- Bookings.Store.Reserve: requires the store invariant, including unique (row, number) per showtime. The schema has no unique index; only the seeding establishes it. With duplicate rows in the table, the count check could pass a request that names a missing seat. The model does not cover tables like that.
- JavaScript truthiness and coercion: a showtime id counts as missing when it is absent or 0. Other falsy values, such as "" or NaN, and string-to-number coercion in the SQL lookup are not modelled. Customer name and email are plain strings; an absent field is not distinguished from one that is present.
- HTTP plumbing: routing, CORS, body parsing, status codes and the poster files with their MIME fix. The read-only routes (movies, one movie, the seats of a showtime) and the health and payment-config routes are also not part of this model.
- The demo payment gateway class (backend/index.js:11-23): it reads the clock, draws random ids and signs with SHA-256.
- `/api/create-order` (backend/index.js:74-99): it reads the clock and draws random ids, and converts the amount with floating-point arithmetic.
- `/api/verify-payment` (backend/index.js:102-118): it keeps no state and always answers success.
- UI rendering, React state, `fetch` calls, the payment modal, the movie list, the app shell and the static mock API: these are display, timers and randomness. `formatVotes`-style rounding is display only.
- Seed: random ratings, vote counts and showtime counts; `futureHours` (it reads `Date.now` and uses fractional hour offsets); `sequelize.sync`; `process.exit`. `SeedSeats` takes the showtime ids as a parameter instead.
- Seed.AlignToHalfHour: works on a local wall-clock millisecond count. Time zones and daylight-saving transitions, where `setHours` can skip or repeat an hour, are not modelled.
- SeatSelector.GroupSeats: the key order is the order of first appearance. JavaScript's `Object.keys` lists integer-like keys ("1", "2", …) first, in ascending numeric order. That ordering is not modelled: row names are assumed not to be array indices, as the seeded rows A to F are not. Row names are also assumed not to be property names of `Object.prototype` ("constructor", "toString", "__proto__", …): for those the inherited value makes `!map[s.row]` false, so no array is created and the `push` at frontend/src/components/SeatSelector.jsx:11 throws, while the model gives the row its own bucket.
- SeatSelector.SortByNumber: does not state that seats with equal numbers keep their input order (the stability of `Array.prototype.sort`).
- Prices: the front end's 250 rupees per seat and the server's 1000 cents per seat are each modelled in their own file and are not reconciled.
