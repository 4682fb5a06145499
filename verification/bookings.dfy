/** The seat-reservation transaction behind `POST /api/bookings`.

    The database transaction with its row lock is modelled as one atomic
    method call on a `Store` that holds the Seat table (an array, updated in
    place) and the Booking table (a sequence that grows). `Outcome` and
    `After` are the specification of that call on plain values; the lemmas
    below state what the handler promises in terms of them. */
module Bookings {
  import opened Models
  import opened Sequences

  /** `seatRecords.length * 1000`: ten dollars a seat, in cents. */
  const PricePerSeatCents := 1000

  /** The `payment` object a client may send with a booking. */
  datatype Payment = Payment(razorpayPaymentId: Option<string>, razorpayOrderId: Option<string>)

  /** The request body. `showtimeId` is `None` when absent; `seats` is `None`
      when the field is not an array. */
  datatype BookingRequest = BookingRequest(
    showtimeId: Option<int>,
    seats: Option<seq<SeatRef>>,
    customerName: string,
    customerEmail: string,
    payment: Option<Payment>)

  /** The three 400 answers of the handler. */
  datatype Rejection =
    | MissingShowtimeOrSeats
    | SomeSeatsNotFound
    | SomeSeatsAlreadyBooked(seats: seq<Seat>)

  datatype ReserveResult = Reserved(bookingId: int) | Rejected(reason: Rejection)

  /** The contents of the two tables. */
  datatype Db = Db(seats: seq<Seat>, bookings: seq<Booking>)

  // ---------------------------------------------------------------------
  // Store invariant

  /** Within one showtime no two seats share a (row, number). */
  predicate UniqueSeats(seats: seq<Seat>) {
    forall i, j :: 0 <= i < j < |seats| && seats[i].showtimeId == seats[j].showtimeId ==>
      RefOf(seats[i]) != RefOf(seats[j])
  }

  /** Booking ids are handed out from 1 in insertion order. */
  predicate SequentialIds(bookings: seq<Booking>) {
    forall k :: 0 <= k < |bookings| ==> bookings[k].id == k + 1
  }

  /** Every seat reference names an existing booking of the seat's showtime. */
  predicate ReferencesValid(db: Db) {
    forall i :: 0 <= i < |db.seats| && db.seats[i].bookingId.Some? ==>
      var b := db.seats[i].bookingId.value;
      1 <= b <= |db.bookings| && db.bookings[b - 1].showtimeId == db.seats[i].showtimeId
  }

  predicate WellFormed(db: Db) {
    && UniqueSeats(db.seats)
    && (forall i :: 0 <= i < |db.seats| ==> StatusAgreesWithBooking(db.seats[i]))
    && SequentialIds(db.bookings)
    && ReferencesValid(db)
  }

  // ---------------------------------------------------------------------
  // Specification of one reservation

  /** The `!showtimeId || !Array.isArray(seats) || seats.length === 0` guard. */
  predicate MissingFields(req: BookingRequest) {
    req.showtimeId.None? || req.showtimeId.value == 0 || req.seats.None? || |req.seats.value| == 0
  }

  /** The `where` clause of the seat lookup. */
  predicate Matches(s: Seat, showtimeId: int, wanted: seq<SeatRef>) {
    s.showtimeId == showtimeId && RefOf(s) in wanted
  }

  /** The positions of the seats the lookup returns, in table order. */
  function MatchedIndices(seats: seq<Seat>, showtimeId: int, wanted: seq<SeatRef>): (r: seq<nat>)
    ensures forall k :: 0 <= k < |r| ==> r[k] < |seats| && Matches(seats[r[k]], showtimeId, wanted)
    ensures forall i :: 0 <= i < |seats| && Matches(seats[i], showtimeId, wanted) ==> i in r
    ensures forall k, l :: 0 <= k < l < |r| ==> r[k] < r[l]
  {
    if seats == [] then []
    else
      var p := MatchedIndices(seats[..|seats| - 1], showtimeId, wanted);
      if Matches(seats[|seats| - 1], showtimeId, wanted) then p + [|seats| - 1] else p
  }

  /** `seatRecords.filter(s => s.status === 'booked')`. */
  function BookedAmong(seats: seq<Seat>, idx: seq<nat>): (r: seq<Seat>)
    requires forall k :: 0 <= k < |idx| ==> idx[k] < |seats|
    ensures forall s :: s in r ==> s.status == Booked
    ensures |r| <= |idx|
  {
    if idx == [] then []
    else
      var p := BookedAmong(seats, idx[..|idx| - 1]);
      var s := seats[idx[|idx| - 1]];
      if s.status == Booked then p + [s] else p
  }

  /** The filter keeps exactly the booked seats at the given positions. */
  lemma {:induction false} BookedAmongExactly(seats: seq<Seat>, idx: seq<nat>)
    requires forall k :: 0 <= k < |idx| ==> idx[k] < |seats|
    ensures forall s :: s in BookedAmong(seats, idx) <==>
      exists k :: 0 <= k < |idx| && seats[idx[k]] == s && s.status == Booked
  {
    if idx != [] {
      var n := |idx| - 1;
      var init := idx[..n];
      BookedAmongExactly(seats, init);
      var r := BookedAmong(seats, idx);
      forall s ensures s in r <==> exists k :: 0 <= k < |idx| && seats[idx[k]] == s && s.status == Booked {
        if s in r {
          if s in BookedAmong(seats, init) {
            var k :| 0 <= k < |init| && seats[init[k]] == s && s.status == Booked;
            assert idx[k] == init[k];
          } else {
            assert seats[idx[n]] == s && s.status == Booked;
          }
        }
        if exists k :: 0 <= k < |idx| && seats[idx[k]] == s && s.status == Booked {
          var k :| 0 <= k < |idx| && seats[idx[k]] == s && s.status == Booked;
          if k < n {
            assert init[k] == idx[k];
          }
        }
      }
    }
  }

  /** The filter comes out empty exactly when no seat at the given positions
      is booked. */
  lemma {:induction false} BookedAmongEmpty(seats: seq<Seat>, idx: seq<nat>)
    requires forall k :: 0 <= k < |idx| ==> idx[k] < |seats|
    ensures |BookedAmong(seats, idx)| == 0 <==> forall k :: 0 <= k < |idx| ==> seats[idx[k]].status != Booked
  {
    if idx != [] {
      var n := |idx| - 1;
      var init := idx[..n];
      BookedAmongEmpty(seats, init);
      if forall k :: 0 <= k < |init| ==> seats[init[k]].status != Booked {
        forall k | 0 <= k < n ensures seats[idx[k]].status != Booked {
          assert init[k] == idx[k];
        }
      } else {
        var k :| 0 <= k < |init| && seats[init[k]].status == Booked;
        assert idx[k] == init[k];
      }
    }
  }

  predicate PaymentSupplied(payment: Option<Payment>) {
    payment.Some? && payment.value.razorpayPaymentId.Some? && payment.value.razorpayPaymentId.value != ""
  }

  /** What the handler answers. */
  function Outcome(db: Db, req: BookingRequest): ReserveResult {
    if MissingFields(req) then Rejected(MissingShowtimeOrSeats)
    else
      var matched := MatchedIndices(db.seats, req.showtimeId.value, req.seats.value);
      if |matched| != |req.seats.value| then Rejected(SomeSeatsNotFound)
      else
        var booked := BookedAmong(db.seats, matched);
        if |booked| > 0 then Rejected(SomeSeatsAlreadyBooked(booked))
        else Reserved(|db.bookings| + 1)
  }

  function Book(s: Seat, bookingId: int): Seat {
    s.(status := Booked, bookingId := Some(bookingId))
  }

  /** The Seat table after every matched seat is claimed by `bookingId`. */
  function BookAll(seats: seq<Seat>, showtimeId: int, wanted: seq<SeatRef>, bookingId: int): (r: seq<Seat>) {
    seq(|seats|, i requires 0 <= i < |seats| =>
      if Matches(seats[i], showtimeId, wanted) then Book(seats[i], bookingId) else seats[i])
  }

  /** The Seat table once the seats at positions `done` are claimed. */
  ghost function Claimed(pre: seq<Seat>, done: seq<nat>, bookingId: int): seq<Seat> {
    seq(|pre|, j requires 0 <= j < |pre| => if j in done then Book(pre[j], bookingId) else pre[j])
  }

  /** Claiming one more position is a single update of the table, whether or
      not that position was claimed before. */
  lemma ClaimOneMore(pre: seq<Seat>, done: seq<nat>, s: nat, bookingId: int)
    requires s < |pre|
    ensures var before := Claimed(pre, done, bookingId);
      Claimed(pre, done + [s], bookingId) == before[s := Book(before[s], bookingId)]
  {
  }

  /** Claiming every matched position claims exactly the matching seats. */
  lemma ClaimedAll(pre: seq<Seat>, showtimeId: int, wanted: seq<SeatRef>, bookingId: int)
    ensures Claimed(pre, MatchedIndices(pre, showtimeId, wanted), bookingId) == BookAll(pre, showtimeId, wanted, bookingId)
  {
    var matched := MatchedIndices(pre, showtimeId, wanted);
    forall j | 0 <= j < |pre| ensures j in matched <==> Matches(pre[j], showtimeId, wanted) {
      if j in matched {
        var k :| 0 <= k < |matched| && matched[k] == j;
      }
    }
  }

  /** The committed booking row. */
  function PaidBooking(req: BookingRequest, bookingId: int, count: int): Booking
    requires !MissingFields(req)
  {
    var pay := req.payment;
    Booking(bookingId, req.customerName, req.customerEmail, count * PricePerSeatCents, Paid,
            req.showtimeId.value,
            if PaymentSupplied(pay) then pay.value.razorpayPaymentId else None,
            if PaymentSupplied(pay) then pay.value.razorpayOrderId else None)
  }

  /** The committed tables; a rejected request rolls back to `db`. */
  function After(db: Db, req: BookingRequest): Db {
    match Outcome(db, req)
    case Reserved(id) =>
      Db(BookAll(db.seats, req.showtimeId.value, req.seats.value, id),
         db.bookings + [PaidBooking(req, id, |req.seats.value|)])
    case Rejected(_) => db
  }

  // ---------------------------------------------------------------------
  // The store

  class Store {
    var seats: array<Seat>
    var bookings: seq<Booking>

    function State(): Db
      reads this, seats
    {
      Db(seats[..], bookings)
    }

    ghost predicate Valid()
      reads this, seats
    {
      WellFormed(State())
    }

    /** A store over freshly created seats and no bookings. */
    constructor (initial: seq<Seat>)
      requires WellFormed(Db(initial, []))
      ensures Valid() && fresh(seats)
      ensures State() == Db(initial, [])
    {
      seats := new Seat[|initial|](i requires 0 <= i < |initial| => initial[i]);
      bookings := [];
    }

    /** The locked lookup `Seat.findAll({ where: { ShowtimeId, [Op.or]: … } })`. */
    method FindSeats(showtimeId: int, wanted: seq<SeatRef>) returns (matched: seq<nat>)
      ensures matched == MatchedIndices(seats[..], showtimeId, wanted)
    {
      matched := [];
      var i := 0;
      while i < seats.Length
        invariant 0 <= i <= seats.Length
        invariant matched == MatchedIndices(seats[..i], showtimeId, wanted)
      {
        assert seats[..i + 1][..i] == seats[..i];
        if Matches(seats[i], showtimeId, wanted) {
          matched := matched + [i];
        }
        i := i + 1;
      }
      assert seats[..seats.Length] == seats[..];
    }

    /** The matched seats whose status is already `booked`. */
    method AlreadyBooked(matched: seq<nat>) returns (booked: seq<Seat>)
      requires forall k :: 0 <= k < |matched| ==> matched[k] < seats.Length
      ensures booked == BookedAmong(seats[..], matched)
    {
      booked := [];
      var k := 0;
      while k < |matched|
        invariant 0 <= k <= |matched|
        invariant booked == BookedAmong(seats[..], matched[..k])
      {
        assert matched[..k + 1][..k] == matched[..k];
        if seats[matched[k]].status == Booked {
          booked := booked + [seats[matched[k]]];
        }
        k := k + 1;
      }
      assert matched[..|matched|] == matched;
    }

    /** The loop that sets `status = 'booked'` and `BookingId` on each matched seat. */
    method MarkBooked(matched: seq<nat>, showtimeId: int, wanted: seq<SeatRef>, bookingId: int)
      requires matched == MatchedIndices(seats[..], showtimeId, wanted)
      modifies seats
      ensures seats[..] == BookAll(old(seats[..]), showtimeId, wanted, bookingId)
    {
      ghost var pre := seats[..];
      var k := 0;
      while k < |matched|
        invariant 0 <= k <= |matched|
        invariant seats[..] == Claimed(pre, matched[..k], bookingId)
      {
        var s := matched[k];
        assert matched[..k + 1] == matched[..k] + [s];
        ClaimOneMore(pre, matched[..k], s, bookingId);
        ClaimSeat(s, bookingId);
        k := k + 1;
      }
      assert matched[..k] == matched;
      ClaimedAll(pre, showtimeId, wanted, bookingId);
    }

    /** One seat's `status` and `BookingId` are set and saved. */
    method ClaimSeat(s: nat, bookingId: int)
      requires s < seats.Length
      modifies seats
      ensures seats[..] == old(seats[..])[s := Book(old(seats[s]), bookingId)]
    {
      seats[s] := seats[s].(status := Booked, bookingId := Some(bookingId));
    }

    /** The part of the transaction after every check has passed: create the
        `pending` booking, claim the matched seats, and record the payment as
        `paid`. */
    method Commit(req: BookingRequest, matched: seq<nat>) returns (id: int)
      requires Valid() && !MissingFields(req)
      requires matched == MatchedIndices(seats[..], req.showtimeId.value, req.seats.value)
      requires |matched| == |req.seats.value|
      requires |BookedAmong(seats[..], matched)| == 0
      modifies this, seats
      ensures Valid() && seats == old(seats)
      ensures Outcome(old(State()), req) == Reserved(id)
      ensures State() == After(old(State()), req)
    {
      ghost var db := State();
      var showtimeId := req.showtimeId.value;
      var wanted := req.seats.value;
      id := |bookings| + 1;
      AcceptedRequest(db, req, matched);
      ghost var post := After(db, req);

      var amountCents := |matched| * PricePerSeatCents;
      var booking := Booking(id, req.customerName, req.customerEmail, amountCents, Pending, showtimeId, None, None);
      bookings := bookings + [booking];

      MarkBooked(matched, showtimeId, wanted, id);

      // the demo payment always succeeds
      if req.payment.Some? && req.payment.value.razorpayPaymentId.Some? && req.payment.value.razorpayPaymentId.value != "" {
        booking := booking.(status := Paid,
                            razorpayPaymentId := req.payment.value.razorpayPaymentId,
                            razorpayOrderId := req.payment.value.razorpayOrderId);
      } else {
        booking := booking.(status := Paid);
      }
      assert booking == PaidBooking(req, id, |wanted|);
      assert bookings[..|bookings| - 1] == db.bookings;
      bookings := bookings[..|bookings| - 1] + [booking];
      assert seats[..] == post.seats;
    }

    /** One booking request, run as a single transaction. */
    method Reserve(req: BookingRequest) returns (result: ReserveResult)
      requires Valid()
      modifies this, seats
      ensures Valid() && seats == old(seats)
      ensures result == Outcome(old(State()), req)
      ensures State() == After(old(State()), req)
    {
      ghost var db := State();
      if req.showtimeId.None? || req.showtimeId.value == 0 || req.seats.None? || |req.seats.value| == 0 {
        return Rejected(MissingShowtimeOrSeats);
      }
      var showtimeId := req.showtimeId.value;
      var wanted := req.seats.value;

      var matched := FindSeats(showtimeId, wanted);
      if |matched| != |wanted| {
        return Rejected(SomeSeatsNotFound);
      }
      var alreadyBooked := AlreadyBooked(matched);
      if |alreadyBooked| > 0 {
        return Rejected(SomeSeatsAlreadyBooked(alreadyBooked));
      }

      var id := Commit(req, matched);
      result := Reserved(id);
    }
  }

  // ---------------------------------------------------------------------
  // What the handler promises

  /** The invariant of the store survives every request. */
  lemma PreservesWellFormed(db: Db, req: BookingRequest)
    requires WellFormed(db)
    ensures WellFormed(After(db, req))
  {
    if Outcome(db, req).Reserved? {
      var id := |db.bookings| + 1;
      ClaimKeepsWellFormed(db, req.showtimeId.value, req.seats.value, PaidBooking(req, id, |req.seats.value|));
    }
  }

  /** Claiming the matched seats for a new booking of their showtime, and
      appending that booking with the next id, keeps the store invariant. */
  lemma ClaimKeepsWellFormed(db: Db, showtimeId: int, wanted: seq<SeatRef>, b: Booking)
    requires WellFormed(db)
    requires b.id == |db.bookings| + 1 && b.showtimeId == showtimeId
    ensures WellFormed(Db(BookAll(db.seats, showtimeId, wanted, b.id), db.bookings + [b]))
  {
    var a := Db(BookAll(db.seats, showtimeId, wanted, b.id), db.bookings + [b]);
    assert forall i :: 0 <= i < |a.seats| ==>
      a.seats[i].showtimeId == db.seats[i].showtimeId && RefOf(a.seats[i]) == RefOf(db.seats[i]);
    assert UniqueSeats(a.seats);
    assert SequentialIds(a.bookings);
    forall i | 0 <= i < |a.seats| && a.seats[i].bookingId.Some?
      ensures 1 <= a.seats[i].bookingId.value <= |a.bookings|
      ensures a.bookings[a.seats[i].bookingId.value - 1].showtimeId == a.seats[i].showtimeId
    {
      if !Matches(db.seats[i], showtimeId, wanted) {
        assert a.seats[i] == db.seats[i];
        assert a.bookings[db.seats[i].bookingId.value - 1] == db.bookings[db.seats[i].bookingId.value - 1];
      }
    }
  }

  /** The tables after a request that passes every check. */
  lemma AcceptedRequest(db: Db, req: BookingRequest, matched: seq<nat>)
    requires WellFormed(db) && !MissingFields(req)
    requires matched == MatchedIndices(db.seats, req.showtimeId.value, req.seats.value)
    requires |matched| == |req.seats.value|
    requires |BookedAmong(db.seats, matched)| == 0
    ensures Outcome(db, req) == Reserved(|db.bookings| + 1)
    ensures After(db, req) == Db(BookAll(db.seats, req.showtimeId.value, req.seats.value, |db.bookings| + 1),
                                 db.bookings + [PaidBooking(req, |db.bookings| + 1, |req.seats.value|)])
    ensures WellFormed(After(db, req))
  {
    PreservesWellFormed(db, req);
  }

  /** A request without a showtime id or without a non-empty seat list is
      refused before any lookup, and the tables stay as they were. */
  lemma MissingFieldsRejected(db: Db, req: BookingRequest)
    ensures Outcome(db, req) == Rejected(MissingShowtimeOrSeats) <==> MissingFields(req)
    ensures MissingFields(req) ==> After(db, req) == db
  {
  }

  /** Some seat of showtime `showtimeId` is called `w`. */
  predicate SeatExists(seats: seq<Seat>, showtimeId: int, w: SeatRef) {
    exists i :: 0 <= i < |seats| && seats[i].showtimeId == showtimeId && RefOf(seats[i]) == w
  }

  /** The requested names that exist for the showtime. */
  function ExistingWanted(seats: seq<Seat>, showtimeId: int, wanted: seq<SeatRef>): set<SeatRef> {
    set w | w in wanted && SeatExists(seats, showtimeId, w)
  }

  /** Adding one seat at the end of the table adds its name, when it matches. */
  lemma ExistingWantedStep(seats: seq<Seat>, showtimeId: int, wanted: seq<SeatRef>)
    requires seats != []
    ensures var n := |seats| - 1;
      ExistingWanted(seats, showtimeId, wanted) ==
        ExistingWanted(seats[..n], showtimeId, wanted) +
        (if Matches(seats[n], showtimeId, wanted) then {RefOf(seats[n])} else {})
  {
    var n := |seats| - 1;
    var init := seats[..n];
    var before := ExistingWanted(init, showtimeId, wanted);
    var now := ExistingWanted(seats, showtimeId, wanted);
    forall w | w in now ensures w in before || (w == RefOf(seats[n]) && Matches(seats[n], showtimeId, wanted)) {
      var i :| 0 <= i < |seats| && seats[i].showtimeId == showtimeId && RefOf(seats[i]) == w;
      if i < n {
        assert init[i] == seats[i];
      }
    }
    forall w | w in before ensures w in now {
      var i :| 0 <= i < |init| && init[i].showtimeId == showtimeId && RefOf(init[i]) == w;
      assert seats[i] == init[i];
    }
  }

  /** Dropping the last seat keeps the names unique, and that seat's name is
      not used again in its showtime. */
  lemma UniqueSeatsInit(seats: seq<Seat>)
    requires UniqueSeats(seats) && seats != []
    ensures UniqueSeats(seats[..|seats| - 1])
    ensures var n := |seats| - 1;
      forall i :: 0 <= i < n && seats[i].showtimeId == seats[n].showtimeId ==> RefOf(seats[..n][i]) != RefOf(seats[n])
  {
    var init := seats[..|seats| - 1];
    forall i, j | 0 <= i < j < |init| && init[i].showtimeId == init[j].showtimeId
      ensures RefOf(init[i]) != RefOf(init[j])
    {
      assert init[i] == seats[i] && init[j] == seats[j];
    }
  }

  /** With unique seat names, the lookup returns one row per requested name
      that exists, however often that name is requested. */
  lemma {:induction false} MatchedCount(seats: seq<Seat>, showtimeId: int, wanted: seq<SeatRef>)
    requires UniqueSeats(seats)
    ensures |MatchedIndices(seats, showtimeId, wanted)| == |ExistingWanted(seats, showtimeId, wanted)|
  {
    if seats != [] {
      var n := |seats| - 1;
      var init := seats[..n];
      var last := seats[n];
      UniqueSeatsInit(seats);
      MatchedCount(init, showtimeId, wanted);
      ExistingWantedStep(seats, showtimeId, wanted);
      if Matches(last, showtimeId, wanted) {
        assert RefOf(last) !in ExistingWanted(init, showtimeId, wanted);
      }
    }
  }

  /** With unique seat names, the lookup never returns more rows than were
      requested, so the `!==` count check can only fail by finding fewer. */
  lemma LookupNeverExceedsRequest(seats: seq<Seat>, showtimeId: int, wanted: seq<SeatRef>)
    requires UniqueSeats(seats)
    ensures |MatchedIndices(seats, showtimeId, wanted)| <= |wanted|
  {
    MatchedCount(seats, showtimeId, wanted);
    ElemsCardinality(wanted);
    SubsetCardinality(ExistingWanted(seats, showtimeId, wanted), Elems(wanted));
  }

  /** With unique seat names, the lookup returns as many rows as were
      requested exactly when each name is requested once and exists. */
  lemma CountMatchesRequest(seats: seq<Seat>, showtimeId: int, wanted: seq<SeatRef>)
    requires UniqueSeats(seats)
    ensures |MatchedIndices(seats, showtimeId, wanted)| == |wanted| <==>
      NoDuplicates(wanted) && forall w :: w in wanted ==> SeatExists(seats, showtimeId, w)
  {
    var existing := ExistingWanted(seats, showtimeId, wanted);
    var all := Elems(wanted);
    MatchedCount(seats, showtimeId, wanted);
    ElemsCardinality(wanted);
    assert existing <= all;
    SubsetCardinality(existing, all);
    if forall w :: w in wanted ==> SeatExists(seats, showtimeId, w) {
      assert existing == all;
    } else {
      var w :| w in wanted && !SeatExists(seats, showtimeId, w);
      assert existing <= all - {w};
      SubsetCardinality(existing, all - {w});
      assert all == (all - {w}) + {w};
    }
  }

  /** A request that gets past the field check is refused as "some seats not
      found" exactly when it names a seat the showtime lacks or names one seat
      twice; the tables stay as they were. */
  lemma NotFoundExactly(db: Db, req: BookingRequest)
    requires UniqueSeats(db.seats) && !MissingFields(req)
    ensures Outcome(db, req) == Rejected(SomeSeatsNotFound) <==>
      !(NoDuplicates(req.seats.value) &&
        forall w :: w in req.seats.value ==> SeatExists(db.seats, req.showtimeId.value, w))
    ensures Outcome(db, req) == Rejected(SomeSeatsNotFound) ==> After(db, req) == db
  {
    CountMatchesRequest(db.seats, req.showtimeId.value, req.seats.value);
  }

  /** The seats the "already booked" check collects are exactly the booked
      seats the lookup matched. */
  lemma BookedMatchedSeats(seats: seq<Seat>, showtimeId: int, wanted: seq<SeatRef>)
    ensures var booked := BookedAmong(seats, MatchedIndices(seats, showtimeId, wanted));
      forall s :: s in booked <==>
        exists i :: 0 <= i < |seats| && seats[i] == s && s.status == Booked && Matches(s, showtimeId, wanted)
  {
    var matched := MatchedIndices(seats, showtimeId, wanted);
    var booked := BookedAmong(seats, matched);
    BookedAmongExactly(seats, matched);
    forall s | s in booked
      ensures exists i :: 0 <= i < |seats| && seats[i] == s && s.status == Booked && Matches(s, showtimeId, wanted)
    {
      var k :| 0 <= k < |matched| && seats[matched[k]] == s && s.status == Booked;
      var i := matched[k];
      assert 0 <= i < |seats| && seats[i] == s && s.status == Booked && Matches(s, showtimeId, wanted);
    }
    forall i | 0 <= i < |seats| && seats[i].status == Booked && Matches(seats[i], showtimeId, wanted)
      ensures seats[i] in booked
    {
      var k :| 0 <= k < |matched| && matched[k] == i;
      assert seats[matched[k]].status == Booked;
    }
  }

  /** The "already booked" answer lists exactly the matched seats that are
      booked, in table order, and leaves the tables as they were. */
  lemma ConflictReportsBookedSeats(db: Db, req: BookingRequest, reported: seq<Seat>)
    requires Outcome(db, req) == Rejected(SomeSeatsAlreadyBooked(reported))
    ensures |reported| > 0
    ensures forall s :: s in reported <==>
      exists i :: 0 <= i < |db.seats| && db.seats[i] == s && s.status == Booked &&
        Matches(s, req.showtimeId.value, req.seats.value)
    ensures After(db, req) == db
  {
    BookedMatchedSeats(db.seats, req.showtimeId.value, req.seats.value);
  }

  /** Every seat a request names for its showtime is free. */
  predicate AllAvailable(seats: seq<Seat>, showtimeId: int, wanted: seq<SeatRef>) {
    forall i :: 0 <= i < |seats| && Matches(seats[i], showtimeId, wanted) ==> seats[i].status == Available
  }

  /** The lookup finds no booked seat exactly when every named seat is free. */
  lemma NoneBookedExactly(seats: seq<Seat>, showtimeId: int, wanted: seq<SeatRef>)
    ensures var matched := MatchedIndices(seats, showtimeId, wanted);
      |BookedAmong(seats, matched)| == 0 <==> AllAvailable(seats, showtimeId, wanted)
  {
    var matched := MatchedIndices(seats, showtimeId, wanted);
    BookedAmongEmpty(seats, matched);
    if AllAvailable(seats, showtimeId, wanted) {
      AvailableMatchesUnbooked(seats, showtimeId, wanted, matched);
    } else {
      BookedMatchFound(seats, showtimeId, wanted, matched);
    }
  }

  lemma AvailableMatchesUnbooked(seats: seq<Seat>, showtimeId: int, wanted: seq<SeatRef>, matched: seq<nat>)
    requires matched == MatchedIndices(seats, showtimeId, wanted)
    requires AllAvailable(seats, showtimeId, wanted)
    ensures forall k :: 0 <= k < |matched| ==> seats[matched[k]].status != Booked
  {
    forall k | 0 <= k < |matched| ensures seats[matched[k]].status != Booked {
      assert Matches(seats[matched[k]], showtimeId, wanted);
    }
  }

  lemma BookedMatchFound(seats: seq<Seat>, showtimeId: int, wanted: seq<SeatRef>, matched: seq<nat>)
    requires matched == MatchedIndices(seats, showtimeId, wanted)
    requires !AllAvailable(seats, showtimeId, wanted)
    ensures exists k :: 0 <= k < |matched| && seats[matched[k]].status == Booked
  {
    var i :| 0 <= i < |seats| && Matches(seats[i], showtimeId, wanted) && seats[i].status != Available;
    assert i in matched;
    var k :| 0 <= k < |matched| && matched[k] == i;
    assert seats[matched[k]].status == Booked;
  }

  /** A request succeeds exactly when it names each seat once, every named
      seat exists for the showtime, and none of them is booked. */
  lemma SucceedsExactly(db: Db, req: BookingRequest)
    requires WellFormed(db)
    ensures Outcome(db, req).Reserved? <==>
      && !MissingFields(req)
      && NoDuplicates(req.seats.value)
      && (forall w :: w in req.seats.value ==> SeatExists(db.seats, req.showtimeId.value, w))
      && AllAvailable(db.seats, req.showtimeId.value, req.seats.value)
  {
    if !MissingFields(req) {
      var sid, wanted := req.showtimeId.value, req.seats.value;
      var matched := MatchedIndices(db.seats, sid, wanted);
      NotFoundExactly(db, req);
      NoneBookedExactly(db.seats, sid, wanted);
    }
  }

  /** On success every requested seat of the showtime is booked under the new
      booking, and no other seat holds that booking. */
  lemma SuccessBooksRequestedSeats(db: Db, req: BookingRequest, id: int)
    requires WellFormed(db) && Outcome(db, req) == Reserved(id)
    ensures id == |db.bookings| + 1
    ensures |After(db, req).seats| == |db.seats|
    ensures forall w :: w in req.seats.value ==>
      exists i :: (0 <= i < |db.seats| && db.seats[i].showtimeId == req.showtimeId.value && RefOf(db.seats[i]) == w &&
        After(db, req).seats[i].status == Booked && After(db, req).seats[i].bookingId == Some(id))
    ensures forall i :: 0 <= i < |db.seats| ==>
      (After(db, req).seats[i].bookingId == Some(id) <==> Matches(db.seats[i], req.showtimeId.value, req.seats.value))
  {
    var sid, wanted := req.showtimeId.value, req.seats.value;
    var a := After(db, req);
    SucceedsExactly(db, req);
    forall w | w in wanted
      ensures exists i :: (0 <= i < |db.seats| && db.seats[i].showtimeId == sid && RefOf(db.seats[i]) == w &&
        a.seats[i].status == Booked && a.seats[i].bookingId == Some(id))
    {
      var i :| 0 <= i < |db.seats| && db.seats[i].showtimeId == sid && RefOf(db.seats[i]) == w;
      assert Matches(db.seats[i], sid, wanted);
      assert a.seats[i] == Book(db.seats[i], id);
    }
  }

  /** On success exactly one booking is appended: bound to the showtime, paid,
      charged 1000 cents a seat, and carrying the payment ids only when a
      payment id was supplied. */
  lemma SuccessRecordsBooking(db: Db, req: BookingRequest, id: int)
    requires Outcome(db, req) == Reserved(id)
    ensures |After(db, req).bookings| == |db.bookings| + 1
    ensures After(db, req).bookings[..|db.bookings|] == db.bookings
    ensures var b := After(db, req).bookings[|db.bookings|];
      && b.id == id
      && b.showtimeId == req.showtimeId.value
      && b.amountCents == |req.seats.value| * 1000
      && b.status == Paid
      && b.customerName == req.customerName && b.customerEmail == req.customerEmail
      && (PaymentSupplied(req.payment) ==>
            b.razorpayPaymentId == req.payment.value.razorpayPaymentId &&
            b.razorpayOrderId == req.payment.value.razorpayOrderId)
      && (!PaymentSupplied(req.payment) ==> b.razorpayPaymentId.None? && b.razorpayOrderId.None?)
  {
    assert After(db, req).bookings == db.bookings + [PaidBooking(req, id, |req.seats.value|)];
  }

  /** Seats the request does not name for its showtime are untouched, every
      seat keeps its showtime, row and number, existing bookings are
      untouched, and one booking is added on success and none on failure. */
  lemma FrameCondition(db: Db, req: BookingRequest)
    ensures |After(db, req).seats| == |db.seats|
    ensures forall i :: 0 <= i < |db.seats| ==>
      && After(db, req).seats[i].showtimeId == db.seats[i].showtimeId
      && RefOf(After(db, req).seats[i]) == RefOf(db.seats[i])
    ensures forall i :: 0 <= i < |db.seats| && (MissingFields(req) || !Matches(db.seats[i], req.showtimeId.value, req.seats.value)) ==>
      After(db, req).seats[i] == db.seats[i]
    ensures |After(db, req).bookings| == |db.bookings| + (if Outcome(db, req).Reserved? then 1 else 0)
    ensures After(db, req).bookings[..|db.bookings|] == db.bookings
  {
  }

  /** Seats only move from available to booked: with the store invariant, a
      seat that already holds a booking keeps it, so no seat ever belongs to
      two bookings. */
  lemma NoSeatReassigned(db: Db, req: BookingRequest)
    requires WellFormed(db)
    ensures |After(db, req).seats| == |db.seats|
    ensures forall i :: 0 <= i < |db.seats| && db.seats[i].bookingId.Some? ==> After(db, req).seats[i] == db.seats[i]
    ensures forall i :: 0 <= i < |db.seats| && db.seats[i].status == Booked ==> After(db, req).seats[i].status == Booked
  {
    if Outcome(db, req).Reserved? {
      SucceedsExactly(db, req);
    }
  }

  /** Two requests for one showtime that share a seat, run one after the
      other: once the first has committed, the
      second, if it names each seat once and every seat exists, is refused as
      "already booked" and the shared seat is among those reported. */
  lemma OverlappingRequestLoses(db: Db, first: BookingRequest, second: BookingRequest, w: SeatRef)
    requires WellFormed(db)
    requires Outcome(db, first).Reserved?
    requires !MissingFields(second) && second.showtimeId == first.showtimeId
    requires w in first.seats.value && w in second.seats.value
    requires NoDuplicates(second.seats.value)
    requires forall v :: v in second.seats.value ==> SeatExists(db.seats, second.showtimeId.value, v)
    ensures Outcome(After(db, first), second).Rejected?
    ensures Outcome(After(db, first), second).reason.SomeSeatsAlreadyBooked?
    ensures exists s :: (s in Outcome(After(db, first), second).reason.seats &&
      RefOf(s) == w && s.bookingId == Some(Outcome(db, first).bookingId))
  {
    var sid, wanted := first.showtimeId.value, second.seats.value;
    var mid := After(db, first);
    var i := FirstClaimsSeat(db, first, w, mid);
    forall v | v in wanted ensures SeatExists(mid.seats, sid, v) {
      SeatStillExists(db, first, v, mid);
    }
    assert Matches(mid.seats[i], sid, wanted);
    CountMatchesRequest(mid.seats, sid, wanted);
    NoneBookedExactly(mid.seats, sid, wanted);
    BookedMatchedSeats(mid.seats, sid, wanted);
    assert mid.seats[i] in BookedAmong(mid.seats, MatchedIndices(mid.seats, sid, wanted));
  }

  /** A seat the first request claimed is never claimed again: no later
      request for the same showtime that names it succeeds, whatever else it
      asks for. */
  lemma CommittedSeatStaysTaken(db: Db, first: BookingRequest, second: BookingRequest, w: SeatRef)
    requires WellFormed(db)
    requires Outcome(db, first).Reserved?
    requires second.showtimeId == first.showtimeId && second.seats.Some?
    requires w in first.seats.value && w in second.seats.value
    ensures !Outcome(After(db, first), second).Reserved?
  {
    var mid := After(db, first);
    var i := FirstClaimsSeat(db, first, w, mid);
    BookedSeatBlocks(mid, second, i);
  }

  /** A request that names a seat already booked is not reserved. */
  lemma BookedSeatBlocks(db: Db, req: BookingRequest, i: nat)
    requires req.showtimeId.Some? && req.seats.Some? && i < |db.seats|
    requires Matches(db.seats[i], req.showtimeId.value, req.seats.value) && db.seats[i].status == Booked
    ensures !Outcome(db, req).Reserved?
  {
    var sid, wanted := req.showtimeId.value, req.seats.value;
    assert !AllAvailable(db.seats, sid, wanted);
    NoneBookedExactly(db.seats, sid, wanted);
  }

  /** After a successful request, a seat it named is booked under its id, at
      the same position with the same showtime and name. */
  lemma FirstClaimsSeat(db: Db, first: BookingRequest, w: SeatRef, mid: Db) returns (i: nat)
    requires WellFormed(db) && Outcome(db, first).Reserved?
    requires w in first.seats.value && mid == After(db, first)
    ensures WellFormed(mid) && i < |mid.seats|
    ensures mid.seats[i].showtimeId == first.showtimeId.value && RefOf(mid.seats[i]) == w
    ensures mid.seats[i].status == Booked && mid.seats[i].bookingId == Some(Outcome(db, first).bookingId)
  {
    var id := Outcome(db, first).bookingId;
    PreservesWellFormed(db, first);
    SuccessBooksRequestedSeats(db, first, id);
    i :| 0 <= i < |db.seats| && db.seats[i].showtimeId == first.showtimeId.value && RefOf(db.seats[i]) == w &&
      mid.seats[i].status == Booked && mid.seats[i].bookingId == Some(id);
  }

  /** A request never removes a seat: every seat name of a showtime is still
      there afterwards. */
  lemma SeatStillExists(db: Db, req: BookingRequest, v: SeatRef, post: Db)
    requires post == After(db, req)
    requires !MissingFields(req) && SeatExists(db.seats, req.showtimeId.value, v)
    ensures SeatExists(post.seats, req.showtimeId.value, v)
  {
    var sid := req.showtimeId.value;
    FrameCondition(db, req);
    var i :| 0 <= i < |db.seats| && db.seats[i].showtimeId == sid && RefOf(db.seats[i]) == v;
    assert post.seats[i].showtimeId == sid && RefOf(post.seats[i]) == v;
  }
}
