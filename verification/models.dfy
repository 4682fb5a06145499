/** The records of the booking database (the Sequelize schema of the
    backend): seats belong to a showtime and may be claimed by a booking.
    The schema has no behaviour of its own; it fixes the value types,
    the status enumerations and their defaults. */
module Models {

  datatype Option<+T> = None | Some(value: T)

  /** `status: ENUM('available','booked')`, default `available`. */
  datatype SeatStatus = Available | Booked

  /** `status: ENUM('pending','paid','failed')`, default `pending`. */
  datatype BookingStatus = Pending | Paid | Failed

  /** A seat as a customer names it: a row letter and a number. */
  datatype SeatRef = SeatRef(row: string, number: int)

  /** A row of the Seat table. `bookingId` is the `BookingId` foreign key. */
  datatype Seat = Seat(
    showtimeId: int,
    row: string,
    number: int,
    status: SeatStatus,
    bookingId: Option<int>)

  /** A row of the Booking table. */
  datatype Booking = Booking(
    id: int,
    customerName: string,
    customerEmail: string,
    amountCents: int,
    status: BookingStatus,
    showtimeId: int,
    razorpayPaymentId: Option<string>,
    razorpayOrderId: Option<string>)

  function RefOf(s: Seat): SeatRef {
    SeatRef(s.row, s.number)
  }

  /** The seat invariant: booked exactly when it holds a booking reference. */
  predicate StatusAgreesWithBooking(s: Seat) {
    s.status == Booked <==> s.bookingId.Some?
  }
}
