/** The deterministic parts of the database seeding script: showtimes start
    on a half hour, and every showtime gets rows A to F of ten seats each.

    Time is an integer number of milliseconds on the local clock, so the
    `Date` setters become plain arithmetic and rolling over into the next
    hour or day is an ordinary addition. */
module Seed {
  import opened Models
  import opened Sequences
  import Bookings

  const MsPerMinute := 60000
  const MsPerHour := 60 * MsPerMinute
  const MsPerDay := 24 * MsPerHour
  const HalfHour := 30 * MsPerMinute
  const QuarterHour := 15 * MsPerMinute

  /** `getMinutes()`. */
  function MinuteOfHour(t: int): int {
    (t / MsPerMinute) % 60
  }

  /** Hours since the epoch: the hour `t` falls in, across days. */
  function HourIndex(t: int): int {
    t / MsPerHour
  }

  /** `getHours()`. */
  function HourOfDay(t: int): int {
    (t / MsPerHour) % 24
  }

  function DayIndex(t: int): int {
    t / MsPerDay
  }

  /** `alignToHalfHour`: drop seconds and milliseconds, then go to :00 of
      the hour below a quarter past, to :30 up to a quarter to, and to :00
      of the next hour from a quarter to on. The result is the half-hour
      mark nearest to `t`, a quarter hour rounding up. */
  function AlignToHalfHour(t: int): (r: int)
    ensures r % HalfHour == 0
    ensures r - QuarterHour <= t < r + QuarterHour
  {
    var d := t - t % MsPerMinute;            // setSeconds(0, 0)
    var mins := (d / MsPerMinute) % 60;      // getMinutes()
    var top := d - mins * MsPerMinute;       // setMinutes(0)
    AlignArithmetic(t, d, mins, top);
    if mins < 15 then top
    else if mins < 45 then top + HalfHour    // setMinutes(30)
    else top + MsPerHour                     // setMinutes(0); setHours(getHours() + 1)
  }

  /** The steps of the alignment in numbers: `top` is a whole hour, and `t`
      lies in minute `mins` after it. */
  lemma AlignArithmetic(t: int, d: int, mins: int, top: int)
    requires d == t - t % MsPerMinute
    requires mins == (d / MsPerMinute) % 60
    requires top == d - mins * MsPerMinute
    ensures 0 <= mins < 60
    ensures top + mins * MsPerMinute <= t < top + mins * MsPerMinute + MsPerMinute
    ensures top % HalfHour == 0 && (top + HalfHour) % HalfHour == 0 && (top + MsPerHour) % HalfHour == 0
  {
    var q := t / MsPerMinute;
    assert d == q * MsPerMinute;
    assert d / MsPerMinute == q;
    var h := q / 60;
    assert q == h * 60 + mins;
    assert top == (2 * h) * HalfHour;
    MultipleOfHalfHour(2 * h);
    MultipleOfHalfHour(2 * h + 1);
    MultipleOfHalfHour(2 * h + 2);
  }

  lemma MultipleOfHalfHour(k: int)
    ensures (k * HalfHour) % HalfHour == 0
  {
  }

  /** `t` splits into whole hours, minutes of the hour and the rest. */
  lemma MinuteDecomposition(t: int)
    ensures var d := t - t % MsPerMinute;
      && d / MsPerMinute == t / MsPerMinute
      && t == HourIndex(t) * MsPerHour + MinuteOfHour(t) * MsPerMinute + t % MsPerMinute
      && d - MinuteOfHour(t) * MsPerMinute == HourIndex(t) * MsPerHour
  {
    var q := t / MsPerMinute;
    assert t == q * MsPerMinute + t % MsPerMinute;
    assert q == (q / 60) * 60 + q % 60;
    assert t / MsPerHour == q / 60;
  }

  /** No other half-hour mark lies within a quarter hour of `t` in the same
      way: the alignment is the one nearest mark. */
  lemma NearestMarkIsAligned(t: int, m: int)
    requires m % HalfHour == 0 && m - QuarterHour <= t < m + QuarterHour
    ensures m == AlignToHalfHour(t)
  {
    var r := AlignToHalfHour(t);
    var a, b := m / HalfHour, r / HalfHour;
    assert m == a * HalfHour && r == b * HalfHour;
    assert -HalfHour < (a - b) * HalfHour < HalfHour;
  }

  /** Aligning an aligned time changes nothing. */
  lemma AlignIdempotent(t: int)
    ensures AlignToHalfHour(AlignToHalfHour(t)) == AlignToHalfHour(t)
  {
    var r := AlignToHalfHour(t);
    NearestMarkIsAligned(r, r);
  }

  /** The three branches: below a quarter past, the same hour at :00; up to a
      quarter to, the same hour at :30; from a quarter to, the next hour at
      :00. Seconds and milliseconds are always zero. */
  lemma AlignCases(t: int)
    ensures var r := AlignToHalfHour(t);
      && r % MsPerMinute == 0
      && (MinuteOfHour(t) < 15 ==> HourIndex(r) == HourIndex(t) && MinuteOfHour(r) == 0)
      && (15 <= MinuteOfHour(t) < 45 ==> HourIndex(r) == HourIndex(t) && MinuteOfHour(r) == 30)
      && (45 <= MinuteOfHour(t) ==> HourIndex(r) == HourIndex(t) + 1 && MinuteOfHour(r) == 0)
  {
    var r := AlignToHalfHour(t);
    MinuteDecomposition(t);
    var h := HourIndex(t);
    if MinuteOfHour(t) < 15 {
      assert r == h * MsPerHour + 0 * MsPerMinute;
      HourAndMinute(h, 0);
    } else if MinuteOfHour(t) < 45 {
      assert r == h * MsPerHour + 30 * MsPerMinute;
      HourAndMinute(h, 30);
    } else {
      assert r == (h + 1) * MsPerHour + 0 * MsPerMinute;
      HourAndMinute(h + 1, 0);
    }
  }

  /** Minute `c` of hour `h` reads back as that hour and minute. */
  lemma HourAndMinute(h: int, c: int)
    requires 0 <= c < 60
    ensures var x := h * MsPerHour + c * MsPerMinute;
      x % MsPerMinute == 0 && HourIndex(x) == h && MinuteOfHour(x) == c
  {
    var x := h * MsPerHour + c * MsPerMinute;
    assert x == (h * 60 + c) * MsPerMinute;
    assert x / MsPerMinute == h * 60 + c;
    assert (h * 60 + c) % 60 == c;
  }

  /** Moving to the next hour rolls over into the next day at 23:45. */
  lemma AlignRollsOverDay(t: int)
    requires MinuteOfHour(t) >= 45
    ensures var r := AlignToHalfHour(t);
      && (HourOfDay(t) < 23 ==> DayIndex(r) == DayIndex(t) && HourOfDay(r) == HourOfDay(t) + 1)
      && (HourOfDay(t) == 23 ==> DayIndex(r) == DayIndex(t) + 1 && HourOfDay(r) == 0)
  {
    var r := AlignToHalfHour(t);
    AlignCases(t);
    var h := HourIndex(t);
    assert HourIndex(r) == h + 1;
    DayOfHour(t);
    DayOfHour(r);
  }

  /** The day is the hour count divided by 24. */
  lemma DayOfHour(t: int)
    ensures DayIndex(t) == HourIndex(t) / 24
  {
    var h := HourIndex(t);
    assert t == h * MsPerHour + t % MsPerHour;
    assert h == (h / 24) * 24 + h % 24;
  }

  // ---------------------------------------------------------------------
  // The seat map of one showtime

  const Rows: seq<string> := ["A", "B", "C", "D", "E", "F"]
  const SeatsPerRow := 10

  /** Row by row, seat `i` of the grid is in row `Rows[i / 10]` and has
      number `i % 10 + 1`; every seat starts available with no booking. */
  function SeatGrid(showtimeId: int): seq<Seat> {
    seq(|Rows| * SeatsPerRow, i requires 0 <= i < |Rows| * SeatsPerRow =>
      Seat(showtimeId, Rows[i / SeatsPerRow], i % SeatsPerRow + 1, Available, None))
  }

  /** The nested loop of `seed` that pushes one seat per row and number. */
  method BuildSeatGrid(showtimeId: int) returns (seats: seq<Seat>)
    ensures seats == SeatGrid(showtimeId)
  {
    seats := [];
    var r := 0;
    while r < |Rows|
      invariant 0 <= r <= |Rows|
      invariant seats == SeatGrid(showtimeId)[..r * SeatsPerRow]
    {
      var num := 1;
      while num <= SeatsPerRow
        invariant 1 <= num <= SeatsPerRow + 1
        invariant seats == SeatGrid(showtimeId)[..r * SeatsPerRow + num - 1]
      {
        seats := seats + [Seat(showtimeId, Rows[r], num, Available, None)];
        num := num + 1;
      }
      r := r + 1;
    }
  }

  /** Sixty seats, all of the showtime, all available with no booking, each
      in one of the rows A to F with a number from 1 to 10. */
  lemma GridShape(showtimeId: int)
    ensures |SeatGrid(showtimeId)| == 60
    ensures forall i :: 0 <= i < 60 ==>
      var s := SeatGrid(showtimeId)[i];
      && s.showtimeId == showtimeId && s.status == Available && s.bookingId.None?
      && s.row in Rows && 1 <= s.number <= 10
  {
  }

  /** Every row and number has its seat. */
  lemma GridCoversEverySeat(showtimeId: int, row: int, number: int)
    requires 0 <= row < |Rows| && 1 <= number <= SeatsPerRow
    ensures exists i :: 0 <= i < |SeatGrid(showtimeId)| && RefOf(SeatGrid(showtimeId)[i]) == SeatRef(Rows[row], number)
  {
    var i := row * SeatsPerRow + number - 1;
    assert i / SeatsPerRow == row && i % SeatsPerRow == number - 1;
    assert RefOf(SeatGrid(showtimeId)[i]) == SeatRef(Rows[row], number);
  }

  /** No two seats of the grid share a row and number. */
  lemma GridNamesDistinct(showtimeId: int)
    ensures forall i, j :: 0 <= i < j < |SeatGrid(showtimeId)| ==>
      RefOf(SeatGrid(showtimeId)[i]) != RefOf(SeatGrid(showtimeId)[j])
  {
    var g := SeatGrid(showtimeId);
    forall i, j | 0 <= i < j < |g| ensures RefOf(g[i]) != RefOf(g[j]) {
      if i / SeatsPerRow == j / SeatsPerRow {
        assert i % SeatsPerRow != j % SeatsPerRow;
      } else {
        assert Rows[i / SeatsPerRow] != Rows[j / SeatsPerRow];
      }
    }
  }

  /** The seats of several showtimes, one grid after the other. */
  function SeedSeats(showtimeIds: seq<int>): (seats: seq<Seat>)
    ensures |seats| == 60 * |showtimeIds|
    ensures forall i :: 0 <= i < |seats| ==>
      seats[i].showtimeId in showtimeIds && seats[i].status == Available && seats[i].bookingId.None?
    ensures forall k :: 0 <= k < |showtimeIds| ==> seats[60 * k..60 * (k + 1)] == SeatGrid(showtimeIds[k])
  {
    if showtimeIds == [] then []
    else
      var n := |showtimeIds| - 1;
      GridShape(showtimeIds[n]);
      assert showtimeIds == showtimeIds[..n] + [showtimeIds[n]];
      GridsInOrder(showtimeIds[..n], showtimeIds[n], SeedSeats(showtimeIds[..n]));
      SeedSeats(showtimeIds[..n]) + SeatGrid(showtimeIds[n])
  }

  /** Appending the grid of one more showtime keeps every earlier showtime's
      grid in its own block of 60 seats. */
  lemma GridsInOrder(front: seq<int>, showtimeId: int, a: seq<Seat>)
    requires |a| == 60 * |front|
    requires forall k :: 0 <= k < |front| ==> a[60 * k..60 * (k + 1)] == SeatGrid(front[k])
    ensures var ids, all := front + [showtimeId], a + SeatGrid(showtimeId);
      forall k :: 0 <= k < |ids| ==> all[60 * k..60 * (k + 1)] == SeatGrid(ids[k])
  {
    var ids, all := front + [showtimeId], a + SeatGrid(showtimeId);
    GridShape(showtimeId);
    forall k | 0 <= k < |ids| ensures all[60 * k..60 * (k + 1)] == SeatGrid(ids[k]) {
      if k < |front| {
        assert all[60 * k..60 * (k + 1)] == a[60 * k..60 * (k + 1)];
        assert ids[k] == front[k];
      } else {
        assert all[60 * k..60 * (k + 1)] == SeatGrid(showtimeId);
      }
    }
  }

  /** A freshly seeded database satisfies the reservation store's invariant:
      seat names are unique per showtime, and no seat is booked or holds a
      booking. */
  lemma {:induction false} SeededStoreWellFormed(showtimeIds: seq<int>)
    requires NoDuplicates(showtimeIds)
    ensures Bookings.WellFormed(Bookings.Db(SeedSeats(showtimeIds), []))
  {
    if showtimeIds != [] {
      var n := |showtimeIds| - 1;
      var front := showtimeIds[..n];
      var sid := showtimeIds[n];
      assert NoDuplicates(front) by {
        forall i, j | 0 <= i < j < |front| ensures front[i] != front[j] {
          assert front[i] == showtimeIds[i] && front[j] == showtimeIds[j];
        }
      }
      SeededStoreWellFormed(front);
      GridNamesDistinct(sid);
      GridShape(sid);
      var a := SeedSeats(front);
      var g := SeatGrid(sid);
      var all := SeedSeats(showtimeIds);
      assert all == a + g;
      assert sid !in front by {
        forall k | 0 <= k < |front| ensures front[k] != sid {
          assert front[k] == showtimeIds[k];
        }
      }
      forall i, j | 0 <= i < j < |all| && all[i].showtimeId == all[j].showtimeId
        ensures RefOf(all[i]) != RefOf(all[j])
      {
        if j < |a| {
          assert all[i] == a[i] && all[j] == a[j];
        } else if i >= |a| {
          assert all[i] == g[i - |a|] && all[j] == g[j - |a|];
        }
      }
    }
  }
}
