/** The seat picker of the front end: the seat map grouped by row, the
    current selection and the checks before checkout. The selection is the
    component's state; each operation here computes its next value. */
module SeatSelector {
  import opened Models
  import opened Sequences
  import Bookings

  /** `priceEach`: 250 rupees a seat. */
  const PriceEach := 250

  // ---------------------------------------------------------------------
  // groupSeats

  /** The rows in order of first appearance, which is the order
      `Object.keys` lists them in as long as no row name is an array index
      such as "1". */
  function RowOrder(seats: seq<Seat>): seq<string> {
    if seats == [] then []
    else
      var p := RowOrder(seats[..|seats| - 1]);
      var last := seats[|seats| - 1];
      if last.row in p then p else p + [last.row]
  }

  /** The seats of one row, in input order. */
  function RowBucket(seats: seq<Seat>, row: string): seq<Seat> {
    if seats == [] then []
    else
      var p := RowBucket(seats[..|seats| - 1], row);
      var last := seats[|seats| - 1];
      if last.row == row then p + [last] else p
  }

  predicate HasRow(seats: seq<Seat>, row: string) {
    exists i :: 0 <= i < |seats| && seats[i].row == row
  }

  /** Each row is listed once, and exactly the rows some seat is in. */
  lemma {:induction false} RowOrderListsEachRowOnce(seats: seq<Seat>)
    ensures NoDuplicates(RowOrder(seats))
    ensures forall row :: row in RowOrder(seats) <==> HasRow(seats, row)
  {
    if seats != [] {
      var init := seats[..|seats| - 1];
      RowOrderListsEachRowOnce(init);
      forall row ensures HasRow(seats, row) <==> HasRow(init, row) || seats[|seats| - 1].row == row
      {
        if HasRow(seats, row) {
          var i :| 0 <= i < |seats| && seats[i].row == row;
          if i < |init| { assert init[i] == seats[i]; }
        }
        if HasRow(init, row) {
          var i :| 0 <= i < |init| && init[i].row == row;
          assert seats[i] == init[i];
        }
      }
    }
  }

  /** A row's bucket holds every seat of that row as often as the input
      does, and nothing else. */
  lemma {:induction false} RowBucketExactly(seats: seq<Seat>, row: string)
    ensures forall s :: multiset(RowBucket(seats, row))[s] == if s.row == row then multiset(seats)[s] else 0
  {
    if seats != [] {
      var init := seats[..|seats| - 1];
      RowBucketExactly(init, row);
      assert seats == init + [seats[|seats| - 1]];
    }
  }

  predicate SortedByNumber(b: seq<Seat>) {
    forall i, j :: 0 <= i < j < |b| ==> b[i].number <= b[j].number
  }

  /** Places `s` after every seat of `b` whose number is not larger. */
  function InsertByNumber(b: seq<Seat>, s: Seat): seq<Seat> {
    if b == [] || b[|b| - 1].number <= s.number then b + [s]
    else InsertByNumber(b[..|b| - 1], s) + [b[|b| - 1]]
  }

  /** Insertion adds the seat and loses none. */
  lemma {:induction false} InsertAddsSeat(b: seq<Seat>, s: Seat)
    ensures multiset(InsertByNumber(b, s)) == multiset(b) + multiset{s}
  {
    if b != [] && s.number < b[|b| - 1].number {
      var init := b[..|b| - 1];
      assert b == init + [b[|b| - 1]];
      InsertAddsSeat(init, s);
    }
  }

  /** Insertion into a sorted bucket keeps it sorted. */
  lemma {:induction false} InsertKeepsSorted(b: seq<Seat>, s: Seat)
    requires SortedByNumber(b)
    ensures SortedByNumber(InsertByNumber(b, s))
  {
    if b == [] || b[|b| - 1].number <= s.number {
      forall x | x in b ensures x.number <= s.number {
        var i :| 0 <= i < |b| && b[i] == x;
        assert b[i].number <= b[|b| - 1].number;
      }
      SortedAppend(b, s);
    } else {
      var init := b[..|b| - 1];
      var last := b[|b| - 1];
      assert SortedByNumber(init);
      InsertKeepsSorted(init, s);
      InsertAddsSeat(init, s);
      var front := InsertByNumber(init, s);
      forall x | x in front ensures x.number <= last.number {
        assert x in multiset(front);
        if x != s {
          var i :| 0 <= i < |init| && init[i] == x;
          assert b[i] == x;
        }
      }
      SortedAppend(front, last);
    }
  }

  /** A seat no smaller than everything before it extends a sorted bucket. */
  lemma SortedAppend(b: seq<Seat>, s: Seat)
    requires SortedByNumber(b)
    requires forall x :: x in b ==> x.number <= s.number
    ensures SortedByNumber(b + [s])
  {
    var c := b + [s];
    forall i, j | 0 <= i < j < |c| ensures c[i].number <= c[j].number {
      if j < |b| {
        assert c[i] == b[i] && c[j] == b[j];
      } else {
        assert c[i] == b[i] && b[i] in b;
      }
    }
  }

  /** `bucket.sort((a, b) => a.number - b.number)`, as an insertion sort. */
  function SortByNumber(b: seq<Seat>): (r: seq<Seat>)
    ensures SortedByNumber(r)
    ensures multiset(r) == multiset(b)
  {
    if b == [] then []
    else
      var init := b[..|b| - 1];
      assert b == init + [b[|b| - 1]];
      InsertKeepsSorted(SortByNumber(init), b[|b| - 1]);
      InsertAddsSeat(SortByNumber(init), b[|b| - 1]);
      InsertByNumber(SortByNumber(init), b[|b| - 1])
  }

  /** The first loop of `groupSeats`: push each seat onto its row's bucket,
      creating the bucket on the row's first appearance. */
  method BucketByRow(seats: seq<Seat>) returns (rows: seq<string>, groups: map<string, seq<Seat>>)
    ensures rows == RowOrder(seats)
    ensures forall row :: row in groups <==> row in rows
    ensures forall row :: row in groups ==> groups[row] == RowBucket(seats, row)
  {
    rows, groups := [], map[];
    var i := 0;
    while i < |seats|
      invariant 0 <= i <= |seats|
      invariant Bucketed(seats[..i], rows, groups)
    {
      var s := seats[i];
      assert seats[..i + 1] == seats[..i] + [s];
      PushSeat(seats[..i], s, rows, groups);
      if s.row !in groups {
        groups := groups[s.row := []];
        rows := rows + [s.row];
      }
      groups := groups[s.row := groups[s.row] + [s]];
      i := i + 1;
    }
    assert seats[..i] == seats;
  }

  /** One more seat adds its row to the key order if it is new, and joins
      the end of its own row's bucket. */
  lemma SeenOneMore(seen: seq<Seat>, s: Seat)
    ensures RowOrder(seen + [s]) == if s.row in RowOrder(seen) then RowOrder(seen) else RowOrder(seen) + [s.row]
    ensures forall row :: RowBucket(seen + [s], row) == RowBucket(seen, row) + (if s.row == row then [s] else [])
  {
    assert (seen + [s])[..|seen|] == seen;
  }

  /** The state of the first loop of `groupSeats` after the seats `seen`:
      the keys in first-appearance order, and each key's bucket. */
  ghost predicate Bucketed(seen: seq<Seat>, rows: seq<string>, groups: map<string, seq<Seat>>) {
    && rows == RowOrder(seen)
    && (forall row :: row in groups <==> row in rows)
    && (forall row :: row in groups ==> groups[row] == RowBucket(seen, row))
    && (forall row :: row !in groups ==> RowBucket(seen, row) == [])
  }

  /** One turn of the first loop: create the bucket if the row is new, then
      push the seat onto it. */
  lemma PushSeat(seen: seq<Seat>, s: Seat, rows: seq<string>, groups: map<string, seq<Seat>>)
    requires Bucketed(seen, rows, groups)
    ensures s.row in groups ==> Bucketed(seen + [s], rows, groups[s.row := groups[s.row] + [s]])
    ensures s.row !in groups ==>
      var created := groups[s.row := []];
      Bucketed(seen + [s], rows + [s.row], created[s.row := created[s.row] + [s]])
  {
    SeenOneMore(seen, s);
  }

  /** `groupSeats`: one bucket per row, each holding exactly that row's
      seats (as a permutation), sorted by seat number; `rows` is the key
      order the seat map is drawn in. */
  method GroupSeats(seats: seq<Seat>) returns (rows: seq<string>, groups: map<string, seq<Seat>>)
    ensures rows == RowOrder(seats) && NoDuplicates(rows)
    ensures forall row :: row in groups <==> row in rows
    ensures forall row :: row in groups <==> HasRow(seats, row)
    ensures forall row :: row in groups ==> SortedByNumber(groups[row])
    ensures forall row, s :: row in groups ==>
      multiset(groups[row])[s] == if s.row == row then multiset(seats)[s] else 0
  {
    var buckets;
    rows, buckets := BucketByRow(seats);
    RowOrderListsEachRowOnce(seats);
    groups := SortBuckets(rows, buckets);
    forall row | row in groups
      ensures forall s :: multiset(groups[row])[s] == if s.row == row then multiset(seats)[s] else 0
    {
      RowBucketExactly(seats, row);
    }
  }

  /** The second loop of `groupSeats`: sort every bucket by seat number, key
      by key. */
  method SortBuckets(rows: seq<string>, buckets: map<string, seq<Seat>>) returns (groups: map<string, seq<Seat>>)
    requires forall row :: row in buckets <==> row in rows
    ensures forall row :: row in groups <==> row in buckets
    ensures forall row :: row in groups ==> SortedByNumber(groups[row])
    ensures forall row :: row in groups ==> multiset(groups[row]) == multiset(buckets[row])
  {
    groups := buckets;
    var k := 0;
    while k < |rows|
      invariant 0 <= k <= |rows|
      invariant forall row :: row in groups <==> row in buckets
      invariant forall row :: row in groups ==> multiset(groups[row]) == multiset(buckets[row])
      invariant forall j :: 0 <= j < k ==> SortedByNumber(groups[rows[j]])
    {
      groups := groups[rows[k] := SortByNumber(groups[rows[k]])];
      k := k + 1;
    }
  }

  // ---------------------------------------------------------------------
  // toggleSeat

  /** `selection.filter(s => !(s.row === r.row && s.number === r.number))`. */
  function Without(selection: seq<SeatRef>, r: SeatRef): (out: seq<SeatRef>)
    ensures forall x :: x in out <==> x in selection && x != r
    ensures |out| <= |selection|
    ensures r in selection ==> |out| < |selection|
  {
    if selection == [] then []
    else if selection[0] == r then Without(selection[1..], r)
    else [selection[0]] + Without(selection[1..], r)
  }

  /** `toggleSeat`: a booked seat is ignored; a selected seat is removed
      (every entry with its row and number); any other seat is appended. */
  function ToggleSeat(selection: seq<SeatRef>, seat: Seat): (r: seq<SeatRef>)
    ensures seat.status == Booked ==> r == selection
    ensures seat.status != Booked && RefOf(seat) !in selection ==> r == selection + [RefOf(seat)]
    ensures seat.status != Booked && RefOf(seat) in selection ==> RefOf(seat) !in r && |r| < |selection|
    ensures seat.status != Booked && RefOf(seat) in selection ==> r == Without(selection, RefOf(seat))
  {
    if seat.status == Booked then selection
    else if RefOf(seat) in selection then Without(selection, RefOf(seat))
    else selection + [RefOf(seat)]
  }

  /** Removing entries keeps the others in their order: the filter
      distributes over concatenation. */
  lemma {:induction false} WithoutKeepsOrder(a: seq<SeatRef>, b: seq<SeatRef>, r: SeatRef)
    ensures Without(a + b, r) == Without(a, r) + Without(b, r)
  {
    if a == [] {
      assert a + b == b;
    } else {
      var ab := a + b;
      assert ab[0] == a[0] && ab[1..] == a[1..] + b;
      WithoutKeepsOrder(a[1..], b, r);
    }
  }

  /** A selection without the entry is left as it is. */
  lemma {:induction false} WithoutAbsent(selection: seq<SeatRef>, r: SeatRef)
    requires r !in selection
    ensures Without(selection, r) == selection
  {
    if selection != [] {
      WithoutAbsent(selection[1..], r);
    }
  }

  /** Removing one entry from a duplicate-free selection shortens it by one
      and keeps it duplicate-free. */
  lemma {:induction false} WithoutOne(selection: seq<SeatRef>, r: SeatRef)
    requires NoDuplicates(selection)
    ensures NoDuplicates(Without(selection, r))
    ensures |Without(selection, r)| == if r in selection then |selection| - 1 else |selection|
  {
    if selection != [] {
      var t := selection[1..];
      assert NoDuplicates(t) by {
        forall i, j | 0 <= i < j < |t| ensures t[i] != t[j] {
          assert t[i] == selection[i + 1] && t[j] == selection[j + 1];
        }
      }
      WithoutOne(t, r);
      assert selection[0] !in t by {
        forall j | 0 <= j < |t| ensures t[j] != selection[0] {
          assert t[j] == selection[j + 1];
        }
      }
      if selection[0] != r {
        var w := Without(t, r);
        var out := [selection[0]] + w;
        forall i, j | 0 <= i < j < |out| ensures out[i] != out[j] {
          if i == 0 {
            assert out[j] == w[j - 1] && out[j] in w;
          } else {
            assert out[i] == w[i - 1] && out[j] == w[j - 1];
          }
        }
      }
    }
  }

  /** For a seat that is free, toggling flips whether it is selected and
      leaves every other entry's membership alone. */
  lemma ToggleFlipsMembership(selection: seq<SeatRef>, seat: Seat)
    requires seat.status != Booked
    ensures forall x :: x in ToggleSeat(selection, seat) <==>
      if x == RefOf(seat) then x !in selection else x in selection
  {
  }

  /** Toggling keeps a duplicate-free selection duplicate-free. */
  lemma ToggleKeepsNoDuplicates(selection: seq<SeatRef>, seat: Seat)
    requires NoDuplicates(selection)
    ensures NoDuplicates(ToggleSeat(selection, seat))
  {
    if seat.status != Booked {
      if RefOf(seat) in selection {
        WithoutOne(selection, RefOf(seat));
      } else {
        var r := selection + [RefOf(seat)];
        forall i, j | 0 <= i < j < |r| ensures r[i] != r[j] {
          if j == |selection| {
            assert r[i] == selection[i];
          }
        }
      }
    }
  }

  /** Toggling a free, unselected seat twice gives back the selection; doing
      so to a selected seat of a duplicate-free selection keeps the same
      entries, with that seat moved to the end. */
  lemma ToggleTwice(selection: seq<SeatRef>, seat: Seat)
    requires seat.status != Booked
    ensures RefOf(seat) !in selection ==> ToggleSeat(ToggleSeat(selection, seat), seat) == selection
    ensures RefOf(seat) in selection && NoDuplicates(selection) ==>
      var twice := ToggleSeat(ToggleSeat(selection, seat), seat);
      && twice == Without(selection, RefOf(seat)) + [RefOf(seat)]
      && |twice| == |selection|
      && forall x :: x in twice <==> x in selection
  {
    var r := RefOf(seat);
    if r !in selection {
      WithoutKeepsOrder(selection, [r], r);
      WithoutAbsent(selection, r);
      assert Without([r], r) == [];
    } else if NoDuplicates(selection) {
      WithoutOne(selection, r);
    }
  }

  // ---------------------------------------------------------------------
  // Price and checkout

  /** `total = selectedSeats.length * priceEach`. */
  function Total(selection: seq<SeatRef>): (t: int)
    ensures t >= 0 && (t == 0 <==> selection == [])
  {
    |selection| * PriceEach
  }

  /** Toggling a free seat in a duplicate-free selection moves the total by
      one seat's price; toggling a booked seat leaves it. */
  lemma TotalAfterToggle(selection: seq<SeatRef>, seat: Seat)
    requires NoDuplicates(selection)
    ensures Total(ToggleSeat(selection, seat)) ==
      if seat.status == Booked then Total(selection)
      else if RefOf(seat) in selection then Total(selection) - PriceEach
      else Total(selection) + PriceEach
  {
    if seat.status != Booked && RefOf(seat) in selection {
      WithoutOne(selection, RefOf(seat));
    }
  }

  /** The messages `checkout` can stop with, or going on to payment. */
  datatype CheckoutCheck = EnterNameAndEmail | SelectSeatsFirst | ReadyToPay

  /** The two guards at the head of `checkout`, name and email first. */
  function CheckoutGuard(name: string, email: string, selection: seq<SeatRef>): (c: CheckoutCheck)
    ensures c == ReadyToPay <==> name != "" && email != "" && selection != []
    ensures name == "" || email == "" ==> c == EnterNameAndEmail
    ensures name != "" && email != "" && selection == [] ==> c == SelectSeatsFirst
  {
    if name == "" || email == "" then EnterNameAndEmail
    else if |selection| == 0 then SelectSeatsFirst
    else ReadyToPay
  }

  /** A checkout that passes the guards leads to a booking request the
      server's field check accepts, at a positive total. */
  lemma ReadyCheckoutIsBookable(name: string, email: string, selection: seq<SeatRef>,
                                showtimeId: int, payment: Option<Bookings.Payment>)
    requires CheckoutGuard(name, email, selection) == ReadyToPay
    requires showtimeId != 0
    ensures !Bookings.MissingFields(Bookings.BookingRequest(Some(showtimeId), Some(selection), name, email, payment))
    ensures Total(selection) > 0
  {
  }
}
