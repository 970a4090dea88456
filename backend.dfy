/**
 * The backend as the views run it: the four tables are fields of one object, and each view
 * changes them row by row, the way the ORM saves one object at a time. Every method is proved
 * to leave exactly the state the matching function of Reservations (or Accounts) describes,
 * and to keep the database invariant.
 */
module Backend {
  import opened Wrappers
  import opened Models
  import Accounts
  import Signals
  import opened Reservations

  /** Relinking one more position extends a relink of a prefix by one update. */
  lemma RelinkStep(s0: seq<Seat>, idx: seq<nat>, i: nat, link: Option<Id>)
    requires i < |idx| && idx[i] < |s0|
    ensures var s := Relink(s0, idx[..i], link);
      Relink(s0, idx[..i + 1], link) == s[idx[i] := s[idx[i]].(isBooked := link.Some?, booking := link)]
  {
    assert forall j :: j in idx[..i + 1] <==> j in idx[..i] || j == idx[i] by {
      assert idx[..i + 1] == idx[..i] + [idx[i]];
    }
  }

  /** The marking loop of both booking views: each selected seat is booked and linked in turn. */
  method LinkSeats(seats: seq<Seat>, idx: seq<nat>, link: Option<Id>) returns (s: seq<Seat>)
    requires link.Some?
    requires forall i :: 0 <= i < |idx| ==> idx[i] < |seats|
    ensures s == Relink(seats, idx, link)
  {
    s := seats;
    for i := 0 to |idx|
      invariant s == Relink(seats, idx[..i], link)
    {
      RelinkStep(seats, idx, i, link);
      s := s[idx[i] := s[idx[i]].(isBooked := true, booking := link)];
    }
    assert idx[..|idx|] == idx;
  }

  /** The freeing loop of the cancel view: each linked seat is freed and unlinked, and counted. */
  method FreeSeats(seats: seq<Seat>, linked: seq<nat>) returns (s: seq<Seat>, count: nat)
    requires forall i :: 0 <= i < |linked| ==> linked[i] < |seats|
    ensures s == Relink(seats, linked, None) && count == |linked|
  {
    s := seats;
    count := 0;
    for i := 0 to |linked|
      invariant s == Relink(seats, linked[..i], None)
      invariant count == i
    {
      RelinkStep(seats, linked, i, None);
      s := s[linked[i] := s[linked[i]].(isBooked := false, booking := None)];
      count := count + 1;
    }
    assert linked[..|linked|] == linked;
  }

  /** Once the first i selected seats are known to be free, the first booked one lies among the rest. */
  lemma FirstBookedSkip(seats: seq<Seat>, idx: seq<nat>, i: nat)
    requires i < |idx| && forall k :: 0 <= k < |idx| ==> idx[k] < |seats|
    requires !seats[idx[i]].isBooked
    ensures FirstBooked(seats, idx[i..]) == FirstBooked(seats, idx[i + 1..])
  {
    assert idx[i..][1..] == idx[i + 1..];
  }

  /** Appending a flight with the seats the hook generates for it keeps every seat valid. */
  lemma AddFlightSeatsValid(db: Db, f: Flight, created: seq<Seat>)
    requires forall j :: 0 <= j < |db.seats| ==> SeatValid(db, db.seats[j])
    requires forall k :: 0 <= k < |created| ==> created[k] == Signals.GeneratedSeat(|db.flights| + 1, k)
    ensures var db' := Db(db.users, db.flights + [f], db.seats + created, db.bookings);
      forall j :: 0 <= j < |db'.seats| ==> SeatValid(db', db'.seats[j])
  {
    var db' := Db(db.users, db.flights + [f], db.seats + created, db.bookings);
    var n := |db.seats|;
    forall j | 0 <= j < |db'.seats| ensures SeatValid(db', db'.seats[j]) {
      if j < n {
        assert db'.seats[j] == db.seats[j];
        assert SeatValid(db, db.seats[j]);
      } else {
        assert db'.seats[j] == created[j - n];
      }
    }
  }

  /** The seats generated for one flight carry distinct numbers. */
  lemma GeneratedUnique(created: seq<Seat>, fid: Id)
    requires forall k :: 0 <= k < |created| ==> created[k] == Signals.GeneratedSeat(fid, k)
    ensures UniqueSeatNumbers(created)
  {
    forall i, j | 0 <= i < j < |created| ensures created[i].seatNumber != created[j].seatNumber {
      Signals.SeatNamesDistinct(i, j);
    }
  }

  /** Seats of a flight not yet in the table cannot clash with the existing ones. */
  lemma AddFlightUnique(prior: seq<Seat>, created: seq<Seat>, fid: Id)
    requires forall j :: 0 <= j < |prior| ==> prior[j].flight < fid
    requires forall k :: 0 <= k < |created| ==> created[k].flight == fid
    requires UniqueSeatNumbers(prior) && UniqueSeatNumbers(created)
    ensures UniqueSeatNumbers(prior + created)
  {
    var all := prior + created;
    var n := |prior|;
    assert forall i :: 0 <= i < n ==> all[i] == prior[i];
    assert forall i :: n <= i < |all| ==> all[i] == created[i - n];
  }

  /** Appending a flight with the seats the hook generates for it keeps the invariant. */
  lemma AddFlightValid(db: Db, f: Flight, created: seq<Seat>)
    requires Reservations.Valid(db)
    requires forall k :: 0 <= k < |created| ==> created[k] == Signals.GeneratedSeat(|db.flights| + 1, k)
    ensures Reservations.Valid(Db(db.users, db.flights + [f], db.seats + created, db.bookings))
  {
    AddFlightSeatsValid(db, f, created);
    forall j | 0 <= j < |db.seats| ensures db.seats[j].flight < |db.flights| + 1 {
      assert SeatValid(db, db.seats[j]);
    }
    GeneratedUnique(created, |db.flights| + 1);
    AddFlightUnique(db.seats, created, |db.flights| + 1);
  }

  class Database {
    var users: seq<User>
    var flights: seq<Flight>
    var seats: seq<Seat>
    var bookings: seq<Booking>

    function State(): Db
      reads this
    {
      Db(users, flights, seats, bookings)
    }

    predicate Valid()
      reads this
    {
      Reservations.Valid(State())
    }

    /** An empty database. */
    constructor ()
      ensures State() == Db([], [], [], []) && Valid()
    {
      users, flights, seats, bookings := [], [], [], [];
    }

    /** SignupView.post. */
    method Signup(name: Option<string>, email: Option<string>, password: Option<string>, passwordHash: string)
      returns (r: Accounts.SignupResult)
      requires Valid()
      modifies this
      ensures (r, users) == Accounts.Signup(old(users), name, email, password, passwordHash)
      ensures flights == old(flights) && seats == old(seats) && bookings == old(bookings)
      ensures Valid()
    {
      Accounts.SignupKeepsEmailsUnique(users, name, email, password, passwordHash);
      var res := Accounts.Signup(users, name, email, password, passwordHash);
      r := res.0;
      users := res.1;
    }

    /**
     * Saving a new flight: the row is appended and the post-save hook adds its seats, all
     * free, named by position.
     */
    method AddFlight(f: Flight) returns (id: Id)
      requires Valid()
      modifies this
      ensures id == |old(flights)| + 1 && flights == old(flights) + [f]
      ensures |seats| == |old(seats)| + Max(0, f.totalSeats) && seats[..|old(seats)|] == old(seats)
      ensures forall k :: 0 <= k < Max(0, f.totalSeats) ==> seats[|old(seats)| + k] == Signals.GeneratedSeat(id, k)
      ensures users == old(users) && bookings == old(bookings)
      ensures Valid()
    {
      var before := State();
      flights := flights + [f];
      id := |flights|;
      var created := Signals.CreateSeatsForFlight(id, true, f.totalSeats);
      seats := seats + created;
      assert seats[..|before.seats|] == before.seats;
      AddFlightValid(before, f, created);
    }

    /**
     * Booking.save: a missing PNR is filled in from the UUID's hex form before the row is
     * written; `bid` is the row's id, one past the last row for a new booking.
     */
    method SaveBooking(bid: Id, b: Booking, uuidHex: string)
      requires IsUuidHex(uuidHex) && 1 <= bid <= |bookings| + 1
      modifies this
      ensures var saved := b.(pnr := SavePnr(b.pnr, uuidHex));
        bookings == if bid <= |old(bookings)| then old(bookings)[bid - 1 := saved] else old(bookings) + [saved]
      ensures users == old(users) && flights == old(flights) && seats == old(seats)
    {
      var row := b;
      if row.pnr == "" {
        row := row.(pnr := Upper(uuidHex[..8]));
      }
      if bid <= |bookings| {
        bookings := bookings[bid - 1 := row];
      } else {
        bookings := bookings + [row];
      }
    }

    /** Writes a confirmed booking at `price` per ticket for the seats at `idx` and links them to it. */
    method Commit(fid: int, uid: Id, idx: seq<nat>, price: real, uuidHex: string)
      requires HasFlight(State(), fid) && IsUuidHex(uuidHex)
      requires forall i :: 0 <= i < |idx| ==> idx[i] < |seats|
      modifies this
      ensures State() == Reservations.Commit(old(State()), fid, uid, idx, price, uuidHex)
    {
      ghost var d := Reservations.Commit(State(), fid, uid, idx, price, uuidHex);
      var n := |idx|;
      var bid := |bookings| + 1;
      var b := Booking(uid, fid, n, price, price * n as real, "", Confirmed);
      ghost var saved := Booking(uid, fid, n, price, price * n as real, SavePnr("", uuidHex), Confirmed);
      assert |d.bookings| == |bookings| + 1;
      assert d.bookings[..|bookings|] == bookings;
      assert d.bookings[|bookings|] == saved;
      assert d.bookings == bookings + [saved];
      assert b.(pnr := SavePnr(b.pnr, uuidHex)) == saved;
      SaveBooking(bid, b, uuidHex);
      assert bookings == d.bookings;
      seats := LinkSeats(seats, idx, Some(bid));
      assert seats == d.seats;
      var f := flights[fid - 1];
      flights := flights[fid - 1 := f.(availableSeats := Max(0, f.availableSeats - n))];
      assert flights == d.flights;
    }

    /** The seat check loop: the first seat among the selected ones that is booked, if any. */
    method FindBooked(idx: seq<nat>) returns (r: Option<nat>)
      requires forall i :: 0 <= i < |idx| ==> idx[i] < |seats|
      ensures r == FirstBooked(seats, idx)
    {
      for i := 0 to |idx|
        invariant FirstBooked(seats, idx) == FirstBooked(seats, idx[i..])
      {
        if seats[idx[i]].isBooked {
          return Some(idx[i]);
        }
        FirstBookedSkip(seats, idx, i);
      }
      return None;
    }

    /** SeatBookingView.post. */
    method BookSeats(fid: int, userId: Option<int>, numbers: seq<string>, daysBefore: int, uuidHex: string)
      returns (r: Response)
      requires IsUuidHex(uuidHex) && Valid()
      modifies this
      ensures (r, State()) == BookNamed(old(State()), fid, userId, numbers, daysBefore, uuidHex)
      ensures Valid()
    {
      BookNamedValid(State(), fid, userId, numbers, daysBefore, uuidHex);
      if !HasFlight(State(), fid) {
        return Failed(FlightNotFound);
      }
      if userId.None? || userId.value == 0 || numbers == [] {
        return Failed(FieldsRequired);
      }
      if !HasUser(State(), userId.value) {
        return Failed(UserNotFound);
      }
      var idx := Select(seats, ByNumbers(fid, numbers));
      if |idx| != |numbers| {
        return Failed(SeatsNotFound);
      }
      var booked := FindBooked(idx);
      if booked.Some? {
        return Failed(SeatAlreadyBooked(seats[booked.value].seatNumber));
      }
      var n := |idx|;
      if n > flights[fid - 1].availableSeats {
        return Failed(NotEnoughSeats);
      }
      var price := DynamicPrice(flights[fid - 1], Some(daysBefore));
      if price.None? {
        return Failed(ServerError);
      }
      r := Created(|bookings| + 1);
      Commit(fid, userId.value, idx, price.value, uuidHex);
    }

    /** BookingCreateView.post. */
    method CreateBooking(fid: int, userId: Option<int>, numbers: seq<string>, seatsBooked: Option<int>,
                         daysBefore: int, uuidHex: string)
      returns (r: Response)
      requires IsUuidHex(uuidHex) && Valid()
      modifies this
      ensures (r, State()) == Reservations.CreateBooking(old(State()), fid, userId, numbers, seatsBooked, daysBefore, uuidHex)
      ensures Valid()
    {
      CreateBookingValid(State(), fid, userId, numbers, seatsBooked, daysBefore, uuidHex);
      if !HasFlight(State(), fid) {
        return Failed(FlightNotFound);
      }
      if userId.None? || !HasUser(State(), userId.value) {
        return Failed(UserNotFound);
      }
      if numbers != [] {
        r := BookSeats(fid, userId, numbers, daysBefore, uuidHex);
        return;
      }
      var n := seatsBooked.GetOr(1);
      if n < 0 {
        return Failed(ServerError);
      }
      var picked := Picked(State(), fid, n);
      if |picked| != n {
        return Failed(NoFreeSeats);
      }
      var price := DynamicPrice(flights[fid - 1], Some(daysBefore));
      if price.None? {
        return Failed(ServerError);
      }
      r := Created(|bookings| + 1);
      Commit(fid, userId.value, picked, price.value, uuidHex);
    }

    /** The cancel view past its checks: frees the linked seats one by one, counting them, then saves the flight and the booking. */
    method Release(bid: Id, uuidHex: string)
      requires IsUuidHex(uuidHex) && BookingsValid(State())
      requires HasBooking(State(), bid) && bookings[bid - 1].status == Confirmed
      modifies this
      ensures State() == Cancel(old(State()), bid, uuidHex).1
    {
      ghost var d := Cancel(State(), bid, uuidHex).1;
      var b := bookings[bid - 1];
      assert HasFlight(State(), State().bookings[bid - 1].flight);
      var linked := Select(seats, LinkedTo(bid));
      assert d.seats == Relink(seats, linked, None);
      var freed, count := FreeSeats(seats, linked);
      seats := freed;
      var f := flights[b.flight - 1];
      flights := flights[b.flight - 1 := f.(availableSeats := f.availableSeats + count)];
      ghost var b' := b.(status := Cancelled, pnr := SavePnr(b.pnr, uuidHex));
      assert b.(status := Cancelled).(pnr := SavePnr(b.pnr, uuidHex)) == b';
      assert d.flights == flights;
      SaveBooking(bid, b.(status := Cancelled), uuidHex);
      assert d.bookings == bookings;
    }

    /** BookingCancelView.post. */
    method CancelBooking(bid: int, uuidHex: string) returns (r: Response)
      requires IsUuidHex(uuidHex) && Valid()
      modifies this
      ensures (r, State()) == Cancel(old(State()), bid, uuidHex)
      ensures Valid()
    {
      CancelValid(State(), bid, uuidHex);
      if !HasBooking(State(), bid) {
        return Failed(BookingNotFound);
      }
      if bookings[bid - 1].status == Cancelled {
        return Failed(AlreadyCancelled);
      }
      Release(bid, uuidHex);
      r := CancelledOk(bookings[bid - 1].pnr);
    }
  }
}
