/**
 * The booking engine over one database value: named-seat booking, the auto-pick
 * branch of the generic booking endpoint, and cancellation. Every view runs in one
 * transaction, so a view that fails leaves the database as it found it.
 */
module Reservations {
  import opened Wrappers
  import opened Models
  import Accounts

  /** The tables; the row with id k is at position k - 1. */
  datatype Db = Db(users: seq<User>, flights: seq<Flight>, seats: seq<Seat>, bookings: seq<Booking>)

  predicate HasUser(db: Db, id: int) { 1 <= id <= |db.users| }

  predicate HasFlight(db: Db, id: int) { 1 <= id <= |db.flights| }

  predicate HasBooking(db: Db, id: int) { 1 <= id <= |db.bookings| }

  function FlightOf(db: Db, id: int): Flight
    requires HasFlight(db, id)
  {
    db.flights[id - 1]
  }

  function BookingOf(db: Db, id: int): Booking
    requires HasBooking(db, id)
  {
    db.bookings[id - 1]
  }

  // ---------------------------------------------------------------------------
  // The invariant the views keep
  // ---------------------------------------------------------------------------

  /** A seat belongs to a flight; it is booked exactly when it is linked, and only to a confirmed booking of its own flight. */
  predicate SeatValid(db: Db, s: Seat) {
    && HasFlight(db, s.flight)
    && (s.isBooked <==> s.booking.Some?)
    && (s.booking.Some? ==>
          && HasBooking(db, s.booking.value)
          && BookingOf(db, s.booking.value).flight == s.flight
          && BookingOf(db, s.booking.value).status == Confirmed)
  }

  /** No two seats of one flight share a seat number. */
  predicate UniqueSeatNumbers(seats: seq<Seat>) {
    forall i, j :: 0 <= i < j < |seats| && seats[i].flight == seats[j].flight ==> seats[i].seatNumber != seats[j].seatNumber
  }

  /** Every booking names an existing user and flight and has a PNR. */
  predicate BookingsValid(db: Db) {
    forall k :: 0 <= k < |db.bookings| ==>
      HasUser(db, db.bookings[k].user) && HasFlight(db, db.bookings[k].flight) && db.bookings[k].pnr != ""
  }

  predicate Valid(db: Db) {
    && (forall j :: 0 <= j < |db.seats| ==> SeatValid(db, db.seats[j]))
    && UniqueSeatNumbers(db.seats)
    && BookingsValid(db)
    && Accounts.EmailsUnique(db.users)
  }

  // ---------------------------------------------------------------------------
  // Seat queries and updates
  // ---------------------------------------------------------------------------

  /** The seat filters the views use. */
  datatype Query = ByNumbers(flight: int, numbers: seq<string>) | Unbooked(flight: int) | LinkedTo(booking: int)

  predicate Hits(q: Query, s: Seat) {
    match q
    case ByNumbers(f, ns) => s.flight == f && s.seatNumber in ns
    case Unbooked(f) => s.flight == f && !s.isBooked
    case LinkedTo(b) => s.booking == Some(b)
  }

  predicate Increasing(r: seq<nat>) {
    forall i, j :: 0 <= i < j < |r| ==> r[i] < r[j]
  }

  /** The positions, in table order, of the seats a query selects. */
  function Select(seats: seq<Seat>, q: Query): (r: seq<nat>)
    ensures forall i :: 0 <= i < |r| ==> r[i] < |seats| && Hits(q, seats[r[i]])
    ensures forall j :: 0 <= j < |seats| && Hits(q, seats[j]) ==> j in r
    ensures Increasing(r)
  {
    if seats == [] then []
    else
      var n := |seats| - 1;
      Select(seats[..n], q) + (if Hits(q, seats[n]) then [n] else [])
  }

  /** Two queries that select the same positions give the same query result. */
  lemma {:induction false} SelectAgree(s1: seq<Seat>, q1: Query, s2: seq<Seat>, q2: Query)
    requires |s1| == |s2|
    requires forall j :: 0 <= j < |s1| ==> (Hits(q1, s1[j]) <==> Hits(q2, s2[j]))
    ensures Select(s1, q1) == Select(s2, q2)
  {
    if s1 != [] {
      var n := |s1| - 1;
      SelectAgree(s1[..n], q1, s2[..n], q2);
    }
  }

  /** The first selected seat that is already booked, if any. */
  function FirstBooked(seats: seq<Seat>, idx: seq<nat>): (r: Option<nat>)
    requires forall i :: 0 <= i < |idx| ==> idx[i] < |seats|
    ensures r.Some? ==> r.value in idx && seats[r.value].isBooked
    ensures r.None? <==> forall i :: 0 <= i < |idx| ==> !seats[idx[i]].isBooked
  {
    if idx == [] then None
    else if seats[idx[0]].isBooked then Some(idx[0])
    else FirstBooked(seats, idx[1..])
  }

  /** The seats at the given positions get the link (booked when there is one); the rest stay. */
  function Relink(seats: seq<Seat>, idx: seq<nat>, link: Option<Id>): seq<Seat> {
    seq(|seats|, j requires 0 <= j < |seats| =>
      if j in idx then seats[j].(isBooked := link.Some?, booking := link) else seats[j])
  }

  /** The seat numbers of a flight's seats. */
  function KnownNumbers(seats: seq<Seat>, fid: int): set<string> {
    set j | 0 <= j < |seats| && seats[j].flight == fid :: seats[j].seatNumber
  }

  // ---------------------------------------------------------------------------
  // The views
  // ---------------------------------------------------------------------------

  datatype Failure =
    | FlightNotFound | UserNotFound | BookingNotFound
    | FieldsRequired | SeatsNotFound | SeatAlreadyBooked(seatNumber: string)
    | NotEnoughSeats | NoFreeSeats | AlreadyCancelled
    | ServerError   // an exception escaping the view: the transaction is rolled back

  datatype Response = Created(booking: Id) | CancelledOk(pnr: string) | Failed(failure: Failure)

  function HttpStatus(r: Response): int {
    match r
    case Created(_) => 201
    case CancelledOk(_) => 200
    case Failed(f) =>
      if f.FlightNotFound? || f.UserNotFound? || f.BookingNotFound? then 404
      else if f.ServerError? then 500
      else 400
  }

  /**
   * The common tail of both booking views: a confirmed booking priced per ticket, the given
   * seats linked to it, and the flight's available seats lowered, never below zero.
   */
  function Commit(db: Db, fid: int, uid: Id, idx: seq<nat>, price: real, uuidHex: string): Db
    requires HasFlight(db, fid) && IsUuidHex(uuidHex)
  {
    var f := FlightOf(db, fid);
    var n := |idx|;
    var b := Booking(uid, fid, n, price, price * n as real, SavePnr("", uuidHex), Confirmed);
    Db(db.users,
       db.flights[fid - 1 := f.(availableSeats := Max(0, f.availableSeats - n))],
       Relink(db.seats, idx, Some(|db.bookings| + 1)),
       db.bookings + [b])
  }

  /**
   * SeatBookingView.post: all-or-nothing booking of the named seats of one flight,
   * priced with the clock's distance to departure.
   */
  function BookNamed(db: Db, fid: int, userId: Option<int>, numbers: seq<string>, daysBefore: int, uuidHex: string): (r: (Response, Db))
    requires IsUuidHex(uuidHex)
    ensures r.0.Failed? || r.0.Created?
    ensures r.0.Failed? ==> r.1 == db
    ensures r.0.Created? ==> r.0.booking == |db.bookings| + 1 == |r.1.bookings|
  {
    if !HasFlight(db, fid) then (Failed(FlightNotFound), db)
    else if userId.None? || userId.value == 0 || numbers == [] then (Failed(FieldsRequired), db)
    else if !HasUser(db, userId.value) then (Failed(UserNotFound), db)
    else
      var idx := Select(db.seats, ByNumbers(fid, numbers));
      if |idx| != |numbers| then (Failed(SeatsNotFound), db)
      else match FirstBooked(db.seats, idx)
        case Some(j) => (Failed(SeatAlreadyBooked(db.seats[j].seatNumber)), db)
        case None =>
          if |idx| > FlightOf(db, fid).availableSeats then (Failed(NotEnoughSeats), db)
          else match DynamicPrice(FlightOf(db, fid), Some(daysBefore))
            case None => (Failed(ServerError), db)
            case Some(price) => (Created(|db.bookings| + 1), Commit(db, fid, userId.value, idx, price, uuidHex))
  }

  /** The seats the auto-pick branch takes: the first n free seats of the flight, or all there are. */
  function Picked(db: Db, fid: int, n: nat): (r: seq<nat>)
    ensures |r| <= n
    ensures forall i :: 0 <= i < |r| ==> r[i] < |db.seats| && db.seats[r[i]].flight == fid && !db.seats[r[i]].isBooked
    ensures |r| < n ==> forall j :: 0 <= j < |db.seats| && db.seats[j].flight == fid && !db.seats[j].isBooked ==> j in r
  {
    var free := Select(db.seats, Unbooked(fid));
    if n <= |free| then free[..n] else free
  }

  /**
   * BookingCreateView.post: with seat numbers it is SeatBookingView.post; without, it books
   * the first `seatsBooked` (default 1) free seats. This branch does not compare the count
   * with the flight's available seats.
   */
  function CreateBooking(db: Db, fid: int, userId: Option<int>, numbers: seq<string>, seatsBooked: Option<int>,
                         daysBefore: int, uuidHex: string): (r: (Response, Db))
    requires IsUuidHex(uuidHex)
    ensures r.0.Failed? || r.0.Created?
    ensures r.0.Failed? ==> r.1 == db
    ensures r.0.Created? ==> r.0.booking == |db.bookings| + 1 == |r.1.bookings|
  {
    if !HasFlight(db, fid) then (Failed(FlightNotFound), db)
    else if userId.None? || !HasUser(db, userId.value) then (Failed(UserNotFound), db)
    else if numbers != [] then BookNamed(db, fid, userId, numbers, daysBefore, uuidHex)
    else
      var n := seatsBooked.GetOr(1);
      if n < 0 then (Failed(ServerError), db)   // a negative slice is refused by the ORM
      else
        var picked := Picked(db, fid, n);
        if |picked| != n then (Failed(NoFreeSeats), db)
        else match DynamicPrice(FlightOf(db, fid), Some(daysBefore))
          case None => (Failed(ServerError), db)
          case Some(price) => (Created(|db.bookings| + 1), Commit(db, fid, userId.value, picked, price, uuidHex))
  }

  /**
   * BookingCancelView.post: frees every seat linked to the booking, gives them back to the
   * booking's flight, and marks the booking cancelled (saving it, which keeps its PNR).
   */
  function Cancel(db: Db, bid: int, uuidHex: string): (r: (Response, Db))
    requires IsUuidHex(uuidHex) && BookingsValid(db)
    ensures r.0.Failed? || r.0.CancelledOk?
    ensures r.0.Failed? ==> r.1 == db
    ensures r.0.Failed? <==> !HasBooking(db, bid) || BookingOf(db, bid).status == Cancelled
  {
    if !HasBooking(db, bid) then (Failed(BookingNotFound), db)
    else
      var b := BookingOf(db, bid);
      if b.status == Cancelled then (Failed(AlreadyCancelled), db)
      else
        var linked := Select(db.seats, LinkedTo(bid));
        var f := FlightOf(db, b.flight);
        var b' := b.(status := Cancelled, pnr := SavePnr(b.pnr, uuidHex));
        (CancelledOk(b'.pnr),
         Db(db.users,
            db.flights[b.flight - 1 := f.(availableSeats := f.availableSeats + |linked|)],
            Relink(db.seats, linked, None),
            db.bookings[bid - 1 := b']))
  }

  // ---------------------------------------------------------------------------
  // Properties of the named-seat booking
  // ---------------------------------------------------------------------------

  /** The seat numbers at the selected positions. */
  function NumbersAt(seats: seq<Seat>, idx: seq<nat>): seq<string>
    requires forall i :: 0 <= i < |idx| ==> idx[i] < |seats|
  {
    seq(|idx|, k requires 0 <= k < |idx| => seats[idx[k]].seatNumber)
  }

  /**
   * With seat numbers unique per flight, the query finds as many seats as numbers were
   * asked for exactly when no number repeats and every number is one of the flight's.
   */
  lemma MatchCount(seats: seq<Seat>, fid: int, numbers: seq<string>)
    requires UniqueSeatNumbers(seats)
    ensures |Select(seats, ByNumbers(fid, numbers))| == |numbers|
        <==> NoDup(numbers) && Elements(numbers) <= KnownNumbers(seats, fid)
  {
    var idx := Select(seats, ByNumbers(fid, numbers));
    var nums := NumbersAt(seats, idx);
    var known := KnownNumbers(seats, fid);
    var asked := Elements(numbers);
    MatchedNumbersDistinct(seats, fid, numbers);
    MatchedNumbers(seats, fid, numbers);
    ElementsCard(nums);
    ElementsCard(numbers);
    SubsetCard(asked * known, asked);
    assert |asked * known| == |idx|;
    if |idx| == |numbers| {
      assert |asked| == |numbers|;
      assert asked * known == asked;
    }
    if NoDup(numbers) && asked <= known {
      assert asked * known == asked;
    }
  }

  /** The matched seats are of one flight, so their numbers are distinct. */
  lemma MatchedNumbersDistinct(seats: seq<Seat>, fid: int, numbers: seq<string>)
    requires UniqueSeatNumbers(seats)
    ensures NoDup(NumbersAt(seats, Select(seats, ByNumbers(fid, numbers))))
  {
    var idx := Select(seats, ByNumbers(fid, numbers));
    var nums := NumbersAt(seats, idx);
    forall i, j | 0 <= i < j < |nums| ensures nums[i] != nums[j] {
      assert idx[i] < idx[j];
      assert seats[idx[i]].flight == fid == seats[idx[j]].flight;
    }
  }

  /** The numbers of the matched seats are the asked-for numbers that the flight has. */
  lemma MatchedNumbers(seats: seq<Seat>, fid: int, numbers: seq<string>)
    ensures Elements(NumbersAt(seats, Select(seats, ByNumbers(fid, numbers))))
         == Elements(numbers) * KnownNumbers(seats, fid)
  {
    var q := ByNumbers(fid, numbers);
    var idx := Select(seats, q);
    var nums := NumbersAt(seats, idx);
    forall x | x in Elements(nums) ensures x in Elements(numbers) * KnownNumbers(seats, fid) {
      var k :| 0 <= k < |nums| && nums[k] == x;
      assert Hits(q, seats[idx[k]]);
    }
    forall x | x in Elements(numbers) * KnownNumbers(seats, fid) ensures x in Elements(nums) {
      var j :| 0 <= j < |seats| && seats[j].flight == fid && seats[j].seatNumber == x;
      assert Hits(q, seats[j]);
      var k :| 0 <= k < |idx| && idx[k] == j;
      assert nums[k] == x;
    }
  }

  function BookedSeat(s: Seat, bid: Id): Seat {
    s.(isBooked := true, booking := Some(bid))
  }

  /** Named booking fails with "seats not found" exactly when a number is unknown to the flight or repeated. */
  lemma BookNamedSeatsNotFound(db: Db, fid: int, uid: int, numbers: seq<string>, daysBefore: int, uuidHex: string)
    requires IsUuidHex(uuidHex) && UniqueSeatNumbers(db.seats)
    requires HasFlight(db, fid) && HasUser(db, uid) && numbers != []
    ensures BookNamed(db, fid, Some(uid), numbers, daysBefore, uuidHex).0 == Failed(SeatsNotFound)
        <==> !(NoDup(numbers) && Elements(numbers) <= KnownNumbers(db.seats, fid))
  {
    MatchCount(db.seats, fid, numbers);
  }

  /** A request without a user id (or with id 0) or without seat numbers is refused. */
  lemma BookNamedRequiresFields(db: Db, fid: int, userId: Option<int>, numbers: seq<string>, daysBefore: int, uuidHex: string)
    requires IsUuidHex(uuidHex) && HasFlight(db, fid)
    requires userId.None? || userId.value == 0 || numbers == []
    ensures BookNamed(db, fid, userId, numbers, daysBefore, uuidHex) == (Failed(FieldsRequired), db)
  {
  }

  /** "Already booked" names a requested seat of the flight that is booked. */
  lemma BookNamedAlreadyBooked(db: Db, fid: int, userId: Option<int>, numbers: seq<string>, daysBefore: int, uuidHex: string, x: string)
    requires IsUuidHex(uuidHex)
    requires BookNamed(db, fid, userId, numbers, daysBefore, uuidHex).0 == Failed(SeatAlreadyBooked(x))
    ensures exists j :: 0 <= j < |db.seats| && db.seats[j].flight == fid && db.seats[j].seatNumber == x
                        && x in numbers && db.seats[j].isBooked
  {
    var idx := Select(db.seats, ByNumbers(fid, numbers));
    var j := FirstBooked(db.seats, idx).value;
    var k :| 0 <= k < |idx| && idx[k] == j;
    assert Hits(ByNumbers(fid, numbers), db.seats[j]);
  }

  /**
   * A request whose seat numbers all match, one seat each, but name a booked seat is
   * refused as "already booked" with a booked, requested seat of the flight, before the
   * available-seats check.
   */
  lemma BookNamedRejectsBooked(db: Db, fid: int, uid: int, numbers: seq<string>, daysBefore: int, uuidHex: string, j: nat)
    requires IsUuidHex(uuidHex) && UniqueSeatNumbers(db.seats)
    requires HasFlight(db, fid) && HasUser(db, uid) && NoDup(numbers) && Elements(numbers) <= KnownNumbers(db.seats, fid)
    requires j < |db.seats| && db.seats[j].flight == fid && db.seats[j].seatNumber in numbers && db.seats[j].isBooked
    ensures var r := BookNamed(db, fid, Some(uid), numbers, daysBefore, uuidHex).0;
      && r.Failed? && r.failure.SeatAlreadyBooked?
      && exists i :: 0 <= i < |db.seats| && db.seats[i].flight == fid && db.seats[i].seatNumber == r.failure.seatNumber
                     && r.failure.seatNumber in numbers && db.seats[i].isBooked
  {
    var q := ByNumbers(fid, numbers);
    var idx := Select(db.seats, q);
    MatchCount(db.seats, fid, numbers);
    assert Hits(q, db.seats[j]);
    assert j in idx;
    var k :| 0 <= k < |idx| && idx[k] == j;
    assert !(forall i :: 0 <= i < |idx| ==> !db.seats[idx[i]].isBooked);
    BookNamedAlreadyBooked(db, fid, Some(uid), numbers, daysBefore, uuidHex,
                           BookNamed(db, fid, Some(uid), numbers, daysBefore, uuidHex).0.failure.seatNumber);
  }

  /** More seats than the flight has available are refused. */
  lemma BookNamedNotEnough(db: Db, fid: int, userId: Option<int>, numbers: seq<string>, daysBefore: int, uuidHex: string)
    requires IsUuidHex(uuidHex)
    requires BookNamed(db, fid, userId, numbers, daysBefore, uuidHex).0 == Failed(NotEnoughSeats)
    ensures HasFlight(db, fid) && |numbers| > FlightOf(db, fid).availableSeats
  {
  }

  /**
   * What committing a booking of the seats at `idx` does: those seats become booked and
   * linked to the new booking, every other seat stays; the booking is appended, confirmed,
   * with a PNR and one ticket per seat at the given price; the flight loses that many
   * available seats (never below zero); no other flight and no user changes.
   */
  ghost predicate Committed(db: Db, db': Db, fid: int, uid: Id, idx: seq<nat>, price: real)
    requires HasFlight(db, fid)
  {
    var f := FlightOf(db, fid);
    && |db'.seats| == |db.seats|
    && (forall j :: 0 <= j < |db.seats| ==>
          db'.seats[j] == if j in idx then BookedSeat(db.seats[j], |db.bookings| + 1) else db.seats[j])
    && |db'.bookings| == |db.bookings| + 1 && db'.bookings[..|db.bookings|] == db.bookings
    && (var b := db'.bookings[|db.bookings|];
        && b.user == uid && b.flight == fid && b.status == Confirmed && IsPnr(b.pnr)
        && b.seatsBooked == |idx| && b.pricePerTicket == price && b.totalPrice == price * |idx| as real)
    && |db'.flights| == |db.flights|
    && FlightOf(db', fid) == f.(availableSeats := Max(0, f.availableSeats - |idx|))
    && (forall k :: 1 <= k <= |db.flights| && k != fid ==> FlightOf(db', k) == FlightOf(db, k))
    && db'.users == db.users
  }

  lemma CommitSpec(db: Db, fid: int, uid: Id, idx: seq<nat>, price: real, uuidHex: string)
    requires HasFlight(db, fid) && IsUuidHex(uuidHex)
    ensures Committed(db, Commit(db, fid, uid, idx, price, uuidHex), fid, uid, idx, price)
  {
  }


  /**
   * A successful named booking commits exactly the seats of the flight whose numbers were
   * asked for, one per number; every one of them was free, the flight had that many seats
   * available, and the price per ticket is the dynamic price.
   */
  lemma BookNamedSuccess(db: Db, fid: int, userId: Option<int>, numbers: seq<string>, daysBefore: int, uuidHex: string)
    requires IsUuidHex(uuidHex)
    requires BookNamed(db, fid, userId, numbers, daysBefore, uuidHex).0.Created?
    ensures HasFlight(db, fid) && userId.Some? && HasUser(db, userId.value)
    ensures var (r, db') := BookNamed(db, fid, userId, numbers, daysBefore, uuidHex);
      var idx := Select(db.seats, ByNumbers(fid, numbers));
      var f := FlightOf(db, fid);
      && r.booking == |db.bookings| + 1
      && |idx| == |numbers| && 1 <= |numbers| <= f.availableSeats
      && (forall j :: 0 <= j < |db.seats| ==> (j in idx <==> Hits(ByNumbers(fid, numbers), db.seats[j])))
      && (forall j :: j in idx ==> !db.seats[j].isBooked)
      && DynamicPrice(f, Some(daysBefore)).Some?
      && Committed(db, db', fid, userId.value, idx, DynamicPrice(f, Some(daysBefore)).value)
  {
    var q := ByNumbers(fid, numbers);
    var idx := Select(db.seats, q);
    var f := FlightOf(db, fid);
    var price := DynamicPrice(f, Some(daysBefore)).value;
    BookNamedPath(db, fid, userId, numbers, daysBefore, uuidHex);
    CommitSpec(db, fid, userId.value, idx, price, uuidHex);
    forall j | j in idx ensures !db.seats[j].isBooked {
      var k :| 0 <= k < |idx| && idx[k] == j;
    }
  }

  /** The path a successful named booking takes through the view. */
  lemma BookNamedPath(db: Db, fid: int, userId: Option<int>, numbers: seq<string>, daysBefore: int, uuidHex: string)
    requires IsUuidHex(uuidHex)
    requires BookNamed(db, fid, userId, numbers, daysBefore, uuidHex).0.Created?
    ensures HasFlight(db, fid) && userId.Some? && userId.value != 0 && HasUser(db, userId.value) && numbers != []
    ensures var idx := Select(db.seats, ByNumbers(fid, numbers));
      && |idx| == |numbers| && FirstBooked(db.seats, idx).None? && |idx| <= FlightOf(db, fid).availableSeats
      && DynamicPrice(FlightOf(db, fid), Some(daysBefore)).Some?
      && BookNamed(db, fid, userId, numbers, daysBefore, uuidHex)
         == (Created(|db.bookings| + 1),
             Commit(db, fid, userId.value, idx, DynamicPrice(FlightOf(db, fid), Some(daysBefore)).value, uuidHex))
  {
  }

  /** A commit of seats of the flight keeps the invariant. */
  lemma CommitValid(db: Db, fid: int, uid: Id, idx: seq<nat>, price: real, uuidHex: string)
    requires Valid(db) && HasFlight(db, fid) && HasUser(db, uid) && IsUuidHex(uuidHex)
    requires forall i :: 0 <= i < |idx| ==> idx[i] < |db.seats| && db.seats[idx[i]].flight == fid
    ensures Valid(Commit(db, fid, uid, idx, price, uuidHex))
  {
    var db' := Commit(db, fid, uid, idx, price, uuidHex);
    var nb := |db.bookings|;
    CommitSpec(db, fid, uid, idx, price, uuidHex);
    forall j | 0 <= j < |db'.seats| ensures SeatValid(db', db'.seats[j]) {
      assert SeatValid(db, db.seats[j]);
      if j in idx {
        var k :| 0 <= k < |idx| && idx[k] == j;
        assert BookingOf(db', nb + 1) == db'.bookings[nb];
      } else if db.seats[j].booking.Some? {
        var id := db.seats[j].booking.value;
        assert db'.bookings[id - 1] == db'.bookings[..nb][id - 1];
      }
    }
    forall k | 0 <= k < |db'.bookings|
      ensures HasUser(db', db'.bookings[k].user) && HasFlight(db', db'.bookings[k].flight) && db'.bookings[k].pnr != ""
    {
      if k < nb {
        assert db'.bookings[k] == db'.bookings[..nb][k];
      }
    }
  }

  /** Named booking keeps the invariant. */
  lemma BookNamedValid(db: Db, fid: int, userId: Option<int>, numbers: seq<string>, daysBefore: int, uuidHex: string)
    requires IsUuidHex(uuidHex) && Valid(db)
    ensures Valid(BookNamed(db, fid, userId, numbers, daysBefore, uuidHex).1)
  {
    if BookNamed(db, fid, userId, numbers, daysBefore, uuidHex).0.Created? {
      BookNamedPath(db, fid, userId, numbers, daysBefore, uuidHex);
      var idx := Select(db.seats, ByNumbers(fid, numbers));
      CommitValid(db, fid, userId.value, idx, DynamicPrice(FlightOf(db, fid), Some(daysBefore)).value, uuidHex);
    }
  }

  // ---------------------------------------------------------------------------
  // Properties of the generic booking endpoint
  // ---------------------------------------------------------------------------

  /** With seat numbers, the generic endpoint answers exactly as the named-seat endpoint, once the user exists. */
  lemma CreateBookingDelegates(db: Db, fid: int, uid: int, numbers: seq<string>, seatsBooked: Option<int>, daysBefore: int, uuidHex: string)
    requires IsUuidHex(uuidHex) && HasFlight(db, fid) && HasUser(db, uid) && numbers != []
    ensures CreateBooking(db, fid, Some(uid), numbers, seatsBooked, daysBefore, uuidHex)
         == BookNamed(db, fid, Some(uid), numbers, daysBefore, uuidHex)
  {
  }

  /**
   * The outcome of the auto-pick branch: a negative count or a flight without seats is a
   * server error, too few free seats is refused, and otherwise the booking is made.
   */
  lemma AutoPickOutcome(db: Db, fid: int, uid: int, seatsBooked: Option<int>, daysBefore: int, uuidHex: string)
    requires IsUuidHex(uuidHex) && HasFlight(db, fid) && HasUser(db, uid)
    ensures var n := seatsBooked.GetOr(1);
      var free := |Select(db.seats, Unbooked(fid))|;
      var r := CreateBooking(db, fid, Some(uid), [], seatsBooked, daysBefore, uuidHex).0;
      && (r == Failed(ServerError) <==> n < 0 || (n <= free && FlightOf(db, fid).totalSeats == 0))
      && (r == Failed(NoFreeSeats) <==> 0 <= n && free < n)
      && (r.Created? <==> 0 <= n <= free && FlightOf(db, fid).totalSeats != 0)
  {
  }

  /**
   * A successful auto-pick books the first n free seats of the flight in table order
   * (n defaults to 1): each was free and belongs to the flight, and every free seat of the
   * flight left over comes after all of them.
   */
  lemma AutoPickSuccess(db: Db, fid: int, userId: Option<int>, seatsBooked: Option<int>, daysBefore: int, uuidHex: string)
    requires IsUuidHex(uuidHex)
    requires CreateBooking(db, fid, userId, [], seatsBooked, daysBefore, uuidHex).0.Created?
    ensures HasFlight(db, fid) && userId.Some? && HasUser(db, userId.value) && seatsBooked.GetOr(1) >= 0
    ensures var (r, db') := CreateBooking(db, fid, userId, [], seatsBooked, daysBefore, uuidHex);
      var n: nat := seatsBooked.GetOr(1);
      var picked := Picked(db, fid, n);
      var f := FlightOf(db, fid);
      && |picked| == n && r.booking == |db.bookings| + 1
      && (forall i :: 0 <= i < n ==> picked[i] < |db.seats| && db.seats[picked[i]].flight == fid && !db.seats[picked[i]].isBooked)
      && Increasing(picked)
      && (forall j, i :: 0 <= j < |db.seats| && Hits(Unbooked(fid), db.seats[j]) && j !in picked && 0 <= i < n ==> picked[i] < j)
      && DynamicPrice(f, Some(daysBefore)).Some?
      && Committed(db, db', fid, userId.value, picked, DynamicPrice(f, Some(daysBefore)).value)
  {
    var n := seatsBooked.GetOr(1);
    AutoPickPath(db, fid, userId, seatsBooked, daysBefore, uuidHex);
    PickedFirst(db, fid, n);
    CommitSpec(db, fid, userId.value, Picked(db, fid, n), DynamicPrice(FlightOf(db, fid), Some(daysBefore)).value, uuidHex);
  }

  /** The path a successful auto-pick takes through the view. */
  lemma AutoPickPath(db: Db, fid: int, userId: Option<int>, seatsBooked: Option<int>, daysBefore: int, uuidHex: string)
    requires IsUuidHex(uuidHex)
    requires CreateBooking(db, fid, userId, [], seatsBooked, daysBefore, uuidHex).0.Created?
    ensures HasFlight(db, fid) && userId.Some? && HasUser(db, userId.value) && seatsBooked.GetOr(1) >= 0
    ensures var n: nat := seatsBooked.GetOr(1);
      && |Picked(db, fid, n)| == n
      && DynamicPrice(FlightOf(db, fid), Some(daysBefore)).Some?
      && CreateBooking(db, fid, userId, [], seatsBooked, daysBefore, uuidHex)
         == (Created(|db.bookings| + 1),
             Commit(db, fid, userId.value, Picked(db, fid, n), DynamicPrice(FlightOf(db, fid), Some(daysBefore)).value, uuidHex))
  {
  }

  /**
   * Picking n of a flight's free seats, when there are that many, takes them in table order
   * and leaves only later free seats behind.
   */
  lemma PickedFirst(db: Db, fid: int, n: nat)
    requires |Picked(db, fid, n)| == n
    ensures var picked := Picked(db, fid, n);
      && (forall i :: 0 <= i < n ==> picked[i] < |db.seats| && db.seats[picked[i]].flight == fid && !db.seats[picked[i]].isBooked)
      && Increasing(picked)
      && (forall j, i :: 0 <= j < |db.seats| && Hits(Unbooked(fid), db.seats[j]) && j !in picked && 0 <= i < n ==> picked[i] < j)
  {
    var free := Select(db.seats, Unbooked(fid));
    var picked := Picked(db, fid, n);
    assert picked == free[..n];
    assert forall i :: 0 <= i < n ==> picked[i] == free[i];
    forall j, i | 0 <= j < |db.seats| && Hits(Unbooked(fid), db.seats[j]) && j !in picked && 0 <= i < n
      ensures picked[i] < j
    {
      var k :| 0 <= k < |free| && free[k] == j;
      assert free[i] < free[k];
    }
  }

  /** The generic endpoint keeps the invariant. */
  lemma CreateBookingValid(db: Db, fid: int, userId: Option<int>, numbers: seq<string>, seatsBooked: Option<int>, daysBefore: int, uuidHex: string)
    requires IsUuidHex(uuidHex) && Valid(db)
    ensures Valid(CreateBooking(db, fid, userId, numbers, seatsBooked, daysBefore, uuidHex).1)
  {
    if numbers != [] {
      BookNamedValid(db, fid, userId, numbers, daysBefore, uuidHex);
    } else if CreateBooking(db, fid, userId, numbers, seatsBooked, daysBefore, uuidHex).0.Created? {
      var n := seatsBooked.GetOr(1);
      var picked := Picked(db, fid, n);
      var f := FlightOf(db, fid);
      CommitValid(db, fid, userId.value, picked, DynamicPrice(f, Some(daysBefore)).value, uuidHex);
    }
  }

  // ---------------------------------------------------------------------------
  // Properties of cancellation
  // ---------------------------------------------------------------------------

  function FreedSeat(s: Seat): Seat {
    s.(isBooked := false, booking := None)
  }

  /**
   * A successful cancellation: the booking was confirmed; every seat linked to it was booked
   * on its flight and is now free and unlinked, every other seat stays; the flight gets back
   * one available seat per freed seat; the booking becomes cancelled and keeps its PNR, which
   * the response reports; nothing else changes.
   */
  lemma CancelSpec(db: Db, bid: int, uuidHex: string)
    requires IsUuidHex(uuidHex) && Valid(db)
    requires Cancel(db, bid, uuidHex).0.CancelledOk?
    ensures HasBooking(db, bid) && BookingOf(db, bid).status == Confirmed
    ensures var (r, db') := Cancel(db, bid, uuidHex);
      var b := BookingOf(db, bid);
      var linked := Select(db.seats, LinkedTo(bid));
      var f := FlightOf(db, b.flight);
      && r.pnr == b.pnr
      && |db'.seats| == |db.seats|
      && (forall j :: 0 <= j < |db.seats| ==>
            db'.seats[j] == if db.seats[j].booking == Some(bid) then FreedSeat(db.seats[j]) else db.seats[j])
      && (forall j :: 0 <= j < |db.seats| && db.seats[j].booking == Some(bid) ==>
            db.seats[j].isBooked && db.seats[j].flight == b.flight)
      && |db'.bookings| == |db.bookings| && BookingOf(db', bid) == b.(status := Cancelled)
      && (forall k :: HasBooking(db, k) && k != bid ==> BookingOf(db', k) == BookingOf(db, k))
      && |db'.flights| == |db.flights|
      && FlightOf(db', b.flight) == f.(availableSeats := f.availableSeats + |linked|)
      && (forall k :: HasFlight(db, k) && k != b.flight ==> FlightOf(db', k) == FlightOf(db, k))
      && db'.users == db.users
  {
    var b := BookingOf(db, bid);
    assert b == db.bookings[bid - 1];
    var linked := Select(db.seats, LinkedTo(bid));
    forall j | 0 <= j < |db.seats| && db.seats[j].booking == Some(bid)
      ensures db.seats[j].isBooked && db.seats[j].flight == b.flight && j in linked
    {
      assert SeatValid(db, db.seats[j]);
      assert Hits(LinkedTo(bid), db.seats[j]);
    }
  }

  /** Cancellation keeps the invariant. */
  lemma CancelValid(db: Db, bid: int, uuidHex: string)
    requires IsUuidHex(uuidHex) && Valid(db)
    ensures Valid(Cancel(db, bid, uuidHex).1)
  {
    if Cancel(db, bid, uuidHex).0.CancelledOk? {
      var db' := Cancel(db, bid, uuidHex).1;
      forall j | 0 <= j < |db'.seats| ensures SeatValid(db', db'.seats[j]) {
        CancelKeepsSeat(db, bid, uuidHex, j);
      }
      CancelKeepsBookings(db, bid, uuidHex);
      assert UniqueSeatNumbers(db'.seats) by {
        assert forall j :: 0 <= j < |db.seats| ==> db'.seats[j].flight == db.seats[j].flight && db'.seats[j].seatNumber == db.seats[j].seatNumber;
      }
    }
  }

  /** One seat after a cancellation: freed if it was linked to the booking, otherwise valid as before. */
  lemma CancelKeepsSeat(db: Db, bid: int, uuidHex: string, j: nat)
    requires IsUuidHex(uuidHex) && Valid(db)
    requires Cancel(db, bid, uuidHex).0.CancelledOk?
    requires j < |Cancel(db, bid, uuidHex).1.seats|
    ensures SeatValid(Cancel(db, bid, uuidHex).1, Cancel(db, bid, uuidHex).1.seats[j])
  {
    var db' := Cancel(db, bid, uuidHex).1;
    CancelSpec(db, bid, uuidHex);
    var s := db.seats[j];
    assert SeatValid(db, s);
    if s.booking.Some? && s.booking != Some(bid) {
      assert BookingOf(db', s.booking.value) == BookingOf(db, s.booking.value);
    }
  }

  /** After a cancellation every booking still has its user, its flight and its PNR. */
  lemma CancelKeepsBookings(db: Db, bid: int, uuidHex: string)
    requires IsUuidHex(uuidHex) && Valid(db)
    requires Cancel(db, bid, uuidHex).0.CancelledOk?
    ensures BookingsValid(Cancel(db, bid, uuidHex).1) && Accounts.EmailsUnique(Cancel(db, bid, uuidHex).1.users)
  {
    var db' := Cancel(db, bid, uuidHex).1;
    CancelSpec(db, bid, uuidHex);
    forall k | 0 <= k < |db'.bookings|
      ensures HasUser(db', db'.bookings[k].user) && HasFlight(db', db'.bookings[k].flight) && db'.bookings[k].pnr != ""
    {
      assert BookingOf(db', k + 1) == db'.bookings[k];
      if k + 1 != bid {
        assert BookingOf(db, k + 1) == db.bookings[k];
      }
    }
  }

  // ---------------------------------------------------------------------------
  // Status codes
  // ---------------------------------------------------------------------------

  /**
   * SeatBookingView.post answers 201 on success; 404 for a missing flight, and for a missing
   * user once both fields are given; 500 only when pricing a flight without seats raises; and
   * 400 for every other refusal.
   */
  lemma BookNamedStatus(db: Db, fid: int, userId: Option<int>, numbers: seq<string>, daysBefore: int, uuidHex: string)
    requires IsUuidHex(uuidHex)
    ensures var r := BookNamed(db, fid, userId, numbers, daysBefore, uuidHex).0;
      var s := HttpStatus(r);
      && (s == 201 <==> r.Created?)
      && (s == 404 <==> !HasFlight(db, fid)
                        || (userId.Some? && userId.value != 0 && numbers != [] && !HasUser(db, userId.value)))
      && (s == 500 <==> r == Failed(ServerError))
      && (s == 500 ==> HasFlight(db, fid) && FlightOf(db, fid).totalSeats == 0)
      && (s != 201 && s != 404 && s != 500 ==> s == 400)
  {
  }

  /**
   * BookingCreateView.post answers 201 on success; 404 for a missing flight or user; 500 for
   * a negative seat count in the auto-pick branch or when pricing a flight without seats
   * raises; and 400 for every other refusal.
   */
  lemma CreateBookingStatus(db: Db, fid: int, userId: Option<int>, numbers: seq<string>, seatsBooked: Option<int>,
                            daysBefore: int, uuidHex: string)
    requires IsUuidHex(uuidHex)
    ensures var r := CreateBooking(db, fid, userId, numbers, seatsBooked, daysBefore, uuidHex).0;
      var s := HttpStatus(r);
      && (s == 201 <==> r.Created?)
      && (s == 404 <==> !HasFlight(db, fid) || userId.None? || !HasUser(db, userId.value))
      && (s == 500 <==> r == Failed(ServerError))
      && (s == 500 ==> HasFlight(db, fid)
                       && (FlightOf(db, fid).totalSeats == 0 || (numbers == [] && seatsBooked.GetOr(1) < 0)))
      && (s != 201 && s != 404 && s != 500 ==> s == 400)
  {
    if HasFlight(db, fid) && userId.Some? && HasUser(db, userId.value) && numbers != [] {
      BookNamedStatus(db, fid, userId, numbers, daysBefore, uuidHex);
    }
  }

  /**
   * BookingCancelView.post answers 404 for a missing booking, 400 for one already cancelled,
   * and 200 otherwise.
   */
  lemma CancelStatus(db: Db, bid: int, uuidHex: string)
    requires IsUuidHex(uuidHex) && BookingsValid(db)
    ensures var s := HttpStatus(Cancel(db, bid, uuidHex).0);
      && (s == 404 <==> !HasBooking(db, bid))
      && (s == 400 <==> HasBooking(db, bid) && BookingOf(db, bid).status == Cancelled)
      && (s == 200 <==> HasBooking(db, bid) && BookingOf(db, bid).status == Confirmed)
  {
  }

  // ---------------------------------------------------------------------------
  // Booking then cancelling
  // ---------------------------------------------------------------------------

  /** After a named booking, the seats linked to the new booking are exactly the ones it selected. */
  lemma LinkedAfterBooking(db: Db, fid: int, userId: Option<int>, numbers: seq<string>, daysBefore: int, uuidHex: string)
    requires IsUuidHex(uuidHex) && Valid(db)
    requires BookNamed(db, fid, userId, numbers, daysBefore, uuidHex).0.Created?
    ensures var db1 := BookNamed(db, fid, userId, numbers, daysBefore, uuidHex).1;
      Select(db1.seats, LinkedTo(|db.bookings| + 1)) == Select(db.seats, ByNumbers(fid, numbers))
  {
    var db1 := BookNamed(db, fid, userId, numbers, daysBefore, uuidHex).1;
    var bid := |db.bookings| + 1;
    BookNamedSuccess(db, fid, userId, numbers, daysBefore, uuidHex);
    forall j | 0 <= j < |db1.seats|
      ensures Hits(LinkedTo(bid), db1.seats[j]) <==> Hits(ByNumbers(fid, numbers), db.seats[j])
    {
      assert SeatValid(db, db.seats[j]);
    }
    SelectAgree(db1.seats, LinkedTo(bid), db.seats, ByNumbers(fid, numbers));
  }

  /** Cancelling a booking just made by the named-seat endpoint gives every seat back as it was. */
  lemma BookThenCancelSeats(db: Db, fid: int, userId: Option<int>, numbers: seq<string>, daysBefore: int, h1: string, h2: string)
    requires IsUuidHex(h1) && IsUuidHex(h2) && Valid(db)
    requires BookNamed(db, fid, userId, numbers, daysBefore, h1).0.Created?
    ensures BookingsValid(BookNamed(db, fid, userId, numbers, daysBefore, h1).1)
    ensures Cancel(BookNamed(db, fid, userId, numbers, daysBefore, h1).1, |db.bookings| + 1, h2).1.seats == db.seats
  {
    BookNamedValid(db, fid, userId, numbers, daysBefore, h1);
    BookNamedSuccess(db, fid, userId, numbers, daysBefore, h1);
    LinkedAfterBooking(db, fid, userId, numbers, daysBefore, h1);
    var db1 := BookNamed(db, fid, userId, numbers, daysBefore, h1).1;
    var bid := |db.bookings| + 1;
    var idx := Select(db.seats, ByNumbers(fid, numbers));
    var db2 := Cancel(db1, bid, h2).1;
    assert db2.seats == Relink(db1.seats, idx, None);
    forall j | 0 <= j < |db.seats| ensures db2.seats[j] == db.seats[j] {
      assert SeatValid(db, db.seats[j]);
    }
  }

  /**
   * Cancelling a booking right after committing it, when the seats linked to it are the
   * committed ones and the flight had enough available seats, gives the flight its seats back
   * and leaves the users and the older bookings as they were.
   */
  lemma CancelAfterCommit(db: Db, fid: int, uid: Id, idx: seq<nat>, price: real, h1: string, h2: string)
    requires HasFlight(db, fid) && IsUuidHex(h1) && IsUuidHex(h2)
    requires |idx| <= FlightOf(db, fid).availableSeats
    requires BookingsValid(Commit(db, fid, uid, idx, price, h1))
    requires Select(Commit(db, fid, uid, idx, price, h1).seats, LinkedTo(|db.bookings| + 1)) == idx
    ensures var db1 := Commit(db, fid, uid, idx, price, h1);
      var c := Cancel(db1, |db.bookings| + 1, h2);
      && c.0 == CancelledOk(db1.bookings[|db.bookings|].pnr)
      && c.1.users == db.users
      && c.1.flights == db.flights
      && c.1.bookings == db.bookings + [db1.bookings[|db.bookings|].(status := Cancelled)]
  {
    CancelAfterCommitFlights(db, fid, uid, idx, price, h1, h2);
    CancelAfterCommitBookings(db, fid, uid, idx, price, h1, h2);
  }

  /** The flights part: the cancel returns to the flight the seats the commit took. */
  lemma CancelAfterCommitFlights(db: Db, fid: int, uid: Id, idx: seq<nat>, price: real, h1: string, h2: string)
    requires HasFlight(db, fid) && IsUuidHex(h1) && IsUuidHex(h2)
    requires |idx| <= FlightOf(db, fid).availableSeats
    requires BookingsValid(Commit(db, fid, uid, idx, price, h1))
    requires Select(Commit(db, fid, uid, idx, price, h1).seats, LinkedTo(|db.bookings| + 1)) == idx
    ensures Cancel(Commit(db, fid, uid, idx, price, h1), |db.bookings| + 1, h2).1.flights == db.flights
  {
    CommitFlights(db, fid, uid, idx, price, h1);
    CancelGivesBack(Commit(db, fid, uid, idx, price, h1), |db.bookings| + 1, h2, db.flights, fid, |idx|);
  }

  /** A commit changes only the committed flight's availability, never below zero. */
  lemma CommitFlights(db: Db, fid: int, uid: Id, idx: seq<nat>, price: real, h: string)
    requires HasFlight(db, fid) && IsUuidHex(h)
    ensures var f := FlightOf(db, fid);
      var db1 := Commit(db, fid, uid, idx, price, h);
      && db1.flights == db.flights[fid - 1 := f.(availableSeats := Max(0, f.availableSeats - |idx|))]
      && HasBooking(db1, |db.bookings| + 1)
      && BookingOf(db1, |db.bookings| + 1).flight == fid && BookingOf(db1, |db.bookings| + 1).status == Confirmed
  {
  }

  /**
   * A successful cancel of a booking whose n seats were taken from flight fid of `flights`
   * (with at least n available) gives back exactly those flights.
   */
  lemma CancelGivesBack(db: Db, bid: int, h: string, flights: seq<Flight>, fid: int, n: nat)
    requires IsUuidHex(h) && BookingsValid(db)
    requires HasBooking(db, bid) && BookingOf(db, bid).flight == fid && BookingOf(db, bid).status == Confirmed
    requires 1 <= fid <= |flights| && flights[fid - 1].availableSeats >= n
    requires db.flights == flights[fid - 1 := flights[fid - 1].(availableSeats := Max(0, flights[fid - 1].availableSeats - n))]
    requires |Select(db.seats, LinkedTo(bid))| == n
    ensures Cancel(db, bid, h).1.flights == flights
  {
    var f := flights[fid - 1];
    var f1 := f.(availableSeats := Max(0, f.availableSeats - n));
    assert FlightOf(db, fid) == f1;
    assert f1.(availableSeats := f1.availableSeats + n) == f;
    SetBack(flights, fid - 1, f1);
  }

  /** The bookings part: the new booking stays, cancelled, with its PNR; the response reports it. */
  lemma CancelAfterCommitBookings(db: Db, fid: int, uid: Id, idx: seq<nat>, price: real, h1: string, h2: string)
    requires HasFlight(db, fid) && IsUuidHex(h1) && IsUuidHex(h2)
    requires BookingsValid(Commit(db, fid, uid, idx, price, h1))
    ensures var db1 := Commit(db, fid, uid, idx, price, h1);
      var c := Cancel(db1, |db.bookings| + 1, h2);
      && c.0 == CancelledOk(db1.bookings[|db.bookings|].pnr)
      && c.1.users == db.users
      && c.1.bookings == db.bookings + [db1.bookings[|db.bookings|].(status := Cancelled)]
  {
    var db1 := Commit(db, fid, uid, idx, price, h1);
    var bid := |db.bookings| + 1;
    var b1 := db1.bookings[|db.bookings|];
    assert db1.bookings == db.bookings + [b1];
    assert |b1.pnr| == 8;
    var b2 := b1.(status := Cancelled);
    assert (db.bookings + [b1])[bid - 1 := b2] == db.bookings + [b2];
  }

  /** Cancelling a booking just made by the named-seat endpoint gives the flight its seats back and leaves the other tables' rows as they were. */
  lemma BookThenCancelRest(db: Db, fid: int, userId: Option<int>, numbers: seq<string>, daysBefore: int, h1: string, h2: string)
    requires IsUuidHex(h1) && IsUuidHex(h2) && Valid(db)
    requires BookNamed(db, fid, userId, numbers, daysBefore, h1).0.Created?
    ensures BookingsValid(BookNamed(db, fid, userId, numbers, daysBefore, h1).1)
    ensures var db1 := BookNamed(db, fid, userId, numbers, daysBefore, h1).1;
      var c := Cancel(db1, |db.bookings| + 1, h2);
      && c.0 == CancelledOk(db1.bookings[|db.bookings|].pnr)
      && c.1.users == db.users
      && c.1.flights == db.flights
      && c.1.bookings == db.bookings + [db1.bookings[|db.bookings|].(status := Cancelled)]
  {
    BookNamedValid(db, fid, userId, numbers, daysBefore, h1);
    BookNamedPath(db, fid, userId, numbers, daysBefore, h1);
    LinkedAfterBooking(db, fid, userId, numbers, daysBefore, h1);
    var idx := Select(db.seats, ByNumbers(fid, numbers));
    var price := DynamicPrice(FlightOf(db, fid), Some(daysBefore)).value;
    CancelAfterCommit(db, fid, userId.value, idx, price, h1, h2);
  }

  /** Overwriting an element and then writing the old value back restores the sequence. */
  lemma SetBack<T>(s: seq<T>, i: nat, x: T)
    requires i < |s|
    ensures s[i := x][i := s[i]] == s
  {
    assert forall k :: 0 <= k < |s| ==> s[i := x][i := s[i]][k] == s[k];
  }

  /**
   * Cancelling a booking just made by the named-seat endpoint succeeds and restores every
   * seat and every flight as they were; the only trace left is the cancelled booking.
   */
  lemma BookThenCancel(db: Db, fid: int, userId: Option<int>, numbers: seq<string>, daysBefore: int, h1: string, h2: string)
    requires IsUuidHex(h1) && IsUuidHex(h2) && Valid(db)
    requires BookNamed(db, fid, userId, numbers, daysBefore, h1).0.Created?
    ensures Valid(BookNamed(db, fid, userId, numbers, daysBefore, h1).1)
    ensures var booked := BookNamed(db, fid, userId, numbers, daysBefore, h1);
      var cancelled := Cancel(booked.1, booked.0.booking, h2);
      && cancelled.0 == CancelledOk(booked.1.bookings[|db.bookings|].pnr)
      && cancelled.1 == Db(db.users, db.flights, db.seats, db.bookings + [booked.1.bookings[|db.bookings|].(status := Cancelled)])
  {
    BookNamedValid(db, fid, userId, numbers, daysBefore, h1);
    BookThenCancelSeats(db, fid, userId, numbers, daysBefore, h1, h2);
    BookThenCancelRest(db, fid, userId, numbers, daysBefore, h1, h2);
  }
}
