/**
 * The records of the backend (users, flights, bookings, seats), the flight's
 * dynamic price and the booking's PNR assignment.
 */
module Models {
  import opened Wrappers

  /** An autoincrement primary key; the first row gets 1. */
  type Id = nat

  datatype User = User(name: string, email: string, passwordHash: string)

  datatype Flight = Flight(
    flightNumber: string,
    source: string,
    destination: string,
    departure: int,                 // departure instant in seconds on one clock
    durationMinutes: Option<int>,   // nullable column
    totalSeats: int,
    availableSeats: int,
    basePrice: real)

  datatype Status = Confirmed | Cancelled

  datatype Booking = Booking(
    user: Id,
    flight: Id,
    seatsBooked: int,
    pricePerTicket: real,
    totalPrice: real,
    pnr: string,                    // "" stands for a missing (null or blank) PNR
    status: Status)

  /** A seat row; (flight, seatNumber) is unique over the seat table. */
  datatype Seat = Seat(flight: Id, seatNumber: string, isBooked: bool, booking: Option<Id>)

  // ---------------------------------------------------------------------------
  // Flight.dynamic_price
  // ---------------------------------------------------------------------------

  /** The share of seats booked; 0 when the flight has no positive seat total. */
  function BookingRatio(total: int, available: int): real {
    if total > 0 then (total - available) as real / total as real else 0.0
  }

  /**
   * The occupancy multiplier. The third tier divides the available seats by the
   * total, so with a zero total there is no multiplier at all (a division by zero).
   */
  function SeatFactor(total: int, available: int): (r: Option<real>)
    ensures r.None? <==> total == 0
  {
    var ratio := BookingRatio(total, available);
    if ratio >= 0.8 then Some(1.5)
    else if ratio >= 0.5 then Some(1.2)
    else if total == 0 then None
    else if available as real / total as real > 0.7 then Some(0.9)
    else Some(1.0)
  }

  /** The booking-date multiplier; no date, no change. Past departures count as "3 days or fewer". */
  function TimeFactor(daysBefore: Option<int>): (r: real)
    ensures daysBefore.None? ==> r == 1.0
    ensures 0.85 <= r <= 1.25
  {
    match daysBefore
    case None => 1.0
    case Some(d) => if d > 30 then 0.85 else if d <= 3 then 1.25 else 1.0
  }

  /** Booking closer to departure never makes the time multiplier smaller. */
  lemma TimeFactorMonotone(d1: int, d2: int)
    requires d1 <= d2
    ensures TimeFactor(Some(d2)) <= TimeFactor(Some(d1))
    ensures d1 <= 3 < d2 ==> TimeFactor(Some(d2)) < TimeFactor(Some(d1))
  {
  }

  /** Flight.dynamic_price, before rounding; None where the source raises ZeroDivisionError. */
  function DynamicPrice(f: Flight, daysBefore: Option<int>): (r: Option<real>)
    ensures r.None? <==> f.totalSeats == 0
  {
    match SeatFactor(f.totalSeats, f.availableSeats)
    case None => None
    case Some(s) => Some(f.basePrice * s * TimeFactor(daysBefore))
  }

  /** Comparing the fraction b/t with p/q, both denominators positive, is comparing b*q with p*t. */
  lemma RatioCompare(b: int, t: int, p: int, q: int)
    requires t > 0 && q > 0
    ensures (b as real / t as real >= p as real / q as real) <==> b * q >= p * t
    ensures (b as real / t as real > p as real / q as real) <==> b * q > p * t
  {
    var x := b as real / t as real;
    var y := p as real / q as real;
    var tq := (t * q) as real;
    assert x * t as real == b as real;
    assert y * q as real == p as real;
    assert x * tq == (b * q) as real;
    assert y * tq == (p * t) as real;
    assert tq > 0.0;
    assert x >= y <==> x * tq >= y * tq;
    assert x > y <==> x * tq > y * tq;
  }

  /**
   * The tiers in integer terms, for a flight with seats: with b booked seats out of t,
   * 5b >= 4t gives 1.5, 2b >= t gives 1.2, 10(t - b) > 7t gives 0.9 and otherwise 1.0.
   */
  lemma {:induction false} SeatFactorTiers(total: int, available: int)
    requires total > 0
    ensures var b := total - available;
      SeatFactor(total, available) ==
        if 5 * b >= 4 * total then Some(1.5)
        else if 2 * b >= total then Some(1.2)
        else if 10 * available > 7 * total then Some(0.9)
        else Some(1.0)
  {
    var b := total - available;
    RatioCompare(b, total, 4, 5);
    RatioCompare(b, total, 1, 2);
    RatioCompare(available, total, 7, 10);
    assert 4 as real / 5 as real == 0.8;
    assert 1 as real / 2 as real == 0.5;
    assert 7 as real / 10 as real == 0.7;
  }

  /**
   * A fuller flight is never cheaper: with the seat total fixed and a non-negative base price,
   * fewer available seats and fewer days before departure give at least the same price.
   */
  lemma {:induction false} DynamicPriceMonotone(f: Flight, available: int, d1: int, d2: int)
    requires f.totalSeats > 0 && f.basePrice >= 0.0
    requires available <= f.availableSeats && d2 <= d1
    ensures DynamicPrice(f, Some(d1)).value <= DynamicPrice(f.(availableSeats := available), Some(d2)).value
  {
    var t := f.totalSeats;
    SeatFactorMonotone(t, f.availableSeats, available);
    ScaleMonotone(f.basePrice, SeatFactor(t, f.availableSeats).value, SeatFactor(t, available).value,
                  TimeFactor(Some(d1)), TimeFactor(Some(d2)));
  }

  /** Fewer available seats out of the same total never give a smaller occupancy multiplier. */
  lemma SeatFactorMonotone(total: int, a1: int, a2: int)
    requires total > 0 && a2 <= a1
    ensures 0.0 <= SeatFactor(total, a1).value <= SeatFactor(total, a2).value
  {
    SeatFactorTiers(total, a1);
    SeatFactorTiers(total, a2);
  }

  /** Scaling a non-negative amount by larger non-negative factors never gives less. */
  lemma ScaleMonotone(a: real, s1: real, s2: real, t1: real, t2: real)
    requires a >= 0.0 && 0.0 <= s1 <= s2 && 0.0 <= t1 <= t2
    ensures a * s1 * t1 <= a * s2 * t2
  {
    assert a * s1 <= a * s2;
    assert a * s1 * t1 <= a * s2 * t1;
    assert a * s2 * t1 <= a * s2 * t2;
  }

  /** With a non-negative base price the dynamic price stays within 0.765 and 1.875 times the base. */
  lemma DynamicPriceBounds(f: Flight, daysBefore: Option<int>)
    requires f.totalSeats != 0 && f.basePrice >= 0.0
    ensures var p := DynamicPrice(f, daysBefore).value;
      f.basePrice * 0.765 <= p <= f.basePrice * 1.875
  {
    var s := SeatFactor(f.totalSeats, f.availableSeats).value;
    var t := TimeFactor(daysBefore);
    assert 0.9 <= s <= 1.5 && 0.85 <= t <= 1.25;
    assert 0.765 <= s * t <= 1.875;
    assert f.basePrice * s * t == f.basePrice * (s * t);
    assert f.basePrice * 0.765 <= f.basePrice * (s * t) <= f.basePrice * 1.875;
  }

  // ---------------------------------------------------------------------------
  // Booking.save: the PNR
  // ---------------------------------------------------------------------------

  predicate IsLowerHex(c: char) { '0' <= c <= '9' || 'a' <= c <= 'f' }

  predicate IsUpperHex(c: char) { '0' <= c <= '9' || 'A' <= c <= 'F' }

  /** The hex form of a random UUID: 32 lower-case hex digits. */
  predicate IsUuidHex(h: string) {
    |h| == 32 && forall i :: 0 <= i < |h| ==> IsLowerHex(h[i])
  }

  /** A generated PNR: 8 upper-case hex digits. */
  predicate IsPnr(s: string) {
    |s| == 8 && forall i :: 0 <= i < |s| ==> IsUpperHex(s[i])
  }

  function UpperChar(c: char): char {
    if 'a' <= c <= 'z' then (c as int - 32) as char else c
  }

  function LowerChar(c: char): char {
    if 'A' <= c <= 'Z' then (c as int + 32) as char else c
  }

  /** `str.upper()` on ASCII: no lower-case letter is left, and every other character is kept. */
  function Upper(s: string): (r: string)
    ensures |r| == |s|
    ensures forall i :: 0 <= i < |r| ==> !('a' <= r[i] <= 'z')
    ensures forall i :: 0 <= i < |r| ==> r[i] == s[i] || ('a' <= s[i] <= 'z' && r[i] as int == s[i] as int - 32)
  {
    seq(|s|, i requires 0 <= i < |s| => UpperChar(s[i]))
  }

  /**
   * The PNR a booking has once saved: an existing PNR is kept; a missing one becomes the
   * first 8 digits of a fresh UUID's hex form, upper-cased.
   */
  function SavePnr(pnr: string, uuidHex: string): (r: string)
    requires IsUuidHex(uuidHex)
    ensures pnr != "" ==> r == pnr
    ensures pnr == "" ==> IsPnr(r) && forall i :: 0 <= i < 8 ==> LowerChar(r[i]) == uuidHex[i]
  {
    if pnr != "" then pnr else Upper(uuidHex[..8])
  }

  /** Saving a booking again never replaces the PNR its first save gave it. */
  lemma SavePnrStable(pnr: string, h1: string, h2: string)
    requires IsUuidHex(h1) && IsUuidHex(h2)
    ensures SavePnr(SavePnr(pnr, h1), h2) == SavePnr(pnr, h1)
  {
    if pnr == "" { assert |SavePnr(pnr, h1)| == 8; }
  }
}
