/**
 * The seat-selection page's state: the loaded flight, the seat list, the seat-count input
 * and the ordered selection of seat numbers, with the handlers that change them. The HTTP
 * calls are parameters: what each one returned, or that it failed.
 */
module SeatSelection {
  import opened Wrappers
  import opened SeatMap
  import Signals
  import Sorting

  /** The fields of the flight the page reads. */
  datatype FlightInfo = FlightInfo(dynamicPrice: real, availableSeats: int)

  // ---------------------------------------------------------------------------
  // Toggling a seat
  // ---------------------------------------------------------------------------

  /** `selected.filter(s => s !== x)`. */
  function Without(s: seq<string>, x: string): (r: seq<string>)
    ensures forall y :: y in r <==> y in s && y != x
    ensures |r| <= |s|
  {
    if s == [] then []
    else
      var n := |s| - 1;
      Without(s[..n], x) + (if s[n] == x then [] else [s[n]])
  }

  /** Removing a number that is not selected changes nothing. */
  lemma {:induction false} WithoutAbsent(s: seq<string>, x: string)
    requires x !in s
    ensures Without(s, x) == s
  {
    if s != [] {
      var n := |s| - 1;
      WithoutAbsent(s[..n], x);
      assert s == s[..n] + [s[n]];
    }
  }

  /** In a selection without repeats, removing a number takes out its one position and keeps the rest in order. */
  lemma {:induction false} WithoutAt(s: seq<string>, k: nat)
    requires NoDup(s) && k < |s|
    ensures Without(s, s[k]) == s[..k] + s[k + 1..]
  {
    var n := |s| - 1;
    var x := s[k];
    if k == n {
      WithoutAbsent(s[..n], x);
    } else {
      WithoutAt(s[..n], k);
      assert s[..n][..k] == s[..k];
      assert s[..n][k + 1..] + [s[n]] == s[k + 1..];
    }
  }

  /** Removing keeps a selection free of repeats. */
  lemma {:induction false} WithoutNoDup(s: seq<string>, x: string)
    requires NoDup(s)
    ensures NoDup(Without(s, x))
  {
    if s != [] {
      var n := |s| - 1;
      WithoutNoDup(s[..n], x);
      assert s[n] !in s[..n];
    }
  }

  /** What a click on a seat does to the selection, and whether it raises the limit warning. */
  datatype Toggle = Toggle(selected: seq<string>, warned: bool)

  /** A click changes at most the clicked seat's place in the selection, and a warned click changes nothing. */
  function Toggled(selected: seq<string>, numSeats: int, seat: SeatInfo): (r: Toggle)
    ensures r.warned ==> r.selected == selected
    ensures forall y :: y in r.selected ==> y in selected || y == seat.seatNumber
    ensures forall y :: y in selected && y != seat.seatNumber ==> y in r.selected
  {
    if seat.isBooked then Toggle(selected, false)
    else if seat.seatNumber in selected then Toggle(Without(selected, seat.seatNumber), false)
    else if |selected| >= numSeats then Toggle(selected, true)
    else Toggle(selected + [seat.seatNumber], false)
  }

  /**
   * The four outcomes of a click: a booked seat changes nothing; a selected seat is taken
   * out and the others keep their order; a new seat on a full selection warns and changes
   * nothing; otherwise the seat is added at the end.
   */
  lemma ToggleCases(selected: seq<string>, numSeats: int, seat: SeatInfo)
    requires NoDup(selected)
    ensures var t := Toggled(selected, numSeats, seat);
      var x := seat.seatNumber;
      && (seat.isBooked ==> t == Toggle(selected, false))
      && (!seat.isBooked && x in selected ==>
            !t.warned && x !in t.selected
            && exists k :: 0 <= k < |selected| && selected[k] == x && t.selected == selected[..k] + selected[k + 1..])
      && (!seat.isBooked && x !in selected && |selected| >= numSeats ==> t == Toggle(selected, true))
      && (!seat.isBooked && x !in selected && |selected| < numSeats ==> t == Toggle(selected + [x], false))
      && (t.warned <==> !seat.isBooked && x !in selected && |selected| >= numSeats)
  {
    var x := seat.seatNumber;
    if !seat.isBooked && x in selected {
      var k :| 0 <= k < |selected| && selected[k] == x;
      WithoutAt(selected, k);
    }
  }

  /** A click keeps the selection free of repeats, and never takes it past the seat count. */
  lemma ToggleKeeps(selected: seq<string>, numSeats: int, seat: SeatInfo)
    requires NoDup(selected)
    ensures NoDup(Toggled(selected, numSeats, seat).selected)
    ensures |selected| <= numSeats ==> |Toggled(selected, numSeats, seat).selected| <= numSeats
  {
    WithoutNoDup(selected, seat.seatNumber);
  }

  /** Clicking a free, unselected seat twice leaves the selection as it was (when the first click is not refused). */
  lemma ToggleTwice(selected: seq<string>, numSeats: int, seat: SeatInfo)
    requires !seat.isBooked && seat.seatNumber !in selected && |selected| < numSeats
    ensures var once := Toggled(selected, numSeats, seat).selected;
      Toggled(once, numSeats, seat) == Toggle(selected, false)
  {
    WithoutAbsent(selected, seat.seatNumber);
  }

  // ---------------------------------------------------------------------------
  // Seat count and total
  // ---------------------------------------------------------------------------

  /** `flight?.available_seats || 1`: no flight, or zero available seats, gives 1. */
  function SeatLimit(flight: Option<FlightInfo>): (r: int)
    ensures r != 0
    ensures r != 1 ==> flight.Some? && r == flight.value.availableSeats
  {
    if flight.None? || flight.value.availableSeats == 0 then 1 else flight.value.availableSeats
  }

  /** The distance between two seat counts. */
  function Dist(a: int, b: int): nat { if a < b then b - a else a - b }

  /**
   * The seat-count input's `Math.max(1, Math.min(v, limit))`: the result is the number in
   * 1 .. max(1, limit) closest to v, so it is v itself when v lies in that range.
   */
  function ClampSeatCount(v: int, flight: Option<FlightInfo>): (r: int)
    ensures 1 <= r <= Max(1, SeatLimit(flight))
    ensures forall w :: 1 <= w <= Max(1, SeatLimit(flight)) ==> Dist(r, v) <= Dist(w, v)
    ensures 1 <= v <= SeatLimit(flight) ==> r == v
  {
    Max(1, Min(v, SeatLimit(flight)))
  }

  /** `selected.length * (flight?.dynamic_price || 0)`, before formatting. */
  function TotalPrice(selected: seq<string>, flight: Option<FlightInfo>): (r: real)
    ensures selected == [] || flight.None? ==> r == 0.0
    ensures flight.Some? && flight.value.dynamicPrice >= 0.0 ==> r >= 0.0
  {
    |selected| as real * (if flight.None? then 0.0 else flight.value.dynamicPrice)
  }

  /** Adding a seat adds one ticket price to the total, removing one takes it off; other clicks leave it. */
  lemma ToggleTotal(selected: seq<string>, numSeats: int, seat: SeatInfo, flight: Option<FlightInfo>)
    requires NoDup(selected)
    ensures var price := if flight.None? then 0.0 else flight.value.dynamicPrice;
      var before := TotalPrice(selected, flight);
      var after := TotalPrice(Toggled(selected, numSeats, seat).selected, flight);
      && (!seat.isBooked && seat.seatNumber in selected ==> after == before - price)
      && (!seat.isBooked && seat.seatNumber !in selected && |selected| < numSeats ==> after == before + price)
      && (seat.isBooked || (seat.seatNumber !in selected && |selected| >= numSeats) ==> after == before)
  {
    var price := if flight.None? then 0.0 else flight.value.dynamicPrice;
    var n := |Toggled(selected, numSeats, seat).selected|;
    ToggleLength(selected, numSeats, seat);
    if !seat.isBooked && seat.seatNumber in selected {
      OneMore(n, price);
    } else if !seat.isBooked && |selected| < numSeats {
      OneMore(|selected|, price);
    }
  }

  /** Adding a seat lengthens the selection by one, removing one shortens it by one. */
  lemma ToggleLength(selected: seq<string>, numSeats: int, seat: SeatInfo)
    requires NoDup(selected)
    ensures var n := |Toggled(selected, numSeats, seat).selected|;
      && (!seat.isBooked && seat.seatNumber in selected ==> n + 1 == |selected|)
      && (!seat.isBooked && seat.seatNumber !in selected && |selected| < numSeats ==> n == |selected| + 1)
      && (seat.isBooked || (seat.seatNumber !in selected && |selected| >= numSeats) ==> n == |selected|)
  {
    if !seat.isBooked && seat.seatNumber in selected {
      var k :| 0 <= k < |selected| && selected[k] == seat.seatNumber;
      WithoutAt(selected, k);
    }
  }

  /** One more seat at the same price adds one price to the total. */
  lemma OneMore(n: nat, price: real)
    ensures (n + 1) as real * price == n as real * price + price
  {
  }

  // ---------------------------------------------------------------------------
  // Confirming
  // ---------------------------------------------------------------------------

  /** How an HTTP call ended: with data, or rejected with the error text the server gave, if any. */
  datatype Outcome = Success | Failure(error: Option<string>)

  /** The booking request body. */
  datatype Payload = Payload(userId: string, seatNumbers: seq<string>)

  datatype ConfirmResult =
    | NeedSeats          // alert: select at least one seat
    | NeedLogin          // alert, then navigate to the login page
    | PaymentOpened      // the payment popup is opened
    | Failed(message: string)

  /** `localStorage.getItem("user_id")` is truthy. */
  predicate UserGiven(userId: Option<string>) { userId.Some? && userId.value != "" }

  /** `err.response?.data?.error || "Booking failed"`. */
  function ErrorText(error: Option<string>): (r: string)
    ensures r != ""
    ensures error.Some? && error.value != "" ==> r == error.value
  {
    if error.Some? && error.value != "" then error.value else "Booking failed"
  }

  /** The booking request the confirm button sends, if any: the user id and the selection in click order. */
  function Request(selected: seq<string>, userId: Option<string>): (r: Option<Payload>)
    ensures r.Some? <==> selected != [] && UserGiven(userId)
    ensures r.Some? ==> r.value.seatNumbers == selected && r.value.userId == userId.value
  {
    if selected == [] || !UserGiven(userId) then None else Some(Payload(userId.value, selected))
  }

  /**
   * handleConfirm's outcome: the two guards, then the booking call and the payment-order
   * call; the first failure ends the attempt with its error text.
   */
  function ConfirmOutcome(selected: seq<string>, userId: Option<string>, book: Outcome, order: Outcome): (r: ConfirmResult)
    ensures r == NeedSeats <==> selected == []
    ensures r == NeedLogin <==> selected != [] && !UserGiven(userId)
    ensures r == PaymentOpened <==> Request(selected, userId).Some? && book.Success? && order.Success?
    ensures r.Failed? <==> Request(selected, userId).Some? && (book.Failure? || order.Failure?)
    ensures r.Failed? ==> r.message == ErrorText(if book.Failure? then book.error else order.error)
  {
    if selected == [] then NeedSeats
    else if !UserGiven(userId) then NeedLogin
    else match book
      case Failure(e) => Failed(ErrorText(e))
      case Success =>
        match order
        case Failure(e) => Failed(ErrorText(e))
        case Success => PaymentOpened
  }

  /**
   * The payment-order route the page calls is not among the backend's routes; its 404 body
   * has no `error` field, so a booking that succeeded still ends in "Booking failed".
   */
  lemma ConfirmWithoutOrderRoute(selected: seq<string>, userId: Option<string>)
    requires selected != [] && UserGiven(userId)
    ensures ConfirmOutcome(selected, userId, Success, Failure(None)) == Failed("Booking failed")
  {
  }

  // ---------------------------------------------------------------------------
  // The component
  // ---------------------------------------------------------------------------

  class SeatSelectionPage {
    var flight: Option<FlightInfo>
    var seats: seq<SeatInfo>
    var loading: bool
    var numSeats: int
    var selected: seq<string>

    /** The selection has no repeats and the seat count is at least 1. */
    predicate Valid()
      reads this
    {
      NoDup(selected) && numSeats >= 1
    }

    /** The initial state: nothing loaded, one seat, nothing selected. */
    constructor ()
      ensures flight == None && seats == [] && loading && numSeats == 1 && selected == []
      ensures Valid()
    {
      flight := None;
      seats := [];
      loading := true;
      numSeats := 1;
      selected := [];
    }

    /**
     * The mount effect: fetch the flight, then the seats, sorted by Number(seat_number).
     * A failed fetch stops there and keeps what was already set; loading ends either way.
     */
    method Load(flightRes: Option<FlightInfo>, seatRes: Option<seq<SeatInfo>>)
      requires Valid()
      modifies this
      ensures flight == if flightRes.Some? then flightRes else old(flight)
      ensures seats == if flightRes.Some? && seatRes.Some? then SortSeats(seatRes.value) else old(seats)
      ensures !loading && numSeats == old(numSeats) && selected == old(selected)
      ensures Valid()
    {
      loading := true;
      if flightRes.Some? {
        flight := flightRes;
        if seatRes.Some? {
          seats := SortSeats(seatRes.value);
        }
      }
      loading := false;
    }

    /** toggleSeat. */
    method ToggleSeat(seat: SeatInfo) returns (warned: bool)
      requires Valid()
      modifies this
      ensures Toggle(selected, warned) == Toggled(old(selected), numSeats, seat)
      ensures flight == old(flight) && seats == old(seats) && loading == old(loading) && numSeats == old(numSeats)
      ensures Valid()
    {
      ToggleKeeps(selected, numSeats, seat);
      if seat.isBooked {
        return false;
      }
      if seat.seatNumber in selected {
        selected := Without(selected, seat.seatNumber);
        return false;
      }
      if |selected| >= numSeats {
        return true;
      }
      selected := selected + [seat.seatNumber];
      return false;
    }

    /** The seat-count input's change handler; the selection is left as it is. */
    method ChangeSeatCount(v: int)
      requires Valid()
      modifies this
      ensures numSeats == ClampSeatCount(v, flight)
      ensures flight == old(flight) && seats == old(seats) && loading == old(loading) && selected == old(selected)
      ensures Valid()
    {
      numSeats := Max(1, Min(v, SeatLimit(flight)));
    }

    /**
     * handleConfirm: `book` and `order` are how the two calls ended, `refreshed` the seat list
     * fetched again after a failure (None when that fetch fails too). Only a failure changes
     * state, and then only the seat list, replaced unsorted; the selection is kept.
     */
    method HandleConfirm(userId: Option<string>, book: Outcome, order: Outcome, refreshed: Option<seq<SeatInfo>>)
      returns (r: ConfirmResult, sent: Option<Payload>)
      requires Valid()
      modifies this
      ensures r == ConfirmOutcome(old(selected), userId, book, order)
      ensures sent == Request(old(selected), userId)
      ensures seats == if r.Failed? && refreshed.Some? then refreshed.value else old(seats)
      ensures flight == old(flight) && loading == old(loading) && numSeats == old(numSeats) && selected == old(selected)
      ensures Valid()
    {
      if |selected| == 0 {
        return NeedSeats, None;
      }
      if !UserGiven(userId) {
        return NeedLogin, None;
      }
      sent := Some(Payload(userId.value, selected));
      if book.Success? && order.Success? {
        return PaymentOpened, sent;
      }
      r := Failed(ErrorText(if book.Failure? then book.error else order.error));
      if refreshed.Some? {
        seats := refreshed.value;
      }
    }

    /** The seat grid as drawn: rows of six by position, keys in numeric order, split at the aisle. */
    method Grid() returns (layout: seq<RowView>)
      ensures |layout| == Signals.RowCount(|seats|)
      ensures forall i :: 0 <= i < |layout| ==> |layout[i].left| <= 3 && |layout[i].right| <= 3
      ensures Shown(layout) == seats
      ensures forall i :: 0 <= i < |layout| ==> layout[i] == Split(RowSeats(seats, i + 1))
    {
      var rows, keys := GroupRows(seats);
      assert keys == seq(Signals.RowCount(|seats|), r => r + 1);
      SortedRowKeys(keys);
      var sortedKeys := Sorting.Sort(keys, KeyLess);
      layout := Layout(rows, sortedKeys);
      LayoutShowsSeats(seats, rows);
      LayoutRows(seats, rows);
    }
  }
}
