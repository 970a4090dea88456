/**
 * The post-save hook on flights: a newly created flight gets its seat rows,
 * six to a row, named by row number and column letter.
 */
module Signals {
  import opened Wrappers
  import opened Models

  const Columns: string := "ABCDEF"

  function Digit(d: nat): char
    requires d < 10
  {
    "0123456789"[d]
  }

  /** Python's str() of a non-negative integer. */
  function NatStr(n: nat): (r: string)
    ensures |r| >= 1
    ensures forall i :: 0 <= i < |r| ==> '0' <= r[i] <= '9'
  {
    if n < 10 then [Digit(n)] else NatStr(n / 10) + [Digit(n % 10)]
  }

  /** The value of a string of decimal digits. */
  function ParseNat(s: string): nat
    requires forall i :: 0 <= i < |s| ==> '0' <= s[i] <= '9'
  {
    if s == [] then 0
    else ParseNat(s[..|s| - 1]) * 10 + (s[|s| - 1] as int - '0' as int)
  }

  lemma {:induction false} ParseNatStr(n: nat)
    ensures ParseNat(NatStr(n)) == n
  {
    if n >= 10 {
      var s := NatStr(n);
      assert s[..|s| - 1] == NatStr(n / 10);
      ParseNatStr(n / 10);
    }
  }

  /** The row (from 1) and the column (0 for A ... 5 for F) of the k-th generated seat. */
  function RowOf(k: nat): nat { k / 6 + 1 }

  function ColumnOf(k: nat): nat { k % 6 }

  /** The name of the k-th generated seat (from 0): row number then column letter. */
  function SeatName(k: nat): (r: string)
    ensures |r| >= 2 && r[|r| - 1] in Columns
    ensures forall i :: 0 <= i < |r| - 1 ==> '0' <= r[i] <= '9'
  {
    NatStr(RowOf(k)) + [Columns[ColumnOf(k)]]
  }

  /** Reads a seat name back into its row and column; None cannot arise from a generated name. */
  function ParseSeatName(s: string): Option<(nat, nat)> {
    if |s| < 2 then None
    else
      var digits := s[..|s| - 1];
      var col := s[|s| - 1];
      if (forall i :: 0 <= i < |digits| ==> '0' <= digits[i] <= '9') && col in Columns then
        var c :| 0 <= c < 6 && Columns[c] == col;
        Some((ParseNat(digits), c))
      else None
  }

  /** Seat names round-trip to the row and column that produced them. */
  lemma SeatNameRoundTrip(k: nat)
    ensures ParseSeatName(SeatName(k)) == Some((RowOf(k), ColumnOf(k)))
  {
    var s := SeatName(k);
    assert s[..|s| - 1] == NatStr(RowOf(k));
    ParseNatStr(RowOf(k));
    assert s[|s| - 1] == Columns[ColumnOf(k)];
  }

  /** No two generated seats share a name, as the (flight, seat number) uniqueness demands. */
  lemma SeatNamesDistinct(j: nat, k: nat)
    requires j != k
    ensures SeatName(j) != SeatName(k)
  {
    SeatNameRoundTrip(j);
    SeatNameRoundTrip(k);
    assert j == 6 * (RowOf(j) - 1) + ColumnOf(j);
    assert k == 6 * (RowOf(k) - 1) + ColumnOf(k);
  }

  /** The seat the hook creates at position k of a flight's seat list. */
  function GeneratedSeat(flight: Id, k: nat): Seat {
    Seat(flight, SeatName(k), false, None)
  }

  lemma RowPosition(row: nat, c: nat)
    requires row >= 1 && c < 6
    ensures RowOf(6 * (row - 1) + c) == row && ColumnOf(6 * (row - 1) + c) == c
  {
  }

  /** The seat the loop makes at column c of a row is the next generated seat. */
  lemma AppendGenerated(seats: seq<Seat>, flight: Id, row: nat, c: nat)
    requires row >= 1 && c < 6 && |seats| == 6 * (row - 1) + c
    requires forall k :: 0 <= k < |seats| ==> seats[k] == GeneratedSeat(flight, k)
    ensures var s := seats + [Seat(flight, NatStr(row) + [Columns[c]], false, None)];
      forall k :: 0 <= k < |s| ==> s[k] == GeneratedSeat(flight, k)
  {
    RowPosition(row, c);
  }

  /**
   * create_seats_for_flight: nothing unless the flight was just created; otherwise
   * max(0, total) free, unlinked seats, the k-th named SeatName(k).
   */
  method CreateSeatsForFlight(flight: Id, created: bool, total: int) returns (seats: seq<Seat>)
    ensures !created ==> seats == []
    ensures created ==> |seats| == Max(0, total)
    ensures forall k :: 0 <= k < |seats| ==> seats[k] == GeneratedSeat(flight, k)
  {
    seats := [];
    if created {
      var row := 1;
      var createdCount := 0;
      while createdCount < total
        invariant createdCount == |seats| <= Max(0, total)
        invariant row >= 1 && createdCount <= 6 * (row - 1)
        invariant createdCount < total ==> createdCount == 6 * (row - 1)
        invariant forall k :: 0 <= k < |seats| ==> seats[k] == GeneratedSeat(flight, k)
        decreases total - createdCount
      {
        for c := 0 to 6
          invariant createdCount == |seats| <= Max(0, total)
          invariant createdCount == 6 * (row - 1) + c
          invariant forall k :: 0 <= k < |seats| ==> seats[k] == GeneratedSeat(flight, k)
        {
          if createdCount >= total {
            break;
          }
          AppendGenerated(seats, flight, row, c);
          seats := seats + [Seat(flight, NatStr(row) + [Columns[c]], false, None)];
          createdCount := createdCount + 1;
        }
        row := row + 1;
      }
    }
  }

  /** The number of rows a flight with `total` seats gets. */
  function RowCount(total: nat): nat { (total + 5) / 6 }

  /**
   * Rows of the generated seats: row r holds exactly the positions 6(r-1) up to
   * min(total, 6r); every row but the last holds 6 seats and the last holds 1 to 6.
   */
  lemma GeneratedRows(total: nat, r: nat)
    requires total > 0 && 1 <= r <= RowCount(total)
    ensures forall k :: 0 <= k < total ==> 1 <= RowOf(k) <= RowCount(total)
    ensures forall k :: 0 <= k < total ==> (RowOf(k) == r <==> 6 * (r - 1) <= k < Min(total, 6 * r))
    ensures r < RowCount(total) ==> Min(total, 6 * r) - 6 * (r - 1) == 6
    ensures r == RowCount(total) ==> 1 <= total - 6 * (r - 1) <= 6
  {
  }
}
