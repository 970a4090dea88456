/**
 * The seat map of the seat-selection page: the client's numeric sort of the fetched seats,
 * their grouping into rows of six by position, and the split of every row into the three
 * seats left of the aisle and the three to its right.
 */
module SeatMap {
  import opened Wrappers
  import Signals
  import Sorting

  /** A seat as the seat list endpoint sends it. */
  datatype SeatInfo = SeatInfo(id: nat, seatNumber: string, isBooked: bool)

  // ---------------------------------------------------------------------------
  // Sorting by Number(seat_number)
  // ---------------------------------------------------------------------------

  predicate AllDigits(s: string) {
    forall i :: 0 <= i < |s| ==> '0' <= s[i] <= '9'
  }

  /**
   * JavaScript's Number() of a seat number: a string of decimal digits (the empty string
   * included) is its value; anything else is NaN, here None.
   */
  function NumberValue(s: string): (r: Option<nat>)
    ensures r.None? <==> exists i :: 0 <= i < |s| && !('0' <= s[i] <= '9')
    ensures forall n: nat :: s == Signals.NatStr(n) ==> r == Some(n)
  {
    if AllDigits(s) then
      assert forall n: nat :: s == Signals.NatStr(n) ==> Signals.ParseNat(s) == n by {
        forall n: nat | s == Signals.NatStr(n) ensures Signals.ParseNat(s) == n {
          Signals.ParseNatStr(n);
        }
      }
      Some(Signals.ParseNat(s))
    else None
  }

  /**
   * The comparator `Number(a) - Number(b)` as the sort reads it: a comes first only when the
   * difference is negative, and a NaN difference counts as zero.
   */
  predicate NumLess(a: SeatInfo, b: SeatInfo) {
    var x := NumberValue(a.seatNumber);
    var y := NumberValue(b.seatNumber);
    x.Some? && y.Some? && x.value < y.value
  }

  /** The sorted copy of the fetched seats (a stable sort, as Array.prototype.sort is): exactly the fetched seats, rearranged. */
  function SortSeats(seats: seq<SeatInfo>): (r: seq<SeatInfo>)
    ensures multiset(r) == multiset(seats) && |r| == |seats|
  {
    var r := Sorting.Sort(seats, NumLess);
    assert |r| == |multiset(r)| == |multiset(seats)| == |seats|;
    r
  }

  /** When every seat number is a digit string, the seats come out in ascending numeric order. */
  lemma SortSeatsNumeric(seats: seq<SeatInfo>)
    requires forall i :: 0 <= i < |seats| ==> AllDigits(seats[i].seatNumber)
    ensures var r := SortSeats(seats);
      && (forall i :: 0 <= i < |r| ==> AllDigits(r[i].seatNumber))
      && (forall i, j :: 0 <= i < j < |r| ==> Signals.ParseNat(r[i].seatNumber) <= Signals.ParseNat(r[j].seatNumber))
  {
    assert forall x :: x in seats ==> NumberValue(x.seatNumber).Some?;
    Sorting.SortSorted(seats, NumLess);
    var r := SortSeats(seats);
    forall i | 0 <= i < |r| ensures AllDigits(r[i].seatNumber) {
      Sorting.InPermutation(r, seats, r[i]);
    }
  }

  /**
   * When no seat number is a digit string, as with the generated names "1A", "1B", ...,
   * every comparison is NaN and the seats keep the order they were fetched in.
   */
  lemma SortSeatsNonNumeric(seats: seq<SeatInfo>)
    requires forall i :: 0 <= i < |seats| ==> !AllDigits(seats[i].seatNumber)
    ensures SortSeats(seats) == seats
  {
    Sorting.SortKeepsSorted(seats, NumLess);
  }

  /** A generated seat name ends in a column letter, so Number() of it is NaN. */
  lemma GeneratedNameNotNumeric(k: nat)
    ensures NumberValue(Signals.SeatName(k)).None?
  {
    var s := Signals.SeatName(k);
    assert s[|s| - 1] == Signals.Columns[Signals.ColumnOf(k)];
  }

  // ---------------------------------------------------------------------------
  // Rows of six
  // ---------------------------------------------------------------------------

  /** The row (from 1) the seat at position i of the list goes to. */
  function RowNo(i: nat): nat { i / 6 + 1 }

  /** Row r of a list of n seats holds positions RowStart(r) up to RowEnd(r, n). */
  function RowStart(r: nat): int { 6 * (r - 1) }

  function RowEnd(r: nat, n: nat): int { Min(6 * r, n) }

  /**
   * `rows` is the list filed by position: rows 1 to ceil(n / 6) exist, and row r holds the
   * seats at positions 6(r-1) up to min(6r, n) in list order.
   */
  ghost predicate Grouped(seats: seq<SeatInfo>, rows: map<nat, seq<SeatInfo>>) {
    && (forall r :: r in rows <==> 1 <= r <= Signals.RowCount(|seats|))
    && (forall r :: r in rows ==> 0 <= RowStart(r) <= RowEnd(r, |seats|) && rows[r] == seats[RowStart(r)..RowEnd(r, |seats|)])
  }

  /** The first n seats filed: the rows that have begun are those starting before position n. */
  ghost predicate FiledUpTo(seats: seq<SeatInfo>, rows: map<nat, seq<SeatInfo>>, n: nat)
    requires n <= |seats|
  {
    && (forall r :: r in rows <==> 1 <= r && RowStart(r) < n)
    && (forall r :: r in rows ==> 0 <= RowStart(r) <= RowEnd(r, n) && rows[r] == seats[RowStart(r)..RowEnd(r, n)])
  }

  lemma RowStep(i: nat)
    ensures RowStart(RowNo(i)) <= i < 6 * RowNo(i)
    ensures Signals.RowCount(i + 1) == RowNo(i)
    ensures i % 6 == 0 ==> RowStart(RowNo(i)) == i && Signals.RowCount(i) == RowNo(i) - 1
    ensures i % 6 != 0 ==> Signals.RowCount(i) == RowNo(i)
  {
  }

  /** A row has begun before position n exactly when it is among the first ceil(n / 6). */
  lemma BegunRows(n: nat, r: nat)
    requires r >= 1
    ensures RowStart(r) < n <==> r <= Signals.RowCount(n)
  {
  }

  /** The rows after the first n seats are filed, one seat at a time at the end of its row. */
  function Filed(seats: seq<SeatInfo>, n: nat): map<nat, seq<SeatInfo>>
    requires n <= |seats|
  {
    if n == 0 then map[]
    else
      var rows := Filed(seats, n - 1);
      var k := RowNo(n - 1);
      if k in rows then rows[k := rows[k] + [seats[n - 1]]] else rows[k := [seats[n - 1]]]
  }

  /** Filing the seat at position i into a row other than its own leaves that row as it was. */
  lemma FileOther(seats: seq<SeatInfo>, rows: map<nat, seq<SeatInfo>>, rows': map<nat, seq<SeatInfo>>, i: nat)
    requires i < |seats| && FiledUpTo(seats, rows, i)
    requires forall r :: r in rows' <==> r in rows || r == RowNo(i)
    requires forall r :: r in rows && r != RowNo(i) ==> rows'[r] == rows[r]
    requires 0 <= RowStart(RowNo(i)) <= i && rows'[RowNo(i)] == seats[RowStart(RowNo(i))..i + 1]
    ensures FiledUpTo(seats, rows', i + 1)
  {
    var k := RowNo(i);
    RowStep(i);
    forall r | r in rows' && r != k
      ensures 0 <= RowStart(r) <= RowEnd(r, i + 1) && rows'[r] == seats[RowStart(r)..RowEnd(r, i + 1)]
    {
      assert r in rows && r < k;
      assert RowEnd(r, i + 1) == RowEnd(r, i);
    }
  }

  /** Filing the seat at position i: it goes at the end of its row, which is made when i starts it. */
  lemma {:induction false} FiledSpec(seats: seq<SeatInfo>, n: nat)
    requires n <= |seats|
    ensures FiledUpTo(seats, Filed(seats, n), n)
  {
    if n > 0 {
      var i := n - 1;
      var rows := Filed(seats, i);
      FiledSpec(seats, i);
      var k := RowNo(i);
      RowStep(i);
      if k in rows {
        assert rows[k] == seats[RowStart(k)..i];
        FileOther(seats, rows, rows[k := rows[k] + [seats[i]]], i);
      } else {
        FileOther(seats, rows, rows[k := [seats[i]]], i);
      }
    }
  }

  /** The seat at position n starts a new row exactly when n is a multiple of six. */
  lemma NewRowAt(seats: seq<SeatInfo>, n: nat)
    requires n < |seats|
    ensures RowNo(n) !in Filed(seats, n) <==> n % 6 == 0
  {
    FiledSpec(seats, n);
    RowStep(n);
  }

  /** Appending the next row number keeps the keys 1, 2, ..., in order. */
  lemma KeysStep(keys: seq<nat>, k: nat)
    requires |keys| + 1 == k && forall j :: 0 <= j < |keys| ==> keys[j] == j + 1
    ensures var next := keys + [k]; |next| == k && forall j :: 0 <= j < |next| ==> next[j] == j + 1
  {
  }

  /** All seats filed is the whole list grouped. */
  lemma FiledAll(seats: seq<SeatInfo>, rows: map<nat, seq<SeatInfo>>)
    requires FiledUpTo(seats, rows, |seats|)
    ensures Grouped(seats, rows)
  {
    forall r | r >= 1 ensures RowStart(r) < |seats| <==> r <= Signals.RowCount(|seats|) {
      BegunRows(|seats|, r);
    }
  }

  /**
   * The forEach that files each seat under row floor(index / 6) + 1: rows 1 to
   * ceil(n / 6) exist, row r holds the seats at positions 6(r-1) up to min(6r, n) in list
   * order, and the keys come out in the order the rows were first made.
   */
  method GroupRows(seats: seq<SeatInfo>) returns (rows: map<nat, seq<SeatInfo>>, keys: seq<nat>)
    ensures |keys| == Signals.RowCount(|seats|) && forall i :: 0 <= i < |keys| ==> keys[i] == i + 1
    ensures Grouped(seats, rows)
  {
    rows := map[];
    keys := [];
    for index := 0 to |seats|
      invariant |keys| == Signals.RowCount(index) && forall i :: 0 <= i < |keys| ==> keys[i] == i + 1
      invariant rows == Filed(seats, index)
    {
      var rowNo := index / 6 + 1;
      NewRowAt(seats, index);
      RowStep(index);
      if rowNo !in rows {
        KeysStep(keys, rowNo);
        keys := keys + [rowNo];
        rows := rows[rowNo := [seats[index]]];
      } else {
        rows := rows[rowNo := rows[rowNo] + [seats[index]]];
      }
    }
    FiledSpec(seats, |seats|);
    FiledAll(seats, rows);
  }

  /** Number(a) - Number(b) on the row keys, which are integers. */
  predicate KeyLess(a: nat, b: nat) { a < b }

  /** The row keys 1, 2, ..., sorted numerically: they are already in order, so they stay as they are. */
  lemma SortedRowKeys(keys: seq<nat>)
    requires forall i :: 0 <= i < |keys| ==> keys[i] == i + 1
    ensures Sorting.Sort(keys, KeyLess) == keys
  {
    Sorting.SortKeepsSorted(keys, KeyLess);
  }

  // ---------------------------------------------------------------------------
  // Left and right of the aisle
  // ---------------------------------------------------------------------------

  /** Array.prototype.slice(a, b) for 0 <= a <= b: the bounds are clipped to the length. */
  function Slice<T>(s: seq<T>, a: nat, b: nat): (r: seq<T>)
    requires a <= b
    ensures |r| <= b - a
    ensures a <= |s| ==> |r| == Min(b, |s|) - a && forall i :: 0 <= i < |r| ==> r[i] == s[a + i]
    ensures a > |s| ==> r == []
  {
    s[Min(a, |s|)..Min(b, |s|)]
  }

  /** A displayed row: the seats left of the aisle and the seats right of it. */
  datatype RowView = RowView(left: seq<SeatInfo>, right: seq<SeatInfo>)

  /**
   * `row.slice(0, 3)` and `row.slice(3, 6)`: a row of at most six seats is shown whole, its
   * first three seats left of the aisle and the rest right of it.
   */
  function Split(row: seq<SeatInfo>): (r: RowView)
    ensures |r.left| == Min(3, |row|) && |r.right| == Min(3, Max(0, |row| - 3))
    ensures |row| <= 6 ==> r.left + r.right == row
  {
    RowView(Slice(row, 0, 3), Slice(row, 3, 6))
  }

  /** The rows as the page draws them, in key order. */
  function Layout(rows: map<nat, seq<SeatInfo>>, keys: seq<nat>): (r: seq<RowView>)
    requires forall i :: 0 <= i < |keys| ==> keys[i] in rows
    ensures |r| == |keys|
    ensures forall i :: 0 <= i < |r| && |rows[keys[i]]| <= 6 ==> r[i].left + r[i].right == rows[keys[i]]
  {
    seq(|keys|, i requires 0 <= i < |keys| => Split(rows[keys[i]]))
  }

  /** The seats on the screen, read row by row, left then right. */
  function Shown(layout: seq<RowView>): seq<SeatInfo> {
    if layout == [] then []
    else var n := |layout| - 1; Shown(layout[..n]) + layout[n].left + layout[n].right
  }

  /** Row k (from 1) of a list of n seats, as positions 6(k-1) up to min(6k, n). */
  function RowSeats(seats: seq<SeatInfo>, k: nat): seq<SeatInfo>
    requires 1 <= k <= Signals.RowCount(|seats|)
  {
    seats[6 * (k - 1)..Min(6 * k, |seats|)]
  }

  /**
   * Drawn rows whose i-th row shows, left then right, the seats of row i + 1 read back as
   * the seats up to the end of the last drawn row.
   */
  lemma {:induction false} ShownRows(seats: seq<SeatInfo>, drawn: seq<RowView>)
    requires |drawn| <= Signals.RowCount(|seats|)
    requires forall i :: 0 <= i < |drawn| ==> drawn[i].left + drawn[i].right == RowSeats(seats, i + 1)
    ensures Shown(drawn) == seats[..Min(6 * |drawn|, |seats|)]
  {
    var k := |drawn|;
    if k > 0 {
      var front := drawn[..k - 1];
      assert forall i :: 0 <= i < |front| ==> front[i] == drawn[i];
      ShownRows(seats, front);
      assert Shown(drawn) == Shown(front) + (drawn[k - 1].left + drawn[k - 1].right);
      assert 6 * (k - 1) <= |seats|;
      assert seats[..Min(6 * k, |seats|)] == seats[..6 * (k - 1)] + RowSeats(seats, k);
    }
  }

  /**
   * Reading the drawn rows in key order, left part then right part, gives back the seat list:
   * no seat is dropped, repeated or moved.
   */
  lemma LayoutShowsAll(seats: seq<SeatInfo>, rows: map<nat, seq<SeatInfo>>, k: nat)
    requires Grouped(seats, rows)
    requires k <= Signals.RowCount(|seats|)
    ensures Shown(Layout(rows, seq(k, r => r + 1))) == seats[..Min(6 * k, |seats|)]
  {
    var drawn := Layout(rows, seq(k, r => r + 1));
    forall i | 0 <= i < |drawn| ensures drawn[i].left + drawn[i].right == RowSeats(seats, i + 1) {
      assert rows[i + 1] == RowSeats(seats, i + 1);
    }
    ShownRows(seats, drawn);
  }

  /** Drawn row i shows row i + 1 of the list, split three and three. */
  lemma LayoutRows(seats: seq<SeatInfo>, rows: map<nat, seq<SeatInfo>>)
    requires Grouped(seats, rows)
    ensures var drawn := Layout(rows, seq(Signals.RowCount(|seats|), r => r + 1));
      forall i :: 0 <= i < |drawn| ==> drawn[i] == Split(RowSeats(seats, i + 1))
  {
    var drawn := Layout(rows, seq(Signals.RowCount(|seats|), r => r + 1));
    forall i | 0 <= i < |drawn| ensures drawn[i] == Split(RowSeats(seats, i + 1)) {
      assert rows[i + 1] == RowSeats(seats, i + 1);
    }
  }

  /** The whole page: every seat of the list appears once, in list order. */
  lemma LayoutShowsSeats(seats: seq<SeatInfo>, rows: map<nat, seq<SeatInfo>>)
    requires Grouped(seats, rows)
    ensures Shown(Layout(rows, seq(Signals.RowCount(|seats|), r => r + 1))) == seats
  {
    LayoutShowsAll(seats, rows, Signals.RowCount(|seats|));
    assert seats[..Min(6 * Signals.RowCount(|seats|), |seats|)] == seats;
  }

  /** Every row but the last has three seats on each side; the last has one to six seats. */
  lemma RowSizes(seats: seq<SeatInfo>, rows: map<nat, seq<SeatInfo>>, r: nat)
    requires Grouped(seats, rows) && r in rows
    ensures 1 <= r <= Signals.RowCount(|seats|)
    ensures r < Signals.RowCount(|seats|) ==> |Split(rows[r]).left| == 3 && |Split(rows[r]).right| == 3
    ensures r == Signals.RowCount(|seats|) ==> 1 <= |rows[r]| <= 6
  {
  }
}
