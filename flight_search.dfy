/**
 * The flight listing: optional source, destination and date filters, then one
 * ordering chosen by the `sort` parameter.
 */
module FlightSearch {
  import opened Wrappers
  import opened Models
  import Sorting

  /** ASCII case folding, as a case-insensitive exact match compares. */
  function FoldChar(c: char): char {
    if 'A' <= c <= 'Z' then (c as int + 32) as char else c
  }

  function Fold(s: string): string {
    seq(|s|, i requires 0 <= i < |s| => FoldChar(s[i]))
  }

  /** Two characters that are equal, or the upper- and lower-case forms of one ASCII letter. */
  predicate SameLetter(c: char, d: char) {
    c == d || ('A' <= c <= 'Z' && d as int == c as int + 32) || ('A' <= d <= 'Z' && c as int == d as int + 32)
  }

  lemma FoldCharSame(c: char, d: char)
    ensures FoldChar(c) == FoldChar(d) <==> SameLetter(c, d)
  {
  }

  /** `iexact`: the two strings agree position by position up to the case of ASCII letters. */
  predicate IExact(a: string, b: string): (r: bool)
    ensures r <==> |a| == |b| && forall i :: 0 <= i < |a| ==> SameLetter(a[i], b[i])
  {
    assert Fold(a) == Fold(b) <==> |a| == |b| && forall i :: 0 <= i < |a| ==> SameLetter(a[i], b[i]) by {
      forall i | 0 <= i < |a| && i < |b| ensures FoldChar(a[i]) == FoldChar(b[i]) <==> SameLetter(a[i], b[i]) {
        FoldCharSame(a[i], b[i]);
      }
      if Fold(a) == Fold(b) {
        assert |a| == |Fold(a)| == |Fold(b)| == |b|;
        forall i | 0 <= i < |a| ensures SameLetter(a[i], b[i]) {
          assert Fold(a)[i] == Fold(b)[i];
        }
      }
      if |a| == |b| && forall i :: 0 <= i < |a| ==> SameLetter(a[i], b[i]) {
        assert forall i :: 0 <= i < |a| ==> Fold(a)[i] == Fold(b)[i];
      }
    }
    Fold(a) == Fold(b)
  }

  /** The date parameter once read: unreadable, or the first second of a calendar day. */
  datatype DateParam = Unparsable | Day(start: int)

  /** The departure range of one day: from its first second to 23:59:59, both included. */
  predicate OnDay(f: Flight, start: int) {
    start <= f.departure <= start + 86399
  }

  /** A query parameter given and non-empty. */
  predicate Given(p: Option<string>) { p.Some? && p.value != "" }

  /** A flight passes the filters the request gives; an unreadable date filters nothing. */
  predicate Passes(f: Flight, source: Option<string>, destination: Option<string>, date: Option<DateParam>) {
    && (Given(source) ==> IExact(f.source, source.value))
    && (Given(destination) ==> IExact(f.destination, destination.value))
    && (date.Some? && date.value.Day? ==> OnDay(f, date.value.start))
  }

  function Filter(flights: seq<Flight>, source: Option<string>, destination: Option<string>, date: Option<DateParam>): (r: seq<Flight>)
    ensures forall f :: f in r <==> f in flights && Passes(f, source, destination, date)
    ensures forall f :: multiset(r)[f] == if Passes(f, source, destination, date) then multiset(flights)[f] else 0
  {
    if flights == [] then []
    else
      var n := |flights| - 1;
      assert flights == flights[..n] + [flights[n]];
      Filter(flights[..n], source, destination, date)
        + (if Passes(flights[n], source, destination, date) then [flights[n]] else [])
  }

  datatype Order = PriceAsc | PriceDesc | DurationAsc | DurationDesc | ByDeparture

  /** The `sort` parameter; anything else, or nothing, orders by departure. */
  function OrderOf(sort: Option<string>): (r: Order)
    ensures r == PriceAsc <==> sort == Some("price_asc")
    ensures r == PriceDesc <==> sort == Some("price_desc")
    ensures r == DurationAsc <==> sort == Some("duration_asc")
    ensures r == DurationDesc <==> sort == Some("duration_desc")
    ensures r == ByDeparture <==> sort !in {Some("price_asc"), Some("price_desc"), Some("duration_asc"), Some("duration_desc")}
  {
    if sort == Some("price_asc") then PriceAsc
    else if sort == Some("price_desc") then PriceDesc
    else if sort == Some("duration_asc") then DurationAsc
    else if sort == Some("duration_desc") then DurationDesc
    else ByDeparture
  }

  /** A null duration sorts before every number when ascending, after when descending. */
  predicate DurationLess(a: Option<int>, b: Option<int>) {
    b.Some? && (a.None? || a.value < b.value)
  }

  /** Whether a strictly comes before b under the order. */
  predicate Before(o: Order, a: Flight, b: Flight) {
    match o
    case PriceAsc => a.basePrice < b.basePrice
    case PriceDesc => a.basePrice > b.basePrice
    case DurationAsc => DurationLess(a.durationMinutes, b.durationMinutes)
    case DurationDesc => DurationLess(b.durationMinutes, a.durationMinutes)
    case ByDeparture => a.departure < b.departure
  }

  lemma BeforeIsStrictWeak(o: Order, s: seq<Flight>)
    ensures Sorting.StrictWeakOn(s, (a, b) => Before(o, a, b))
  {
  }

  /**
   * FlightListView.get_queryset: the listing holds exactly the flights that pass the filters,
   * each as often as in the table, and no flight comes before one listed ahead of it under the
   * chosen order.
   */
  function ListFlights(flights: seq<Flight>, source: Option<string>, destination: Option<string>,
                       date: Option<DateParam>, sort: Option<string>): (r: seq<Flight>)
    ensures multiset(r) == multiset(Filter(flights, source, destination, date))
    ensures forall f :: f in r <==> f in flights && Passes(f, source, destination, date)
    ensures Sorting.SortedBy(r, (a, b) => Before(OrderOf(sort), a, b))
  {
    var o := OrderOf(sort);
    var less := (a, b) => Before(o, a, b);
    var fl := Filter(flights, source, destination, date);
    var r := Sorting.Sort(fl, less);
    BeforeIsStrictWeak(o, fl);
    Sorting.SortSorted(fl, less);
    assert forall f :: f in r <==> f in fl by {
      forall f ensures f in r <==> f in fl {
        Sorting.InPermutation(r, fl, f);
      }
    }
    r
  }

  /**
   * What each `sort` value means for the listing: base price ascending or descending,
   * duration ascending with unknown durations first or descending with them last, and
   * departure time ascending otherwise.
   */
  lemma ListFlightsOrder(flights: seq<Flight>, source: Option<string>, destination: Option<string>,
                         date: Option<DateParam>, sort: Option<string>)
    ensures var r := ListFlights(flights, source, destination, date, sort);
      && (sort == Some("price_asc") ==> forall i, j :: 0 <= i < j < |r| ==> r[i].basePrice <= r[j].basePrice)
      && (sort == Some("price_desc") ==> forall i, j :: 0 <= i < j < |r| ==> r[i].basePrice >= r[j].basePrice)
      && (sort == Some("duration_asc") ==> forall i, j :: 0 <= i < j < |r| ==>
            (r[j].durationMinutes.None? ==> r[i].durationMinutes.None?)
            && (r[i].durationMinutes.Some? && r[j].durationMinutes.Some? ==> r[i].durationMinutes.value <= r[j].durationMinutes.value))
      && (sort == Some("duration_desc") ==> forall i, j :: 0 <= i < j < |r| ==>
            (r[i].durationMinutes.None? ==> r[j].durationMinutes.None?)
            && (r[i].durationMinutes.Some? && r[j].durationMinutes.Some? ==> r[i].durationMinutes.value >= r[j].durationMinutes.value))
      && (sort !in {Some("price_asc"), Some("price_desc"), Some("duration_asc"), Some("duration_desc")} ==>
            forall i, j :: 0 <= i < j < |r| ==> r[i].departure <= r[j].departure)
  {
    var r := ListFlights(flights, source, destination, date, sort);
    var o := OrderOf(sort);
    assert forall i, j :: 0 <= i < j < |r| ==> !Before(o, r[j], r[i]);
  }

  /** An unreadable date is dropped silently: the listing is the one without a date. */
  lemma UnparsableDateIgnored(flights: seq<Flight>, source: Option<string>, destination: Option<string>, sort: Option<string>)
    ensures ListFlights(flights, source, destination, Some(Unparsable), sort)
         == ListFlights(flights, source, destination, None, sort)
  {
    assert Filter(flights, source, destination, Some(Unparsable)) == Filter(flights, source, destination, None) by {
      FilterIgnoresUnparsable(flights, source, destination);
    }
  }

  lemma {:induction false} FilterIgnoresUnparsable(flights: seq<Flight>, source: Option<string>, destination: Option<string>)
    ensures Filter(flights, source, destination, Some(Unparsable)) == Filter(flights, source, destination, None)
  {
    if flights != [] {
      FilterIgnoresUnparsable(flights[..|flights| - 1], source, destination);
    }
  }
}
