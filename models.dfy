/**
 * The entities of the airport service and the seat rules attached to them:
 * an airplane's capacity, the seat range check of a ticket, the full clean
 * a ticket goes through before it is written, and the invariants of the
 * ticket table (every ticket lies inside its airplane, no seat key twice).
 */
module Models {
  import opened Results

  /** Primary keys of the relational tables. */
  type Id = nat

  /** A directional route between two airports, referenced by their ids. */
  datatype Route = Route(id: Id, source: Id, destination: Id, distance: int)

  /** Rows and seats per row are plain integer columns: nothing stops them from being zero or negative. */
  datatype Airplane = Airplane(id: Id, name: string, rows: int, seatsInRow: int, airplaneType: Id)

  /** A flight with its route and airplane joined in; times and crews are not part of this model. */
  datatype Flight = Flight(id: Id, route: Route, airplane: Airplane)

  /** An order belongs to one user; createdAt is the server-assigned creation time. */
  datatype Order = Order(id: Id, user: Id, createdAt: int)

  /** A sold seat: a (row, seat) on one flight, owned by one order. */
  datatype Ticket = Ticket(id: Id, row: int, seat: int, flight: Id, order: Id)

  /** The airplane's capacity property. */
  function Capacity(a: Airplane): int
  {
    a.rows * a.seatsInRow
  }

  predicate InRange(value: int, count: int)
  {
    1 <= value <= count
  }

  /** The seat (row, seat) exists on airplane a. */
  predicate SeatInPlane(row: int, seat: int, a: Airplane)
  {
    InRange(row, a.rows) && InRange(seat, a.seatsInRow)
  }

  /** The two ticket attributes the place check inspects, with their names and the airplane attribute bounding them. */
  datatype PlaceField = RowField | SeatField
  {
    function Name(): string
    {
      if RowField? then "row" else "seat"
    }

    function LimitName(): string
    {
      if RowField? then "rows" else "seats_in_row"
    }
  }

  /** One entry of the check list: the ticket's value, which field it is, and the airplane's count for it. */
  datatype PlaceCheck = PlaceCheck(value: int, field: PlaceField, count: int)

  /** The raised error: the field out of range and the upper end of its valid range (1, count). */
  datatype PlaceError = PlaceError(field: PlaceField, count: int)

  /** The text of the error message, kept as its parts: field name, limit name and the range (low, high). */
  datatype RangeMessage = RangeMessage(field: string, limit: string, low: int, high: int)

  /** The fixed list the place check iterates: row against rows, then seat against seats_in_row. */
  function PlaceChecks(row: int, seat: int, a: Airplane): seq<PlaceCheck>
  {
    [PlaceCheck(row, RowField, a.rows), PlaceCheck(seat, SeatField, a.seatsInRow)]
  }

  /** Walks the check list and raises on the first entry out of range. */
  function FirstOutOfRange(checks: seq<PlaceCheck>): (r: Outcome<PlaceError>)
    ensures r.Pass? <==> forall i :: 0 <= i < |checks| ==> InRange(checks[i].value, checks[i].count)
    ensures r.Fail? ==>
      exists i :: 0 <= i < |checks| && !InRange(checks[i].value, checks[i].count)
        && r.error == PlaceError(checks[i].field, checks[i].count)
        && forall j :: 0 <= j < i ==> InRange(checks[j].value, checks[j].count)
  {
    if |checks| == 0 then Pass
    else if !InRange(checks[0].value, checks[0].count) then Fail(PlaceError(checks[0].field, checks[0].count))
    else
      var rest := FirstOutOfRange(checks[1..]);
      assert forall i :: 1 <= i < |checks| ==> checks[i] == checks[1..][i - 1];
      rest
  }

  /** Ticket.validate_place: the seat must exist on the airplane; row is checked before seat. */
  function ValidatePlace(row: int, seat: int, a: Airplane): (r: Outcome<PlaceError>)
    ensures r.Pass? <==> SeatInPlane(row, seat, a)
    ensures !InRange(row, a.rows) ==> r == Fail(PlaceError(RowField, a.rows))
    ensures InRange(row, a.rows) && !InRange(seat, a.seatsInRow) ==> r == Fail(PlaceError(SeatField, a.seatsInRow))
  {
    var checks := PlaceChecks(row, seat, a);
    var r := FirstOutOfRange(checks);
    assert (forall i :: 0 <= i < |checks| ==> InRange(checks[i].value, checks[i].count))
      <==> InRange(checks[0].value, checks[0].count) && InRange(checks[1].value, checks[1].count);
    assert r.Fail? ==>
      (!InRange(row, a.rows) && r.error == PlaceError(RowField, a.rows))
      || (InRange(row, a.rows) && !InRange(seat, a.seatsInRow) && r.error == PlaceError(SeatField, a.seatsInRow)) by {
      if r.Fail? {
        var i :| 0 <= i < |checks| && !InRange(checks[i].value, checks[i].count)
          && r.error == PlaceError(checks[i].field, checks[i].count)
          && forall j :: 0 <= j < i ==> InRange(checks[j].value, checks[j].count);
        assert i == 1 ==> InRange(checks[0].value, checks[0].count);
      }
    }
    r
  }

  /** The payload of the raised error: keyed by the failing field's name, a message stating its valid range. */
  function ErrorPayload(e: PlaceError): map<string, RangeMessage>
  {
    map[e.field.Name() := RangeMessage(e.field.Name(), e.field.LimitName(), 1, e.count)]
  }

  /** The payload of a failed place check names exactly the first failing field and states its range (1, count). */
  lemma PlacePayloadNamesFirstFailure(row: int, seat: int, a: Airplane)
    requires !SeatInPlane(row, seat, a)
    ensures ValidatePlace(row, seat, a).Fail?
    ensures var name := if InRange(row, a.rows) then "seat" else "row";
            var count := if InRange(row, a.rows) then a.seatsInRow else a.rows;
            var limit := if InRange(row, a.rows) then "seats_in_row" else "rows";
            var payload := ErrorPayload(ValidatePlace(row, seat, a).error);
            payload.Keys == {name} && payload[name] == RangeMessage(name, limit, 1, count)
  {
  }

  /** The seat key made unique across all tickets by the table's unique constraint. */
  function Key(t: Ticket): (Id, int, int)
  {
    (t.flight, t.row, t.seat)
  }

  predicate SeatTaken(ts: seq<Ticket>, flight: Id, row: int, seat: int)
  {
    exists i | 0 <= i < |ts| :: Key(ts[i]) == (flight, row, seat)
  }

  predicate OrderExists(orders: seq<Order>, id: Id)
  {
    exists i | 0 <= i < |orders| :: orders[i].id == id
  }

  /** No two tickets share a (flight, row, seat) key. */
  predicate KeysUnique(ts: seq<Ticket>)
  {
    forall i, j | 0 <= i < j < |ts| :: Key(ts[i]) != Key(ts[j])
  }

  /** Every ticket refers to a known flight and to a seat of that flight's airplane. */
  predicate TicketsPlaced(flights: map<Id, Flight>, ts: seq<Ticket>)
  {
    forall i | 0 <= i < |ts| :: ts[i].flight in flights && SeatInPlane(ts[i].row, ts[i].seat, flights[ts[i].flight].airplane)
  }

  /** The invariant of the stored ticket table. */
  predicate TicketTableValid(flights: map<Id, Flight>, ts: seq<Ticket>)
  {
    TicketsPlaced(flights, ts) && KeysUnique(ts)
  }

  /** Why a ticket was refused at save time. */
  datatype TicketError =
    | UnknownFlight(flight: Id)
    | UnknownOrder(order: Id)
    | Place(error: PlaceError)
    | DuplicateSeat(flight: Id, row: int, seat: int)

  /**
   * The full clean a ticket goes through before it is written: the two foreign
   * keys must exist, the place check must pass, and the unique check on
   * (flight, row, seat) runs only when the place check passed, since the unique
   * check skips fields that already failed.
   */
  function FullClean(flights: map<Id, Flight>, orders: seq<Order>, ts: seq<Ticket>,
                     row: int, seat: int, flight: Id, order: Id): (r: Outcome<TicketError>)
    ensures r.Pass? <==>
      flight in flights && OrderExists(orders, order)
      && SeatInPlane(row, seat, flights[flight].airplane) && !SeatTaken(ts, flight, row, seat)
    ensures flight in flights && OrderExists(orders, order) && !SeatInPlane(row, seat, flights[flight].airplane) ==>
      r == Fail(Place(ValidatePlace(row, seat, flights[flight].airplane).error))
    ensures r == Fail(DuplicateSeat(flight, row, seat)) <==>
      flight in flights && OrderExists(orders, order)
      && SeatInPlane(row, seat, flights[flight].airplane) && SeatTaken(ts, flight, row, seat)
  {
    if flight !in flights then Fail(UnknownFlight(flight))
    else if !OrderExists(orders, order) then Fail(UnknownOrder(order))
    else
      match ValidatePlace(row, seat, flights[flight].airplane)
      case Fail(e) => Fail(Place(e))
      case Pass =>
        if SeatTaken(ts, flight, row, seat) then Fail(DuplicateSeat(flight, row, seat)) else Pass
  }

  /** Writing a ticket that passed the full clean keeps the ticket table valid. */
  lemma {:induction false} SaveKeepsTableValid(flights: map<Id, Flight>, orders: seq<Order>, ts: seq<Ticket>, t: Ticket)
    requires TicketTableValid(flights, ts)
    requires FullClean(flights, orders, ts, t.row, t.seat, t.flight, t.order).Pass?
    ensures TicketTableValid(flights, ts + [t])
  {
    var ts' := ts + [t];
    forall i, j | 0 <= i < j < |ts'| ensures Key(ts'[i]) != Key(ts'[j]) {
      if j == |ts| {
        assert ts'[i] == ts[i];
        assert !(Key(ts[i]) == (t.flight, t.row, t.seat));
      } else {
        assert ts'[i] == ts[i] && ts'[j] == ts[j];
      }
    }
  }

  /** The number of tickets on flight f: the Count("tickets") of the flight listing. */
  function CountOnFlight(ts: seq<Ticket>, f: Id): nat
  {
    if |ts| == 0 then 0 else (if ts[0].flight == f then 1 else 0) + CountOnFlight(ts[1..], f)
  }

  /** The number of tickets owned by order o. */
  function CountOnOrder(ts: seq<Ticket>, o: Id): nat
  {
    if |ts| == 0 then 0 else (if ts[0].order == o then 1 else 0) + CountOnOrder(ts[1..], o)
  }

  lemma {:induction false} CountOnOrderAppend(a: seq<Ticket>, b: seq<Ticket>, o: Id)
    ensures CountOnOrder(a + b, o) == CountOnOrder(a, o) + CountOnOrder(b, o)
  {
    if |a| > 0 {
      assert (a + b)[1..] == a[1..] + b;
      CountOnOrderAppend(a[1..], b, o);
    } else {
      assert a + b == b;
    }
  }

  /** The (row, seat) pairs sold on flight f, in table order. */
  function FlightSeats(ts: seq<Ticket>, f: Id): (r: seq<(int, int)>)
    ensures |r| == CountOnFlight(ts, f)
  {
    if |ts| == 0 then []
    else if ts[0].flight == f then [(ts[0].row, ts[0].seat)] + FlightSeats(ts[1..], f)
    else FlightSeats(ts[1..], f)
  }

  /** Every pair in FlightSeats comes from a ticket on flight f. */
  lemma {:induction false} FlightSeatsFrom(ts: seq<Ticket>, f: Id, k: nat)
    requires k < |FlightSeats(ts, f)|
    ensures exists i :: 0 <= i < |ts| && ts[i].flight == f && (ts[i].row, ts[i].seat) == FlightSeats(ts, f)[k]
  {
    if ts[0].flight == f && k == 0 {
      assert ts[0].flight == f && (ts[0].row, ts[0].seat) == FlightSeats(ts, f)[k];
    } else {
      var k' := if ts[0].flight == f then k - 1 else k;
      FlightSeatsFrom(ts[1..], f, k');
      var i :| 0 <= i < |ts[1..]| && ts[1..][i].flight == f && (ts[1..][i].row, ts[1..][i].seat) == FlightSeats(ts[1..], f)[k'];
      assert ts[i + 1] == ts[1..][i];
    }
  }

  predicate Distinct<T(==)>(s: seq<T>)
  {
    forall i, j | 0 <= i < j < |s| :: s[i] != s[j]
  }

  /** Unique seat keys make the seats sold on one flight pairwise distinct. */
  lemma {:induction false} FlightSeatsDistinct(ts: seq<Ticket>, f: Id)
    requires KeysUnique(ts)
    ensures Distinct(FlightSeats(ts, f))
  {
    if |ts| > 0 {
      var tail := ts[1..];
      assert KeysUnique(tail) by {
        forall i, j | 0 <= i < j < |tail| ensures Key(tail[i]) != Key(tail[j]) {
          assert tail[i] == ts[i + 1] && tail[j] == ts[j + 1];
        }
      }
      FlightSeatsDistinct(tail, f);
      if ts[0].flight == f {
        var s := FlightSeats(ts, f);
        forall j | 0 < j < |s| ensures s[0] != s[j] {
          FlightSeatsFrom(tail, f, j - 1);
          var i :| 0 <= i < |tail| && tail[i].flight == f && (tail[i].row, tail[i].seat) == FlightSeats(tail, f)[j - 1];
          assert tail[i] == ts[i + 1];
          assert Key(ts[0]) != Key(ts[i + 1]);
        }
      }
    }
  }

  /** The seats of one row: (r, 1) .. (r, s). */
  ghost function RowSeats(r: int, s: int): set<(int, int)>
    decreases s
  {
    if s <= 0 then {} else RowSeats(r, s - 1) + {(r, s)}
  }

  /** All seats of an airplane with the given rows and seats per row: [1, rows] x [1, seats]. */
  ghost function SeatGrid(rows: int, seats: int): set<(int, int)>
    decreases rows
  {
    if rows <= 0 then {} else SeatGrid(rows - 1, seats) + RowSeats(rows, seats)
  }

  lemma {:induction false} RowSeatsMember(r: int, s: int, p: (int, int))
    ensures p in RowSeats(r, s) <==> p.0 == r && 1 <= p.1 <= s
    decreases s
  {
    if s > 0 {
      RowSeatsMember(r, s - 1, p);
    }
  }

  lemma {:induction false} SeatGridMember(rows: int, seats: int, p: (int, int))
    ensures p in SeatGrid(rows, seats) <==> 1 <= p.0 <= rows && 1 <= p.1 <= seats
    decreases rows
  {
    if rows > 0 {
      SeatGridMember(rows - 1, seats, p);
      RowSeatsMember(rows, seats, p);
    }
  }

  lemma {:induction false} RowSeatsSize(r: int, s: int)
    requires s >= 0
    ensures |RowSeats(r, s)| == s
    decreases s
  {
    if s > 0 {
      RowSeatsSize(r, s - 1);
      RowSeatsMember(r, s - 1, (r, s));
    }
  }

  lemma {:induction false} SeatGridSize(rows: int, seats: int)
    requires rows >= 0 && seats >= 0
    ensures |SeatGrid(rows, seats)| == rows * seats
  {
    SeatGridCount(rows, seats);
  }

  /** rows * seats, counted row by row. */
  ghost function RowTotal(rows: int, seats: int): (n: int)
    requires rows >= 0
    ensures n == rows * seats
    decreases rows
  {
    if rows == 0 then 0 else RowTotal(rows - 1, seats) + seats
  }

  lemma {:induction false} SeatGridCount(rows: int, seats: int)
    requires rows >= 0 && seats >= 0
    ensures |SeatGrid(rows, seats)| == RowTotal(rows, seats)
    decreases rows
  {
    if rows > 0 {
      SeatGridCount(rows - 1, seats);
      RowSeatsSize(rows, seats);
      LastRowDisjoint(rows, seats);
    }
  }

  lemma {:induction false} LastRowDisjoint(rows: int, seats: int)
    ensures SeatGrid(rows - 1, seats) * RowSeats(rows, seats) == {}
  {
    forall p | p in SeatGrid(rows - 1, seats) ensures p !in RowSeats(rows, seats) {
      SeatGridMember(rows - 1, seats, p);
      RowSeatsMember(rows, seats, p);
    }
  }

  /** The capacity is the number of seats of the airplane when neither dimension is negative. */
  lemma CapacityIsSeatCount(a: Airplane)
    requires a.rows >= 0 && a.seatsInRow >= 0
    ensures |SeatGrid(a.rows, a.seatsInRow)| == Capacity(a)
  {
    SeatGridSize(a.rows, a.seatsInRow);
  }

  /** A duplicate-free sequence drawn from g is no longer than g. */
  lemma {:induction false} DistinctWithin<T>(s: seq<T>, g: set<T>)
    requires Distinct(s)
    requires forall x :: x in s ==> x in g
    ensures |s| <= |g|
  {
    if |s| > 0 {
      var tail := s[1..];
      assert Distinct(tail) by {
        forall i, j | 0 <= i < j < |tail| ensures tail[i] != tail[j] {
          assert tail[i] == s[i + 1] && tail[j] == s[j + 1];
        }
      }
      forall x | x in tail ensures x in g - {s[0]} {
        var j :| 0 <= j < |tail| && tail[j] == x;
        assert s[j + 1] == x;
      }
      DistinctWithin(tail, g - {s[0]});
    }
  }

  /** On a valid table, the tickets of a flight occupy distinct seats of its airplane, so they are at most its seat count. */
  lemma FlightWithinSeatGrid(flights: map<Id, Flight>, ts: seq<Ticket>, f: Id)
    requires TicketTableValid(flights, ts) && f in flights
    ensures CountOnFlight(ts, f) <= |SeatGrid(flights[f].airplane.rows, flights[f].airplane.seatsInRow)|
  {
    var a := flights[f].airplane;
    var s := FlightSeats(ts, f);
    FlightSeatsDistinct(ts, f);
    forall p | p in s ensures p in SeatGrid(a.rows, a.seatsInRow) {
      SeatGridMember(a.rows, a.seatsInRow, p);
      var k :| 0 <= k < |s| && s[k] == p;
      FlightSeatsFrom(ts, f, k);
      var i :| 0 <= i < |ts| && ts[i].flight == f && (ts[i].row, ts[i].seat) == s[k];
      assert SeatInPlane(ts[i].row, ts[i].seat, a);
    }
    DistinctWithin(s, SeatGrid(a.rows, a.seatsInRow));
  }

  /** On a valid table a flight never holds more tickets than its capacity, unless that capacity is negative. */
  lemma FlightWithinCapacity(flights: map<Id, Flight>, ts: seq<Ticket>, f: Id)
    requires TicketTableValid(flights, ts) && f in flights
    requires Capacity(flights[f].airplane) >= 0
    ensures CountOnFlight(ts, f) <= Capacity(flights[f].airplane)
  {
    var a := flights[f].airplane;
    FlightWithinSeatGrid(flights, ts, f);
    if a.rows >= 1 && a.seatsInRow >= 1 {
      CapacityIsSeatCount(a);
    } else {
      forall p | p in SeatGrid(a.rows, a.seatsInRow) ensures false {
        SeatGridMember(a.rows, a.seatsInRow, p);
      }
      assert SeatGrid(a.rows, a.seatsInRow) == {};
    }
  }
}
