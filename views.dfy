/**
 * The read side of the API and the order creation entry point: the list
 * filters of routes, airplanes, flights and orders, the tickets_available
 * annotation of the flight list, and the creation of an order on behalf of
 * the requesting user.
 *
 * A query parameter that is absent or empty is None; a given one is the id or
 * text it carries (turning the parameter's text into an id is not modelled).
 */
module Views {
  import opened Results
  import opened Models
  import opened Database
  import opened Serializers

  /** The rows of s that satisfy p, in their order, each as often as it occurs in s. */
  function Filter<T(!new)>(s: seq<T>, p: T -> bool): (r: seq<T>)
    ensures forall x :: multiset(r)[x] == if p(x) then multiset(s)[x] else 0
    ensures forall x :: x in r <==> x in s && p(x)
    ensures |r| <= |s|
  {
    if |s| == 0 then []
    else
      assert s == [s[0]] + s[1..];
      if p(s[0]) then [s[0]] + Filter(s[1..], p)
      else Filter(s[1..], p)
  }

  /** Filtering with two tests that agree on every row gives the same rows. */
  lemma {:induction false} FilterAgrees<T(!new)>(s: seq<T>, p: T -> bool, q: T -> bool)
    requires forall x :: x in s ==> p(x) == q(x)
    ensures Filter(s, p) == Filter(s, q)
  {
    if |s| > 0 {
      assert forall x :: x in s[1..] ==> x in s;
      FilterAgrees(s[1..], p, q);
    }
  }

  /** The route list: source and destination narrow by airport id, each when given, both together when both are. */
  function RouteList(routes: seq<Route>, source: Option<Id>, destination: Option<Id>): (r: seq<Route>)
    ensures forall x :: multiset(r)[x] ==
                if (source.None? || x.source == source.value) && (destination.None? || x.destination == destination.value)
                then multiset(routes)[x] else 0
    ensures forall x :: x in r <==>
      x in routes
      && (source.None? || x.source == source.value)
      && (destination.None? || x.destination == destination.value)
  {
    var bySource := if source.Some? then Filter(routes, (x: Route) => x.source == source.value) else routes;
    if destination.Some? then Filter(bySource, (x: Route) => x.destination == destination.value) else bySource
  }

  /** ASCII case folding: the model's stand-in for the database's case-insensitive comparison. */
  function Lower(c: char): char
  {
    if 'A' <= c <= 'Z' then (c as int + 32) as char else c
  }

  function LowerString(s: string): (r: string)
    ensures |r| == |s| && forall i :: 0 <= i < |s| ==> r[i] == Lower(s[i])
  {
    seq(|s|, i requires 0 <= i < |s| => Lower(s[i]))
  }

  predicate OccursAt(needle: string, hay: string, i: nat)
  {
    i + |needle| <= |hay| && hay[i..i + |needle|] == needle
  }

  predicate IsSubstring(needle: string, hay: string)
  {
    exists i: nat | i <= |hay| :: OccursAt(needle, hay, i)
  }

  /** The icontains lookup: needle occurs in hay when case is ignored. */
  predicate ContainsIgnoreCase(hay: string, needle: string)
  {
    IsSubstring(LowerString(needle), LowerString(hay))
  }

  /** The airplane list: name keeps the airplanes whose name contains it, ignoring case; type keeps those of that type. */
  function AirplaneList(airplanes: seq<Airplane>, name: string, airplaneType: Option<Id>): (r: seq<Airplane>)
    ensures forall x :: multiset(r)[x] ==
                if (name == "" || ContainsIgnoreCase(x.name, name)) && (airplaneType.None? || x.airplaneType == airplaneType.value)
                then multiset(airplanes)[x] else 0
    ensures forall x :: x in r <==>
      x in airplanes
      && (name == "" || ContainsIgnoreCase(x.name, name))
      && (airplaneType.None? || x.airplaneType == airplaneType.value)
  {
    var byName := if name != "" then Filter(airplanes, (x: Airplane) => ContainsIgnoreCase(x.name, name)) else airplanes;
    if airplaneType.Some? then Filter(byName, (x: Airplane) => x.airplaneType == airplaneType.value) else byName
  }

  /** Two name parameters that differ only in letter case select the same airplanes, in the same order. */
  lemma AirplaneNameFilterIgnoresCase(airplanes: seq<Airplane>, name: string, name': string, airplaneType: Option<Id>)
    requires LowerString(name) == LowerString(name')
    ensures AirplaneList(airplanes, name, airplaneType) == AirplaneList(airplanes, name', airplaneType)
  {
    assert |name| == |LowerString(name)| == |name'|;
    FilterAgrees(airplanes, (x: Airplane) => ContainsIgnoreCase(x.name, name), (x: Airplane) => ContainsIgnoreCase(x.name, name'));
  }

  /** A flight of the flight list, with its tickets_available annotation. */
  datatype FlightListing = FlightListing(flight: Flight, ticketsAvailable: int)

  /** The tickets_available annotation: the airplane's rows times seats in a row, less the flight's tickets. */
  function TicketsAvailable(f: Flight, ts: seq<Ticket>): int
  {
    Capacity(f.airplane) - CountOnFlight(ts, f.id)
  }

  function Annotate(fs: seq<Flight>, ts: seq<Ticket>): (r: seq<FlightListing>)
    ensures |r| == |fs|
    ensures forall i :: 0 <= i < |fs| ==> r[i] == FlightListing(fs[i], TicketsAvailable(fs[i], ts))
  {
    seq(|fs|, i requires 0 <= i < |fs| => FlightListing(fs[i], TicketsAvailable(fs[i], ts)))
  }

  /** Annotating lists every flight of fs as often as it occurs there, each with its own tickets_available. */
  lemma {:induction false} AnnotateCount(fs: seq<Flight>, ts: seq<Ticket>, x: FlightListing)
    ensures multiset(Annotate(fs, ts))[x] ==
              if x.ticketsAvailable == TicketsAvailable(x.flight, ts) then multiset(fs)[x.flight] else 0
  {
    if |fs| > 0 {
      var a, tail := Annotate(fs, ts), Annotate(fs[1..], ts);
      var h := FlightListing(fs[0], TicketsAvailable(fs[0], ts));
      assert a == [h] + tail by {
        forall i | 0 <= i < |tail| ensures a[i + 1] == tail[i] {
          assert fs[1..][i] == fs[i + 1];
        }
      }
      assert fs == [fs[0]] + fs[1..];
      assert multiset(a)[x] == multiset{h}[x] + multiset(tail)[x];
      assert multiset(fs)[x.flight] == multiset{fs[0]}[x.flight] + multiset(fs[1..])[x.flight];
      AnnotateCount(fs[1..], ts, x);
    }
  }

  predicate SortedById(s: seq<FlightListing>)
  {
    forall i, j | 0 <= i < j < |s| :: s[i].flight.id <= s[j].flight.id
  }

  /** Places x in the id-ordered s after every listing with a smaller or equal id. */
  function InsertById(x: FlightListing, s: seq<FlightListing>): (r: seq<FlightListing>)
    requires SortedById(s)
    ensures SortedById(r)
    ensures multiset(r) == multiset(s) + multiset{x}
    ensures forall y :: y in r <==> y == x || y in s
  {
    if |s| == 0 then [x]
    else if x.flight.id <= s[0].flight.id then
      ConsSorted(x, s);
      [x] + s
    else
      var rest := InsertById(x, s[1..]);
      SortedHeadFirst(s);
      ConsSorted(s[0], rest);
      assert s == [s[0]] + s[1..];
      [s[0]] + rest
  }

  /** The head of an id-ordered sequence has the smallest id. */
  lemma SortedHeadFirst(s: seq<FlightListing>)
    requires SortedById(s) && |s| > 0
    ensures SortedById(s[1..])
    ensures forall y :: y in s[1..] ==> s[0].flight.id <= y.flight.id
  {
    forall y | y in s[1..] ensures s[0].flight.id <= y.flight.id {
      var k :| 0 <= k < |s[1..]| && s[1..][k] == y;
      assert s[k + 1] == y;
    }
  }

  lemma ConsSorted(h: FlightListing, t: seq<FlightListing>)
    requires SortedById(t)
    requires forall y :: y in t ==> h.flight.id <= y.flight.id
    ensures SortedById([h] + t)
    ensures forall y :: y in [h] + t <==> y == h || y in t
  {
    var r := [h] + t;
    forall i, j | 0 <= i < j < |r| ensures r[i].flight.id <= r[j].flight.id {
      assert r[j] == t[j - 1];
      if i > 0 {
        assert r[i] == t[i - 1];
      }
    }
  }

  /** The order_by("id") of the flight list: an insertion sort on flight id. */
  function SortById(s: seq<FlightListing>): (r: seq<FlightListing>)
    ensures SortedById(r) && multiset(r) == multiset(s)
  {
    if |s| == 0 then []
    else
      assert s == [s[0]] + s[1..];
      InsertById(s[0], SortById(s[1..]))
  }

  /** The flights the source parameter keeps, each as often as it occurs in flights. */
  function SelectFlights(flights: seq<Flight>, source: Option<Id>): (r: seq<Flight>)
    ensures forall f :: multiset(r)[f] ==
              if source.None? || f.route.source == source.value then multiset(flights)[f] else 0
    ensures |r| <= |flights|
  {
    if source.Some? then Filter(flights, (f: Flight) => f.route.source == source.value) else flights
  }

  /** How often a listing occurs in the annotated selection. */
  lemma ListingCount(flights: seq<Flight>, ts: seq<Ticket>, source: Option<Id>, x: FlightListing)
    ensures multiset(Annotate(SelectFlights(flights, source), ts))[x] ==
              if (source.None? || x.flight.route.source == source.value) && x.ticketsAvailable == TicketsAvailable(x.flight, ts)
              then multiset(flights)[x.flight] else 0
  {
    AnnotateCount(SelectFlights(flights, source), ts, x);
  }

  /**
   * The flight list: source keeps the flights whose route leaves from that
   * airport; every listed flight carries its tickets_available, and the list
   * is in ascending id order.
   */
  function FlightList(flights: seq<Flight>, ts: seq<Ticket>, source: Option<Id>): (r: seq<FlightListing>)
    ensures SortedById(r)
    ensures forall x :: multiset(r)[x] ==
              if (source.None? || x.flight.route.source == source.value) && x.ticketsAvailable == TicketsAvailable(x.flight, ts)
              then multiset(flights)[x.flight] else 0
    ensures forall x :: x in r <==>
      x.flight in flights
      && (source.None? || x.flight.route.source == source.value)
      && x.ticketsAvailable == TicketsAvailable(x.flight, ts)
    ensures |r| <= |flights|
  {
    var listed := Annotate(SelectFlights(flights, source), ts);
    var r := SortById(listed);
    forall x: FlightListing
      ensures multiset(r)[x] ==
                if (source.None? || x.flight.route.source == source.value) && x.ticketsAvailable == TicketsAvailable(x.flight, ts)
                then multiset(flights)[x.flight] else 0
    {
      ListingCount(flights, ts, source, x);
    }
    forall x: FlightListing
      ensures x in r <==>
        x.flight in flights
        && (source.None? || x.flight.route.source == source.value)
        && x.ticketsAvailable == TicketsAvailable(x.flight, ts)
    {
      assert x in r <==> x in multiset(r);
      assert x.flight in flights <==> x.flight in multiset(flights);
    }
    assert |r| == |multiset(r)| == |multiset(listed)| == |listed|;
    r
  }

  /**
   * On a valid ticket table, a listed flight whose airplane has a non-negative
   * capacity shows a non-negative tickets_available.
   */
  lemma ListedAvailabilityNonNegative(flights: seq<Flight>, table: map<Id, Flight>, ts: seq<Ticket>,
                                      source: Option<Id>, x: FlightListing)
    requires TicketTableValid(table, ts)
    requires x in FlightList(flights, ts, source)
    requires x.flight.id in table && table[x.flight.id] == x.flight
    requires Capacity(x.flight.airplane) >= 0
    ensures x.ticketsAvailable >= 0
  {
    FlightWithinCapacity(table, ts, x.flight.id);
  }

  /**
   * The bound needs the capacity to be non-negative: rows and seats per row are
   * plain integer columns, and an airplane with -1 rows of 5 seats lists its
   * flight with -5 tickets available.
   */
  lemma NegativeCapacityListsNegativeAvailability()
    ensures var f := Flight(0, Route(0, 1, 2, 100), Airplane(0, "A", -1, 5, 0));
      FlightList([f], [], None) == [FlightListing(f, -5)]
  {
    var f := Flight(0, Route(0, 1, 2, 100), Airplane(0, "A", -1, 5, 0));
    var r := FlightList([f], [], None);
    assert FlightListing(f, -5) in r;
    assert |r| <= 1;
    assert r == [r[0]];
  }

  /** A 10 x 6 airplane with three tickets sold on its flight lists 57 tickets available. */
  lemma AvailabilityExample(f: Flight, ts: seq<Ticket>)
    requires f.airplane.rows == 10 && f.airplane.seatsInRow == 6
    requires ts == [Ticket(0, 1, 1, f.id, 0), Ticket(1, 1, 2, f.id, 0), Ticket(2, 1, 3, f.id, 0)]
    ensures FlightList([f], ts, None) == [FlightListing(f, 57)]
  {
    var r := FlightList([f], ts, None);
    assert CountOnFlight(ts[2..], f.id) == 1 by { assert ts[2..][1..] == []; }
    assert CountOnFlight(ts[1..], f.id) == 2 by { assert ts[1..][1..] == ts[2..]; }
    assert CountOnFlight(ts, f.id) == 3;
    assert TicketsAvailable(f, ts) == 57;
    assert FlightListing(f, 57) in r;
    assert |r| <= 1;
    assert r == [r[0]];
  }

  /** The order queryset: only the requesting user's orders, narrowed to one id when the order parameter is given. */
  function OrderList(orders: seq<Order>, requester: Id, orderParam: Option<Id>): (r: seq<Order>)
    ensures forall x :: multiset(r)[x] ==
                if x.user == requester && (orderParam.None? || x.id == orderParam.value) then multiset(orders)[x] else 0
    ensures forall x :: x in r <==>
      x in orders && x.user == requester && (orderParam.None? || x.id == orderParam.value)
  {
    var own := Filter(orders, (o: Order) => o.user == requester);
    if orderParam.Some? then Filter(own, (o: Order) => o.id == orderParam.value) else own
  }

  /** The order parameter only narrows: its result is part of the user's own order list. */
  lemma OrderParamNarrows(orders: seq<Order>, requester: Id, id: Id)
    ensures forall x :: x in OrderList(orders, requester, Some(id)) ==> x in OrderList(orders, requester, None)
  {
  }

  /** Why an order creation request was refused. */
  datatype CreateError =
    | Invalid(payload: PayloadError)
    | SaveFailed(error: TicketError)

  /**
   * The order creation request: the payload is validated first, and only a
   * valid one reaches the creation, which saves the order with the requesting
   * user as its owner. A valid payload is created exactly when its ticket
   * inserts succeed, and then with exactly the tickets they produce.
   */
  method PerformCreate(db: Store, requester: Id, specs: seq<TicketSpec>, now: int) returns (r: Result<Order, CreateError>)
    requires db.Valid()
    modifies db
    ensures db.Valid() && db.flights == old(db.flights)
    ensures ValidateOrderPayload(old(db.flights), specs).Err? ==>
      r == Err(Invalid(ValidateOrderPayload(old(db.flights), specs).error))
      && db.orders == old(db.orders) && db.tickets == old(db.tickets)
      && db.nextOrderId == old(db.nextOrderId) && db.nextTicketId == old(db.nextTicketId)
    ensures ValidateOrderPayload(old(db.flights), specs).Ok? ==>
      var o := Order(old(db.nextOrderId), requester, now);
      match InsertBatch(old(db.flights), old(db.orders) + [o], old(db.tickets), specs, o.id, old(db.nextTicketId))
      case Ok(created) =>
        r == Ok(o) && db.orders == old(db.orders) + [o] && db.tickets == old(db.tickets) + created
      case Err(e) =>
        r == Err(SaveFailed(e)) && db.orders == old(db.orders) && db.tickets == old(db.tickets)
    ensures r.Ok? ==>
      && r.value == Order(old(db.nextOrderId), requester, now)
      && db.orders == old(db.orders) + [r.value]
      && CountOnOrder(db.tickets, r.value.id) == |specs|
      && |db.tickets| == |old(db.tickets)| + |specs|
      && db.tickets[..|old(db.tickets)|] == old(db.tickets)
    ensures r.Err? ==> db.orders == old(db.orders) && db.tickets == old(db.tickets)
  {
    match ValidateOrderPayload(db.flights, specs)
    case Err(e) =>
      return Err(Invalid(e));
    case Ok(validated) =>
      ghost var flights0, orders0, tickets0 := db.flights, db.orders, db.tickets;
      ghost var nextOrder0, nextTicket0 := db.nextOrderId, db.nextTicketId;
      var created := CreateOrder(db, requester, validated, now);
      match created
      case Err(e) =>
        return Err(SaveFailed(e));
      case Ok(o) =>
        NewOrderOwnsBatch(flights0, orders0, tickets0, nextOrder0, nextTicket0, requester, now, specs);
        assert db.tickets[..|tickets0|] == tickets0;
        return Ok(o);
  }
}
