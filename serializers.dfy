/**
 * The order payload's validation and the order creation it leads to: each
 * ticket of the payload is checked with the same place rule the model uses,
 * an empty ticket list is refused, and the creation inserts the order and then
 * its tickets one by one inside a single transaction, which rolls back on the
 * first ticket that fails its full clean.
 *
 * The order serializer nests the ticket list serializer, whose flight field is
 * read-only (airport/serializers.py:101-102, 123): as written, neither the
 * nested validation nor the creation would receive the flight of a ticket.
 * This model takes each ticket as the intended (row, seat, flight) triple.
 */
module Serializers {
  import opened Results
  import opened Models
  import opened Database

  /** One ticket of an order payload. */
  datatype TicketSpec = TicketSpec(row: int, seat: int, flight: Id)

  function SpecKey(s: TicketSpec): (Id, int, int)
  {
    (s.flight, s.row, s.seat)
  }

  /**
   * The ticket serializer's validation: the flight key must name a stored
   * flight, then the model's place check runs on the ticket's row and seat.
   */
  function ValidateTicket(flights: map<Id, Flight>, spec: TicketSpec): (r: Outcome<TicketError>)
    ensures r.Pass? <==> spec.flight in flights && SeatInPlane(spec.row, spec.seat, flights[spec.flight].airplane)
    ensures spec.flight !in flights ==> r == Fail(UnknownFlight(spec.flight))
  {
    if spec.flight !in flights then Fail(UnknownFlight(spec.flight))
    else
      match ValidatePlace(spec.row, spec.seat, flights[spec.flight].airplane)
      case Fail(e) => Fail(Place(e))
      case Pass => Pass
  }

  /**
   * The API check and the save-time check apply one rule: where the API refuses a
   * ticket the full clean refuses it with the same error, and where the API accepts
   * it the full clean can only object that the seat is already sold.
   */
  lemma ApiCheckIsSaveCheck(flights: map<Id, Flight>, orders: seq<Order>, ts: seq<Ticket>, spec: TicketSpec, order: Id)
    requires OrderExists(orders, order)
    ensures ValidateTicket(flights, spec).Fail? ==>
      FullClean(flights, orders, ts, spec.row, spec.seat, spec.flight, order) == ValidateTicket(flights, spec)
    ensures ValidateTicket(flights, spec).Pass? ==>
      FullClean(flights, orders, ts, spec.row, spec.seat, spec.flight, order)
        == (if SeatTaken(ts, spec.flight, spec.row, spec.seat) then Fail(DuplicateSeat(spec.flight, spec.row, spec.seat)) else Pass)
  {
  }

  /** Why an order payload was refused before any write. */
  datatype PayloadError =
    | EmptyTickets
    | TicketErrors(errors: seq<Outcome<TicketError>>)

  /**
   * The order serializer's validation: the ticket list must not be empty, and
   * every ticket must pass its own validation; the error lists the outcome of
   * every ticket, in payload order.
   */
  function ValidateOrderPayload(flights: map<Id, Flight>, specs: seq<TicketSpec>): (r: Result<seq<TicketSpec>, PayloadError>)
    ensures |specs| == 0 ==> r == Err(EmptyTickets)
    ensures r.Ok? <==> |specs| > 0 && forall i :: 0 <= i < |specs| ==> ValidateTicket(flights, specs[i]).Pass?
    ensures r.Ok? ==> r.value == specs
    ensures r.Err? && |specs| > 0 ==>
      && r.error.TicketErrors? && |r.error.errors| == |specs|
      && (forall i :: 0 <= i < |specs| ==> r.error.errors[i] == ValidateTicket(flights, specs[i]))
      && exists i :: 0 <= i < |specs| && r.error.errors[i].Fail?
  {
    if |specs| == 0 then Err(EmptyTickets)
    else
      var outcomes := seq(|specs|, i requires 0 <= i < |specs| => ValidateTicket(flights, specs[i]));
      assert forall i | 0 <= i < |specs| :: outcomes[i] == ValidateTicket(flights, specs[i]);
      if forall i | 0 <= i < |outcomes| :: outcomes[i].Pass? then Ok(specs) else Err(TicketErrors(outcomes))
  }

  /**
   * The ticket inserts of one order creation, run against the table ts: each
   * ticket goes through the full clean against the table as the previous
   * inserts left it, and the first refusal aborts the batch.
   */
  function InsertBatch(flights: map<Id, Flight>, orders: seq<Order>, ts: seq<Ticket>,
                       specs: seq<TicketSpec>, order: Id, nextId: Id): (r: Result<seq<Ticket>, TicketError>)
    ensures r.Ok? ==> |r.value| == |specs|
    ensures r.Ok? ==> forall i :: 0 <= i < |specs| ==>
      r.value[i] == Ticket(nextId + i, specs[i].row, specs[i].seat, specs[i].flight, order)
    decreases |specs|
  {
    if |specs| == 0 then Ok([])
    else
      var s := specs[0];
      match FullClean(flights, orders, ts, s.row, s.seat, s.flight, order)
      case Fail(e) => Err(e)
      case Pass =>
        var t := Ticket(nextId, s.row, s.seat, s.flight, order);
        match InsertBatch(flights, orders, ts + [t], specs[1..], order, nextId + 1)
        case Ok(rest) =>
          assert forall i :: 1 <= i < |specs| ==> specs[i] == specs[1..][i - 1];
          Ok([t] + rest)
        case Err(e) => Err(e)
  }

  /** The batch admits every ticket: each is a seat of its flight's airplane, unsold in ts, and the batch repeats no seat key. */
  predicate BatchAdmissible(flights: map<Id, Flight>, ts: seq<Ticket>, specs: seq<TicketSpec>)
  {
    && (forall i | 0 <= i < |specs| ::
         specs[i].flight in flights
         && SeatInPlane(specs[i].row, specs[i].seat, flights[specs[i].flight].airplane)
         && !SeatTaken(ts, specs[i].flight, specs[i].row, specs[i].seat))
    && (forall i, j | 0 <= i < j < |specs| :: SpecKey(specs[i]) != SpecKey(specs[j]))
  }

  lemma SeatTakenAppend(ts: seq<Ticket>, t: Ticket, flight: Id, row: int, seat: int)
    ensures SeatTaken(ts + [t], flight, row, seat) <==> SeatTaken(ts, flight, row, seat) || Key(t) == (flight, row, seat)
  {
    var ts' := ts + [t];
    if SeatTaken(ts, flight, row, seat) {
      var i :| 0 <= i < |ts| && Key(ts[i]) == (flight, row, seat);
      assert ts'[i] == ts[i];
    }
    if Key(t) == (flight, row, seat) {
      assert Key(ts'[|ts|]) == (flight, row, seat);
    }
    if SeatTaken(ts', flight, row, seat) {
      var i :| 0 <= i < |ts'| && Key(ts'[i]) == (flight, row, seat);
      if i < |ts| { assert ts'[i] == ts[i]; }
    }
  }

  /** Admissibility of a batch splits into its first ticket and the rest against the table with that ticket added. */
  lemma AdmissibleStep(flights: map<Id, Flight>, ts: seq<Ticket>, specs: seq<TicketSpec>, t: Ticket)
    requires |specs| > 0 && Key(t) == SpecKey(specs[0])
    ensures BatchAdmissible(flights, ts, specs) <==>
      && specs[0].flight in flights
      && SeatInPlane(specs[0].row, specs[0].seat, flights[specs[0].flight].airplane)
      && !SeatTaken(ts, specs[0].flight, specs[0].row, specs[0].seat)
      && BatchAdmissible(flights, ts + [t], specs[1..])
  {
    var tail := specs[1..];
    forall i | 0 <= i < |tail|
      ensures SeatTaken(ts + [t], tail[i].flight, tail[i].row, tail[i].seat)
        <==> SeatTaken(ts, tail[i].flight, tail[i].row, tail[i].seat) || SpecKey(specs[0]) == SpecKey(tail[i])
    {
      SeatTakenAppend(ts, t, tail[i].flight, tail[i].row, tail[i].seat);
    }
    assert forall i | 0 <= i < |tail| :: tail[i] == specs[i + 1];
    if BatchAdmissible(flights, ts, specs) {
      assert BatchAdmissible(flights, ts + [t], tail) by {
        forall i | 0 <= i < |tail|
          ensures !SeatTaken(ts + [t], tail[i].flight, tail[i].row, tail[i].seat)
        {
          assert SpecKey(specs[0]) != SpecKey(specs[i + 1]);
        }
        forall i, j | 0 <= i < j < |tail| ensures SpecKey(tail[i]) != SpecKey(tail[j]) {
          assert SpecKey(specs[i + 1]) != SpecKey(specs[j + 1]);
        }
      }
    }
    if && specs[0].flight in flights
       && SeatInPlane(specs[0].row, specs[0].seat, flights[specs[0].flight].airplane)
       && !SeatTaken(ts, specs[0].flight, specs[0].row, specs[0].seat)
       && BatchAdmissible(flights, ts + [t], tail)
    {
      forall i, j | 0 <= i < j < |specs| ensures SpecKey(specs[i]) != SpecKey(specs[j]) {
        if i == 0 {
          assert !SeatTaken(ts + [t], tail[j - 1].flight, tail[j - 1].row, tail[j - 1].seat);
        } else {
          assert SpecKey(tail[i - 1]) != SpecKey(tail[j - 1]);
        }
      }
      forall i | 0 <= i < |specs|
        ensures !SeatTaken(ts, specs[i].flight, specs[i].row, specs[i].seat)
      {
        if i > 0 {
          assert !SeatTaken(ts + [t], tail[i - 1].flight, tail[i - 1].row, tail[i - 1].seat);
        }
      }
    }
  }

  /**
   * A batch succeeds exactly when it is admissible: every ticket is a seat of its
   * airplane, none is sold already, and no seat key occurs twice in the batch.
   */
  lemma {:induction false} BatchSucceedsIffAdmissible(flights: map<Id, Flight>, orders: seq<Order>, ts: seq<Ticket>,
                                                      specs: seq<TicketSpec>, order: Id, nextId: Id)
    requires OrderExists(orders, order)
    ensures InsertBatch(flights, orders, ts, specs, order, nextId).Ok? <==> BatchAdmissible(flights, ts, specs)
    decreases |specs|
  {
    if |specs| > 0 {
      var s := specs[0];
      var t := Ticket(nextId, s.row, s.seat, s.flight, order);
      AdmissibleStep(flights, ts, specs, t);
      BatchSucceedsIffAdmissible(flights, orders, ts + [t], specs[1..], order, nextId + 1);
    }
  }

  /** A batch holding the same seat key twice fails as a whole. */
  lemma DuplicateInBatchFails(flights: map<Id, Flight>, orders: seq<Order>, ts: seq<Ticket>,
                              specs: seq<TicketSpec>, order: Id, nextId: Id, i: nat, j: nat)
    requires OrderExists(orders, order)
    requires i < j < |specs| && SpecKey(specs[i]) == SpecKey(specs[j])
    ensures InsertBatch(flights, orders, ts, specs, order, nextId).Err?
  {
    BatchSucceedsIffAdmissible(flights, orders, ts, specs, order, nextId);
  }

  /** Two tickets for row 1, seat 1 of the same flight: the second insert is refused, so the batch fails. */
  lemma DuplicateSeatExample(flights: map<Id, Flight>, orders: seq<Order>, order: Id, f: Id)
    requires f in flights && flights[f].airplane.rows >= 1 && flights[f].airplane.seatsInRow >= 1
    requires OrderExists(orders, order)
    ensures InsertBatch(flights, orders, [], [TicketSpec(1, 1, f), TicketSpec(1, 1, f)], order, 0) == Err(DuplicateSeat(f, 1, 1))
  {
    var specs := [TicketSpec(1, 1, f), TicketSpec(1, 1, f)];
    var t := Ticket(0, 1, 1, f, order);
    InsertBatchStep(flights, orders, [], specs, order, 0);
    assert specs[1..] == [TicketSpec(1, 1, f)];
    assert SeatInPlane(1, 1, flights[f].airplane);
    assert !SeatTaken([], f, 1, 1);
    InsertBatchStep(flights, orders, [t], specs[1..], order, 1);
    assert Key([t][0]) == (f, 1, 1);
    assert [] + [t] == [t];
    assert SeatTaken([t], f, 1, 1);
  }

  /** A single ticket in row 11 of a ten-row airplane is refused before any write, naming the row and its range. */
  lemma RowOutOfRangeExample(flights: map<Id, Flight>, f: Id)
    requires f in flights && flights[f].airplane.rows == 10 && flights[f].airplane.seatsInRow >= 1
    ensures ValidateOrderPayload(flights, [TicketSpec(11, 1, f)]) == Err(TicketErrors([Fail(Place(PlaceError(RowField, 10)))]))
  {
    var spec := TicketSpec(11, 1, f);
    assert ValidatePlace(11, 1, flights[f].airplane) == Fail(PlaceError(RowField, 10));
    assert ValidateTicket(flights, spec) == Fail(Place(PlaceError(RowField, 10)));
    var r := ValidateOrderPayload(flights, [spec]);
    assert [spec][0] == spec;
    assert r.Err? && r.error.errors == [r.error.errors[0]];
  }

  /** A successful batch leaves a valid ticket table. */
  lemma {:induction false} BatchKeepsTableValid(flights: map<Id, Flight>, orders: seq<Order>, ts: seq<Ticket>,
                                                specs: seq<TicketSpec>, order: Id, nextId: Id)
    requires TicketTableValid(flights, ts)
    requires InsertBatch(flights, orders, ts, specs, order, nextId).Ok?
    ensures TicketTableValid(flights, ts + InsertBatch(flights, orders, ts, specs, order, nextId).value)
    decreases |specs|
  {
    if |specs| > 0 {
      var s := specs[0];
      var t := Ticket(nextId, s.row, s.seat, s.flight, order);
      var tail := InsertBatch(flights, orders, ts + [t], specs[1..], order, nextId + 1);
      assert FullClean(flights, orders, ts, s.row, s.seat, s.flight, order).Pass? && tail.Ok?
        && InsertBatch(flights, orders, ts, specs, order, nextId).value == [t] + tail.value;
      SaveKeepsTableValid(flights, orders, ts, t);
      BatchKeepsTableValid(flights, orders, ts + [t], specs[1..], order, nextId + 1);
      assert ts + ([t] + tail.value) == (ts + [t]) + tail.value;
    }
  }

  lemma {:induction false} NoTicketOnOrder(orders: seq<Order>, ts: seq<Ticket>, o: Id)
    requires TicketsOwned(orders, ts) && !OrderExists(orders, o)
    ensures CountOnOrder(ts, o) == 0
  {
    if |ts| > 0 {
      assert TicketsOwned(orders, ts[1..]) by {
        forall i | 0 <= i < |ts[1..]| ensures OrderExists(orders, ts[1..][i].order) {
          assert ts[1..][i] == ts[i + 1];
        }
      }
      NoTicketOnOrder(orders, ts[1..], o);
    }
  }

  lemma {:induction false} AllOnOrder(ts: seq<Ticket>, o: Id)
    requires forall i :: 0 <= i < |ts| ==> ts[i].order == o
    ensures CountOnOrder(ts, o) == |ts|
  {
    if |ts| > 0 {
      AllOnOrder(ts[1..], o);
    }
  }

  /**
   * After a successful creation on a valid store, the new order id was not in use
   * before and exactly as many tickets refer to it as the payload listed.
   */
  lemma NewOrderOwnsBatch(flights: map<Id, Flight>, orders: seq<Order>, ts: seq<Ticket>,
                          nextOrderId: Id, nextTicketId: Id, user: Id, now: int, specs: seq<TicketSpec>)
    requires StoreValid(flights, orders, ts, nextOrderId, nextTicketId)
    requires InsertBatch(flights, orders + [Order(nextOrderId, user, now)], ts, specs, nextOrderId, nextTicketId).Ok?
    ensures !OrderExists(orders, nextOrderId)
    ensures CountOnOrder(ts + InsertBatch(flights, orders + [Order(nextOrderId, user, now)], ts, specs, nextOrderId, nextTicketId).value,
                         nextOrderId) == |specs|
  {
    var created := InsertBatch(flights, orders + [Order(nextOrderId, user, now)], ts, specs, nextOrderId, nextTicketId).value;
    NoTicketOnOrder(orders, ts, nextOrderId);
    AllOnOrder(created, nextOrderId);
    CountOnOrderAppend(ts, created, nextOrderId);
  }

  /** Adds the tickets already inserted in front of the outcome of the remaining inserts. */
  function Prepend(done: seq<Ticket>, rest: Result<seq<Ticket>, TicketError>): Result<seq<Ticket>, TicketError>
  {
    match rest
    case Ok(ts) => Ok(done + ts)
    case Err(e) => Err(e)
  }

  lemma PrependNothing(rest: Result<seq<Ticket>, TicketError>)
    ensures Prepend([], rest) == rest
  {
    if rest.Ok? {
      assert [] + rest.value == rest.value;
    }
  }

  /** One step of a batch: the first ticket's full clean, then the rest against the table with it added. */
  lemma InsertBatchStep(flights: map<Id, Flight>, orders: seq<Order>, ts: seq<Ticket>,
                        specs: seq<TicketSpec>, order: Id, nextId: Id)
    requires |specs| > 0
    ensures var s := specs[0];
      match FullClean(flights, orders, ts, s.row, s.seat, s.flight, order)
      case Fail(e) => InsertBatch(flights, orders, ts, specs, order, nextId) == Err(e)
      case Pass =>
        var t := Ticket(nextId, s.row, s.seat, s.flight, order);
        InsertBatch(flights, orders, ts, specs, order, nextId)
          == Prepend([t], InsertBatch(flights, orders, ts + [t], specs[1..], order, nextId + 1))
  {
  }

  lemma PrependTwice(done: seq<Ticket>, t: Ticket, rest: Result<seq<Ticket>, TicketError>)
    ensures Prepend(done, Prepend([t], rest)) == Prepend(done + [t], rest)
  {
    if rest.Ok? {
      assert done + ([t] + rest.value) == (done + [t]) + rest.value;
    }
  }

  /**
   * The order serializer's create: inside one transaction, insert the order of
   * user, then each ticket of specs in order through the ticket save; the first
   * ticket refused rolls the transaction back. Either the order and all its
   * tickets are stored, or the order and ticket tables are as they were.
   */
  method CreateOrder(db: Store, user: Id, specs: seq<TicketSpec>, now: int) returns (r: Result<Order, TicketError>)
    requires db.Valid()
    modifies db
    ensures db.Valid() && db.flights == old(db.flights)
    ensures db.nextOrderId == old(db.nextOrderId) + 1 && db.nextTicketId >= old(db.nextTicketId)
    ensures var o := Order(old(db.nextOrderId), user, now);
      match InsertBatch(old(db.flights), old(db.orders) + [o], old(db.tickets), specs, o.id, old(db.nextTicketId))
      case Ok(created) =>
        r == Ok(o) && db.orders == old(db.orders) + [o] && db.tickets == old(db.tickets) + created
      case Err(e) =>
        r == Err(e) && db.orders == old(db.orders) && db.tickets == old(db.tickets)
  {
    // The transaction begins: the snapshot is what a rollback returns to.
    var orders0, tickets0 := db.orders, db.tickets;
    ghost var flights0, nextOrder0, nextTicket0 := db.flights, db.nextOrderId, db.nextTicketId;
    var order := db.InsertOrder(user, now);
    ghost var created: seq<Ticket> := [];
    var i := 0;
    assert specs[0..] == specs;
    PrependNothing(InsertBatch(flights0, db.orders, db.tickets, specs, order.id, db.nextTicketId));
    while i < |specs|
      invariant 0 <= i <= |specs|
      invariant db.Valid() && db.flights == flights0
      invariant db.orders == orders0 + [order]
      invariant db.tickets == tickets0 + created
      invariant db.nextOrderId == nextOrder0 + 1 && db.nextTicketId >= nextTicket0
      invariant InsertBatch(flights0, orders0 + [order], tickets0, specs, order.id, nextTicket0)
        == Prepend(created, InsertBatch(flights0, db.orders, db.tickets, specs[i..], order.id, db.nextTicketId))
    {
      var s := specs[i];
      assert specs[i..][0] == s && specs[i..][1..] == specs[i + 1..];
      InsertBatchStep(flights0, db.orders, db.tickets, specs[i..], order.id, db.nextTicketId);
      var saved := db.SaveTicket(s.row, s.seat, s.flight, order.id);
      match saved
      case Err(e) =>
        StoreValidLaterCounters(flights0, orders0, tickets0, nextOrder0, nextTicket0, db.nextOrderId, db.nextTicketId);
        db.Rollback(orders0, tickets0);
        return Err(e);
      case Ok(t) =>
        PrependTwice(created, t, InsertBatch(flights0, db.orders, db.tickets, specs[i + 1..], order.id, db.nextTicketId));
        created := created + [t];
        i := i + 1;
    }
    return Ok(order);
  }
}
