/**
 * The persisted tables the seat rules work on, as one object whose methods
 * change it in place: a plain order insert, the ticket save (full clean, then
 * the insert) and the rollback that ends a failed transaction.
 */
module Database {
  import opened Results
  import opened Models

  predicate OrderIdsFresh(orders: seq<Order>, next: Id)
  {
    (forall i | 0 <= i < |orders| :: orders[i].id < next)
    && (forall i, j | 0 <= i < j < |orders| :: orders[i].id != orders[j].id)
  }

  predicate TicketIdsFresh(ts: seq<Ticket>, next: Id)
  {
    (forall i | 0 <= i < |ts| :: ts[i].id < next)
    && (forall i, j | 0 <= i < j < |ts| :: ts[i].id != ts[j].id)
  }

  /** Every ticket belongs to a stored order. */
  predicate TicketsOwned(orders: seq<Order>, ts: seq<Ticket>)
  {
    forall i | 0 <= i < |ts| :: OrderExists(orders, ts[i].order)
  }

  /** The invariant of the whole store: the ticket table's seat rules, ownership and fresh ids. */
  predicate StoreValid(flights: map<Id, Flight>, orders: seq<Order>, ts: seq<Ticket>, nextOrderId: Id, nextTicketId: Id)
  {
    TicketTableValid(flights, ts) && TicketsOwned(orders, ts)
    && OrderIdsFresh(orders, nextOrderId) && TicketIdsFresh(ts, nextTicketId)
  }

  /** Advancing the id counters keeps a valid store valid. */
  lemma StoreValidLaterCounters(flights: map<Id, Flight>, orders: seq<Order>, ts: seq<Ticket>,
                                o: Id, t: Id, o': Id, t': Id)
    requires StoreValid(flights, orders, ts, o, t)
    requires o <= o' && t <= t'
    ensures StoreValid(flights, orders, ts, o', t')
  {
  }

  /** The flight, order and ticket tables, with the id each table hands out next. */
  class Store {
    var flights: map<Id, Flight>
    var orders: seq<Order>
    var tickets: seq<Ticket>
    var nextOrderId: Id
    var nextTicketId: Id

    ghost predicate Valid()
      reads this
    {
      StoreValid(flights, orders, tickets, nextOrderId, nextTicketId)
    }

    /** An empty booking store over the given flights. */
    constructor (flights: map<Id, Flight>)
      ensures Valid()
      ensures this.flights == flights && orders == [] && tickets == []
    {
      this.flights := flights;
      orders, tickets := [], [];
      nextOrderId, nextTicketId := 0, 0;
    }

    /** Order.objects.create: a plain insert, with no validation, of an order owned by user. */
    method InsertOrder(user: Id, now: int) returns (o: Order)
      requires Valid()
      modifies this
      ensures Valid()
      ensures o == Order(old(nextOrderId), user, now)
      ensures orders == old(orders) + [o] && tickets == old(tickets) && flights == old(flights)
      ensures nextOrderId == old(nextOrderId) + 1 && nextTicketId == old(nextTicketId)
    {
      o := Order(nextOrderId, user, now);
      orders := orders + [o];
      nextOrderId := nextOrderId + 1;
      assert forall i | 0 <= i < |old(orders)| :: orders[i] == old(orders)[i];
      forall i | 0 <= i < |tickets| ensures OrderExists(orders, tickets[i].order) {
        var k :| 0 <= k < |old(orders)| && old(orders)[k].id == tickets[i].order;
        assert orders[k] == old(orders)[k];
      }
    }

    /** Ticket.save: the full clean runs first, and only a ticket that passes it is written. */
    method SaveTicket(row: int, seat: int, flight: Id, order: Id) returns (r: Result<Ticket, TicketError>)
      requires Valid()
      modifies this
      ensures Valid()
      ensures flights == old(flights) && orders == old(orders) && nextOrderId == old(nextOrderId)
      ensures match FullClean(flights, orders, old(tickets), row, seat, flight, order)
        case Pass =>
          && r == Ok(Ticket(old(nextTicketId), row, seat, flight, order))
          && tickets == old(tickets) + [r.value] && nextTicketId == old(nextTicketId) + 1
        case Fail(e) =>
          r == Err(e) && tickets == old(tickets) && nextTicketId == old(nextTicketId)
    {
      match FullClean(flights, orders, tickets, row, seat, flight, order)
      case Fail(e) =>
        r := Err(e);
      case Pass =>
        var t := Ticket(nextTicketId, row, seat, flight, order);
        SaveKeepsTableValid(flights, orders, tickets, t);
        tickets := tickets + [t];
        nextTicketId := nextTicketId + 1;
        r := Ok(t);
        assert forall i | 0 <= i < |old(tickets)| :: tickets[i] == old(tickets)[i];
    }

    /**
     * Ends a failed transaction: the order and ticket tables return to the
     * snapshot taken when it began. The id counters stay where they are, as
     * database sequences do.
     */
    method Rollback(orders0: seq<Order>, tickets0: seq<Ticket>)
      requires Valid()
      requires StoreValid(flights, orders0, tickets0, nextOrderId, nextTicketId)
      modifies this
      ensures Valid()
      ensures orders == orders0 && tickets == tickets0
      ensures flights == old(flights) && nextOrderId == old(nextOrderId) && nextTicketId == old(nextTicketId)
    {
      orders, tickets := orders0, tickets0;
    }
  }
}
