# Seat booking rules of the airport API service, in Dafny

This project models the seat-booking core of a Django REST airport service.
An airplane has `rows` rows of `seats_in_row` seats. Its capacity is their product.
A ticket sells one `(row, seat)` of one flight and belongs to one order.

The model covers these rules:

- **Place check.** A ticket is accepted only when `1 <= row <= rows` and `1 <= seat <= seats_in_row`.
  Row is checked first, and the first failure raises one error.
  That error is keyed by the failing field and gives its valid range `(1, count)`.
- **Full clean on save.** Every ticket save runs the full clean first: the foreign keys, the place check, then the unique check on `(flight, row, seat)`.
- **Atomic order creation.** An order and its tickets are created inside one transaction.
  The order is inserted first, then each ticket in payload order.
  When a ticket is refused, the transaction rolls back and leaves the order and ticket tables as they were.
- **Payload validation.** The order payload is checked before creation starts.
  An empty ticket list is refused, and each ticket goes through the same place rule the model uses.
- **Read side.** Flights are listed with `tickets_available`, which is capacity minus the flight's ticket count, in ascending id order.
  Routes, airplanes and orders are filtered by the query parameters.
  Orders are always restricted to the requesting user.

The modules follow the source files:

- `Results` (results.dfy): the Option/Result/Outcome datatypes that stand for raised errors.
- `Models` (models.py, in models.dfy): the entities, `Capacity`, `ValidatePlace`, `FullClean` and the ticket-table invariant `TicketTableValid`. This invariant says that every ticket is placed on its airplane and that no seat key appears twice. The module also proves that a valid table never holds more tickets on a flight than its seat grid `[1, rows] x [1, seats_in_row]`.
- `Database` (database.dfy): the class `Store`, which holds the flight, order and ticket tables. Its methods change the store in place: `InsertOrder` (the plain order insert), `SaveTicket` (full clean, then insert) and `Rollback`.
- `Serializers` (serializers.py, in serializers.dfy): `ValidateTicket`, `ValidateOrderPayload` and `CreateOrder`. `CreateOrder` is a method over a `Store`, proved against the pure batch function `InsertBatch`.
- `Views` (views.py, in views.dfy): the list querysets as functions and `PerformCreate`, which validates a request and creates the order for the requesting user.

Notes on how the model reads the code:

- **Capacity bound.** `rows` and `seats_in_row` are unconstrained integer columns.
  The ticket-count bound therefore holds only when the capacity is not negative.
  An airplane with -1 rows of 5 seats lists its flight with -5 tickets available (`Views.NegativeCapacityListsNegativeAvailability`).
- **Nested serializer.** The order serializer nests a ticket serializer whose `flight` field is read-only (airport/serializers.py:101-102, 123).
  As written, the nested validation and the creation would not receive a ticket's flight.
  The model takes the intended `(row, seat, flight)` for each ticket. serializers.dfy notes the mismatch.
- **Route filters.** Routes are filtered by airport id (airport/views.py:34-38).
- **Route distance.** `distance` is an unconstrained integer field (airport/models.py:18).
- **Duplicate seat.** A duplicate seat is refused by the unique check on `(flight, row, seat)` that `full_clean` runs before the insert (airport/models.py:115, 124). It is not a storage-level conflict.

## Model

| member | source | states |
|---|---|---|
| `Models.CapacityIsSeatCount` | airport/models.py:40-42 | when neither dimension is negative, the capacity `rows * seats_in_row` is the number of seats in the grid `[1, rows] x [1, seats_in_row]` |
| `Models.FirstOutOfRange` | airport/models.py:86-102 | walking the check list passes exactly when every value is within `[1, count]`; otherwise the error names the first entry out of range with its count, and all entries before it are in range |
| `Models.ValidatePlace` | airport/models.py:84-102 | passes exactly when `1 <= row <= rows` and `1 <= seat <= seats_in_row`; a row out of range gives the row error with `rows`, even when the seat is out of range too; only an in-range row with a bad seat gives the seat error with `seats_in_row` |
| `Models.PlacePayloadNamesFirstFailure` | airport/models.py:93-100 | the payload of a failed check has the failing field's name as its only key, and its message gives that field, the airplane attribute limiting it and the range `(1, count)` |
| `Models.FullClean` | airport/models.py:104-118 | a ticket passes exactly when its flight and order exist, its seat is on the flight's airplane and its `(flight, row, seat)` is unsold; a place failure is reported as the place error, and the unique check is skipped; a duplicate is reported exactly when all else passes and the key is taken |
| `Models.SaveKeepsTableValid` | airport/models.py:112-124 | writing a ticket that passed the full clean keeps every stored ticket placed and all seat keys distinct |
| `Models.FlightSeatsDistinct` | airport/models.py:123-124 | unique seat keys make the `(row, seat)` pairs sold on one flight pairwise distinct |
| `Models.FlightWithinSeatGrid` | airport/models.py:78-124 | on a valid ticket table, a flight holds no more tickets than its airplane's seat grid has seats |
| `Models.FlightWithinCapacity` | airport/models.py:40-42 | on a valid ticket table, a flight whose capacity is not negative holds at most `rows * seats_in_row` tickets |
| `Database.Store.InsertOrder` | airport/serializers.py:132 | appends the order of the given user with the next order id, and changes nothing else except the order counter |
| `Database.Store.SaveTicket` | airport/models.py:112-118 | appends the ticket with the next ticket id exactly when the full clean passes; otherwise returns the full clean's error and leaves the ticket table unchanged; the store invariant is kept |
| `Database.Store.Rollback` | airport/serializers.py:130-135 | the order and ticket tables return to the snapshot taken when the transaction began |
| `Serializers.ValidateTicket` | airport/serializers.py:86-94 | an API ticket passes exactly when its flight exists and its seat is on that flight's airplane |
| `Serializers.ApiCheckIsSaveCheck` | airport/serializers.py:86-94 | the API check and the save-time full clean apply one rule: the same error where the API refuses, and at save time only a duplicate seat where the API accepts |
| `Serializers.ValidateOrderPayload` | airport/serializers.py:122-123 | an empty ticket list is refused; a non-empty payload is accepted exactly when every ticket passes; otherwise the error lists every ticket's outcome in payload order, at least one of them a failure |
| `Serializers.InsertBatch` | airport/serializers.py:133-134 | a successful batch creates one ticket per payload entry, in payload order, with consecutive ids, all owned by the new order |
| `Serializers.BatchSucceedsIffAdmissible` | airport/serializers.py:129-135 | the ticket inserts succeed exactly when every ticket is a seat of its airplane, none is already sold, and no seat key occurs twice in the batch |
| `Serializers.DuplicateInBatchFails` | airport/serializers.py:130-134 | a batch holding the same `(flight, row, seat)` twice fails as a whole |
| `Serializers.DuplicateSeatExample` | airport/serializers.py:130-134 | two tickets for row 1, seat 1 of one flight fail with the duplicate-seat error |
| `Serializers.RowOutOfRangeExample` | airport/serializers.py:86-94 | a ticket in row 11 of a ten-row airplane is refused before any write, with the row error and range `(1, 10)` |
| `Serializers.BatchKeepsTableValid` | airport/serializers.py:133-134 | after a successful batch the ticket table is still valid |
| `Serializers.NewOrderOwnsBatch` | airport/serializers.py:131-134 | after a successful creation on a valid store, the new order id was not in use before, and exactly as many tickets refer to it as the payload listed |
| `Serializers.CreateOrder` | airport/serializers.py:129-135 | all or nothing: on success the order is appended and the tickets are appended after the existing ones; on failure the order and ticket tables are exactly as before, and the error is the first refused ticket's |
| `Views.RouteList` | airport/views.py:29-43 | keeps exactly the routes whose source id and destination id match the given parameters, both together when both are given, each as many times as it occurs in the table |
| `Views.AirplaneList` | airport/views.py:63-77 | keeps exactly the airplanes whose name contains the `name` parameter ignoring case, and whose type id is the `type` parameter, each when given; a kept airplane occurs as many times as in the table |
| `Views.AirplaneNameFilterIgnoresCase` | airport/views.py:68-69 | two name parameters differing only in letter case select the same airplanes |
| `Views.SortById` | airport/views.py:125 | the listing is ordered by ascending flight id and is a permutation of its input |
| `Views.FlightList` | airport/views.py:97-128 | lists exactly the flights matching the source parameter, each as many times as it occurs in the table, with `tickets_available` equal to rows times seats in a row minus the flight's tickets, in ascending id order |
| `Views.ListedAvailabilityNonNegative` | airport/views.py:120-124 | on a valid ticket table, a listed flight whose capacity is not negative shows a non-negative `tickets_available` |
| `Views.NegativeCapacityListsNegativeAvailability` | airport/views.py:120-124 | an airplane with -1 rows of 5 seats lists its flight with -5 tickets available |
| `Views.AvailabilityExample` | airport/views.py:120-124 | a 10 x 6 airplane with three tickets sold lists 57 tickets available |
| `Views.OrderList` | airport/views.py:141-155 | contains exactly the requesting user's orders, narrowed to the given id when the `order` parameter is present, each as many times as it occurs in the table |
| `Views.OrderParamNarrows` | airport/views.py:151-153 | with the `order` parameter, the result stays within the user's own orders |
| `Views.PerformCreate` | airport/views.py:157-158 | an invalid or empty payload is refused and nothing is written; a valid payload is created exactly when its ticket inserts succeed: then the order, owned by the requesting user, is appended and exactly the tickets those inserts produce follow the existing ones, one per payload entry; otherwise the refused ticket's error is returned and the order and ticket tables are unchanged |

## Left out

- Concurrency between order requests. Only sequential, atomic calls are modelled; the database's cross-process uniqueness enforcement is not.
- HTTP routing, viewset action dispatch, serializer field selection, nesting of response shapes, `select_related`/`prefetch_related`, `distinct()` and pagination. These are framework plumbing.
- Parsing a query parameter's text into an id. A parameter is either absent (or empty) or the id it names; a malformed id is not modelled.
- The flight `departure` filter. It parses a date with a library call on date/time values.
- Flight departure and arrival times, crews, airport names and images. Default `ordering` on timestamps and `__str__` are not modelled either; the core does not use them.
- Authentication and token views. The requesting user arrives as an id.
- The text of the place-check error message. Its parts are kept: field, limit name and range.
- Models.FullClean: reports one error in a fixed order (unknown flight, unknown order, place, duplicate seat). Django's `full_clean` can collect several field errors into one.
- Serializers.CreateOrder: on failure it does not say how far the ticket id counter advanced, only that it did not go back. Leaving the id counters advanced after a rollback is a modelling choice. It matches a database whose sequences are not transactional (such as PostgreSQL); with SQLite's AUTOINCREMENT the counter would roll back too. The database settings are not part of this model.
- Changes to airplanes and flights. In the service, airplanes and flights are fully editable resources (airport/views.py:51-53, 85-87). `rows`, `seats_in_row` and a flight's `airplane` are writable (airport/serializers.py:47-50, 67-70), and nothing re-checks the tickets already sold. In the model, the flight table of a `Store`, with each flight's airplane, is fixed for the store's lifetime. The ticket-table invariant `TicketTableValid`, `Models.FlightWithinCapacity` and `Views.ListedAvailabilityNonNegative` rely on this. In the service, shrinking a 10 x 6 airplane with all 60 seats sold to one row leaves the tickets out of range and lists -54 tickets available.
- The response status of a refusal. A model-level validation error raised inside `create` is not turned into a 400 by the framework; the model reports it as an error result.
- The unique-together validator that the framework may generate for the ticket serializer. The seat-key uniqueness is modelled at save time, where it is enforced.
- Views.AirplaneList: case-insensitive matching is modelled as ASCII case folding; the database's Unicode-aware comparison is not modelled.
- The creation timestamp comes from the server clock. Here the caller passes it in as `now`.
