# Concurrent ticket reservation: the event inventory

This project models the event inventory of the ticket reservation service. The
inventory is a table from event ID to an `Event` record holding ID, name, date,
total tickets and available tickets. It has three operations:

- `CreateEvent` stores a new event under a fresh UUID, with all tickets available.
- `ListEvents` returns every stored event.
- `BookTickets` looks an event up, checks that enough tickets remain, lowers the
  available count and issues that many ticket UUIDs.

Two snapshot helpers sit beside them. `InitTicketService` fills the table from the
decoded snapshot file at start-up. `Save` collects the table for writing; the
server defers it to shutdown (see "## Left out" for when that call is reached).

Files and modules:

- `event.dfy` (`Events`): the `Event` datatype and Go's 64-bit `int` subtraction.
- `utils.dfy` (`Utils`): `UuidSource`, which stands in for `Utils.GenerateUUID`.
- `inventory.dfy` (`Inventory`): the table as a value. It holds one function per
  operation and the lemmas over runs of operations: the invariants, no oversell,
  and the snapshot round trip.
- `ticket_service.dfy` (`TicketService`): the `TicketService` class. It has a
  `map` field and methods that update it in place, each proved against the
  `Inventory` functions.
- `scenarios.dfy` (`Scenarios`): client methods that rely only on the contracts.
  They cover a ten-ticket event sold as 6, then a refused 5, then 4; a booking of
  an unknown event; and a start-up without a snapshot file.

Two invariants are kept:

- Every key equals the ID of the event stored under it. This holds after every
  operation, unconditionally (`TicketService.Valid`).
- `0 <= AvailableTickets <= TotalTickets` holds for every event. This holds only
  when bookings ask for `numTickets >= 0` and events are created with
  `totalTickets >= 0`.

The code accepts requests outside those bounds, and the model does the same. The
code has no error for a negative or zero request or for a negative capacity, and
the model has none either:

- A negative request passes the capacity check and raises the available count.
  `Inventory.NegativeRequestOverfills` shows one such request.
- A request near the bottom of the 64-bit range wraps the count round to a
  negative number (`Inventory.HugeNegativeRequestWraps`).
- A negative capacity is stored as given (`Inventory.NegativeCapacityAccepted`).

A snapshot file that cannot be read or decoded is logged and leaves the table as
it was; no error reaches the caller.

The clock, the file system, JSON decoding and the UUID algorithm are outside the
model and enter it as parameters:

- `Timestamp` stands for a date.
- `SnapshotFile` is the result of reading and decoding the snapshot file.
- `UuidSource` supplies UUIDs.

`UuidSource.GenerateUUID` receives the IDs already in the table and returns a
token that is neither among them nor issued before. That is the uniqueness a
random UUID gives with overwhelming probability. In Go, `Utils.GenerateUUID` is
one supplier for the whole process. Ticket and event IDs are only guaranteed new
relative to the `UuidSource` a caller passes, so callers must pass the same
`UuidSource` to every call for the service's whole lifetime, as the methods of
`Scenarios` do.

## Model

| member | source | states |
|---|---|---|
| `Events.Sub64` | src/TicketService/ticketService.go:138 | `-=` on Go `int` equals the true difference whenever that fits in 64 bits, and otherwise differs from it by exactly 2^64 |
| `Utils.UuidSource.GenerateUUID` | src/TicketService/ticketService.go:87 | each generated ID is new: it is not among the IDs in use, and not among those issued earlier; it is then recorded as issued |
| `Inventory.Created` | src/TicketService/ticketService.go:86-95 | creation adds exactly the new ID as a key, one more entry when the ID is fresh; the new event has the given name, date and total, and its available count equals its total; other entries are unchanged; keys-equal-IDs is kept, and the capacity invariant is kept when the total is non-negative |
| `Inventory.Book` | src/TicketService/ticketService.go:113-141 | an unknown ID gives `EventNotFound`, and fewer available than requested gives `NotEnoughTickets`, each if and only if that case holds; success happens exactly when the event exists and has enough tickets; failure leaves the table unchanged; success keeps ID, name, date and total, and lowers the available count by exactly the request when it is non-negative; keys never change; other events are unchanged; both invariants are kept for non-negative requests |
| `Inventory.NegativeRequestOverfills` | src/TicketService/ticketService.go:126-138 | a request for -3 tickets against an in-stock event with 5 of 5 available succeeds and leaves 8 available, so the event is no longer in stock |
| `Inventory.HugeNegativeRequestWraps` | src/TicketService/ticketService.go:138 | a request for the most negative 64-bit count succeeds, and the available count wraps to a negative value |
| `Inventory.NegativeCapacityAccepted` | src/TicketService/ticketService.go:81-97 | creating an event with a negative total leaves a table that breaks the capacity invariant |
| `Inventory.Replay` | src/TicketService/ticketService.go:113-141 | a run of bookings never adds or removes an event |
| `Inventory.NoOversell` | src/TicketService/ticketService.go:124-138 | after any run of non-negative requests, an in-stock event has sold between 0 and what was available; its available count is exactly the starting count minus what was sold; its total is unchanged, and it is still in stock |
| `Inventory.ReplayKeepsInvariants` | src/TicketService/ticketService.go:126-139 | keys-equal-IDs and the capacity invariant hold after any run of non-negative requests when they held before |
| `Inventory.SingleTicketRequests` | src/TicketService/ticketService.go:126-138 | one-ticket requests sell the smaller of the number of requests and the starting available count |
| `Inventory.HundredRequestsFiftyTickets` | src/TicketService/ticketService.go:126-138 | 100 one-ticket requests against 50 available tickets sell exactly 50 and leave none |
| `Inventory.StoreAll` | src/TicketService/ticketService.go:43-45 | loading a list yields keys equal to the old keys plus the listed IDs; each value is an old one or a listed event; entries whose ID is not listed are unchanged; keys-equal-IDs is kept |
| `Inventory.LaterWins` | src/TicketService/ticketService.go:43-45 | when a snapshot repeats an ID, the last event with that ID is the one stored |
| `Inventory.RestoreAfterSave` | src/TicketService/ticketService.go:43-60 | loading, into an empty table, a list that holds exactly the events of a keys-equal-IDs table rebuilds that same table, partially sold counts included |
| `TicketService.TicketService.constructor` | src/TicketService/ticketService.go:14-17 | a new service has an empty table |
| `TicketService.TicketService.InitTicketService` | src/TicketService/ticketService.go:19-48 | a decoded snapshot's events are stored under their IDs in order, as `StoreAll` describes; an unreadable or malformed file leaves the table unchanged; keys-equal-IDs is kept; the capacity invariant is kept when every loaded event satisfies it |
| `TicketService.TicketService.Save` | src/TicketService/ticketService.go:50-79 | the snapshot lists every stored event exactly once, and loading it into an empty table gives back the current table |
| `TicketService.TicketService.CreateEvent` | src/TicketService/ticketService.go:81-97 | the error result is always nil; the new event's ID was neither a key nor issued before; the table becomes `Created` of the old table; the returned event is the one stored; both invariants are kept when the total is non-negative |
| `TicketService.TicketService.ListEvents` | src/TicketService/ticketService.go:99-111 | the result has one element per entry: each element is the event stored under its ID, each stored event appears, and no ID repeats; the table is not changed |
| `TicketService.TicketService.BookTickets` | src/TicketService/ticketService.go:113-142 | the new table and the error are those of `Book`; a failure issues no tickets and generates no IDs; a success issues exactly `numTickets` IDs (none for a negative request), pairwise distinct, new, and not event IDs; the capacity invariant is kept for non-negative requests |

## Left out

- Concurrency is left out: each operation is one atomic step. This covers the
  table's `RWMutex`, the per-event `Mu` lock and the server's global lock. The
  per-event `Mu` set at src/TicketService/ticketService.go:92 is not a field of
  the `Event` struct in src/Event/event.go, so the model's `Event` has no lock.
  Concurrent bookings appear only as a sequential run of requests
  (`Inventory.Replay`).
- `Save`'s round trip holds for a direct call only. src/Server/main.go:17 defers
  `Save`, but `startServer()` (main.go:29) ends only through `log.Fatal`
  (src/Server/server.go:19), which calls `os.Exit` and skips deferred calls, and
  a signal kill skips them too. So the server as written never reaches `Save`;
  the model does not capture process exit.
- File and JSON I/O and logging are left out. `InitTicketService` takes the
  outcome of reading and decoding the file as a `SnapshotFile`. `Save` returns
  the snapshot that would be encoded and written, so a failed write is not
  modelled.
- The loop variable shared by every `&event` at
  src/TicketService/ticketService.go:44 is left out. That aliasing depends on the
  Go version, and the model loads by value.
- Pointer identity is left out. `CreateEvent` and `ListEvents` return pointers
  to the stored events, and the model returns the event values.
- The UUID algorithm is left out. Utils is not part of this model beyond the
  freshness of what it returns.
- Issued ticket IDs are not recorded in the table. The code does not record
  them either; a FIXME at src/TicketService/ticketService.go:134 marks this.
- Dates are opaque `Timestamp` values, with no RFC 3339 parsing.
- The HTTP handlers, request decoding, `strconv.Atoi` and the client and shell
  are left out. They are transport and user interface around these operations.
- Go's `int` is modelled as 64 bits wide (`Events.Int64`). A 32-bit platform is
  not modelled.
- A nil slice and an empty slice are not told apart. An empty `ListEvents`
  result and a zero-ticket booking both return `[]`.
