/**
 The event inventory as a value: a map from event ID to `Event`, and what each
 operation of the ticket service does to it. The `TicketService` class is
 proved against these functions; the lemmas here state what holds over many
 operations (the invariants, no oversell, the snapshot round trip).
 */
module Inventory {
  import opened Events

  datatype Option<T> = None | Some(value: T)

  /** The two ways a booking fails; the Go code reports both as an `error`. */
  datatype Error = EventNotFound(eventID: string) | NotEnoughTickets(eventID: string)

  type Store = map<string, Event>

  /** Every event is stored under its own ID. */
  ghost predicate KeysMatchIds(m: Store)
  {
    forall k :: k in m ==> m[k].id == k
  }

  /** Every event has `0 <= AvailableTickets <= TotalTickets`. */
  ghost predicate AllInStock(m: Store)
  {
    forall k :: k in m ==> InStock(m[k])
  }

  // ---------------------------------------------------------------- CreateEvent

  /** The store after `CreateEvent` has stored a new event under the fresh ID `id`. */
  function Created(m: Store, id: string, name: string, date: Timestamp, totalTickets: Int64): (r: Store)
    ensures r.Keys == m.Keys + {id}
    ensures id !in m ==> |r| == |m| + 1
    ensures r[id].id == id && r[id].name == name && r[id].date == date
    ensures r[id].totalTickets == totalTickets && r[id].availableTickets == totalTickets
    ensures forall k :: k in m && k != id ==> r[k] == m[k]
    ensures KeysMatchIds(m) ==> KeysMatchIds(r)
    ensures AllInStock(m) && totalTickets >= 0 ==> AllInStock(r)
  {
    m[id := Event(id, name, date, totalTickets, totalTickets)]
  }

  // ---------------------------------------------------------------- BookTickets

  datatype Booking = Booking(store: Store, err: Option<Error>)

  /**
   What `BookTickets(eventID, numTickets)` does to the store and which error it
   reports. A request for a non-positive number of tickets is not rejected: it
   passes the capacity check and the subtraction adds to the available count.
   */
  function Book(m: Store, eventID: string, numTickets: Int64): (r: Booking)
    ensures r.err == Some(EventNotFound(eventID)) <==> eventID !in m
    ensures r.err == Some(NotEnoughTickets(eventID)) <==>
              eventID in m && m[eventID].availableTickets < numTickets
    ensures r.err == None <==> eventID in m && numTickets <= m[eventID].availableTickets
    ensures r.err != None ==> r.store == m
    ensures r.store.Keys == m.Keys
    ensures forall k :: k in m && k != eventID ==> r.store[k] == m[k]
    ensures r.err == None ==>
              var (before, after) := (m[eventID], r.store[eventID]);
              && after.id == before.id && after.name == before.name && after.date == before.date
              && after.totalTickets == before.totalTickets
              && after.availableTickets == Sub64(before.availableTickets, numTickets)
              && (0 <= numTickets ==> after.availableTickets == before.availableTickets - numTickets)
    ensures KeysMatchIds(m) ==> KeysMatchIds(r.store)
    ensures AllInStock(m) && numTickets >= 0 ==> AllInStock(r.store)
  {
    if eventID !in m then
      Booking(m, Some(EventNotFound(eventID)))
    else
      var e := m[eventID];
      if e.availableTickets < numTickets then
        Booking(m, Some(NotEnoughTickets(eventID)))
      else
        Booking(m[eventID := e.(availableTickets := Sub64(e.availableTickets, numTickets))], None)
  }

  /** As written, a negative request succeeds and raises the available count above the total. */
  lemma NegativeRequestOverfills()
    ensures var m := map["e" := Event("e", "gig", Timestamp(0), 5, 5)];
            var b := Book(m, "e", -3);
            && AllInStock(m)
            && b.err == None && b.store["e"].availableTickets == 8
            && !AllInStock(b.store)
  {
  }

  /** As written, a request far below zero makes the available count wrap round to negative. */
  lemma HugeNegativeRequestWraps()
    ensures var m := map["e" := Event("e", "gig", Timestamp(0), 5, 5)];
            var b := Book(m, "e", MinInt64);
            && b.err == None && b.store["e"].availableTickets < 0
  {
  }

  /** As written, `CreateEvent` accepts a negative capacity and stores an event that is not in stock. */
  lemma NegativeCapacityAccepted(m: Store, id: string, name: string, date: Timestamp, totalTickets: Int64)
    requires totalTickets < 0
    ensures !AllInStock(Created(m, id, name, date, totalTickets))
  {
  }

  // ---------------------------------------------------------------- a run of bookings

  datatype Request = Request(eventID: string, numTickets: Int64)

  /** The store after the bookings `reqs`, taken one at a time in order. */
  function Replay(m: Store, reqs: seq<Request>): (r: Store)
    ensures r.Keys == m.Keys
    decreases |reqs|
  {
    if reqs == [] then m
    else
      var last := reqs[|reqs| - 1];
      Book(Replay(m, reqs[..|reqs| - 1]), last.eventID, last.numTickets).store
  }

  /** The number of tickets of `eventID` that the successful bookings among `reqs` sold. */
  function Sold(m: Store, reqs: seq<Request>, eventID: string): int
    decreases |reqs|
  {
    if reqs == [] then 0
    else
      var pre, last := reqs[..|reqs| - 1], reqs[|reqs| - 1];
      var booked := last.eventID == eventID && Book(Replay(m, pre), eventID, last.numTickets).err == None;
      Sold(m, pre, eventID) + if booked then last.numTickets else 0
  }

  /**
   No oversell: whatever the run of non-negative requests, the tickets sold of
   an in-stock event never exceed what was available, and what remains is
   exactly what was available minus what was sold.
   */
  lemma {:induction false} NoOversell(m: Store, reqs: seq<Request>, eventID: string)
    requires eventID in m && InStock(m[eventID])
    requires forall j :: 0 <= j < |reqs| ==> reqs[j].numTickets >= 0
    ensures eventID in Replay(m, reqs)
    ensures Replay(m, reqs)[eventID].availableTickets == m[eventID].availableTickets - Sold(m, reqs, eventID)
    ensures Replay(m, reqs)[eventID].totalTickets == m[eventID].totalTickets
    ensures 0 <= Sold(m, reqs, eventID) <= m[eventID].availableTickets
    ensures InStock(Replay(m, reqs)[eventID])
    decreases |reqs|
  {
    if reqs != [] {
      NoOversell(m, reqs[..|reqs| - 1], eventID);
    }
  }

  /** Both invariants survive any run of non-negative requests. */
  lemma {:induction false} ReplayKeepsInvariants(m: Store, reqs: seq<Request>)
    requires KeysMatchIds(m) && AllInStock(m)
    requires forall j :: 0 <= j < |reqs| ==> reqs[j].numTickets >= 0
    ensures KeysMatchIds(Replay(m, reqs)) && AllInStock(Replay(m, reqs))
    decreases |reqs|
  {
    if reqs != [] {
      ReplayKeepsInvariants(m, reqs[..|reqs| - 1]);
    }
  }

  /**
   Requests for one ticket each sell exactly as many tickets as there were
   available, or as many as were asked for if that is fewer.
   */
  lemma {:induction false} SingleTicketRequests(m: Store, reqs: seq<Request>, eventID: string)
    requires eventID in m && InStock(m[eventID])
    requires forall j :: 0 <= j < |reqs| ==> reqs[j] == Request(eventID, 1)
    ensures Sold(m, reqs, eventID) == if |reqs| <= m[eventID].availableTickets then |reqs| else m[eventID].availableTickets
    decreases |reqs|
  {
    if reqs != [] {
      var pre := reqs[..|reqs| - 1];
      SingleTicketRequests(m, pre, eventID);
      NoOversell(m, pre, eventID);
    }
  }

  /** A hundred single-ticket requests against fifty tickets: fifty succeed and none remain. */
  lemma HundredRequestsFiftyTickets(m: Store, eventID: string)
    requires eventID in m && m[eventID].totalTickets == 50 && m[eventID].availableTickets == 50
    ensures var reqs := seq(100, _ => Request(eventID, 1));
            && Sold(m, reqs, eventID) == 50
            && Replay(m, reqs)[eventID].availableTickets == 0
  {
    var reqs := seq(100, _ => Request(eventID, 1));
    SingleTicketRequests(m, reqs, eventID);
    NoOversell(m, reqs, eventID);
  }

  // ---------------------------------------------------------------- snapshots

  function Ids(list: seq<Event>): set<string>
  {
    set e | e in list :: e.id
  }

  /**
   The store after each event of `list` has been stored under its own ID, in
   order, starting from `acc`: a later event replaces an earlier one with the
   same ID.
   */
  function StoreAll(acc: Store, list: seq<Event>): (r: Store)
    ensures r.Keys == acc.Keys + Ids(list)
    ensures forall k :: k in r ==> (k in acc && r[k] == acc[k]) || r[k] in list
    ensures forall k :: k in acc && k !in Ids(list) ==> r[k] == acc[k]
    ensures KeysMatchIds(acc) ==> KeysMatchIds(r)
    decreases |list|
  {
    if list == [] then acc
    else
      var e := list[|list| - 1];
      StoreAll(acc, list[..|list| - 1])[e.id := e]
  }

  /** With duplicate IDs in a snapshot, the last event carrying the ID is the one kept. */
  lemma {:induction false} LaterWins(acc: Store, list: seq<Event>, i: nat)
    requires i < |list|
    requires forall j :: i < j < |list| ==> list[j].id != list[i].id
    ensures list[i].id in StoreAll(acc, list) && StoreAll(acc, list)[list[i].id] == list[i]
    decreases |list|
  {
    if i < |list| - 1 {
      var pre := list[..|list| - 1];
      LaterWins(acc, pre, i);
    }
  }

  /** `list` holds exactly the stored events, one per entry. */
  ghost predicate Enumerates(list: seq<Event>, m: Store)
  {
    && |list| == |m|
    && (forall e :: e in list ==> e.id in m && m[e.id] == e)
    && (forall k :: k in m ==> m[k] in list)
  }

  /**
   Round trip: listing the events of a store whose keys are its events' IDs and
   storing each listed event under its ID rebuilds the same store, available
   counts included.
   */
  lemma RestoreAfterSave(m: Store, list: seq<Event>)
    requires KeysMatchIds(m) && Enumerates(list, m)
    ensures StoreAll(map[], list) == m
  {
  }
}
