/**
 The ticket service: the in-memory table from event ID to event, with its
 three operations and the two snapshot helpers that fill it at start-up and
 collect it at shutdown. Each operation is one atomic step; the locks that make
 it so in the service are not modelled.
 */
module TicketService {
  import opened Events
  import opened Inventory
  import opened Utils

  /** The content of the snapshot file: `{"events": [...]}`. */
  datatype Snapshot = Snapshot(events: seq<Event>)

  /** What reading and decoding the snapshot file produced. */
  datatype SnapshotFile = Unreadable | Malformed | Decoded(snapshot: Snapshot)

  class TicketService {
    var events: map<string, Event>

    /** The table's invariant: every event is stored under its own ID. */
    ghost predicate Valid()
      reads this
    {
      KeysMatchIds(events)
    }

    /** The zero value of the service: an empty table. */
    constructor ()
      ensures Valid() && events == map[]
    {
      events := map[];
    }

    /**
     Start-up: store every event of the snapshot under its ID, in order. A file
     that cannot be read or decoded leaves the table as it was.
     */
    method InitTicketService(file: SnapshotFile)
      requires Valid()
      modifies this
      ensures Valid()
      ensures file.Decoded? ==> events == StoreAll(old(events), file.snapshot.events)
      ensures !file.Decoded? ==> events == old(events)
      ensures file.Decoded? && AllInStock(old(events)) ==>
              (forall e :: e in file.snapshot.events ==> InStock(e)) ==> AllInStock(events)
    {
      if !file.Decoded? {
        return;
      }
      var list := file.snapshot.events;
      var i := 0;
      while i < |list|
        invariant 0 <= i <= |list|
        invariant events == StoreAll(old(events), list[..i])
      {
        assert list[..i + 1][..i] == list[..i];
        events := events[list[i].id := list[i]];
        i := i + 1;
      }
      assert list[..|list|] == list;
    }

    /** Shutdown: collect every stored event into the snapshot to be written. */
    method Save() returns (snapshot: Snapshot)
      requires Valid()
      ensures Enumerates(snapshot.events, events)
      ensures StoreAll(map[], snapshot.events) == events
    {
      var list := ListEvents();
      RestoreAfterSave(events, list);
      snapshot := Snapshot(list);
    }

    /** A new event under a fresh ID, with as many tickets available as it has in total. */
    method CreateEvent(name: string, date: Timestamp, totalTickets: Int64, uuids: UuidSource)
      returns (event: Event, err: Option<Error>)
      requires Valid()
      modifies this, uuids
      ensures Valid()
      ensures err == None
      ensures event.id !in old(events) && event.id !in old(uuids.issued)
      ensures uuids.issued == old(uuids.issued) + {event.id}
      ensures events == Created(old(events), event.id, name, date, totalTickets)
      ensures event.id in events && events[event.id] == event
      ensures AllInStock(old(events)) && totalTickets >= 0 ==> AllInStock(events)
    {
      var id := uuids.GenerateUUID(events.Keys);
      event := Event(id, name, date, totalTickets, totalTickets);
      events := events[event.id := event];
      err := None;
    }

    /** Every stored event, once each, in no particular order; the table is not changed. */
    method ListEvents() returns (list: seq<Event>)
      requires Valid()
      ensures Enumerates(list, events)
      ensures forall i, j :: 0 <= i < j < |list| ==> list[i].id != list[j].id
    {
      list := [];
      var rest := events.Keys;
      while rest != {}
        invariant rest <= events.Keys
        invariant |list| + |rest| == |events|
        invariant forall e :: e in list ==> e.id in events && events[e.id] == e && e.id !in rest
        invariant forall k :: k in events && k !in rest ==> events[k] in list
        invariant forall i, j :: 0 <= i < j < |list| ==> list[i].id != list[j].id
        decreases rest
      {
        var k :| k in rest;
        list := list + [events[k]];
        rest := rest - {k};
      }
    }

    /**
     Book `numTickets` tickets of event `eventID`. An unknown ID or too few
     available tickets is an error that changes nothing; otherwise the available
     count goes down by `numTickets` and as many fresh ticket IDs are returned.
     */
    method BookTickets(eventID: string, numTickets: Int64, uuids: UuidSource)
      returns (ticketIDs: seq<string>, err: Option<Error>)
      requires Valid()
      modifies this, uuids
      ensures Valid()
      ensures events == Book(old(events), eventID, numTickets).store
      ensures err == Book(old(events), eventID, numTickets).err
      ensures err != None ==> ticketIDs == []
      ensures err == None ==> |ticketIDs| == (if numTickets < 0 then 0 else numTickets)
      ensures forall i, j :: 0 <= i < j < |ticketIDs| ==> ticketIDs[i] != ticketIDs[j]
      ensures forall t :: t in ticketIDs ==> t !in old(uuids.issued) && t !in events
      ensures uuids.issued == old(uuids.issued) + set t | t in ticketIDs
      ensures AllInStock(old(events)) && numTickets >= 0 ==> AllInStock(events)
    {
      if eventID !in events {
        return [], Some(EventNotFound(eventID));
      }
      var eventObj := events[eventID];
      if eventObj.availableTickets < numTickets {
        return [], Some(NotEnoughTickets(eventID));
      }
      ticketIDs := [];
      var i: Int64 := 0;
      while i < numTickets
        invariant 0 <= i <= (if numTickets < 0 then 0 else numTickets)
        invariant |ticketIDs| == i
        invariant forall a, b :: 0 <= a < b < |ticketIDs| ==> ticketIDs[a] != ticketIDs[b]
        invariant forall t :: t in ticketIDs ==> t !in old(uuids.issued) && t !in events
        invariant uuids.issued == old(uuids.issued) + set t | t in ticketIDs
        invariant events == old(events)
        decreases numTickets - i
      {
        var ticketID := uuids.GenerateUUID(events.Keys);
        ticketIDs := ticketIDs + [ticketID];
        i := i + 1;
      }
      events := events[eventID := eventObj.(availableTickets := Sub64(eventObj.availableTickets, numTickets))];
      err := None;
    }
  }
}
