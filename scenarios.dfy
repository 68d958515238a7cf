/**
 Clients of the ticket service that rely on its contracts alone: the booking
 sequence of a small event, an unknown event, and a start-up without a
 snapshot file.
 */
module Scenarios {
  import opened Events
  import opened Inventory
  import opened Utils
  import opened TicketService

  /** Ten tickets: six are sold, five more are refused, the last four are sold. */
  method SellOutSmallEvent()
  {
    var uuids := new UuidSource();
    var service := new TicketService();
    var event, err := service.CreateEvent("Concert", Timestamp(0), 10, uuids);
    assert err == None && service.events[event.id].availableTickets == 10;

    var tickets, bookErr := service.BookTickets(event.id, 6, uuids);
    assert bookErr == None && |tickets| == 6;
    assert service.events[event.id].availableTickets == 4;

    tickets, bookErr := service.BookTickets(event.id, 5, uuids);
    assert bookErr == Some(NotEnoughTickets(event.id)) && tickets == [];
    assert service.events[event.id].availableTickets == 4;

    tickets, bookErr := service.BookTickets(event.id, 4, uuids);
    assert bookErr == None && |tickets| == 4;
    assert service.events[event.id].availableTickets == 0;
  }

  /** Booking an event that does not exist fails and leaves the table alone. */
  method BookUnknownEvent(service: TicketService, uuids: UuidSource, eventID: string)
    requires service.Valid() && eventID !in service.events
    modifies service, uuids
  {
    var before := service.events;
    var tickets, err := service.BookTickets(eventID, 1, uuids);
    assert err == Some(EventNotFound(eventID)) && tickets == [];
    assert service.events == before;
  }

  /** A missing snapshot file leaves an empty table, and events can still be created. */
  method StartWithoutSnapshot()
  {
    var uuids := new UuidSource();
    var service := new TicketService();
    service.InitTicketService(Unreadable);
    assert service.events == map[];
    var event, err := service.CreateEvent("Play", Timestamp(0), 3, uuids);
    assert err == None && service.events.Keys == {event.id};
    var list := service.ListEvents();
    assert list == [event];
  }
}
