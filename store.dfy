/** The booking API's process-wide store as the handlers update it in place:
    an array of event records and a map from event id to the emails that
    booked it. Each method is proved against the value-level rules of
    module Catalogue, and keeps the store invariant. */
module Store {
  import opened Catalogue
  import Properties

  class EventStore {
    /** The event table; its records are replaced field by field, never added or removed. */
    const events: array<Event>
    /** Emails that booked each event, keyed by event id. */
    var bookings: map<int, seq<string>>

    /** The store's contents as a value. */
    ghost function Snapshot(): State
      reads this, events
    {
      State(events[..], bookings)
    }

    ghost predicate Valid()
      reads this, events
    {
      Inv(Snapshot())
    }

    /** Process start: the seed catalogue, no bookings. */
    constructor ()
      ensures Valid() && fresh(events)
      ensures Snapshot() == Initial()
    {
      var seed := Seed();
      events := new Event[3](i requires 0 <= i < 3 => seed[i]);
      bookings := map[];
      new;
      assert events[..] == seed;
      Properties.InitialInv();
    }

    /** The event list served to clients, in catalogue order. */
    method List() returns (r: seq<Event>)
      requires Valid()
      ensures r == events[..]
      ensures |r| == 3 && forall i :: 0 <= i < 3 ==> r[i].id == i + 1
      ensures forall i :: 0 <= i < 3 ==> 0 <= r[i].availableSeats <= r[i].totalSeats
    {
      r := events[..];
      assert forall i :: 0 <= i < 3 ==> r[i].id == Seed()[i].id;
    }

    /** Linear search for the first event with id `id`; -1 when there is none. */
    method FindIndex(id: int) returns (idx: int)
      ensures idx == IndexOf(events[..], id)
      ensures idx == -1 <==> forall j :: 0 <= j < events.Length ==> events[j].id != id
      ensures 0 <= idx ==> idx < events.Length && events[idx].id == id
    {
      idx := 0;
      while idx < events.Length
        invariant 0 <= idx <= events.Length
        invariant forall j :: 0 <= j < idx ==> events[j].id != id
      {
        if events[idx].id == id {
          assert events[..][idx].id == id;
          return;
        }
        idx := idx + 1;
      }
      idx := -1;
    }

    /** Serve one booking request: check the fields, find the event, refuse it
        when sold out, create its list if absent, refuse a repeated email, and
        otherwise take one seat and record the email. */
    method Book(eventId: int, name: string, email: string) returns (r: Outcome)
      modifies this, events
      ensures old(Valid()) ==> Valid()
      ensures Transition(Snapshot(), r) == BookSpec(old(Snapshot()), eventId, name, email)
    {
      ghost var st := Snapshot();
      ghost var t := BookSpec(st, eventId, name, email);
      if eventId == 0 || name == "" || email == "" {
        assert t == Transition(st, MissingField);
        return MissingField;
      }
      var i := FindIndex(eventId);
      if i == -1 {
        assert t == Transition(st, NotFound);
        return NotFound;
      }
      var event := events[i];
      if event.availableSeats <= 0 {
        assert t == Transition(st, SoldOut);
        return SoldOut;
      }
      if eventId !in bookings {
        bookings := bookings[eventId := []];
      }
      assert bookings == st.bookings[eventId := Booked(st, eventId)];
      if email in bookings[eventId] {
        assert t == Transition(Snapshot(), Duplicate);
        return Duplicate;
      }
      var list := bookings[eventId];
      events[i] := events[i].(availableSeats := events[i].availableSeats - 1);
      bookings := bookings[eventId := list + [email]];
      r := Ok(Confirmation(eventId, name, email), events[i]);
      assert events[..] == st.events[i := events[i]];
      assert t == Transition(Snapshot(), r);
      if Inv(st) {
        Properties.BookPreservesInv(st, eventId, name, email);
      }
    }

    /** Put the seed seat counts back and delete every booking list, key by key. */
    method Reset()
      requires Valid()
      modifies this, events
      ensures Valid()
      ensures Snapshot() == ResetSpec(old(Snapshot()))
      ensures Snapshot() == Initial()
    {
      Properties.ResetRestoresInitial(Snapshot());
      events[0] := events[0].(availableSeats := 50);
      events[1] := events[1].(availableSeats := 120);
      events[2] := events[2].(availableSeats := 5);
      while bookings != map[]
        invariant events[..] == ResetSpec(old(Snapshot())).events
        decreases |bookings.Keys|
      {
        // a non-empty map has a key
        assert exists k :: k in bookings by {
          if forall k :: k !in bookings { assert false; }
        }
        var key :| key in bookings;
        bookings := bookings - {key};
      }
      assert bookings == map[];
    }
  }
}
