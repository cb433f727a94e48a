/** What the booking and reset rules of the store guarantee. */
module Properties {
  import opened Catalogue

  /** In the seed catalogue, and in any table of its shape, event `i` has id `i + 1`. */
  lemma ShapedIndexOf(st: State, id: int)
    requires Shaped(st)
    ensures IndexOf(st.events, id) == (if 1 <= id <= 3 then id - 1 else -1)
  {
    assert st.events[0].id == 1 && st.events[1].id == 2 && st.events[2].id == 3;
  }

  /** A request with a falsy field is answered MissingField, and only such a
      request is; it changes nothing. */
  lemma BookMissingField(st: State, eventId: int, name: string, email: string)
    ensures BookSpec(st, eventId, name, email).outcome == MissingField
            <==> Missing(eventId, name, email)
    ensures Missing(eventId, name, email) ==> BookSpec(st, eventId, name, email).next == st
  {
  }

  /** A complete request for an id that no event has is answered NotFound, and
      only such a request is; it changes nothing. */
  lemma BookNotFound(st: State, eventId: int, name: string, email: string)
    ensures BookSpec(st, eventId, name, email).outcome == NotFound
            <==> !Missing(eventId, name, email) &&
                 forall j :: 0 <= j < |st.events| ==> st.events[j].id != eventId
    ensures BookSpec(st, eventId, name, email).outcome == NotFound
            ==> BookSpec(st, eventId, name, email).next == st
  {
  }

  /** A complete request for an event with no seats left is answered SoldOut,
      whatever the email, and only such a request is; it changes nothing. */
  lemma BookSoldOut(st: State, eventId: int, name: string, email: string)
    ensures var i := IndexOf(st.events, eventId);
            BookSpec(st, eventId, name, email).outcome == SoldOut
            <==> !Missing(eventId, name, email) && 0 <= i && st.events[i].availableSeats <= 0
    ensures BookSpec(st, eventId, name, email).outcome == SoldOut
            ==> BookSpec(st, eventId, name, email).next == st
  {
  }

  /** A complete request for an event with seats left, by an email already on
      its list, is answered Duplicate, and only such a request is; the lazily
      created list already existed, so nothing changes. */
  lemma BookDuplicate(st: State, eventId: int, name: string, email: string)
    ensures var i := IndexOf(st.events, eventId);
            BookSpec(st, eventId, name, email).outcome == Duplicate
            <==> !Missing(eventId, name, email) && 0 <= i && st.events[i].availableSeats > 0 &&
                 email in Booked(st, eventId)
    ensures BookSpec(st, eventId, name, email).outcome == Duplicate
            ==> BookSpec(st, eventId, name, email).next == st
  {
  }

  /** Every other request succeeds: the matched event loses exactly one seat,
      exactly this email is appended to that event's list, every other event
      and list is unchanged, and the answer carries the updated event. */
  lemma BookSuccess(st: State, eventId: int, name: string, email: string)
    ensures var i := IndexOf(st.events, eventId);
            BookSpec(st, eventId, name, email).outcome.Ok?
            <==> !Missing(eventId, name, email) && 0 <= i && st.events[i].availableSeats > 0 &&
                 email !in Booked(st, eventId)
    ensures var i := IndexOf(st.events, eventId);
            var t := BookSpec(st, eventId, name, email);
            t.outcome.Ok? ==>
              && |t.next.events| == |st.events|
              && t.next.events[i].availableSeats == st.events[i].availableSeats - 1
              && t.next.events[i] == st.events[i].(availableSeats := t.next.events[i].availableSeats)
              && (forall j :: 0 <= j < |st.events| && j != i ==> t.next.events[j] == st.events[j])
              && Booked(t.next, eventId) == Booked(st, eventId) + [email]
              && (forall k :: k != eventId ==> Booked(t.next, k) == Booked(st, k))
              && (forall k :: k != eventId ==> (k in t.next.bookings <==> k in st.bookings))
              && t.outcome == Ok(Confirmation(eventId, name, email), t.next.events[i])
  {
  }

  /** Appending an email that is not on a duplicate-free list keeps it duplicate-free. */
  lemma AppendNew(list: seq<string>, email: string)
    requires NoDuplicates(list)
    requires email !in list
    ensures NoDuplicates(list + [email])
  {
  }

  /** Taking one seat of event `i` and appending a new email to its list (created
      empty first when absent) keeps the store invariant. */
  lemma TakeSeatPreservesInv(st: State, i: nat, email: string)
    requires Inv(st)
    requires i < 3 && st.events[i].availableSeats > 0
    requires email !in Booked(st, st.events[i].id)
    ensures var id := st.events[i].id;
            Inv(State(st.events[i := st.events[i].(availableSeats := st.events[i].availableSeats - 1)],
                      st.bookings[id := Booked(st, id)][id := Booked(st, id) + [email]]))
  {
    var id := st.events[i].id;
    var n := State(st.events[i := st.events[i].(availableSeats := st.events[i].availableSeats - 1)],
                   st.bookings[id := Booked(st, id)][id := Booked(st, id) + [email]]);
    assert st.events[0].id == 1 && st.events[1].id == 2 && st.events[2].id == 3;
    assert Shaped(n);
    AppendNew(Booked(st, id), email);
    assert SeatsBalance(n, 0) && SeatsBalance(n, 1) && SeatsBalance(n, 2);
  }

  /** Every refused request leaves the store exactly as it was. */
  lemma RefusalKeepsState(st: State, eventId: int, name: string, email: string)
    ensures !BookSpec(st, eventId, name, email).outcome.Ok? ==>
            BookSpec(st, eventId, name, email).next == st
  {
    BookDuplicate(st, eventId, name, email);
  }

  /** A successful booking keeps the store invariant. */
  lemma SuccessPreservesInv(st: State, eventId: int, name: string, email: string)
    requires Inv(st)
    requires BookSpec(st, eventId, name, email).outcome.Ok?
    ensures Inv(BookSpec(st, eventId, name, email).next)
  {
    var i := IndexOf(st.events, eventId);
    TakeSeatPreservesInv(st, i, email);
  }

  /** A booking request keeps the store invariant: seats stay within
      0..totalSeats, booked emails plus free seats stay equal to the seed count,
      and no email is booked twice for one event. */
  lemma BookPreservesInv(st: State, eventId: int, name: string, email: string)
    requires Inv(st)
    ensures Inv(BookSpec(st, eventId, name, email).next)
  {
    if BookSpec(st, eventId, name, email).outcome.Ok? {
      SuccessPreservesInv(st, eventId, name, email);
    } else {
      RefusalKeepsState(st, eventId, name, email);
    }
  }

  /** A reset gives the first three events their seed seat counts back and
      empties every booking list; every other field is left as it was. */
  lemma ResetFields(st: State)
    requires |st.events| >= 3
    ensures |ResetSpec(st).events| == |st.events|
    ensures forall i :: 0 <= i < 3 ==>
              ResetSpec(st).events[i] == st.events[i].(availableSeats := SeedSeats[i])
    ensures forall i :: 3 <= i < |st.events| ==> ResetSpec(st).events[i] == st.events[i]
    ensures forall k :: Booked(ResetSpec(st), k) == []
  {
  }

  /** Whatever was booked before, a reset brings a seed-shaped store back to
      its initial state, so the invariant holds again. */
  lemma ResetRestoresInitial(st: State)
    requires Shaped(st)
    ensures ResetSpec(st) == Initial()
    ensures Inv(ResetSpec(st))
  {
  }

  /** Resetting twice is the same as resetting once. */
  lemma ResetIdempotent(st: State)
    requires |st.events| >= 3
    ensures ResetSpec(ResetSpec(st)) == ResetSpec(st)
  {
  }

  /** The store the process starts with satisfies the invariant. */
  lemma InitialInv()
    ensures Inv(Initial())
  {
  }

  /** After a successful booking the same email for the same event is refused
      and changes nothing. Because the sold-out check comes first, the answer is
      Duplicate while seats remain and SoldOut once that booking took the last
      seat. */
  lemma RepeatBookingRefused(st: State, eventId: int, name: string, email: string, name2: string)
    requires BookSpec(st, eventId, name, email).outcome.Ok?
    requires name2 != ""
    ensures var n := BookSpec(st, eventId, name, email).next;
            var i := IndexOf(st.events, eventId);
            var again := BookSpec(n, eventId, name2, email);
            again.next == n &&
            again.outcome == (if n.events[i].availableSeats > 0 then Duplicate else SoldOut)
  {
  }

  /** Every state reachable by any sequence of requests from an invariant state
      satisfies the invariant; in particular seats never go negative. */
  lemma {:induction false} RunPreservesInv(st: State, reqs: seq<Request>)
    requires Inv(st)
    ensures Inv(Run(st, reqs))
    decreases |reqs|
  {
    if reqs != [] {
      var st' := match reqs[0]
        case BookRequest(id, n, e) => BookSpec(st, id, n, e).next
        case ResetRequest => ResetSpec(st);
      match reqs[0] {
        case BookRequest(id, n, e) => BookPreservesInv(st, id, n, e);
        case ResetRequest => ResetRestoresInitial(st);
      }
      RunPreservesInv(st', reqs[1..]);
    }
  }

  /** The states the running server can be in (from start-up) all satisfy the invariant. */
  lemma ReachableInv(reqs: seq<Request>)
    ensures Inv(Run(Initial(), reqs))
  {
    InitialInv();
    RunPreservesInv(Initial(), reqs);
  }
}
