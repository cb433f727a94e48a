/** Value-level model of the in-memory seat-reservation store of the booking API:
    the seed catalogue, the per-event lists of booked emails, the rules of a
    booking request and of a reset, and the invariants they keep. */
module Catalogue {

  /** One bookable event. Only `availableSeats` ever changes at run time. */
  datatype Event = Event(
    id: int,
    title: string,
    date: string,
    description: string,
    availableSeats: int,
    totalSeats: int,
    image: string)

  /** The part of a successful request echoed back to the caller (the random ticket id is not modelled). */
  datatype Confirmation = Confirmation(eventId: int, name: string, email: string)

  /** What a booking request answers: one constructor per error kind, or the updated event. */
  datatype Outcome =
    | MissingField
    | NotFound
    | SoldOut
    | Duplicate
    | Ok(booking: Confirmation, updatedEvent: Event)

  /** The whole store: the event table and, per event id, the emails that booked it.
      A key is absent until the first request that gets past the sold-out check. */
  datatype State = State(events: seq<Event>, bookings: map<int, seq<string>>)

  /** The new store together with the answer of one request. */
  datatype Transition = Transition(next: State, outcome: Outcome)

  /** Seat counts of the seed events, in catalogue order; a reset restores them. */
  const SeedSeats: seq<int> := [50, 120, 5]

  /** The seed events, as the process starts with them. */
  const TechConference := Event(1, "Tech Conference 2024", "2024-09-15",
    "The biggest tech conference of the year featuring industry leaders.",
    50, 100, "https://picsum.photos/seed/tech/800/600")
  const MusicFestival := Event(2, "Music Festival", "2024-10-20",
    "A weekend of live music, food, and fun.",
    120, 500, "https://picsum.photos/seed/music/800/600")
  const ArtGallery := Event(3, "Art Gallery Opening", "2024-11-05",
    "Exclusive viewing of modern art masterpieces.",
    5, 30, "https://picsum.photos/seed/art/800/600")

  /** The catalogue the process starts with, in this order. */
  function Seed(): seq<Event>
  {
    [TechConference, MusicFestival, ArtGallery]
  }

  /** The store at process start: the seed catalogue and no bookings at all. */
  function Initial(): State
  {
    State(Seed(), map[])
  }

  /** The request's fields are missing in the JavaScript sense: an absent or zero
      `eventId`, or an empty `name` or `email`, is falsy. */
  predicate Missing(eventId: int, name: string, email: string)
  {
    eventId == 0 || name == "" || email == ""
  }

  /** The emails recorded for `id`; an absent key reads as no bookings. */
  function Booked(st: State, id: int): seq<string>
  {
    if id in st.bookings then st.bookings[id] else []
  }

  /** Position of the first event whose id is `id`, or -1 (`findIndex`). */
  function IndexOf(s: seq<Event>, id: int): (i: int)
    ensures -1 <= i < |s|
    ensures i == -1 <==> forall j :: 0 <= j < |s| ==> s[j].id != id
    ensures 0 <= i ==> s[i].id == id && forall j :: 0 <= j < i ==> s[j].id != id
  {
    if |s| == 0 then -1
    else if s[0].id == id then 0
    else
      var k := IndexOf(s[1..], id);
      if k < 0 then -1 else k + 1
  }

  /** One booking request, checked in the order the handler checks it:
      missing fields, unknown event, sold out, duplicate email, then success.
      The empty list for the event is created (lazily) once the request gets
      past the sold-out check, before the duplicate check. */
  function BookSpec(st: State, eventId: int, name: string, email: string): (t: Transition)
    ensures |t.next.events| == |st.events|
  {
    if Missing(eventId, name, email) then Transition(st, MissingField)
    else
      var i := IndexOf(st.events, eventId);
      if i < 0 then Transition(st, NotFound)
      else if st.events[i].availableSeats <= 0 then Transition(st, SoldOut)
      else
        var list := Booked(st, eventId);
        var created := st.bookings[eventId := list];
        if email in list then Transition(State(st.events, created), Duplicate)
        else
          var e := st.events[i].(availableSeats := st.events[i].availableSeats - 1);
          Transition(State(st.events[i := e], created[eventId := list + [email]]),
                     Ok(Confirmation(eventId, name, email), e))
  }

  /** The reset: the first three events get their seed seat counts back, by
      position, and every booking list is dropped. */
  function ResetSpec(st: State): State
    requires |st.events| >= 3
  {
    var ev := st.events[0 := st.events[0].(availableSeats := SeedSeats[0])]
                       [1 := st.events[1].(availableSeats := SeedSeats[1])]
                       [2 := st.events[2].(availableSeats := SeedSeats[2])];
    State(ev, map[])
  }

  /** No email occurs twice in a list. */
  predicate NoDuplicates(list: seq<string>)
  {
    forall j, k :: 0 <= j < k < |list| ==> list[j] != list[k]
  }

  /** Event `i` of the table is seed event `i` except for its seat count. */
  predicate KeepsSeed(events: seq<Event>, i: nat)
    requires i < 3 <= |events|
  {
    events[i] == Seed()[i].(availableSeats := events[i].availableSeats)
  }

  /** The event table still is the seed catalogue except for seat counts. */
  predicate Shaped(st: State)
  {
    |st.events| == 3 &&
    KeepsSeed(st.events, 0) && KeepsSeed(st.events, 1) && KeepsSeed(st.events, 2)
  }

  /** Event `i` has 0 <= availableSeats <= totalSeats, and its booked emails
      plus its free seats make up its seed seat count. */
  predicate SeatsBalance(st: State, i: nat)
    requires i < 3 <= |st.events|
  {
    0 <= st.events[i].availableSeats <= st.events[i].totalSeats &&
    |Booked(st, st.events[i].id)| + st.events[i].availableSeats == SeedSeats[i]
  }

  /** The store invariant (for integer ids): the table keeps its seed shape,
      every event's seats balance, lists exist only for the catalogue's ids
      (1, 2 and 3), and no email is booked twice for one event. */
  predicate Inv(st: State)
  {
    Shaped(st) &&
    SeatsBalance(st, 0) && SeatsBalance(st, 1) && SeatsBalance(st, 2) &&
    (forall k :: k in st.bookings ==> 1 <= k <= 3 && NoDuplicates(st.bookings[k]))
  }

  /** A requested operation, for reasoning about any history of requests. */
  datatype Request =
    | BookRequest(eventId: int, name: string, email: string)
    | ResetRequest

  /** The store after serving `reqs` one after another (each runs to completion). */
  function Run(st: State, reqs: seq<Request>): State
    requires |st.events| >= 3
    decreases |reqs|
  {
    if reqs == [] then st
    else
      var st' := match reqs[0]
        case BookRequest(id, n, e) => BookSpec(st, id, n, e).next
        case ResetRequest => ResetSpec(st);
      Run(st', reqs[1..])
  }
}
