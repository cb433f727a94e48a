# Event booking store — Dafny model

This project models the in-memory seat-reservation store of a small event-booking
API (`api/index.js`). The process starts with a seed catalogue of three events
(ids 1, 2 and 3, with 50, 120 and 5 free seats out of 100, 500 and 30). It also
keeps a map from event id to the list of emails that booked that event. Three
requests touch the store:

- `GET /events` lists the events.
- `POST /book` takes `{eventId, name, email}` and answers one of: missing field,
  event not found, sold out, duplicate booking, or success with the updated event.
- `POST /reset` restores the seed seat counts and deletes every booking list.

The model has three modules:

- `Catalogue` (`catalogue.dfy`) holds the values: `Event`, `Outcome`, the store
  `State`, the seed catalogue, the rules of a booking (`BookSpec`) and of a reset
  (`ResetSpec`), the linear lookup `IndexOf`, and the store invariant `Inv`.
- `Properties` (`properties.dfy`) proves what those rules guarantee. It
  characterises every outcome in both directions and says what each outcome
  changes. It proves that `Inv` is preserved by bookings and restored by resets,
  and that it holds in every state reachable from start-up.
- `Store` (`store.dfy`) is the store as the handlers update it in place. The
  class `EventStore` has an `array<Event>` and a `map<int, seq<string>>` field.
  Its `Book` and `Reset` methods follow the handler code step by step: the
  linear `findIndex`, the lazy creation of an empty list, the in-place
  decrement, and the key-by-key delete loop. Each method is proved to produce
  exactly the state and answer that `BookSpec` and `ResetSpec` give, and to
  keep `Inv`.

Assumptions and readings of the code:

- Event ids are integers with magnitude below 10^21, and `name` and `email` are
  strings. The handler looks the event up with `parseInt(eventId)` but keys the
  booking map on the raw `eventId`, turned into a property name. For integers
  below 10^21 both give the same number. Larger integers print with an exponent
  ("1e+21"), so `parseInt` reads only the leading digit and the lookup finds a
  different event than the key names. A non-string `email` (an array, say) is
  compared by identity in `includes`, so the duplicate check would not apply.
  The model covers neither case.
- An absent `eventId` is modelled as `0`; both are falsy. So are an empty `name`
  and an empty `email`.
- The sold-out test is `availableSeats <= 0`, as in the code, and it comes before
  the duplicate test. One might expect a repeated booking of the same email to
  be answered Duplicate every time. The code does not always do that: when the
  first booking took the last seat, the second attempt is answered "sold out". `Properties.RepeatBookingRefused` states
  what the code does: the repeat is always refused and changes nothing, and the
  answer is Duplicate while seats remain and SoldOut otherwise.
- Reset writes the seat counts by position (`events[0..2]`), not by id. The
  table is never reordered, so `Properties.ShapedIndexOf` shows that position
  `i` holds id `i + 1`.

## Model

| member | source | states |
|---|---|---|
| `Catalogue.IndexOf` | api/index.js:60 | the result is the position of the first event with the given id, or -1 exactly when no event has that id |
| `Catalogue.BookSpec` | api/index.js:53-93 | a booking never adds or removes events |
| `Store.EventStore.FindIndex` | api/index.js:60-63 | the linear search returns the first index whose id matches, or -1 exactly when none matches (equal to `IndexOf`) |
| `Store.EventStore.constructor` | api/index.js:11-43 | the store starts as the seed catalogue with no bookings and satisfies the invariant |
| `Store.EventStore.List` | api/index.js:46-51 | returns the events in catalogue order (ids 1, 2, 3), each with 0 <= availableSeats <= totalSeats |
| `Store.EventStore.Book` | api/index.js:53-93 | on any store, the new store and the answer are exactly those of `BookSpec`; a store that satisfied the invariant still does |
| `Store.EventStore.Reset` | api/index.js:95-103 | the new store is exactly `ResetSpec` of the old one, which is the initial store, and the invariant holds |
| `Properties.ShapedIndexOf` | api/index.js:11-39 | in a table with the seed's shape, the event with id k (1 to 3) is at position k - 1 and no other id is found |
| `Properties.BookMissingField` | api/index.js:56-58 | the answer is MissingField if and only if eventId is 0 or name or email is empty; then nothing changes |
| `Properties.BookNotFound` | api/index.js:60-63 | for a complete request, the answer is NotFound if and only if no event has the id; then nothing changes |
| `Properties.BookSoldOut` | api/index.js:65-69 | for a complete request, the answer is SoldOut if and only if the matched event has availableSeats <= 0, whatever the email; then nothing changes |
| `Properties.BookDuplicate` | api/index.js:71-77 | the answer is Duplicate if and only if the event has seats left and the email is already on its list; then nothing changes, not even the lazily created list |
| `Properties.BookSuccess` | api/index.js:79-92 | the answer is Ok if and only if no check fails; then only the matched event loses exactly one seat, only its list grows, by exactly this email at the end, and the answer carries the updated event |
| `Properties.AppendNew` | api/index.js:75-81 | appending an email that is not on a duplicate-free list keeps it duplicate-free |
| `Properties.RefusalKeepsState` | api/index.js:56-77 | every request that is not answered Ok leaves the store exactly as it was |
| `Properties.TakeSeatPreservesInv` | api/index.js:79-81 | taking one seat of an event with seats left and appending an email not yet on its list keeps the invariant |
| `Properties.SuccessPreservesInv` | api/index.js:79-81 | a successful booking keeps the invariant |
| `Properties.BookPreservesInv` | api/index.js:53-93 | a booking keeps 0 <= availableSeats <= totalSeats, keeps booked emails plus free seats equal to the seed count, and never records an email twice for one event |
| `Properties.RepeatBookingRefused` | api/index.js:67-81 | after a successful booking, the same email for the same event is refused and changes nothing: Duplicate while seats remain, SoldOut once that booking took the last seat |
| `Properties.ResetFields` | api/index.js:97-101 | a reset sets the three seat counts to 50, 120 and 5, leaves every other field of every event as it was, and leaves no booking list |
| `Properties.ResetRestoresInitial` | api/index.js:95-103 | whatever was booked before, a reset gives back exactly the start-up store, which satisfies the invariant |
| `Properties.ResetIdempotent` | api/index.js:95-103 | resetting twice is the same as resetting once |
| `Properties.InitialInv` | api/index.js:11-43 | the seed catalogue with no bookings satisfies the invariant |
| `Properties.RunPreservesInv` | api/index.js:53-103 | any sequence of booking and reset requests, served one after another, keeps the invariant |
| `Properties.ReachableInv` | api/index.js:11-103 | every store reachable from start-up satisfies the invariant; in particular no seat count ever goes negative |

## Left out

- Express setup, CORS, JSON body parsing and `app.listen`: HTTP plumbing, not store logic.
- The one-second delay before `GET /events` answers: timing only; `List` returns the events directly.
- The ticket id built from `Math.random()`: it is nondeterministic and not stored, so the success answer echoes only `eventId`, `name` and `email`.
- HTTP status codes and message strings: each is represented by its `Outcome` constructor.
- `parseInt` and property-name coercion of `eventId` values that are not integers below 10^21 in magnitude (strings, fractions, `NaN`, integers of 10^21 or more): ids are modelled as such integers. Other falsy values such as `null` or `false` are represented by `0`.
- `name` and `email` values that are not strings (numbers, arrays, objects): the model types them as strings, so it does not capture the identity comparison `includes` would make on them.
- Concurrency: each handler runs to completion before the next request starts, and the model treats each request as one atomic step.
- The client application (`client/src/App.jsx`): it is rendering, caching and form handling. Its email pattern is checked only in the browser, and the API does not enforce it.
