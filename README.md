# Meeting-room booking service: admission rule and booking store

This project models the core of a meeting-room booking API (an Express server
over three PostgreSQL tables: users, rooms, bookings) and proves properties of
that model.

- **Admission rule** (`Admission.Check`). `POST /api/bookings` runs a fixed,
  fail-fast chain of checks on a requested interval `[start, end)`:
  1. valid fields;
  2. the start falls on today's date;
  3. the start is after now;
  4. the end is after the start;
  5. business hours;
  6. a duration of 30 to 300 minutes;
  7. no conflicting booking in the same room (the 409 answer).

  The first failing check decides the answer.
- **Conflict clause** (`Bookings.ConflictClause`). The three-disjunct SQL
  predicate. It is proved equal to half-open interval overlap.
- **Store** (`Store.BookingStore`). A class over the tables with three writing
  handlers: login (insert or rename a user by unique email), create a booking,
  and cancel a booking (owner only). Its invariant `Valid()` includes:
  - unique keys;
  - foreign keys that resolve;
  - every stored booking lies inside 09:00–22:00 of its day and lasts 30 to
    300 minutes;
  - no two bookings of one room overlap.

  Every handler of the store preserves the invariant. The store's create uses
  the corrected hours test (see Findings), and the hours part of the invariant
  depends on it: the handler's own test lets in rows that end at 22:00:xx or
  after midnight. Unique keys and disjoint rooms do not depend on it; they are
  proved for the handler's own chain too
  (`Store.HandlerAdmissionKeepsKeysAndRooms`).
- **Read queries** (`Queries`). A user's bookings, a room's bookings on a date,
  and all bookings on a date. Each is proved sorted as its `ORDER BY` says and
  to hold exactly the rows its `WHERE` selects.

Time is an integer count of milliseconds since a local-time epoch, which is
the precision of a JavaScript `Date`. Day, hour and minute come from `/` and
`%`. Both are floor operations for a positive divisor, as `setHours(0, 0, 0, 0)`,
`getHours()` and `getMinutes()` are. "Now" is a parameter. The duration test
`(end - start) / 60000 < 30` is a real division in JavaScript, so it is
modelled exactly as `end - start < 30 * 60000`.

Consequences of the handler's order and constants that the model keeps:

- **Rule order.** A 15-minute request that overlaps a stored booking is refused
  as too short (400), not as a conflict (409), because the duration rules run
  before the conflict query (`Scenarios.OverlapRejected`).
- **End seconds.** The handler's own message for the hours test is "Bookings
  are only allowed between 9 AM and 10 PM" (server.js:135), yet an end of
  22:00:01 passes that test, since only the hour and the minute of the end are
  read (see Findings).
- **Whole opening day.** A 09:00–22:00 request is refused as too long, because
  it exceeds the 300-minute maximum (server.js:141). The two boundaries are
  proved separately (`Scenarios.OpeningAndClosingBoundaries`).

Files: `clock.dfy` (time arithmetic), `bookings.dfy` (rows, conflict clause,
table invariants), `admission.dfy` (the check chain and its rule order),
`scenarios.dfy` (concrete requests), `users.dfy` (login upsert), `queries.dfy`
(read queries), `store.dfy` (the store class), `optional.dfy` (Option).

## Model

| member | source | states |
|---|---|---|
| `Clock.DayOf` | server.js:118-122 | the day number of a timestamp is the one whose day contains it, so two timestamps compare equal after `setHours(0, 0, 0, 0)` exactly when their day numbers are equal |
| `Clock.Midnight` | server.js:118-121 | the truncation is a midnight (a whole number of days), at or before the timestamp, less than one day before it, and on the same day |
| `Clock.HourOf` | server.js:131-132 | `getHours()` is in 0..23 and places the timestamp within that hour of its day |
| `Clock.MinuteOf` | server.js:133 | `getMinutes()` is in 0..59 and places the timestamp within that minute of its hour |
| `Bookings.ConflictClause` | server.js:148-152 | for non-empty intervals the three-disjunct clause holds exactly when the half-open intervals overlap; touching endpoints are no conflict |
| `Bookings.Filter` | server.js:145-153 | a WHERE clause keeps each row the predicate accepts as many times as it occurs, and no other row |
| `Bookings.Without` | server.js:213 | `DELETE ... WHERE id` leaves exactly the rows with a different id |
| `Bookings.WithoutRemovesOneRow` | server.js:213 | with a unique key, deleting an id that is present shortens the table by exactly one row |
| `Bookings.FilterKeepsDistinctIds` | server.js:213 | deleting rows keeps the primary key unique |
| `Bookings.AppendKeepsDistinctIds` | server.js:157-161 | inserting a row with a fresh sequence id keeps the primary key unique |
| `Bookings.FilterKeepsRoomsDisjoint` | server.js:213 | deleting rows keeps "no two bookings of one room overlap" |
| `Bookings.AppendKeepsRoomsDisjoint` | server.js:145-161 | inserting a non-empty booking that no row of its room matches under the conflict clause keeps "no two bookings of one room overlap" |
| `Bookings.WithoutAbsentKeepsAll` | server.js:213 | deleting an id no row has changes nothing |
| `Bookings.FilterAppend` | server.js:145-153 | a WHERE clause distributes over concatenation of tables |
| `Bookings.WithoutUndoesAppend` | server.js:157-161 | deleting the booking just inserted restores the table exactly |
| `Admission.FieldsValid` | server.js:103-113 | the booking validators that can fail on typed input: at least one attendee and a non-empty title |
| `Admission.WithinHours` | server.js:131-136 | the handler's test admits a start at or after 09:00 of its day and an end before 22:01 of the end's own day; the corrected test instead keeps the end at or before 22:00 of the start's day |
| `Admission.Conflicting` | server.js:145-153 | the conflict query returns exactly the stored rows of the same room that satisfy the conflict clause |
| `Admission.Check` | server.js:114-156 | an admitted request has valid fields, starts today and after now, is non-empty, lasts 30 to 300 minutes and overlaps no stored booking of its room; under the corrected hours test it lies within 09:00–22:00 of today |
| `Admission.CheckAdmitsIffAllRulesHold` | server.js:122-156 | a request is admitted if and only if all eight rules of the rule table hold |
| `Admission.FirstFailing` | server.js:122-156 | a rejected request has a first failing rule, every earlier rule holds, and the rejection carries that rule's error |
| `Admission.CheckRejectsAtFirstFailingRule` | server.js:122-156 | rule order: if rule k fails and all earlier rules hold, the answer is rule k's error whatever the later rules say |
| `Admission.RuleErrorsDistinct` | server.js:122-156 | each rule has its own error |
| `Admission.CorrectedIsStricter` | server.js:131-136 | the corrected hours test admits nothing the handler's test rejects |
| `Admission.AsWrittenIsCorrectOnSameDayWholeMinutes` | server.js:131-136 | the two hours tests agree when the end lies on the start's day at a whole minute |
| `Admission.CorrectedAdmitsOnlyWhatSourceAdmits` | server.js:131-136 | every request the corrected chain admits, the handler's chain admits |
| `Admission.SameDay` | server.js:118-121 | a timestamp less than one day after another's midnight has the same midnight |
| `Scenarios.AdjacentSlotAdmitted` | server.js:145-156 | a booking starting when another ends, or ending when another starts, in the same room is admitted |
| `Scenarios.OverlapRejected` | server.js:137-156 | an overlapping 45-minute request gets the conflict error; an overlapping 15-minute one gets the minimum-duration error first |
| `Scenarios.OtherRoomAdmitted` | server.js:145-153 | the same interval in another room is no conflict |
| `Scenarios.DateAndTimeRules` | server.js:118-136 | yesterday and tomorrow are refused as not today, a start at now as past, an empty interval as end-not-after-start, an 08:30 start as outside hours |
| `Scenarios.DurationBounds` | server.js:137-143 | 30 and 300 minutes are admitted, one millisecond less or more is refused |
| `Scenarios.OpeningAndClosingBoundaries` | server.js:131-136 | a start at 09:00 and an end at 22:00 are admitted under both hours tests; an end at 22:01 is refused |
| `Scenarios.EndSecondsPastClosing` | server.js:131-136 | an end at 22:00:01 is admitted by the handler and refused by the corrected test |
| `Scenarios.MidnightCrossing` | server.js:131-136 | 23:00 today to 00:30 tomorrow is admitted by the handler and refused by the corrected test |
| `Users.FindByEmail` | server.js:31 | the lookup finds the first row with that email, and finds nothing only when no row has it |
| `Users.Upsert` | server.js:31-47 | the answered user has the given name and email and is in the table; an unknown email appends a row with the next sequence id; a known email renames that row in place |
| `Users.UpsertKeepsKeys` | server.js:31-47 | a login keeps emails unique, ids unique and every id below the sequence's next value |
| `Users.UpsertOnlyRenames` | server.js:39-45 | a login never changes a row's id, email or creation time, and leaves rows of other emails untouched |
| `Users.UpsertThenFind` | server.js:31-49 | after a login, looking the email up finds exactly the row the login answered with |
| `Users.UpsertIdempotent` | server.js:31-47 | a second login with the same name and email changes nothing and answers with the same user |
| `Users.UpsertKeepsIds` | server.js:31-47 | a login never removes a user id, so no booking loses its user |
| `Queries.Insert` | server.js:87 | inserting into a sorted listing keeps it sorted and adds exactly that row |
| `Queries.Sort` | server.js:87 | the sorted listing is in order and is a permutation of its input |
| `Queries.HeadPrecedesRest` | server.js:87 | the least row of a sorted listing precedes every row of a permutation of the rest plus a later row |
| `Queries.UserBookings` | server.js:175-190 | the user's bookings, latest start first, exactly the rows with that user id; empty when there are none |
| `Queries.Availability` | server.js:77-88 | a missing date gives the 400 answer; otherwise exactly the room's rows starting on that date, earliest first |
| `Queries.DayBookings` | server.js:227-234 | exactly the rows starting on the day, ordered by room and then by start |
| `Queries.DayListingAgreesWithAvailability` | server.js:227-234 | the day listing restricted to one room holds the same rows as that room's availability listing for the day |
| `Queries.DayListingRoomRunsAscend` | server.js:233 | within one room the day listing ascends by start |
| `Store.NewBooking` | server.js:157-161 | the inserted row carries the request's user, room, title, interval, attendees and equipment, the next sequence id and the creation time |
| `Store.BookingStore.constructor` | database.js:12-56 | the store starts from an empty database with the given rooms: no users, no bookings, both id sequences at 1 as a new SERIAL column starts, and its invariant |
| `Store.FirstLogin` | server.js:31-38 | on a new database the first login with a non-empty name inserts and answers user id 1; an empty name is refused |
| `Store.BookingStore.Login` | server.js:20-50 | an empty name is refused and changes nothing; otherwise the users table and the answer are the upsert's; bookings untouched; the invariant kept |
| `Store.BookingStore.Create` | server.js:114-162 | a rejected request writes nothing and returns its rule's error; an admitted one with a missing user or room returns the foreign-key failure, writes nothing but uses up a sequence id; otherwise exactly the new row is appended; the invariant kept |
| `Store.BookingStore.Cancel` | server.js:204-215 | cancels exactly when a row with that id belongs to that user, removing that id only; otherwise nothing changes; the invariant kept |
| `Store.HandlerAdmissionKeepsKeysAndRooms` | server.js:131-161 | a request the handler's own chain admits, inserted with a fresh id, keeps the primary key unique and no two bookings of one room overlapping |
| `Store.CreateThenCancel` | server.js:157-213 | creating a booking and having its owner cancel it at once leaves the tables as they were |

## Left out

- HTTP plumbing is not modelled: Express routing, CORS, JSON bodies and `console` logging.
- express-validator internals are not modelled: ISO-8601 parsing, `isInt`, `trim` on the title and the name, and `normalizeEmail`. Integer ids are given by the types. On the booking endpoint the two field checks that can fail on typed input are the first rule `InvalidFields`: at least one attendee and a non-empty title. Titles and emails are stored as given.
- `Store.BookingStore.Login`: refuses an empty name (server.js:21) but does not model `isEmail` (server.js:22), so any email string is accepted; the address grammar of that validator is not part of this model.
- The rooms are given to the constructor; users and bookings start empty and both id sequences start at 1. `CREATE TABLE IF NOT EXISTS` keeps rows already in the database, and that case is not modelled.
- Time zones and DST are not modelled. One fixed local offset is assumed. `GET /api/bookings/today` takes its date in UTC (server.js:225), while create uses local midnight; `Queries.DayBookings` takes the day as a parameter. `created_at` is the `now` parameter.
- Concurrency is not modelled. The conflict query and the insert are awaited separately, so two concurrent requests could both pass. Each handler here is one atomic step.
- Display-only output is not modelled: the joined name columns (`room_name`, `user_name`, `user_email`). Given the store's foreign-key invariant, the inner joins drop no row, so the queries select from the bookings table alone.
- Error paths are limited. The 500 answers are left out, except the foreign-key failure of the booking insert. A malformed id or date string that the database cannot cast is left out too.
- `GET /api/rooms`, `GET /` and the schema and seed code in database.js are not modelled. Rooms are a read-only list given to the store's constructor.
- `Store.BookingStore.Create`: admits with the corrected hours test, not the handler's. It therefore refuses the bookings described under Findings, which the handler accepts. The handler's own chain is `Admission.Check` with `AsWritten`.

## Findings

| source | as written | input that shows it | evidently intended | confidence | as-written member | corrected member |
|---|---|---|---|---|---|---|
| server.js:131-136 | the end passes when its hour is 22 and its minute is 0; seconds and milliseconds are ignored | start 21:00 today, end 22:00:01 today, now 08:00 | the end is at or before 22:00:00 | high; not executed | `Scenarios.EndSecondsPastClosing` | `Admission.Check` |
| server.js:131-136 | only the hour of the end's own day is compared with 22, so an end after midnight passes | start 23:00 today, end 00:30 tomorrow, now 22:30 | the whole booking lies within 09:00–22:00 of today | high; not executed | `Scenarios.MidnightCrossing` | `Admission.Check` |
