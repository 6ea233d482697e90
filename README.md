# GoBarber scheduling rules in Dafny

A model of the scheduling rules of the GoBarber back end: listing a user's
appointments a page at a time, computing a provider's free hourly slots on
one day, and canceling an appointment (in the controller and in the service,
which repeat the same policy). Everything is stated over plain values:

- A timestamp is an `int` number of milliseconds in the server's local time,
  whose UTC offset is taken to be fixed. Day, hour, minute, second and
  millisecond are its floor-division components (`time.dfy`), as with a
  JavaScript `Date`; the date-fns helpers used (`startOfDay`, `endOfDay`,
  `setHours`, `setMinutes`, `setSeconds`, `subHours`, `isBefore`, `isAfter`)
  are functions on those integers.
- The `appointments` table is a sequence of records
  `{id, userId, providerId, date, canceledAt: Option<int>}` with unique ids,
  held by the class `AppointmentStore` (`appointments.dfy`). `findByPk` is
  `Lookup`, `save()` is `Replace`. The job queue is a ghost log on the same
  object; `Queue.add` appends to it.
- "Now" is a parameter of every operation.

Modules, one per source file plus the shared parts:

| file | module | models |
|---|---|---|
| `wrappers.dfy` | `Wrappers` | the `Option` and `Result` datatypes the other modules use |
| `time.dfy` | `Time` | date arithmetic |
| `appointments.dfy` | `Appointments` | the record, the job, the table and the queue log |
| `cancellation.dfy` | `Cancellation` | the cancellation policy common to `delete` and `run`, as the specification function `Cancel` |
| `appointment_controller.dfy` | `AppointmentController` | `index` (pure) and `delete` (a method on the store) |
| `available_controller.dfy` | `AvailableController` | `index` (pure) |
| `cancel_appointment_service.dfy` | `CancelAppointmentService` | `run` (a method on the store) |

Both `Delete` and `Run` are written step by step as in the source (look up,
check the owner, check the deadline, stamp `canceledAt`, save, queue the
job) and are proved to leave the table and the job log exactly as
`Cancellation.Cancel` says; the properties of the policy are lemmas about
`Cancel`.

The model follows the code, including where it may surprise:

- Cancellation exactly two hours ahead is ACCEPTED: the code refuses only
  when `date - 2h` is strictly before now (`BoundaryAccepted`).
- A canceled appointment can be canceled again: its `canceledAt` is
  overwritten and a second job is queued (`RecancelOverwrites`).
- A slot is blocked by any fetched appointment whose `HH:mm` equals the slot
  label, not only by one at exactly the slot's timestamp
  (`BlockingMeansSameMinute`).
- A missing appointment is not reported as "not found": the code reads
  `user_id` of null and throws. The model gives this its own outcome
  (`Unhandled` in the controller, `NullDereference` in the service) and
  changes nothing.

## Model

| member | source | states |
|---|---|---|
| `Time.StartOfDay` | src/app/controllers/AvailableController.js:35 | `startOfDay(t)` is on t's day at 00:00:00.000 and t lies within the day that starts there |
| `Time.EndOfDay` | src/app/controllers/AvailableController.js:35 | `endOfDay(t)` is on t's day and the next millisecond is on the next day |
| `Time.WithinDay` | src/app/controllers/AvailableController.js:35 | `u` is between `startOfDay(t)` and `endOfDay(t)` iff u is on t's day |
| `Time.SetHours` | src/app/controllers/AvailableController.js:64 | for an hour in 0..23, the result has that hour and the same day, minute, second and millisecond |
| `Time.SetMinutes` | src/app/controllers/AvailableController.js:64 | for a minute in 0..59, the result has that minute and every other component unchanged |
| `Time.SetSeconds` | src/app/controllers/AvailableController.js:63-66 | for a second in 0..59, the result has that second and every other component unchanged, milliseconds included |
| `Appointments.Lookup` | src/app/controllers/AppointmentController.js:54-67 | `findByPk` finds a stored row with that key, or none exactly when no row has it |
| `Appointments.LookupUnique` | src/app/controllers/AppointmentController.js:54 | with unique keys, looking up a stored row's key finds that row |
| `Appointments.Replace` | src/app/controllers/AppointmentController.js:91 | `save()` replaces the row(s) with the saved key and keeps every other row and the length |
| `Appointments.LookupAfterReplace` | src/app/controllers/AppointmentController.js:89-91 | after saving a stored row, its key finds the saved record and other keys find what they found before |
| `Appointments.LookupOtherAfterReplace` | src/app/controllers/AppointmentController.js:91 | saving one key never changes what another key finds |
| `Appointments.ReplaceKeepsDistinct` | src/app/controllers/AppointmentController.js:91 | saving keeps primary keys unique |
| `Appointments.AppointmentStore.Save` | src/app/controllers/AppointmentController.js:91 | the table becomes `Replace(old table, a)` and keys stay unique |
| `Appointments.AppointmentStore.Enqueue` | src/app/controllers/AppointmentController.js:94-96 | the job is appended to the end of the queue log |
| `Cancellation.Check` | src/app/controllers/AppointmentController.js:70-87 | a non-owner is refused as NotOwner whatever the time; an owner with date - 2h strictly before now is refused as TooLate; the request may proceed iff the requester owns it and now <= date - 2h |
| `Cancellation.Cancel` | src/app/controllers/AppointmentController.js:53-98 | the request fails as MissingRecord iff no row has the key, and succeeds iff the row exists, the requester owns it and now <= date - 2h; a refusal changes no row and queues nothing; a success stamps `canceledAt` with now on the stored record, saves exactly that, and queues exactly one CancellationMail job carrying it |
| `Cancellation.NonOwnerRefused` | src/app/controllers/AppointmentController.js:70-74 | a non-owner is refused at any time, with the table unchanged and no job |
| `Cancellation.LateRequestRefused` | src/app/controllers/AppointmentController.js:77-87 | an owner is refused when date - 2h is strictly before now, with the table unchanged and no job |
| `Cancellation.BoundaryAccepted` | src/app/controllers/AppointmentController.js:83 | an owner asking at exactly date - 2h succeeds |
| `Cancellation.TimelyOwnerAccepted` | src/app/controllers/AppointmentController.js:77-91 | an owner asking at any now <= date - 2h (two hours and one minute ahead, say) succeeds with the record stamped with now |
| `Cancellation.SuccessfulCancellation` | src/app/controllers/AppointmentController.js:89-98 | on success id, user, provider and date are kept, `canceledAt` is now, the key finds the new record, other keys are untouched, and one job with the record is queued |
| `Cancellation.RecancelOverwrites` | src/app/services/CancelAppointmentService.js:42-49 | an already canceled appointment asked for in time by its owner is canceled again with the new now and another job |
| `Cancellation.CancelKeepsDistinct` | src/app/services/CancelAppointmentService.js:42-44 | a cancellation keeps primary keys unique |
| `AppointmentController.ActiveOf` | src/app/controllers/AppointmentController.js:17 | a row is kept iff it is in the table, belongs to the requester and is not canceled |
| `AppointmentController.InsertByDate` | src/app/controllers/AppointmentController.js:18 | inserting into a date-ordered list keeps it ordered and adds exactly that row |
| `AppointmentController.SortByDate` | src/app/controllers/AppointmentController.js:18 | the result is in ascending date order and a permutation of the input |
| `AppointmentController.Paginate` | src/app/controllers/AppointmentController.js:20-21 | at most 20 rows, row k of the page is row (page-1)*20 + k of the ordered list, and a page is short only where the list ends; page < 1 is an error |
| `AppointmentController.Index` | src/app/controllers/AppointmentController.js:13-39 | fails only for a page below 1 and never lists more than 20 rows; its other properties are the lemmas `ListedAreOwnedAndActive`, `PageSorted`, `DefaultPageIsFirst` and `EveryActiveAppointmentListed` |
| `AppointmentController.ListedAreOwnedAndActive` | src/app/controllers/AppointmentController.js:16-17 | every listed appointment is in the table, is the requester's and has `canceledAt` null |
| `AppointmentController.PageWithinList` | src/app/controllers/AppointmentController.js:20-21 | a page holds only rows of the ordered list it was cut from |
| `AppointmentController.PageSorted` | src/app/controllers/AppointmentController.js:18 | every page is in ascending date order |
| `AppointmentController.DefaultPageIsFirst` | src/app/controllers/AppointmentController.js:14-21 | no page means page 1, which is the first 20 rows of the ordered list |
| `AppointmentController.PageIsWindow` | src/app/controllers/AppointmentController.js:20-21 | every position k of the ordered list with 20(p-1) <= k < 20p is on page p, at place k - 20(p-1) |
| `AppointmentController.ConsecutivePages` | src/app/controllers/AppointmentController.js:20-21 | page p followed by page p+1 is exactly positions 20(p-1) .. 20(p+1)-1: contiguous and disjoint |
| `AppointmentController.EveryActiveAppointmentListed` | src/app/controllers/AppointmentController.js:16-21 | every active appointment of the requester appears on some page |
| `AppointmentController.Respond` | src/app/controllers/AppointmentController.js:70-98 | success answers with the appointment; NotOwner and TooLate answer 401 with their messages; a missing row is an unhandled error |
| `AppointmentController.Delete` | src/app/controllers/AppointmentController.js:53-99 | the answer, the table and the job log are exactly those of `Cancellation.Cancel` on the old table |
| `CancelAppointmentService.Outcome` | src/app/services/CancelAppointmentService.js:27-51 | success returns the appointment; NotOwner and TooLate throw their messages; a missing row throws on the null |
| `CancelAppointmentService.Run` | src/app/services/CancelAppointmentService.js:10-52 | looks the appointment up by the argument named `provider_id`; the result, the table and the job log are exactly those of `Cancellation.Cancel` |
| `AvailableController.FormatHHmm` | src/app/controllers/AvailableController.js:74 | `format(t, 'HH:mm')` is a label whose hour and minute read back as t's hour and minute |
| `AvailableController.FormatMatchesLabel` | src/app/controllers/AvailableController.js:74 | a timestamp formats to a label iff its hour and minute are the label's |
| `AvailableController.ScheduleIsHourlyGrid` | src/app/controllers/AvailableController.js:41-58 | the grid has 16 labels and label i reads as hour 8+i, minute 0 |
| `AvailableController.DayAppointments` | src/app/controllers/AvailableController.js:23-38 | a row is fetched iff it is this provider's, not canceled, and dated between start and end of the search day |
| `AvailableController.FindByLabel` | src/app/controllers/AvailableController.js:73-75 | `find` gives a fetched row showing the label, or nothing exactly when no fetched row shows it |
| `AvailableController.Index` | src/app/controllers/AvailableController.js:14-80 | a missing date is "Invalid date" and only then an error; otherwise 16 entries whose `time` is the grid label, in grid order |
| `AvailableController.SlotOnSearchDay` | src/app/controllers/AvailableController.js:61-66 | slot i is on the search day at (8+i):00:00 with the search date's milliseconds, within start/end of day, and formats to its label |
| `AvailableController.AvailableIff` | src/app/controllers/AvailableController.js:71-75 | available iff the slot is strictly after now and no fetched row shows its label |
| `AvailableController.PastSlotUnavailable` | src/app/controllers/AvailableController.js:72 | a slot not strictly after now is unavailable whatever is booked |
| `AvailableController.BookedSlotUnavailable` | src/app/controllers/AvailableController.js:73-75 | an active appointment of the provider at exactly the slot's timestamp makes it unavailable |
| `AvailableController.BlockingMeansSameMinute` | src/app/controllers/AvailableController.js:73-75 | a fetched row blocks slot i iff it falls in minute 0 of hour 8+i of the search day |
| `AvailableController.OnlyConsideredRowsMatter` | src/app/controllers/AvailableController.js:24-37 | tables with the same fetched rows give the same answer: canceled, other-provider and other-day rows never block |

Members without a row are helpers: the date-fns predicates and `SubHours`
(`Time.SubHours`, `Time.IsBefore`, `Time.IsAfter`), `Cancellation.Deadline`,
the numeral functions of `AvailableController`, and `SlotValue`, `GridSlotValue`
and `MakeSlot`, the body of the `schedule.map` whose results are stated by
`AvailableController.Index`, `SlotOnSearchDay` and `AvailableIff`.

## Left out

- `src/lib/Cache.js`: a wrapper over a Redis client with no logic of its own; caching is not modelled.
- `Queue.add` is only an append to a log; the CancellationMail job body, the queue transport and mail delivery are not modelled.
- The `include`/`attributes` projections (provider name, e-mail, avatar) of the queries; the job carries the appointment record only.
- The `past` and `cancelable` virtual fields and the booking rules (`store` forwards to `CreateAppointmentService`, which is not part of this model).
- Time zones and daylight-saving time: the local offset is fixed.
- The ISO 8601 rendering of a slot's `value`; the model keeps the timestamp itself.
- Parsing of query strings: `page` and `date` are given as numbers; a value that `Number` turns into NaN is not modelled. An absent or empty `date` is `None`.
- AppointmentController.Paginate: a page below 1 gives a negative OFFSET, which the database refuses; the model reports it as `NegativeOffset` rather than modelling the database's error.
- AppointmentController.SortByDate: the database leaves the order of appointments with equal dates unspecified; the model's stable insertion sort keeps table order for them. Each page is a separate `ORDER BY date LIMIT 20 OFFSET …` query, and the database need not order tied rows the same way for different offsets, so a user with two active appointments at the same date could see one of them on two pages or on none. `EveryActiveAppointmentListed`, `ConsecutivePages` and `PageIsWindow` cut every page from one fixed order, so they assume the same tie order on every request.
- One `now` stands for every `new Date()` read of a request: the two in `delete` and `run` (the deadline check and the `canceled_at` stamp, which in the source is a second read no earlier than the first), and the sixteen in `AvailableController.index` (one per slot inside `schedule.map`), where the clock may move between slots.
- Store and queue failures, HTTP handling, async/await, the singleton exports, and races between concurrent requests.
