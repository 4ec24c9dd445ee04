# Salon scheduling core, modelled in Dafny

This project models the scheduling core of a salon booking system. The system has half-hour work slots per employee, and appointments that bundle several catalogue services. The core covers:

- the appointment service: booking with a frozen service snapshot and a conflict check, listing with lazy completion, update, cancellation and the availability probe;
- the HTTP handlers around the appointment service, which re-mark slots and map errors to status codes;
- slot generation and the free-slot listing;
- the duration-stepped availability calculator;
- the small decision procedures of the web client: the calendar's slot filter, the client's upcoming/history split, and the sign-in form's checks and landing page.

Time is an integer number of minutes in the salon's local time. Its calendar day (`yyyy-MM-dd`) is `t / 1440` and its `HH:mm` label is `t % 1440` (module `TimeGrid`). The slot and appointment collections are sequences in store order. An appointment's id is its index; appointments are never deleted, only cancelled. Every request is one pure transition from a `Store` to a `Store`, or to an error.

Modules and the files they follow:

- `TimeGrid`: minute arithmetic and the 30-minute tick lists of booking and cancellation.
- `Domain`: slots, appointments, service snapshots, statuses, principals, replies, and `Where`, the order-keeping filter by which the listing query and the `Array.prototype.filter` calls of the core are modelled.
- `ServiceCatalogue`: the `$in` service lookup, snapshots and totals (`services/appointmentService.js`).
- `SlotStore`: the bulk `updateMany` flip of the booked flag.
- `Ledger`: `services/appointmentService.js`.
- `AppointmentRoutes`: `routes/appointmentRoutes.js`.
- `SlotRoutes`: `routes/slotRoutes.js`.
- `DurationAvailability`: `routes/availabilityRoutes.js`.
- `Calendar`: `frontend/src/pages/EmployeeDashboard.jsx` and `frontend/src/pages/EmployeeSchedule.jsx`.
- `UserAppointments`: `frontend/src/pages/UserAppointments.jsx`.
- `AuthForm`: `frontend/src/components/AuthForm.jsx`.

The booking conflict check is modelled as the code writes it. A new booking is refused only when an appointment of the same employee that is not cancelled STARTS inside `[start, start + totalDuration)`. A full interval-overlap test would also refuse an earlier appointment that runs into the new window; the code performs no such test, and the model follows the code. `Ledger.ConflictIsOverlapOfLaterStarts` and `Ledger.EarlierOverlapNotDetected` state the difference.

## Model

| member | source | states |
|---|---|---|
| TimeGrid.Steps | routes/availabilityRoutes.js:52 | the values of a `for (c = cursor; c < end; c += step)` loop: the i-th is `cursor + step*i`, all lie below `end`, one more step reaches `end`, and the list is empty iff `cursor >= end` |
| TimeGrid.StepsMembership | routes/availabilityRoutes.js:52 | a value is visited iff it lies in `[cursor, end)` and is a whole number of steps after `cursor` |
| TimeGrid.Ticks | services/appointmentService.js:55-60 | the booking cursor visits `ceil((end-start)/30)` instants for a non-empty window and none otherwise, the i-th being `start + 30i` |
| TimeGrid.TicksMembership | services/appointmentService.js:55-60 | an instant is a tick iff it lies in `[start, end)` at a multiple of 30 minutes after `start` |
| TimeGrid.TickTimes | routes/appointmentRoutes.js:58-64 | the `HH:mm` labels of the ticks, one per tick, the i-th being the wall-clock time of `start + 30i` |
| TimeGrid.TickCount | routes/appointmentRoutes.js:55-64 | the tick list has `ceil(totalDuration/30)` entries for a positive duration and none for 0 or less |
| TimeGrid.TickTimesMembership | routes/appointmentRoutes.js:58-64 | an `HH:mm` is in the list iff some tick `start + 30k` with `30k < duration` carries it |
| TimeGrid.JoinSplit | services/appointmentService.js:54 | the date label and `HH:mm` label of `day*1440 + tod` give back `day` and `tod` |
| Domain.Positions | services/appointmentService.js:82-87 | the positions whose element satisfies the query, strictly ascending |
| Domain.PositionsComplete | routes/slotRoutes.js:63 | every position whose element satisfies the query is among them |
| Domain.Where | frontend/src/pages/UserAppointments.jsx:47-53 | a filter keeps exactly the satisfying elements, the k-th taken from the k-th satisfying position, so in input order and each once |
| Domain.WhereCount | frontend/src/pages/UserAppointments.jsx:47-53 | a filter keeps every copy of a satisfying element and no copy of any other |
| Domain.WhereKeepsOrder | frontend/src/pages/UserAppointments.jsx:47 | any order that holds along the input holds along what a filter keeps |
| ServiceCatalogue.Find | services/appointmentService.js:17 | the lookup returns exactly the catalogue entries whose id was requested, no entry more often than the catalogue holds it, and with unique catalogue ids the found ids are unique |
| ServiceCatalogue.Resolve | services/appointmentService.js:17-27 | on success there are as many snapshots as requested ids, each copying a catalogue entry's id, duration and price; with unique catalogue ids every requested id has a snapshot and no two snapshots share an id |
| ServiceCatalogue.ResolveSucceedsIff | services/appointmentService.js:17-20 | with unique catalogue ids, resolution succeeds iff every requested id exists and none is repeated, so a repeated id is refused |
| ServiceCatalogue.FindSize | services/appointmentService.js:17-18 | the number of documents found is the number of distinct requested ids that exist |
| ServiceCatalogue.TotalDurationBounds | services/appointmentService.js:28 | with non-negative parts, the summed duration is non-negative and at least each part |
| SlotStore.Mark | services/appointmentService.js:61-64 | the bulk flip sets the flag on exactly the selected rows, never adds, removes or re-keys rows, and leaves the others as they were |
| SlotStore.MarkIdempotent | routes/appointmentRoutes.js:76-83 | flipping the same selection to the same value twice equals doing it once |
| SlotStore.MarkLastWins | services/appointmentService.js:157-160 | of two flips of the same selection only the last shows |
| SlotStore.MarkKeepsNoDuplicates | services/appointmentService.js:61-64 | a flip cannot create two rows with the same (employee, date, time) |
| Ledger.FindConflictFrom | services/appointmentService.js:34-38 | `findOne` returns the first matching appointment, or none exactly when nothing matches |
| Ledger.IsSlotAvailable | services/appointmentService.js:173-184 | the probe is true iff the booking conflict check would find no appointment |
| Ledger.ConflictIsOverlapOfLaterStarts | services/appointmentService.js:34-38 | for a positive-length appointment, the check fires iff it overlaps the new window AND starts no earlier than it |
| Ledger.EarlierOverlapNotDetected | services/appointmentService.js:34-38 | a 10:00-11:00 appointment does not block a 10:30 booking, although the two overlap |
| Ledger.CreateAppointment | services/appointmentService.js:11-64 | empty list, unresolvable ids and conflict are each an error iff their condition holds, and the booking succeeds iff none holds. On success one active appointment is appended with the snapshot and its summed totals. Exactly the slots covered by its ticks on the start's date become booked; all other slots are unchanged |
| Ledger.GetAppointments | services/appointmentService.js:77-100 | listing changes only statuses; a status changes iff the record matches the filter, is active and its end is strictly before `now`, and it changes to completed; the list holds the matching records in store order, each once, and none of them is overdue |
| Ledger.GetAppointmentsIdempotent | services/appointmentService.js:90-97 | listing twice at the same instant equals listing once |
| Ledger.EndingNowStaysActive | services/appointmentService.js:93 | an appointment whose end equals `now` stays active |
| Ledger.UpdateAppointment | services/appointmentService.js:107-132 | the update fails iff a service array is given and does not resolve. No record results iff the id is missing. Slots, status, client and employee never change. The date is replaced iff one is given. Services and totals are replaced iff an array is given |
| Ledger.UpdateIgnoresStatus | services/appointmentService.js:107-109 | a `status` field in the update body has no effect |
| Ledger.UpdateWithEmptyServices | services/appointmentService.js:111-123 | an empty service array gives no services and zero totals |
| Ledger.CancelAppointment | services/appointmentService.js:138-165 | cancel fails iff the id is missing; otherwise the record becomes cancelled, its covered slots become free, and nothing else changes |
| Ledger.CancelIdempotent | services/appointmentService.js:138-165 | cancelling twice equals cancelling once |
| Ledger.BookThenCancel | services/appointmentService.js:44-64 | cancelling a fresh booking frees exactly the slots that booking selected, and the earlier appointments are untouched |
| Ledger.OperationsKeepNoDuplicates | services/appointmentService.js:61-64 | booking, listing, update and cancel keep (employee, date, time) unique among slots |
| AppointmentRoutes.PostAppointment | routes/appointmentRoutes.js:34-93 | a missing/empty list and an unresolvable id give 400 with the matching error and no write. 500 is answered iff the ids resolve and the conflict check fires, with no write; otherwise 201. On 201 the store is exactly the service's booking result, because the handler's second flip changes nothing |
| AppointmentRoutes.PostIgnoresBodyClientId | routes/appointmentRoutes.js:36-37 | a `clientId` in the body does not affect the booking |
| AppointmentRoutes.LoginTokenBooksWithoutClient | routes/appointmentRoutes.js:36 | a principal carrying `id` but no `_id` (what sign-in issues) books an appointment with no client |
| AppointmentRoutes.PutAppointment | routes/appointmentRoutes.js:96-105 | PUT answers 500 iff the services do not resolve, 404 iff the record is missing, 200 otherwise, never touches slots, and on 200 leaves the store the update service writes |
| AppointmentRoutes.PutSkipsConflictCheck | routes/appointmentRoutes.js:96-105 | moving an appointment onto the start of another of the same employee is accepted with 200, leaving the two starting together |
| AppointmentRoutes.FreeingDuration | routes/appointmentRoutes.js:114 | the duration freed is `totalDuration`, or the sum of the snapshot durations when that is 0. For a record whose total matches its snapshots, the booked duration is freed, and nothing is freed only when both the recorded total and the snapshot sum are 0 |
| AppointmentRoutes.DeleteAppointment | routes/appointmentRoutes.js:108-138 | DELETE answers 404 iff the id is missing. Otherwise it answers 200 and the record is cancelled. The slots selected by the fallback duration and by the recorded duration are freed. Nothing else changes |
| AppointmentRoutes.DeleteMatchesServiceCancel | routes/appointmentRoutes.js:113-136 | with a recorded duration, the handler ends in the same store as the cancellation service alone |
| AppointmentRoutes.DeleteIdempotent | routes/appointmentRoutes.js:108-138 | deleting twice leaves the same store as deleting once |
| SlotRoutes.DayTimes | routes/slotRoutes.js:17-19 | a generated day has 16 times, 10:00 + 30j |
| SlotRoutes.GridMembership | routes/slotRoutes.js:25-45 | the generation grid is exactly the 7 days from today crossed with the half-hour times from 10:00 to 17:30 |
| SlotRoutes.GenerateSlots | routes/slotRoutes.js:25-45 | the nested generation loops perform check-then-create over the grid, cell by cell in day then time order |
| SlotRoutes.Generate | routes/slotRoutes.js:9-47 | without the employee or admin role the answer is 403 and nothing is written; otherwise the grid is generated |
| SlotRoutes.GenerationEffect | routes/slotRoutes.js:38-41 | after generation every grid cell has a row for the employee, existing rows are kept in place unchanged, and every new row is a free slot in the grid |
| SlotRoutes.GenerationIdempotent | routes/slotRoutes.js:38-41 | rerunning generation writes nothing |
| SlotRoutes.GenerationKeepsNoDuplicates | routes/slotRoutes.js:38-41 | generation keeps (employee, date, time) unique |
| SlotRoutes.FreeSlotsOf | routes/slotRoutes.js:63 | the query returns exactly the employee's unbooked slots |
| SlotRoutes.FreeSlotsInStoreOrder | routes/slotRoutes.js:63 | the k-th listed slot is the row at the k-th position of the employee's unbooked rows: store order, each row once |
| SlotRoutes.TimesOnMembership | routes/slotRoutes.js:68-72 | a time is listed under a date iff a listed slot has that date and time |
| SlotRoutes.Group | routes/slotRoutes.js:65-77 | `grouped` has a key iff some listed slot has that date, with that date's times in listing order; `availableDates` is duplicate-free and holds exactly the keys |
| SlotRoutes.GroupDatesFirstSeenOrder | routes/slotRoutes.js:66-75 | `availableDates` is in order of first occurrence |
| SlotRoutes.Availability | routes/slotRoutes.js:55-77 | 400 iff no `employeeId` is given; otherwise 200 whose body is the grouping of exactly the employee's free slots, so `Group`'s keys, listing order and duplicate-free dates carry over to the reply |
| SlotRoutes.AvailabilityListsFreeSlots | routes/slotRoutes.js:58-77 | a time is listed under a date iff the store holds a free slot of that employee at that date and time; booked slots never appear |
| DurationAvailability.FindById | routes/availabilityRoutes.js:21-22 | the lookup finds an entry with the id, or reports that none has it |
| DurationAvailability.TakenTimes | routes/availabilityRoutes.js:41-49 | the taken times are the `HH:mm` of the employee's appointments of any status starting within that day's hours |
| DurationAvailability.CandidateTimes | routes/availabilityRoutes.js:35-57 | the candidate labels are `10:00 + duration*i`, all before 18:00, one more step reaching 18:00, so every such grid time is produced, strictly ascending |
| DurationAvailability.DaySlotsOnGrid | routes/availabilityRoutes.js:52 | every offered time lies in `[10:00, 18:00)` a whole number of durations after 10:00 |
| DurationAvailability.DaySlotsExclusion | routes/availabilityRoutes.js:41-56 | a grid time is offered iff no appointment of that employee, of any status, starts at exactly that instant |
| DurationAvailability.DaySlotsAscending | routes/availabilityRoutes.js:51-57 | each day's candidate list is strictly ascending |
| DurationAvailability.Days | routes/availabilityRoutes.js:30-63 | for any per-day candidate list, a date is answered iff it is one of the `n` days from today and its list is non-empty, with that list; dates are strictly ascending |
| DurationAvailability.Calculate | routes/availabilityRoutes.js:13-65 | 400 iff an id is missing, 404 iff the service is unknown, no answer iff the duration is not positive, no other code than 200, 400 and 404, so 200 with the week otherwise: the answered dates are exactly the days of the week with a non-empty candidate list, ascending, and the keys of `slots` are exactly those dates, each with its day's list |
| Calendar.ShownAppointments | frontend/src/pages/EmployeeDashboard.jsx:30-32 | the kept appointments are exactly the active or completed ones, each with exactly as many copies as were fetched |
| Calendar.SlotMeetsEvent | frontend/src/pages/EmployeeDashboard.jsx:66-70 | with an event spanning its start plus its total duration (`EventInterval`) and a slot spanning 30 minutes (`SlotInterval`), they meet iff the slot starts less than 30 minutes before the event's start and before its end |
| Calendar.OccupiedRanges | frontend/src/pages/EmployeeSchedule.jsx:81 | the occupied ranges are exactly the intervals of the kept appointments |
| Calendar.VisibleSlots | frontend/src/pages/EmployeeSchedule.jsx:82-87 | a slot is shown iff its interval (`SlotInterval`) meets no kept appointment's interval (`EventInterval`), whichever employees they belong to; each shown slot keeps all its fetched copies |
| Calendar.CrossEmployeeHiding | frontend/src/pages/EmployeeSchedule.jsx:81-87 | one employee's 10:00-11:00 appointment hides another employee's 10:30 slot; once cancelled it hides nothing |
| Calendar.ClientLabel | frontend/src/pages/EmployeeDashboard.jsx:38 | the label is the external name if non-empty, else the client's name if non-empty, else the placeholder, and never empty |
| Calendar.FindIndex | frontend/src/pages/EmployeeSchedule.jsx:27 | the first position of the id, or -1 exactly when it is absent |
| Calendar.JsRem | frontend/src/pages/EmployeeSchedule.jsx:28 | JavaScript's `%` for a positive divisor: the remainder lies strictly between `-b` and `b`, has the sign of the dividend, and differs from it by a multiple of `b` |
| Calendar.ColorOf | frontend/src/pages/EmployeeSchedule.jsx:26-29 | a listed employee gets `COLORS[index mod 6]`; an unlisted one gets no colour |
| Calendar.ColorRepeatsEverySix | frontend/src/pages/EmployeeSchedule.jsx:26-29 | employees six places apart in a duplicate-free list share a colour |
| Calendar.GenerationRequest | frontend/src/pages/EmployeeSchedule.jsx:113-129 | a generation request is sent iff an employee is selected, for that employee, and its date and time labels join back to the selection's start, and to its end when the selection ends on the same day |
| UserAppointments.Insert | frontend/src/pages/UserAppointments.jsx:19 | inserting into a date-sorted list adds exactly that record and keeps it sorted |
| UserAppointments.SortByDate | frontend/src/pages/UserAppointments.jsx:19 | the sort result is a permutation of its input, ordered by start |
| UserAppointments.BuildViews | frontend/src/pages/UserAppointments.jsx:46-53 | upcoming holds exactly the active records starting at or after `now`, ascending. History holds exactly the non-active or already-ended records, descending. Each list keeps every fetched copy of its records |
| UserAppointments.OnNeitherListIffInProgress | frontend/src/pages/UserAppointments.jsx:46-53 | a record is on neither list iff it is active, started before `now` and ends at or after `now` |
| UserAppointments.ListsDisjoint | frontend/src/pages/UserAppointments.jsx:46-53 | with a non-negative duration no record is on both lists |
| UserAppointments.CancelRule | frontend/src/pages/UserAppointments.jsx:75-121 | every upcoming record of positive length offers cancel. No record on the history list meets the active-and-not-over condition, so none could offer cancel even with the handler. A zero-length upcoming booking starting now does not |
| AuthForm.LeadingSpace | frontend/src/components/AuthForm.jsx:19 | the count of leading white space: all of it is white space, and the next character is not |
| AuthForm.TrailingSpace | frontend/src/components/AuthForm.jsx:19 | the count of trailing white space: all of it is white space, and the character before is not |
| AuthForm.Trim | frontend/src/components/AuthForm.jsx:19 | `trim` returns a middle slice, with only white space cut off either side, that neither starts nor ends with white space |
| AuthForm.TrimPadded | frontend/src/components/AuthForm.jsx:19 | trimming white-space padding off a core that has none at its ends gives back the core |
| AuthForm.TrimIdempotent | frontend/src/components/AuthForm.jsx:19 | trimming twice is trimming once |
| AuthForm.PhonePatternIffTenDigits | frontend/src/components/AuthForm.jsx:19-23 | `"7" + trim(raw)` matches `^7\d{10}$` iff the trimmed input is exactly ten ASCII digits |
| AuthForm.Submit | frontend/src/components/AuthForm.jsx:16-46 | checks run in order phone, password, name (register only). Each rejection happens iff its check is the first to fail. Otherwise sign-in sends phone and password, and sign-up sends the form with only the phone replaced by `"7" + trim(phone)` |
| AuthForm.PaddedPhoneSignsIn | frontend/src/components/AuthForm.jsx:19-46 | a number typed with surrounding white space signs in with the white space removed |
| AuthForm.LandingIsHighestRole | frontend/src/components/AuthForm.jsx:63-71 | the landing page chosen by `LandingFor` is that of the highest-ranked role held (admin above employee above everyone else) |
| AuthForm.LandingMonotone | frontend/src/components/AuthForm.jsx:63-71 | more roles never land lower, the order of the roles does not matter, and a token without roles lands like an empty role list, on the user dashboard |

## Left out

- Persistence: the MongoDB queries, `populate` and document saving are pure functions over sequences; a populated reference is treated as its id.
- Concurrency: each request is one atomic transition, so the race between the conflict check, the insert and the slot flip is not modelled.
- Time zones, daylight saving and `Date` parsing: an instant is a plain minute count in local time. Every tick of a booking carries the start's date label even when it runs past midnight, as in the code.
- Authentication and I/O: JWT signing and decoding, bcrypt, HTTP, axios/fetch, React state and rendering, polling, toasts and navigation side effects are not modelled; the principal, the current instant `now` and the current day `today` are parameters.
- The schema file `models/appointmentSchema.js` still declares a required single `service` string and a required `clientId`, and none of `services`, `totalDuration` or `totalPrice`. Enforcing it would make every booking fail validation. The model follows the record shape the appointment service writes, and validation by the storage layer is not modelled.
- Service `duration` and `price` are JavaScript Numbers, which the model takes as integers (minutes and currency units). Fractional durations, and the sub-minute ticks and slot labels they would produce, are not modelled.
- Records without `totalDuration`: the field is an integer everywhere. So the `|| 0` fallbacks on the client side and the DELETE handler's fallback apply only to a stored 0, not to a missing field.
- Service lookup failures other than "not found" (storage errors giving 500) are not modelled.
- `DurationAvailability.Calculate`: a non-positive service duration makes the source's candidate loop never end; the model answers `Hangs` instead of looping.
- `DurationAvailability.TakenTimes`: the day window is compared as local minutes; the source builds it through an ISO round trip that is the identity on instants.
- `UserAppointments.SortByDate`: the contract states permutation and order, not stability. Records with equal starts may appear in any order as far as the contract says, although the function keeps their fetch order.
- `UserAppointments.CancelRule`: the page and each card read the clock separately; the model uses one `now` for both.
- `AuthForm.Submit`: lengths are counted in Unicode code points, whereas JavaScript counts UTF-16 code units. Passwords or names with characters outside the Basic Multilingual Plane are measured differently.
- The phone field's `PhoneInput` component and the register form's markup are not modelled; only the submit handler is.
- `controllers/appointmentController.js` (not wired to any route) and the legacy `frontend/src/components/EmployeeDashboard.jsx` (not routed) are not part of this model; nor are `BookingForm.jsx` and the user and service CRUD routes. The appointments `GET /` route only forwards the query's `clientId` and `employeeId` to the listing service, which `Ledger.GetAppointments` models; its error path (500 on a storage error) is not modelled.
- `Calendar.GenerationRequest`: the page takes the date label from `toISOString` (UTC) and the time labels from `toTimeString` (local); the model takes both in local time. The `/generate` route reads only `employeeId` from this body.
- Availability by contiguous free span, filtering of past times and a reschedule conflict check are not in the code, and the model does not add them.
