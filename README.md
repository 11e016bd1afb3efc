# Vehicle booking scheduling core, modelled in Dafny

This project models the booking scheduling core of the vehicle service of a car-sharing system.
It covers the bookings table and the vehicles table, and the four transactions that change them:

- `CreateBooking`: conflict check, then insert as `confirmed`.
- `ModifyBooking`: conflict check that skips the booking itself, then reschedule as `modified`.
- `CancelBooking`: unconditional change to `canceled`.
- `CheckAndUpdateAvailability`: the expiry sweep.

It also covers the status filters of the three list queries, the admission decisions of the HTTP
handlers (interval tests, id tests, the booking handed to the store, reading the conflict error
text back) and the field validators.

Layout (one module per file):

- `wrappers.dfy` (`Wrappers`): `Option` and `Result`, standing in for Go's error returns.
- `models.dfy` (`Models`): the `Booking` and `Vehicle` rows and the closed `Status` type. Instants are integers.
- `validators.dfy` (`Validators`): the four validators of `utils/validators.go`.
- `go_strings.dfy` (`GoStrings`): Go's `strings.Index`, `Contains` and `Split`, as the handlers use them.
- `conflicts.dfy` (`Conflicts`): the three-clause overlap condition of the SQL queries, the conflict
  sets each query selects, the no-overlap invariants, the sweep's effect on both tables, and the lemmas about them.
- `vehicle_queries.dfy` (`VehicleQueries`): the class `Store`, which holds both tables as maps.
  Each transaction is one method. It commits all its writes, or it leaves both tables unchanged
  after a rejection or a reported driver error. The one exception is a driver failure while the sweep
  reads its expired rows: the source never checks for it, so the sweep commits the rows read so far
  and reports success (see Findings). The class invariant `Valid()` includes the property that
  the `confirmed` bookings of each vehicle never strictly overlap. Every method preserves it.
  The scenario methods (`BackToBackScenario`, `ClashScenario`, `RescheduleScenario`,
  `SweepAndCancelScenario`, `SwallowedReadErrorScenario`) show what a caller can conclude from
  the contracts alone.
- `vehicle_handlers.dfy` (`VehicleHandlers`): the handler decisions.

Behaviour of the code worth knowing, each one modelled as written:

- `CreateBooking` compares only against `confirmed` rows; `ModifyBooking` compares against
  `confirmed` and `modified` rows. So the property that active bookings of a vehicle never
  overlap, which the modify query's check at vehicle_queries.go:266 guards, is not kept by create.
  See Findings.
- The sweep expires only `confirmed` bookings. A `modified` booking is never completed, and its end
  never makes its vehicle available again.
- `ModifyBooking` and `CancelBooking` do not look at the prior status. A `completed` or `canceled`
  booking can be rescheduled back to `modified`.
- The handlers accept a start equal to the end (only "start after end" is rejected).
- `CreateBooking` never changes `is_available`.
- The handlers test "start in the past" before "start after end". `ValidateTimeRange` orders its
  tests the other way round. Both accept exactly the same intervals.
- The conflict text is split on `" from "` and then on `" to "`. This recovers the two times only
  under `SplitSafe`, which asks for more than "neither time text contains a separator": for example
  `"x to"` followed by the literal `" to "` is split after `"x"` (`StraddlingSeparatorMisparses`).
  Go's default formatting of a time value satisfies `SplitSafe` in any zone whose abbreviation
  has no lower-case `f` or `t` (`TimeTextIsSplitSafe`), which includes abbreviations with other
  lower-case letters such as `ChST` (`ChamorroTimeIsTimeText`).

## Model

| member | source | states |
|---|---|---|
| `Validators.ValidateTimeRange` | vehicle-service/utils/validators.go:9-22 | no error iff start <= end and neither start nor end is before now; start after end is reported first; start == end is accepted |
| `Validators.ValidateID` | vehicle-service/utils/validators.go:25-30 | success iff id > 0 |
| `Validators.ValidateChargeLevel` | vehicle-service/utils/validators.go:33-38 | success iff 0 <= level <= 100, both bounds inclusive |
| `Validators.ValidateCleanliness` | vehicle-service/utils/validators.go:41-53 | success exactly for "clean", "dirty" and "needs maintenance" |
| `Models.StatusTextInjective` | vehicle-service/models/vehicle.go:20 | the four texts stored in the `status` column are pairwise distinct, so comparing texts is comparing statuses |
| `GoStrings.Index` | vehicle-service/handlers/vehicle_handlers.go:98 | the result is the first position where the separator occurs, or none when it occurs nowhere (the basis of `strings.Contains`) |
| `GoStrings.Split` | vehicle-service/handlers/vehicle_handlers.go:100-101 | the pieces join back with the separator to the input, and no piece contains the separator |
| `GoStrings.Contains` | vehicle-service/handlers/vehicle_handlers.go:98 | no ensures of its own; `GoStrings.ContainsIffOccurs` states that it holds exactly when the substring occurs at some position |
| `GoStrings.ContainsIffOccurs` | vehicle-service/handlers/vehicle_handlers.go:98 | `strings.Contains` holds iff the substring occurs at some position |
| `Conflicts.OverlapClauseCoversStrictOverlap` | vehicle-service/database/vehicle_queries.go:44-48 | the three-clause condition holds whenever existing [s,e] and new [S,E] strictly overlap (s < E and S < e) |
| `Conflicts.OverlapClauseIsStrictOverlap` | vehicle-service/database/vehicle_queries.go:267-271 | for s < e and S <= E the condition holds exactly when the intervals strictly overlap |
| `Conflicts.BackToBackNeverMatches` | vehicle-service/database/vehicle_queries.go:44-48 | for s < e and S <= E, intervals that meet at an end point (e == S or E == s) never match |
| `Conflicts.ZeroLengthRowMatchesAtNewStart` | vehicle-service/database/vehicle_queries.go:47 | without s < e the condition is not strict overlap: a zero-length row at the new start matches the third clause |
| `Conflicts.OverlapClause` | vehicle-service/database/vehicle_queries.go:44-48 | no ensures of its own (it is the condition itself, also at lines 267-271); `OverlapClauseCoversStrictOverlap`, `OverlapClauseIsStrictOverlap`, `BackToBackNeverMatches` and `ZeroLengthRowMatchesAtNewStart` state what it means |
| `Conflicts.CreateConflicts` | vehicle-service/database/vehicle_queries.go:39-48 | no ensures of its own; `CreateConflictsReadOnlyConfirmedRowsOfVehicle` states that only the confirmed rows of the vehicle affect it, and without a driver error `Store.CreateBooking` fails exactly when it is non-empty |
| `Conflicts.ModifyConflicts` | vehicle-service/database/vehicle_queries.go:261-272 | no ensures of its own; `Store.ModifyBooking` succeeds without a driver error exactly when it is empty, and `UpdatePreservesNoOverlap` turns its emptiness into the active invariant |
| `Conflicts.ActiveConflicts` | vehicle-service/database/vehicle_queries.go:39-48 | no ensures of its own; the corrected create query, over confirmed and modified rows; `ActiveCheckPreservesActiveDisjoint` and `Store.CreateBookingActiveChecked` state its role |
| `Conflicts.Expired` | vehicle-service/database/vehicle_queries.go:102-106 | no ensures of its own; `SweepChangesOnlyExpired` and `Store.ExpiredRows` state that the sweep selects exactly these rows |
| `Conflicts.SweptBookings` | vehicle-service/database/vehicle_queries.go:152-160 | no ensures of its own; `SweepChangesOnlyExpired`, `SweepIdempotent`, `SweepWithoutExpiredIsIdentity` and `MarkedRowsAreSwept` state its properties |
| `Conflicts.SweptVehicles` | vehicle-service/database/vehicle_queries.go:162-169 | no ensures of its own; `SweepIdempotent`, `SweepWithoutExpiredIsIdentity` and `MarkedRowsAreSwept` state its properties |
| `Conflicts.CreateConflictsReadOnlyConfirmedRowsOfVehicle` | vehicle-service/database/vehicle_queries.go:39-48 | create's conflict set depends only on the confirmed rows of the requested vehicle; modified, completed, canceled rows and other vehicles never affect it |
| `Conflicts.UpdatePreservesNoOverlap` | vehicle-service/database/vehicle_queries.go:39-69 | writing a row that matches the clause against none of the rows it is compared with keeps those rows pairwise non-overlapping |
| `Conflicts.ShrinkPreservesNoOverlap` | vehicle-service/database/vehicle_queries.go:311-316 | a change that only moves rows out of the compared statuses keeps the no-overlap invariant |
| `Conflicts.SweepChangesOnlyExpired` | vehicle-service/database/vehicle_queries.go:102-106 | the sweep makes an expired confirmed booking completed and changes nothing else of it; modified bookings and those ending at or after now are untouched |
| `Conflicts.SweepIdempotent` | vehicle-service/database/vehicle_queries.go:102-179 | a second sweep with the same now changes neither the bookings nor the vehicles table |
| `Conflicts.SweepWithoutExpiredIsIdentity` | vehicle-service/database/vehicle_queries.go:138-141 | with no expired booking the sweep leaves both tables as they were |
| `Conflicts.SweepPreservesNoOverlap` | vehicle-service/database/vehicle_queries.go:152-170 | the sweep keeps both the confirmed and the active no-overlap invariants |
| `Conflicts.CreateCheckMissesModifiedBooking` | vehicle-service/database/vehicle_queries.go:43 | a table whose active bookings are disjoint, a request the create query admits, and the resulting table whose active bookings overlap |
| `Conflicts.ActiveCheckPreservesActiveDisjoint` | vehicle-service/database/vehicle_queries.go:266 | with the conflict check over confirmed and modified rows, inserting the new confirmed booking keeps the active bookings of every vehicle disjoint |
| `VehicleQueries.MarkedRowsAreSwept` | vehicle-service/database/vehicle_queries.go:152-170 | updating exactly the collected rows (bookings to completed, their vehicles to available) gives the swept tables |
| `VehicleQueries.CancelRowProperties` | vehicle-service/database/vehicle_queries.go:304-323 | cancel is idempotent, keeps the key set, ends in canceled whatever the prior status, and changes no other booking |
| `VehicleQueries.RescheduleRowProperties` | vehicle-service/database/vehicle_queries.go:286-291 | a reschedule sets the new start and end and modified whatever the prior status, keeps id, user and vehicle, and changes no other booking |
| `VehicleQueries.CancelRow` | vehicle-service/database/vehicle_queries.go:311-316 | no ensures of its own; `CancelRowProperties` states its properties |
| `VehicleQueries.RescheduleRow` | vehicle-service/database/vehicle_queries.go:286-291 | no ensures of its own; `RescheduleRowProperties` states its properties |
| `VehicleQueries.Store.FetchAvailableVehicles` | vehicle-service/database/vehicle_queries.go:12-29 | the rows returned are exactly the vehicles whose is_available flag is true |
| `VehicleQueries.Store.FetchBookingsForVehicle` | vehicle-service/database/vehicle_queries.go:182-200 | the rows returned are exactly the confirmed bookings of the vehicle |
| `VehicleQueries.Store.FetchBookingsByUser` | vehicle-service/database/vehicle_queries.go:202-252 | the rows returned are exactly the user's confirmed or modified bookings whose vehicle exists, joined with that vehicle's make, model and registration |
| `VehicleQueries.Store.CreateBooking` | vehicle-service/database/vehicle_queries.go:31-84 | fails iff a driver error occurs or a confirmed booking of the vehicle matches the clause; on a conflict it reports the start and end of one matching booking; on failure both tables are unchanged; on success exactly one confirmed row with the given user, vehicle, start and end is added under a fresh id; vehicles never change; confirmed bookings stay disjoint |
| `VehicleQueries.Store.CreateBookingActiveChecked` | vehicle-service/database/vehicle_queries.go:39-48 | as CreateBooking with the check over confirmed and modified rows (`Conflicts.ActiveConflicts`); additionally keeps the active bookings of every vehicle disjoint |
| `VehicleQueries.Store.ModifyBooking` | vehicle-service/database/vehicle_queries.go:254-302 | fails iff a driver error occurs or another confirmed or modified booking of the same vehicle matches; a failure leaves the tables unchanged; on success only that booking's start, end and status (modified) change; an unknown id succeeds with nothing changed; both invariants are kept |
| `VehicleQueries.Store.CancelBooking` | vehicle-service/database/vehicle_queries.go:304-323 | without a driver error the booking becomes canceled whatever its status, and nothing else changes; both invariants are kept |
| `VehicleQueries.Store.ExpiredRows` | vehicle-service/database/vehicle_queries.go:102-136 | every collected row is a faithful copy of a distinct expired confirmed booking; the read fails exactly when the cutoff is below the number of expired bookings, and then exactly `cutoff` rows were read; otherwise the list names every expired booking |
| `VehicleQueries.Store.CheckAndUpdateAvailability` | vehicle-service/database/vehicle_queries.go:96-180 | a checked driver failure returns Storage with both tables unchanged; otherwise it returns success, and some set of expired bookings became completed and exactly their vehicles available; with no iteration failure (or a cutoff at or past the number of expired bookings) that set is all of them, which gives the swept tables; with an earlier failure it is exactly `cutoff` bookings; both invariants are kept |
| `VehicleQueries.Store.CheckAndUpdateAvailabilityChecked` | vehicle-service/database/vehicle_queries.go:121-141 | the corrected sweep: success iff no driver failure of any kind, and then exactly the swept tables; on any failure Storage and both tables unchanged; both invariants are kept |
| `VehicleQueries.Store.ApplyUpdates` | vehicle-service/database/vehicle_queries.go:152-170 | the update loop yields the bookings table with exactly the listed bookings completed and the vehicles table with exactly the listed vehicles available |
| `VehicleQueries.Store.CommitSweep` | vehicle-service/database/vehicle_queries.go:145-176 | committing the update transaction gives those tables, makes the vehicles of the listed bookings available, and keeps both invariants |
| `VehicleQueries.ExpiredIds` | vehicle-service/database/vehicle_queries.go:102-106 | no ensures of its own; `Store.ExpiredRows`, `CompleteRowsNameAllExpired` and `PartialSweepIsNotSweep` state its role |
| `VehicleQueries.CompleteRowsNameAllExpired` | vehicle-service/database/vehicle_queries.go:121-136 | a complete collection names exactly the ids the query selects |
| `VehicleQueries.PartialSweepIsNotSweep` | vehicle-service/database/vehicle_queries.go:121-141 | completing a proper subset of the expired bookings never yields the swept table |
| `VehicleQueries.NextSweepCompletesPartialSweep` | vehicle-service/main.go:46-61 | after a partial sweep, the next tick's sweep with the same clock gives exactly the tables a full sweep would have given |
| `VehicleQueries.MarkCompletedPreservesNoOverlap` | vehicle-service/database/vehicle_queries.go:152-160 | completing any set of bookings keeps both the confirmed and the active no-overlap invariants |
| `VehicleHandlers.CheckInterval` | vehicle-service/handlers/vehicle_handlers.go:74-84 | admits iff start is not before now and not after end; a past start is reported before start-after-end; start == end passes |
| `VehicleHandlers.CheckIntervalAdmitsAsValidateTimeRange` | vehicle-service/handlers/vehicle_handlers.go:205-215 | the handler tests admit exactly what ValidateTimeRange admits, but name a different error for a past start after the end |
| `VehicleHandlers.CheckId` | vehicle-service/handlers/vehicle_handlers.go:228-233 | an id is rejected iff ValidateID rejects it (id <= 0), as in the cancel, modify, list and rental-history handlers |
| `VehicleHandlers.BookVehicleAdmission` | vehicle-service/handlers/vehicle_handlers.go:74-96 | a booking is passed on iff start >= now and start <= end; it carries the path vehicle id, the request's user and times and status confirmed; otherwise the interval test's rejection |
| `VehicleHandlers.ModifyAdmission` | vehicle-service/handlers/vehicle_handlers.go:172-215 | a non-positive booking id is rejected before the times are looked at; otherwise the same interval tests as BookVehicle |
| `VehicleHandlers.ConflictMessage` | vehicle-service/database/vehicle_queries.go:64 | no ensures of its own; `ConflictMessageRoundTrip` states that the handler's parse recovers both times from it |
| `VehicleHandlers.CreateErrorText` | vehicle-service/database/vehicle_queries.go:55-65 | no ensures of its own; `CreateErrorMapping` states the response each error text leads to |
| `VehicleHandlers.CreateErrorResponse` | vehicle-service/handlers/vehicle_handlers.go:96-106 | no ensures of its own; `CreateErrorMapping`, `ConflictMessageRoundTrip`, `MarkerWithoutFromPanics` and `StraddlingSeparatorMisparses` state what it answers |
| `VehicleHandlers.StatusCode` | vehicle-service/handlers/vehicle_handlers.go:102-104 | no ensures of its own; `CreateErrorMapping` states that a store overlap is answered 409 and any other store error 500 |
| `VehicleHandlers.SplitConflictOnFrom` | vehicle-service/handlers/vehicle_handlers.go:100 | splitting the conflict text on " from " gives the fixed prefix and the rest, when the rest has no " from " |
| `VehicleHandlers.SplitTimesOnTo` | vehicle-service/handlers/vehicle_handlers.go:101 | splitting "start to end" on " to " gives the two texts under the straddling-free conditions |
| `VehicleHandlers.ConflictMessageRoundTrip` | vehicle-service/handlers/vehicle_handlers.go:98-102 | the conflict response carries exactly the start and end texts formatted into the conflict error, under SplitSafe |
| `VehicleHandlers.TimeTextIsSplitSafe` | vehicle-service/database/vehicle_queries.go:64 | any two time texts without a lower-case `f` or `t` (Go's `%v` of a time, in any zone whose abbreviation lacks those letters) satisfy SplitSafe |
| `VehicleHandlers.ChamorroTimeIsTimeText` | vehicle-service/database/db.go:14 | a time printed in a local zone with lower-case letters in its abbreviation (`ChST`) is a time text |
| `VehicleHandlers.CreateErrorMapping` | vehicle-service/handlers/vehicle_handlers.go:96-106 | for time texts without a lower-case `f` or `t`, an overlap error of the store becomes 409 with its formatted window; any other error whose text lacks the marker becomes 500; `StatusCode` of the response is 409 or 500 accordingly |
| `VehicleHandlers.MarkerWithoutFromPanics` | vehicle-service/handlers/vehicle_handlers.go:98-101 | a text with the marker but without " from " makes the handler index past the Split result |
| `VehicleHandlers.StraddlingSeparatorMisparses` | vehicle-service/handlers/vehicle_handlers.go:100-101 | a start text "x to", which contains no separator, is read back as "x" with end "to y" |

## Left out

- SQL driver, connection set-up and the global `DB` handle (`database/db.go`): a transaction is one method. Every driver failure the four write transactions check for (query, scan, insert, update, begin, commit) is the single `fault` parameter. It returns `Storage` with both tables unchanged. A driver failure while the sweep iterates over its rows is not checked by the source; it is the separate `cutoff` parameter of `ExpiredRows` and `CheckAndUpdateAvailability`.
- The list queries (`FetchAvailableVehicles`, `FetchBookingsForVehicle`, `FetchBookingsByUser`) are modelled without their failures. A failing query or row scan returns `nil, err` in the source (vehicle_queries.go:15-17, 23-25, 185-187, 194-196, 218-221, 230-233). A driver failure during iteration ends the `rows.Next` loop and returns the rows read so far with a nil error (:21-28, :191-199, :225-251), because `rows.Err()` is never checked. The model's reads always return every row.
- The `log.Printf` and `log.Println` calls throughout the queries and handlers are not modelled.
- VehicleHandlers.TimeTextIsSplitSafe: covers time texts without a lower-case `f` or `t`; a zone abbreviation containing either letter is not covered, because the split may then break inside the time text.
- VehicleHandlers.CreateErrorMapping: requires every formatted time to be a time text, for the same reason.
- The validators' error texts are not modelled; each error is a `ValidationError` constructor.
- The database schema is not part of this model. No foreign key is assumed, so `CreateBooking` inserts a booking for a vehicle id that is missing from the vehicles table.
- Auto-increment ids: the model hands out `nextId` and does not advance it on rollback. MySQL may leave gaps; the model does not show them.
- Concurrency: simultaneous requests and the ticker goroutine (`main.go:46-61`) are left out. The model is sequential, and each sweep is one call with an explicit `now`.
- HTTP and JSON plumbing in all handlers and routes is left out. The ModifyBooking handler answers every store error, a conflict (`OverlapExists`) included, with one server-error body, never with 409 (vehicle_handlers.go:217-221).
- Status codes of the ModifyBooking handler are not modelled. It writes each error body before calling `WriteHeader`, so the status actually sent is 200 and the intended 400 or 500 is lost (vehicle_handlers.go:191-221). `ModifyAdmission` models which rejection the handler picks, not the status it sends.
- Time-zone conversion and RFC3339 or layout parsing are library calls. Instants are integers. Go's `%v` formatting of a time is the `formatTime` parameter of `CreateErrorText`.
- The `created_at` columns are filled by the database clock and are not modelled.
- The user service and the billing service are not part of this model.
- `FetchVehicleStatus` and `FetchRentalHistoryByUser` are plain reads with no status filter, so they are not modelled.
- The map-building bodies of the list queries are not modelled. Their result rows are sequences whose membership is specified.
- VehicleQueries.Store.FetchAvailableVehicles: states which rows are returned, not their order or multiplicity, because the query has no ORDER BY.
- VehicleQueries.Store.FetchBookingsForVehicle: states which rows are returned, not their order or multiplicity, because the query has no ORDER BY.
- VehicleQueries.Store.FetchBookingsByUser: states which rows are returned, not their order or multiplicity, because the query has no ORDER BY.
- VehicleQueries.Store.CreateBooking: says only that the reported window is that of some matching booking. Which one is unspecified, because the query has no ORDER BY.

## Findings

| source | as written | input that shows it | evidently intended | confidence | as-written member | corrected member |
|---|---|---|---|---|---|---|
| vehicle-service/database/vehicle_queries.go:43 | the create conflict query selects only rows with status `confirmed` | booking 1 on vehicle 3, rescheduled to [10,12] and so `modified`; a new request for vehicle 3 over [10,12] finds no conflict and is inserted as `confirmed`, so two active bookings overlap | compare against `confirmed` and `modified` rows, as the modify query does at line 266, so that active bookings of a vehicle never overlap | medium; not executed | `VehicleQueries.Store.CreateBooking` (exhibited by `Conflicts.CreateCheckMissesModifiedBooking` and in `VehicleQueries.RescheduleScenario`) | `VehicleQueries.Store.CreateBookingActiveChecked` (with `Conflicts.ActiveCheckPreservesActiveDisjoint`) |
| vehicle-service/database/vehicle_queries.go:121-136 | the collecting loop ends on `rows.Next()` returning false and never calls `rows.Err()`, so a driver failure while reading rows is silently swallowed | two confirmed bookings of vehicle 3 that ended before 800 and a connection failure on reading the first row: the sweep returns nil and completes neither booking; with a failure after the first row, only one is completed, with success returned | check `rows.Err()` after the loop and return it, so the sweep either completes every expired booking or changes nothing and reports the error | medium; not executed | `VehicleQueries.Store.CheckAndUpdateAvailability` (exhibited by `VehicleQueries.SwallowedReadErrorScenario` and `VehicleQueries.PartialSweepIsNotSweep`) | `VehicleQueries.Store.CheckAndUpdateAvailabilityChecked` |

`Store` keeps the as-written `CreateBooking` as its model of the source. The corrected
operation sits beside it. Modify, cancel and the sweep are proved to keep the active-booking
invariant, so with the corrected create every transaction keeps it.

In the same way `Store.CheckAndUpdateAvailability` models the sweep as written, including the
swallowed read failure, and `Store.CheckAndUpdateAvailabilityChecked` is the corrected sweep.
`NextSweepCompletesPartialSweep` shows why the defect is transient: the ticker's next sweep
completes the bookings a failed read left behind.
