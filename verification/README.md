# plaza_coche in Dafny

A model of the decision logic of the plaza_coche parking and EV-charger
service, with proofs of what that logic guarantees.

**The weekly charger allocation run (`autoAssignCharger`).**
- **Ranking.** The run takes the users with role `user`. It looks up each user's hours in the previous week's usage record, counting 0 when there is none. It then sorts the users ascending by those hours, using a stable sort.
- **Allocation.** For every user with a schedule for the current month and year, the run computes each weekday's hours as `min(number of listed slots, 2)`. The last non-empty entry for that weekday decides.
- **Write-back.** It builds a Monday-to-Friday breakdown with its total. It creates or overwrites the user's record for the current ISO week, labelled `YYYY-WW`, and counts the user.

**The week label (`getWeekNumber`).**
- Dates are integer day numbers (day 0 = 1 January 1970) on the proleptic Gregorian calendar.
- The label follows ISO 8601 week numbering: the year of the week's Thursday and the week's rank in that year, zero-padded.

**The parking routes.**
- **Store and user routes.** A store holds the spots and the reservations. Users list the `disponible` spots, reserve a spot, list their own reservations newest first, and cancel their own reservation.
- **Admin routes.** Admins list all spots by `numero`, create, update and delete spots, and toggle a spot's `activa` flag.
- **Listing order.** The admin listing orders `numero` by character code. A character is a Unicode scalar value, and UTF-8 byte order agrees with code-point order, so this is the binary order MongoDB sorts strings by.
- **Schemas.** The record schemas supply the enums, the defaults and the unique indexes. The unique indexes are on (userId, semana) for usage records and on `numero` for spots.

Modules and files:
- `calendar.dfy`: civil dates.
- `week.dfy`: ISO week and label.
- `weekdays.dfy`, `users.dfy`, `schedule.dfy`, `weekly_usage.dfy`: record shapes.
- `ranking.dfy`: the stable ranking sort, in place on an array.
- `charger.dfy`: the allocation run and its store.
- `parking_spot.dfy`, `reservation.dfy`: records and orders.
- `parking.dfy`: the route handlers over the parking store.

In three points the model follows the code as written:
- **Repeated weekday entries.** When a schedule lists the same weekday twice, the last non-empty entry decides. The slot counts are not added.
- **What the run reports.** The run's result `RunOutcome` carries the assigned count and the week label. The source only logs the count (backend/jobs/chargerAssignment.js:119) and returns nothing.
- **Failures.** A failure inside the run is caught and logged by the source (lines 120-122). It is not reported to the caller.

## Model

| member | source | states |
|---|---|---|
| Calendar.ToCivil | backend/jobs/chargerAssignment.js:8 | the civil date of a day number is a valid date whose day number is the input |
| Calendar.CivilRoundTripFromDate | backend/jobs/chargerAssignment.js:8 | converting a valid date to its day number and back gives the same date |
| Calendar.YearLength | backend/jobs/chargerAssignment.js:11 | consecutive 1 January day numbers are 365 or 366 days apart, by the Gregorian leap rule |
| Calendar.YearOf | backend/jobs/chargerAssignment.js:11 | the year found for a day starts on or before it and the next year starts after it |
| Calendar.YearOfUnique | backend/jobs/chargerAssignment.js:11 | only one year contains a given day |
| Week.IsoWeekday | backend/jobs/chargerAssignment.js:9 | the weekday is 1..7 with Sunday as 7, not 0 |
| Week.ThursdayFacts | backend/jobs/chargerAssignment.js:9-10 | the shifted date is a Thursday within three days of the input, in the same Monday-Sunday week |
| Week.WeekOf | backend/jobs/chargerAssignment.js:10-12 | the week number is in 1..53 and the label year is the year that contains the shifted Thursday |
| Week.WeekLabelOfWeek | backend/jobs/chargerAssignment.js:11-12 | the week number is (days from 1 January of the Thursday's year to the Thursday + 7) / 7, that is ceil((days + 1) / 7) |
| Week.Pad2 | backend/jobs/chargerAssignment.js:13 | the padded week is exactly two digits whose value is the week number |
| Week.FormatShape | backend/jobs/chargerAssignment.js:13 | the label is the year text, a hyphen and two digits, and reading it back gives the year and week |
| Week.FormatInjective | backend/jobs/chargerAssignment.js:13 | two weeks get the same label if and only if they are the same week |
| Week.WeekLabel | backend/jobs/chargerAssignment.js:7-14 | the label read back is the ISO week of the date |
| Week.NatTextRoundTrip | backend/jobs/chargerAssignment.js:13 | the decimal text of a number reads back as that number |
| Week.YearTextRoundTrip | backend/jobs/chargerAssignment.js:13 | the year text, with a sign for years before 0, reads back as the year |
| Week.SameWeekIffSameThursday | backend/jobs/chargerAssignment.js:9-12 | two dates share a week if and only if they shift to the same Thursday |
| Week.MondayToSundaySameLabel | backend/jobs/chargerAssignment.js:9-10 | the seven days from a Monday to the next Sunday have weekdays 1..7 and one label |
| Week.WeeksInYearRange | backend/jobs/chargerAssignment.js:10-12 | every week-year has 52 or 53 weeks, and 28 December lies in its own year's last week |
| Week.PreviousWeekWithinYear | backend/jobs/chargerAssignment.js:22-24 | seven days earlier is week n - 1 of the same year when n > 1 |
| Week.PreviousWeekAcrossYear | backend/jobs/chargerAssignment.js:22-24 | seven days earlier than week 1 is the last week of the previous week-year |
| Week.SevenDaysEarlierIsPreviousWeek | backend/jobs/chargerAssignment.js:22-24 | the label of today - 7 is the ISO week immediately before today's |
| Week.WeekMonotone | backend/jobs/chargerAssignment.js:7-14 | a later date never gets an earlier week |
| Week.WeekYearNearDateYear | backend/jobs/chargerAssignment.js:10-13 | the label year differs from the date's year by at most one, and only within three days of 1 January |
| Week.Example2025Jan1 | backend/jobs/chargerAssignment.js:7-14 | 1 January 2025 is labelled 2025-01 |
| Week.Example2024Dec30 | backend/jobs/chargerAssignment.js:7-14 | 30 December 2024 is labelled 2025-01 |
| Week.Example2021Jan1 | backend/jobs/chargerAssignment.js:7-14 | 1 January 2021 is labelled 2020-53 |
| Weekdays.ParseWeekday | backend/models/Schedule.js:13-16 | a string accepted by the weekday enum is the name of the weekday it yields |
| UserModel.RegularUsers | backend/jobs/chargerAssignment.js:27 | the selected users are exactly the stored users with role `user`, each as many times as it is stored |
| UserModel.RegularUsersAppend | backend/jobs/chargerAssignment.js:27 | selection distributes over concatenation, so the selected users keep collection order |
| UserModel.RegularUsersSingle | backend/jobs/chargerAssignment.js:27 | one stored user is selected exactly when its role is `user` |
| ScheduleModel.FirstSchedule | backend/jobs/chargerAssignment.js:59-63 | no schedule is found if and only if none matches user, month and year; a found one is stored and matches |
| WeeklyUsageModel.RecordedHours | backend/jobs/chargerAssignment.js:37-41 | a user without a record for the week counts 0 hours |
| Ranking.SortByUsageSortedPermutation | backend/jobs/chargerAssignment.js:45-47 | the ranking is ascending by prior hours and is a permutation of its input |
| Ranking.SortByUsageStable | backend/jobs/chargerAssignment.js:45-47 | users with equal prior hours keep their collection order |
| Ranking.StableSortUnique | backend/jobs/chargerAssignment.js:45-47 | every sorted permutation that keeps equal keys in collection order equals the ranking |
| Ranking.InsertIntoPrefix | backend/jobs/chargerAssignment.js:45-47 | one insertion step of the in-place sort places the next user into the sorted prefix and leaves the rest alone |
| Ranking.RankByUsage | backend/jobs/chargerAssignment.js:45-47 | sorting the array in place leaves the stable ranking of its old contents |
| ChargerAssignment.DayAvailability | backend/jobs/chargerAssignment.js:71-81 | a weekday gets at most 2 hours, and 0 exactly when none of its entries lists a slot |
| ChargerAssignment.LastNonEmptyEntryWins | backend/jobs/chargerAssignment.js:76-80 | the last non-empty entry for a weekday decides its hours, min(slot count, 2) |
| ChargerAssignment.SlotValuesIgnored | backend/jobs/chargerAssignment.js:77-79 | only the number of slots matters, never their values |
| ChargerAssignment.HoursPerDay | backend/jobs/chargerAssignment.js:71-81 | every weekday is in the map with its availability |
| ChargerAssignment.BuildBreakdown | backend/jobs/chargerAssignment.js:84-94 | the breakdown has the five weekdays in order with their hours, and the total is their sum |
| ChargerAssignment.TotalHoursBound | backend/jobs/chargerAssignment.js:84-94 | a breakdown whose entries are each at most c sums to at most c times its length |
| ChargerAssignment.Allocation | backend/jobs/chargerAssignment.js:71-94 | a record has five entries lunes..viernes, each at most 2, and a total equal to their sum, at most 10 |
| ChargerAssignment.AllocateHours | backend/jobs/chargerAssignment.js:71-94 | the record the loops compute is the allocation of the schedule |
| ChargerAssignment.RankUsers | backend/jobs/chargerAssignment.js:45-47 | sorting a copy of the users in place gives the stable ranking |
| ChargerAssignment.RunInPeriod | backend/jobs/chargerAssignment.js:26-117 | for a given period and previous-week label, the run reports no users exactly when there is no user with role `user`, and then writes nothing; otherwise it reports the period's week label |
| ChargerAssignment.RunAssignment | backend/jobs/chargerAssignment.js:17-117 | the run on a date reports no users exactly when there is no user with role `user`, and then writes nothing; otherwise it reports that date's week label |
| ChargerAssignment.AssignAllWrites | backend/jobs/chargerAssignment.js:57-117 | processing users in any order writes exactly one record per scheduled user, replacing any old one, and nothing else |
| ChargerAssignment.ScheduledCountPermutation | backend/jobs/chargerAssignment.js:66-116 | the number of users with a schedule does not depend on their order |
| ChargerAssignment.RankingOrderIsFairOrder | backend/jobs/chargerAssignment.js:35-47 | the processing order is a permutation of the role-`user` list, ascending by previous-week hours (0 without a record), ties in collection order |
| ChargerAssignment.LessUsedRanksFirst | backend/jobs/chargerAssignment.js:45-47 | a user with fewer previous-week hours is processed before one with more |
| ChargerAssignment.RunWrites | backend/jobs/chargerAssignment.js:57-117 | for any period, after the run the store is the old store overlaid with one record per role-`user` user that has a schedule, keyed by the current week |
| ChargerAssignment.RunCount | backend/jobs/chargerAssignment.js:116 | the assigned count is the number of role-`user` users with a schedule for the month and year |
| ChargerAssignment.RunIdempotent | backend/jobs/chargerAssignment.js:97-115 | a second run on the first run's result gives the same records and the same report |
| ChargerAssignment.WrittenRecordsWellFormed | backend/models/WeeklyUsage.js:10-32 | every written record is keyed by a well-formed current week label and has the five weekdays, at most 2 hours each, total = sum <= 10 |
| ChargerAssignment.RunKeepsPreviousWeek | backend/jobs/chargerAssignment.js:22-50 | the run never touches the previous week's records it ranks by |
| ChargerAssignment.ExampleScenario | backend/jobs/chargerAssignment.js:71-94 | slots 8..12 on lunes and 14, 15 on miercoles give 2, 0, 2, 0, 0 and total 4 |
| ChargerAssignment.ChargerStore.PriorUsage | backend/jobs/chargerAssignment.js:35-42 | the table holds each role-`user` user's previous-week hours, 0 without a record |
| ChargerAssignment.ChargerStore.AssignInOrder | backend/jobs/chargerAssignment.js:57-117 | the loop leaves the store the fold of the per-user step over the ranked users and counts the users with a schedule |
| ChargerAssignment.ChargerStore.AutoAssign | backend/jobs/chargerAssignment.js:17-123 | the new records and the report are those of the run specification; users and schedules are unchanged |
| ParkingSpotModel.NewSpot | backend/routes/admin.js:49-54 | a created spot is disponible and activa, with descripcion '' when none is given |
| ParkingSpotModel.StrLeqTotal | backend/routes/admin.js:30 | any two numeros are ordered one way or the other |
| ParkingSpotModel.StrLeqTransitive | backend/routes/admin.js:30 | the numero order is transitive |
| ParkingSpotModel.StrLeqAntisymmetric | backend/routes/admin.js:30 | two numeros ordered both ways are equal |
| ParkingSpotModel.TextualOrderExample | backend/models/ParkingSpot.js:5-6 | numeros are strings, so "10" sorts before "2" |
| ParkingSpotModel.SortByNumero | backend/routes/admin.js:30 | the listing is ascending by numero and a permutation of the spots |
| ParkingSpotModel.SortByNumeroStrict | backend/models/ParkingSpot.js:5-9 | with unique numeros the listing is strictly ascending and holds exactly the stored spots |
| ReservationModel.ParseEstado | backend/models/Reservation.js:24-28 | a string accepted by the estado enum is the name of the state it yields |
| ReservationModel.CallerReservations | backend/routes/user.js:65-67 | the listed reservations are exactly the caller's, newest first |
| ParkingRoutes.StatusCode | backend/routes/user.js:28-34 | handlers answer 2xx exactly on success |
| ParkingRoutes.SpotIndex | backend/routes/user.js:28 | a spot is found if and only if one has the id, and the found spot has it |
| ParkingRoutes.AvailableSpots | backend/routes/user.js:13 | the user listing holds exactly the spots with disponible set, whatever activa is, each as often as it is stored |
| ParkingRoutes.AllSpotsByNumero | backend/routes/admin.js:30 | the admin listing holds every spot, strictly ascending by numero |
| ParkingRoutes.Patched | backend/routes/admin.js:71-77 | an update sets the sent fields and keeps the others, and never changes id or activa |
| ParkingRoutes.Released | backend/routes/user.js:96-98 | releasing sets disponible on the spot with that id and leaves every other spot unchanged |
| ParkingRoutes.HalfReserveBreaksExclusive | backend/routes/user.js:45-49 | a reservation saved without the spot being taken always leaves an active reservation on an available spot |
| ParkingRoutes.ReserveKeepsExclusive | backend/routes/user.js:32-49 | reserving a disponible spot keeps every actively held spot out of the listing and held once |
| ParkingRoutes.CancelKeepsExclusive | backend/routes/user.js:92-98 | cancelling an active reservation releases a spot no other active reservation holds |
| ParkingRoutes.RemoveSpotKeepsInvariants | backend/routes/admin.js:96 | deleting a spot removes exactly that spot and keeps the unique indexes and exclusivity |
| ParkingRoutes.ParkingStore.constructor | backend/models/ParkingSpot.js:4-32 | an empty store satisfies both invariants |
| ParkingRoutes.ParkingStore.Reserve | backend/routes/user.js:22-59 | unknown spot gives 404, not disponible gives 400 and a missing date gives 500, all with no change; a spot failing its schema check gives 500 after the activa reservation is stored, leaving the spot disponible and the store no longer exclusive; otherwise one activa reservation is added and only that spot is marked taken, keeping exclusivity |
| ParkingRoutes.ParkingStore.CancelReservation | backend/routes/user.js:77-105 | a reservation that is missing or not the caller's gives 404 and no change; otherwise it becomes cancelada and its spot is released, whatever its previous estado |
| ParkingRoutes.ParkingStore.CancelActiveReservation | backend/routes/user.js:77-105 | as the cancel route, but a reservation that is not activa is refused with no change; from any valid store, and exclusivity is kept when it held |
| ParkingRoutes.ParkingStore.CreateSpot | backend/routes/admin.js:39-66 | a taken numero gives 400 and adds nothing; an empty numero or ubicacion fails validation; otherwise one new spot with defaults is added |
| ParkingRoutes.ParkingStore.UpdateSpot | backend/routes/admin.js:69-91 | unknown id gives 404; a numero used by another spot is refused; otherwise only that spot is patched |
| ParkingRoutes.ParkingStore.DeleteSpot | backend/routes/admin.js:94-107 | unknown id gives 404; otherwise exactly that spot is removed and reservations are untouched |
| ParkingRoutes.ParkingStore.ToggleSpot | backend/routes/admin.js:110-130 | unknown id gives 404; a spot with an empty numero or ubicacion fails the save with 500 and no change; otherwise only that spot's activa flips |
| ParkingRoutes.ParkingStore.ToggleTwice | backend/routes/admin.js:119-120 | toggling twice restores the store |
| ParkingRoutes.DoubleCancelReleasesHeldSpot | backend/routes/user.js:92-98 | cancelling an already cancelled reservation succeeds and releases a spot another user's active reservation holds |
| ParkingRoutes.DoubleCancelRefused | backend/routes/user.js:92-98 | with the estado check the second cancel is refused and the spot stays held |

## Left out

- The cron trigger (backend/jobs/chargerAssignment.js:128-134) and logging. The model is one call of the run; the count is returned instead of logged.
- Time zones, daylight saving and millisecond arithmetic. "Seven days earlier" is day - 7 on civil days, and the month and year come from today's civil date. Around a daylight-saving change the source's `hoy - 7 * 24h` can land on a different local day; the model does not capture this.
- Persistence failures. A failing read or write aborts the source's run inside its catch block (lines 120-122). Earlier writes stay committed. The model has no failure path for the store.
- Mongoose and MongoDB mechanics are replaced by sequences and maps:
  - `find` is a filter in stored order; `findOne` is the first match; `populate` and `select` are not modelled.
  - Ids are natural numbers. A malformed id, which makes the source answer 500, is not modelled.
- `createdAt` and `updatedAt` timestamps. Reservations are kept in creation order, so "newest first" is reverse creation order. Several reservations created in the same millisecond would have an unspecified order in the source.
- Non-integer hours. Hours are natural numbers.
- HTTP, authentication and roles of the caller are not modelled (backend/middleware/auth.js, backend/routes/auth.js, backend/server.js). The caller's id is a parameter.
- The /all-reservations and /users admin listings (backend/routes/admin.js:13-25, 133-141) only read and order records. backend/models/User.js is not part of this model; a user is an id and a role.
- Frontend code and the seeding scripts. The scripts' week-number function is the same text as the job's.
- ParkingRoutes.ParkingStore.CreateSpot: a field missing from the request is modelled as the empty string. It fails the `required` check the same way. However, the source's duplicate query with an absent numero is not modelled.
- ParkingRoutes.ParkingStore.UpdateSpot: a field that is not sent keeps its value, which is how current Mongoose treats undefined update keys. Older Mongoose versions would write null instead.
- ParkingRoutes.ParkingStore.Reserve: a missing or unreadable date is one error case (500). Which of the two dates was bad is not distinguished.
- ParkingRoutes.AvailableSpots: the contract states which spots are listed and how many times each, not that the stored order is kept.
- Week.WeekLabel, Week.WeekOf: every integer day gets a label, including years before 100 and before 0. The source builds its dates with `Date.UTC` (backend/jobs/chargerAssignment.js:8, 11), which maps years 0..99 to 1900..1999. So a date in year 50 gets a 1950 week in the source. A date early in January of year 100, whose Thursday falls in year 99, is measured from 1999 and gets a negative week number. Dates more than 100,000,000 days from 1970 are invalid in JavaScript and label as "NaN-NaN". The run uses the current date, so it never reaches these cases.
- The parking handlers (the methods of ParkingRoutes.ParkingStore): each route is one sequential step, and the only failures modelled between its writes are the schema checks of `save()`. The source awaits between its check and its writes. Two concurrent reserve requests for the same `disponible` spot can both pass the check at backend/routes/user.js:32 and both succeed, booking the spot twice. A database error in a later write (the spot's save at lines 48-49, the spot update of cancel at lines 97-98) is not modelled; like the schema failure Reserve does model, it would leave an `activa` reservation on a `disponible` spot or a cancelled reservation on a taken spot. `ExclusiveState` and the `Exclusive()` clauses hold only for sequential handlers without such errors.
- ParkingRoutes.ParkingStore.Reserve: exclusivity is promised only when the answer is not 500, because the schema failure of the spot's save (an empty `numero` or `ubicacion`, which only the update route can store) leaves the reservation saved and the spot available; HalfReserveBreaksExclusive shows this always breaks it.

## Findings

| source | as written | input that shows it | evidently intended | confidence | as-written member | corrected member |
|---|---|---|---|---|---|---|
| backend/routes/user.js:92-98 | the cancel route does not check `estado` and always releases the spot | user 1 reserves spot A and cancels; user 2 reserves A; user 1 cancels the same reservation again: 200, and A is disponible while user 2's reservation is activa, so a third user can reserve A | only an `activa` reservation can be cancelled and release its spot | not executed; high that the state is reachable, medium that it is unintended | ParkingRoutes.ParkingStore.CancelReservation (exhibited by ParkingRoutes.DoubleCancelReleasesHeldSpot) | ParkingRoutes.ParkingStore.CancelActiveReservation (with ParkingRoutes.CancelKeepsExclusive and ParkingRoutes.DoubleCancelRefused) |
