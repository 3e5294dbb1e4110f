# Table reservations and availability, in Dafny

A model of the reservation and availability core of a small bistro web site. It covers three parts:

- **The reservation route** (`src/app/api/reservations/route.ts`):
  - the service durations;
  - the overlap scan that warns a guest when a table is already taken;
  - creating a pending reservation (POST);
  - the status update (PUT). On confirm it blocks the table in 30-minute slots for the length of the reservation; on cancel or complete it releases those slots again.
- **The admin availability grid** (`src/app/admin/page.tsx`): the blocked-cell test and the toggle that blocks or frees one (date, time, table) cell.
- **The guest booking form** (`src/components/sections/ReservationAdvanced.tsx`):
  - the fixed room plan;
  - the tests that grey out a table;
  - the tables offered as the guest picks a party size, a date and a time;
  - the per-step validity test of the three-step form.

The two JSON data files become fields of one `Store` class whose `Post` and `Put` methods are the route's handlers:

- `data/reservations.json` is a `seq<Reservation>`;
- `data/availability.json` is a `seq<BlockedSlot>`.

The overlap scan and the slot generator are loops. They are `while` loops proved equal to the specification functions `OverlapReport` and `ReservationSlots`. The admin grid and the form are pure, and are modelled as functions.

Modelling choices:

- **Times.** Times of day stay strings, as in the source. `ParseTime` reads `"HH:MM"` into minutes since midnight, and `FormatTime` writes the zero-padded label back. `ParseFormat` proves that reading a generated label gives back its minute.
- **Unreadable times.** A time that does not read as digits, a colon and digits gives `None`. This stands for the source's `NaN`: an unreadable new start conflicts with nothing, and an unreadable stored start yields `"NaN:NaN"` slot labels. Both are what the source computes.
- **Durations.** The route stores durations in hours (2 or 1.5). The model stores them in whole minutes (120 or 90).
- **Ids and timestamps.** The identifier (`RES-<Date.now()>`) and the ISO timestamp of a new reservation are parameters of `Post`.
- **Form guest count.** The form's guest field is modelled after `parseInt`, as `GuestsInput`: empty, not a number, or an integer.
- **The room plan.** The form's closures read the constant room plan `Tables`. The greying-out and lookup functions take the plan as a parameter, and the form passes `Tables`.
- **Confirm does not deduplicate.** The database schema of src/lib/db.ts:47 makes a blocked slot unique by `UNIQUE(date, time, table_id)`, but the JSON route at route.ts:241 appends the generated slots without checking for copies. The model follows the code. `ConfirmTwiceDuplicates` shows that a second confirm blocks the first slot a second time.

## Model

| member | source | states |
|---|---|---|
| Reservations.GetDuration | src/app/api/reservations/route.ts:30-41 | aperitivo lasts 90 minutes; pranzo, cena and any other service 120; every duration is positive and a multiple of 30 |
| TimeOfDay.ParseTime | src/app/api/reservations/route.ts:65-66 | `split(':').map(Number)` followed by hours times 60 plus minutes, for digits, a colon and digits; any other string gives None, standing for NaN |
| TimeOfDay.FormatTime | src/app/api/reservations/route.ts:229-231 | the slot label of a minute of the day: hours and minutes, each zero-padded to two digits, hours not wrapped at 24 |
| Reservations.IntervalsOverlap | src/app/api/reservations/route.ts:84-86 | the half-open interval test: the new start is before the existing end and the new end after the existing start |
| Reservations.OverlapSymmetric | src/app/api/reservations/route.ts:84-86 | the interval test gives the same answer with the two reservations swapped |
| Reservations.OverlapMeansSharedMinute | src/app/api/reservations/route.ts:84-86 | for non-empty intervals, the test holds exactly when some minute lies in both half-open intervals |
| Reservations.BackToBackDoesNotOverlap | src/app/api/reservations/route.ts:84-86 | a booking that starts when another ends, or ends when it starts, does not conflict with it |
| Reservations.OneMinuteOverlaps | src/app/api/reservations/route.ts:84-86 | sharing the last minute of a booking is already a conflict |
| Reservations.Conflicts | src/app/api/reservations/route.ts:69-86 | an existing reservation blocks the request when it is not cancelled, rejected or completed, is on the same table and date, both start times read, and the intervals overlap |
| Reservations.FirstConflict | src/app/api/reservations/route.ts:69-86 | the result is the first position whose reservation is active, on the same table and date, has a readable start and meets the new interval; it is None exactly when no reservation does |
| Reservations.OverlapReport | src/app/api/reservations/route.ts:86-96 | the first conflicting reservation's start time, reported as both nextReservationTime and availableUntil, or no overlap |
| ReservationApi.CheckOverlap | src/app/api/reservations/route.ts:58-97 | the scan returns the start time of the first conflicting reservation, as both nextReservationTime and availableUntil, and reports no overlap exactly when nothing conflicts |
| Reservations.MissingRequired | src/app/api/reservations/route.ts:105-106 | date, time, table, guests, first name, last name, phone or service type is missing or falsy |
| Reservations.NewReservation | src/app/api/reservations/route.ts:149-163 | the record POST appends: the request's fields, the given id and timestamp, the service's duration, notes or empty, status pending |
| Reservations.NewReservationFromRequest | src/app/api/reservations/route.ts:149-163 | a new record keeps the request's fields, gets the given id and timestamp, is pending, has its service's duration, and has empty notes when none were sent |
| Reservations.FindReservation | src/app/api/reservations/route.ts:195 | the lookup finds the first record with the id, and fails exactly when no record has it |
| Reservations.FindAppended | src/app/api/reservations/route.ts:166 | a record appended under an id nobody has yet is the one a later lookup of that id finds |
| Reservations.FindUnique | src/app/api/reservations/route.ts:195 | when ids are unique, looking up a stored record's id finds that record |
| Reservations.AppendKeepsInvariants | src/app/api/reservations/route.ts:149-166 | appending a created record keeps every duration equal to its service's duration, and keeps ids unique when the new id is unused |
| ReservationApi.Store.constructor | src/app/api/reservations/route.ts:190-192 | the store holds the records and blocked slots it was loaded with |
| ReservationApi.Store.Post | src/app/api/reservations/route.ts:105-166 | a missing or falsy required field gives 400 and stores nothing. A conflict without confirmOverlap gives a warning with the blocking start time and stores nothing. Otherwise exactly one new pending record is appended and earlier records are unchanged. Blocked slots are never touched; standard durations are kept, and ids stay unique when the new id is unused |
| Reservations.UpdatedStatus | src/app/api/reservations/route.ts:200-207 | confirm, cancel and complete set confirmed, cancelled and completed, overriding an explicit status; without an action an explicit status is applied; with neither the status stays |
| Reservations.UpdateIgnoresCurrentStatus | src/app/api/reservations/route.ts:201-207 | no transition is refused: with a status or action given, the new status does not depend on the current one |
| Reservations.UpdatedReservation | src/app/api/reservations/route.ts:200-207 | a PUT changes only the record's status, so the record occupies the same slots afterwards |
| Reservations.ReplaceKeepsInvariants | src/app/api/reservations/route.ts:195-207 | replacing the found record by one with the same id, service and duration keeps standard durations and unique ids |
| Reservations.SlotCount | src/app/api/reservations/route.ts:227 | the number of 30-minute offsets below the duration is the least n with 30 n at least the duration |
| Reservations.SlotTime | src/app/api/reservations/route.ts:222-231 | the label `offset` minutes after a readable start, or "NaN:NaN" when the start does not read |
| Reservations.SpanSlots | src/app/api/reservations/route.ts:221-238 | the generated list has one slot per 30-minute offset below the duration, in order; slot k sits at offset 30 k on the reservation's date and table |
| ReservationApi.GenerateSlots | src/app/api/reservations/route.ts:221-238 | the offset loop builds exactly the reservation's slot list |
| Reservations.ReservationSlots | src/app/api/reservations/route.ts:221-238 | the slots a reservation occupies: its date and table, one label per 30 minutes from its start below its duration |
| Reservations.SpanSlotsMembership | src/app/api/reservations/route.ts:227-237 | a slot is generated exactly when it is the slot at some multiple of 30 minutes below the duration |
| Reservations.SlotAtReadsBack | src/app/api/reservations/route.ts:228-231 | with a readable start, the label of the slot at offset o reads back as start + o |
| Reservations.SpanSlotsIncreasing | src/app/api/reservations/route.ts:227-231 | with a readable start, slot k reads back as start + 30 k; the labels are strictly increasing and pairwise distinct |
| Reservations.ServiceSlotCount | src/app/api/reservations/route.ts:224-227 | a record with its service's duration occupies 3 slots for an aperitif and 4 for lunch or dinner |
| Reservations.ConfirmSlots | src/app/api/reservations/route.ts:241 | confirm's new blocked list: the old list with the reservation's slots appended, without deduplication |
| Reservations.ReleaseSlots | src/app/api/reservations/route.ts:283-289 | cancel's and complete's new blocked list: the old list less every slot matching one of the reservation's |
| Reservations.ConfirmBlocksAll | src/app/api/reservations/route.ts:241 | after confirm every slot of the reservation is blocked, and the earlier list is kept as a prefix |
| Reservations.ReleaseFreesAll | src/app/api/reservations/route.ts:283-289 | after cancel or complete none of the reservation's slots is blocked; every other blocked slot stays, in order |
| Reservations.ReleaseUndoesConfirm | src/app/api/reservations/route.ts:241-289 | confirm followed by cancel or complete, on a list holding none of the reservation's slots, restores the list exactly |
| Reservations.ConfirmTwiceDuplicates | src/app/api/reservations/route.ts:241 | confirming twice puts the first slot in the list twice |
| Reservations.ReleaseDropsManualBlock | src/app/api/reservations/route.ts:283-289 | cancel also removes a matching slot that was blocked by hand, because slots record no owner |
| Reservations.SlotsAfterAction | src/app/api/reservations/route.ts:205-341 | confirm keeps the old list as a prefix followed by the reservation's slots; cancel and complete keep exactly the slots that are not the reservation's; no action leaves the list alone |
| ReservationApi.Store.Put | src/app/api/reservations/route.ts:195-346 | an unknown id gives 404 and changes nothing. Otherwise only the found record changes, and only its status. The blocked slots become SlotsAfterAction of the record and action, and both record invariants are kept |
| TimeOfDay.ParseFormat | src/app/api/reservations/route.ts:222-231 | reading a generated HH:MM label gives back the minute it was made from |
| TimeOfDay.FormatInjective | src/app/api/reservations/route.ts:228-231 | distinct minutes get distinct labels |
| Availability.IsBlocked | src/app/admin/page.tsx:96-100 | a cell is blocked exactly when some slot in the list has its date, time and table |
| Availability.RemoveMatching | src/app/api/reservations/route.ts:283-289 | a slot survives exactly when it is in the list and matches none of the removed triples; each survivor keeps all its copies, and the survivors are a subsequence of the list |
| Availability.RemoveAppended | src/app/api/reservations/route.ts:241-289 | removing triples from a list they were appended to gives the original list with those triples removed |
| Availability.RemoveAbsent | src/app/api/reservations/route.ts:283-289 | removing triples that the list does not hold changes nothing |
| AdminGrid.ToggleBlock | src/app/admin/page.tsx:102-114 | toggling a blocked cell drops every copy of it and keeps every other slot and its copies, in order; toggling a free cell appends it at the end |
| AdminGrid.ToggleFlipsOnlyThatCell | src/app/admin/page.tsx:102-117 | after a toggle the clicked cell's blocked state is negated and every other cell reads as before |
| AdminGrid.ToggleTwiceRestores | src/app/admin/page.tsx:105-114 | blocking a free cell and then unblocking it gives back exactly the original list |
| BookingForm.TablesWellFormed | src/components/sections/ReservationAdvanced.tsx:31-43 | every table of the plan seats between one and five, with minSeats at most maxSeats, and table ids are distinct |
| BookingForm.Tables | src/components/sections/ReservationAdvanced.tsx:31-43 | the room plan of eleven entries: bar stools B1-B3 for one to four guests, tables S1, S3 and S8 for three to five, S2 for two to three, and S4-S7 for one to two |
| BookingForm.FindTable | src/components/sections/ReservationAdvanced.tsx:94 | the lookup returns the first table with the id, and fails exactly when no table has it |
| BookingForm.FindListedTable | src/components/sections/ReservationAdvanced.tsx:94 | with distinct ids, looking up a listed table's id finds that table |
| BookingForm.IsTableBlocked | src/components/sections/ReservationAdvanced.tsx:82-86 | a table is blocked at a date and time exactly when some slot has that table, date and time |
| BookingForm.IsTableCompatibleWithGuests | src/components/sections/ReservationAdvanced.tsx:89-98 | with an empty, non-numeric or zero party size every table is compatible. Otherwise a table is compatible exactly when the first plan entry with its id fits the party; an unknown id never is |
| BookingForm.Offer | src/components/sections/ReservationAdvanced.tsx:130-141 | the tables of a plan a party fits, less, once a date and a time are chosen, those blocked then, in plan order |
| BookingForm.TablesFor | src/components/sections/ReservationAdvanced.tsx:155-161 | the offer computed from the room plan |
| BookingForm.OfferMembership | src/components/sections/ReservationAdvanced.tsx:128-141 | a table is offered exactly when it is in the plan, fits the party, and, once a date and time are chosen, is not blocked then; the offer keeps the plan's order |
| BookingForm.TablesForMembership | src/components/sections/ReservationAdvanced.tsx:128-141 | the same for the room plan the form uses |
| BookingForm.NoTableOutsideOneToFive | src/components/sections/ReservationAdvanced.tsx:126-143 | in a plan seating one to five, no table fits a party of six or more, or of zero or fewer |
| BookingForm.EveryPartyFits | src/components/sections/ReservationAdvanced.tsx:31-43 | every party of one to five fits some table of the room plan |
| BookingForm.GuestsChange | src/components/sections/ReservationAdvanced.tsx:122-145 | picking a party size stores it and clears the chosen table. Six or more, zero or less, or a non-number offers nothing; otherwise the guest is offered the tables the party fits that are free at the chosen date and time, when both are set |
| BookingForm.DateTimeChange | src/components/sections/ReservationAdvanced.tsx:148-165 | changing the date or time stores it and clears the chosen table; while the party size, the date or the time is missing, the offered list stays as it was |
| BookingForm.DateTimeAgreesWithGuests | src/components/sections/ReservationAdvanced.tsx:148-165 | with party size, date and time all set, changing the date or time offers the same tables as picking that party size would |
| BookingForm.IsStepValid | src/components/sections/ReservationAdvanced.tsx:225-236 | step 1 needs a party of one to five; step 2 a table, a date and a time; step 3 a first name, a last name and a phone; any other step is invalid |
| BookingForm.StepOneIffSomeTableFits | src/components/sections/ReservationAdvanced.tsx:225-228 | for a numeric party size, step 1 is valid exactly when some table of the plan fits the party |
| BookingForm.OfferedTablesAreCompatible | src/components/sections/ReservationAdvanced.tsx:89-98 | in a plan with distinct ids, every table offered to a party is drawn as compatible with it |
| BookingForm.FormOffersCompatibleTables | src/components/sections/ReservationAdvanced.tsx:89-98 | every table the form offers is drawn as compatible with the party |
| Scenarios.SingleReservationReport | src/app/api/reservations/route.ts:69-96 | with one existing reservation, the report names its start time exactly when it conflicts, and reports no overlap otherwise |
| Scenarios.DinnerBlocksAperitif | src/app/api/reservations/route.ts:84-86 | a 19:00 dinner on S1 conflicts with an aperitif requested at 20:30 on the same table and date |
| Scenarios.DinnerLeavesNextSitting | src/app/api/reservations/route.ts:84-86 | the same dinner does not conflict with a dinner requested at 21:00 |
| Scenarios.OverlappingRequestIsReported | src/app/api/reservations/route.ts:58-97 | the 20:30 request is warned that the table is available until 19:00 |
| Scenarios.TouchingRequestIsFree | src/app/api/reservations/route.ts:58-97 | the 21:00 request sees no overlap |
| Scenarios.TwoHourSlots | src/app/api/reservations/route.ts:227-238 | a two-hour reservation with a readable start occupies four slots, at the start and 30, 60 and 90 minutes later |
| Scenarios.ConfirmedDinnerSlots | src/app/api/reservations/route.ts:221-241 | confirming the 21:00 dinner blocks 21:00, 21:30, 22:00 and 22:30 on S1 for that date |
| Scenarios.CancelledDinnerFreesSlots | src/app/api/reservations/route.ts:263-289 | cancelling it again, when S1 had no other blocked slots, restores the list and frees 21:00, 21:30, 22:00 and 22:30 |

## Left out

- Reading and writing the JSON files, JSON parsing, and the paths that recreate missing files. The two files are the fields of `Store`.
- The 500 responses for exceptions, including a PUT when the reservations file cannot be read.
- The GET handler.
- `Date.now()` ids and `new Date().toISOString()` timestamps: they are parameters of `Post`.
- The text of the warning message, which only embeds `availableUntil`.
- Reservation durations as fractional hours: durations are whole minutes, so a stored duration that is not a whole number of minutes cannot be represented.
- ParseTime: reads only digits, a colon and digits. Other strings that `Number()` accepts are treated as `NaN`: an empty hour or minute part (which `Number` reads as 0), surrounding spaces, signs, decimals, and a third `:`-separated part (which the destructuring would ignore).
- Reservations.ReservationRequest: `guests` is an integer, with 0 standing for a missing or falsy value. The string form of the field and `parseInt(body.guests)` are not modelled.
- Reservations.Status: a PUT `status` is limited to the five statuses the record type names. Another truthy string, which the route would store as is, is not modelled.
- Reservations.Action: any `action` other than confirm, cancel and complete is `NoAction`.
- BookingForm.GuestsInput: the guest field is taken after `parseInt`. How `parseInt` reads a string is not modelled; the form only produces the strings "1" to "6".
- The React state setters, the `fetch` calls that load and save availability, and the stale-closure timing between a setter and the next render.
- The form's submit, with its calendar file and download, and all rendering: the admin grid's lists of tables and time slots, the SVG room map and its positions.
- The login and logout of the admin page.
- Concurrency between simultaneous requests: the route has no locking, and every operation is modelled as a single atomic step.
