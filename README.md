# Eventify in Dafny

This is a model of Eventify, a desktop booking application for one school
auditorium. Customers reserve up to four seats per event on a seat map.
Administrators create, edit and delete events, watch an event's seat map and
cancel reservations. Tickets are QR codes written as plain-text PPM images.

The model covers the parts of the application that make decisions:

- **`Ledger`** (`ledger.dfy`): the SQLite store. It holds the `events` table
  and the `user_reservation` table, with the table's one-holder-per-seat
  constraint. Every command and query the screens use is a method or function
  of a `Database` class.
- **`Layout`** (`layout.dfy`): the fourteen-row seat map, and the nested loops
  that place each row's seats around the centre aisle.
- **`Stage`** (`stage.dfy`): the customer's seat-selection screen, as a class
  holding the seat sets, the selection, the reservation count and the buttons.
- **`AdminStage`** (`admin_stage.dfy`): the administrator's seat map. It
  covers the holder lookup, the header statistics, the cancel flow and the
  export list.
- **`Dashboard`** (`dashboard.dfy`): the customer dashboard. It covers the
  seats-left figure, the reserved-events list, the card counts and the QR
  payload and file name.
- **`EventForm`** (`event_form.dfy`): the guard chain of the create-event form,
  its calendar and time rules, its keystroke limiters and its default values.
- **`EditEvent`** (`edit_event.dfy`): the edit screen's own guard chain, and
  its write-back through `update_event`.
- **`Register`** (`register.dfy`): the registration screen's guard chain, the
  account it creates and the limiters of its three fields.
- **`LegacyRegister`** (`legacy_register.dfy`): the older registration screen
  at the top of the repository, whose rules are weaker.
- **`Ppm`** (`ppm.dfy`): the QR image. It covers the in-place pixel buffer,
  the "P3" text that `save` writes, and the parser that reads such a file back.
  A `save` then parse round trip is proved.
- **`Text`**, **`SeqUtil`**, **`Options`**: models of the Python and SQL
  behaviour the rest relies on:
  - `str.strip`, `split`, `int()`, `str()` and `repr`;
  - string order;
  - SQL `ORDER BY` as a stable sort;
  - `list(set)` as an enumeration in an unspecified order.

State that the source changes in place is modelled as classes with `modifies`
frames: the database, the two stage screens, the edit screen and the pixel
buffer. The guard chains are modelled as functions returning the first failed
check. Each chain has a lemma saying it accepts exactly when every rule, stated
separately, holds. The current date is a parameter. A confirmation dialog
becomes a boolean parameter. A message box becomes an outcome value or the
dialog text.

Behaviours of the code a reader might not expect:

- `create_event` makes no date-conflict check; only the form validators do.
- `update_event` makes no date-conflict check either; the edit screen's
  validator does it before calling it.
- `reserve_seats` does not check that the event exists or lies in the future.
- `delete_event` answers true whether or not a row matched, and leaves the
  event's reservations in place.
- The seat map holds 450 seats while an event's capacity is 550. See Findings.

## Model

| member | source | states |
|---|---|---|
| `Ledger.Database.constructor` | eventify/database_manager.py:19-74 | A freshly set-up store has empty tables and satisfies the store invariant (seat uniqueness, ascending ids below the next id). |
| `Ledger.InsertEachUnique` | eventify/database_manager.py:59-68 | The per-seat insert loop never puts two rows on the same seat of one event: UNIQUE(event_id, seat_row, seat_number) is preserved. |
| `Ledger.Database.EventById` | eventify/database_manager.py:357-389 | The result is a stored event with that id; it is `None` exactly when no stored event has the id. |
| `Ledger.Database.GetFutureEvents` | eventify/database_manager.py:324-355 | The result is sorted by date then time, and holds exactly the stored events dated today or later, each as often as it is stored (string comparison of dates). |
| `Ledger.EventLeTotalPreorder` | eventify/database_manager.py:342-343 | ORDER BY date, time is a total preorder on events. |
| `Ledger.SeatLeTotalPreorder` | eventify/database_manager.py:480-486 | ORDER BY seat_row, seat_number is a total preorder on seats. |
| `Ledger.Database.GetReservedSeats` | eventify/database_manager.py:464-496 | Sorted by row then number; a seat is listed iff a row of that event holds it for a username other than the given one. |
| `Ledger.Database.GetUserReservedSeats` | eventify/database_manager.py:498-530 | Sorted by row then number; a seat is listed iff a row of that event holds it for the given username. |
| `Ledger.Database.GetUserReservationCount` | eventify/database_manager.py:599-630 | The count equals the length of the user's own seat list for the event. |
| `Ledger.Database.DateHasEvent` | eventify/database_manager.py:665-710 | True iff some stored event is on that date with an id other than the excluded one (any id when none is excluded). |
| `Ledger.Database.CreateEvent` | eventify/database_manager.py:265-295 | Appends the event under the next AUTOINCREMENT id and returns it; lookup finds it; the date now has an event, and counted without the new id it has one iff it had before (no conflict check here). |
| `Ledger.Database.UpdateEvent` | eventify/database_manager.py:391-435 | A missing id answers false and changes nothing; otherwise the stored event is replaced in place, `None` fields keep their stored values, venue and capacity take the passed (or default) values, and lookup finds the new event. |
| `Ledger.ReplaceEventFacts` | eventify/database_manager.py:414-421 | Replacing by id keeps every id in place, keeps ids ascending, and the replacement is what lookup then finds. |
| `Ledger.Database.DeleteEvent` | eventify/database_manager.py:437-462 | Always answers true; exactly the events with that id are removed; the reservation table is outside its frame and so is untouched. |
| `Ledger.Database.CancelReservation` | eventify/database_manager.py:632-663 | Removes exactly the rows equal to (username, event, row, number), answers true iff such a row existed, and afterwards none exists, so a repeat cancel answers false. |
| `Ledger.NonOwnerCancelFinds` | eventify/database_manager.py:644-658 | Under the uniqueness constraint a cancel naming anyone but the seat's holder matches no row. |
| `Ledger.Database.ReserveSeats` | eventify/database_manager.py:532-597 | Over the quota (count + request > 4): success false, nothing reserved, all seats failed, the quota message, store unchanged. Otherwise the store and result are those of the per-seat insert loop, success iff nothing failed, and the user's count grows by the reserved seats and stays at most 4. |
| `Ledger.QuotaKept` | eventify/database_manager.py:556-562 | A request that fits beside the user's current seats can never leave the user with more than 4 seats for the event. |
| `Ledger.InsertEachShape` | eventify/database_manager.py:570-592 | The loop only appends, one row per reserved seat; `reserved` and `failed` each keep the request's order, are an interleaving of it, and together are exactly the requested seats as a multiset. |
| `Ledger.InsertEachReserved` | eventify/database_manager.py:570-585 | `reserved` has no repeats, and a requested seat is reserved iff no row held it before (a seat asked for twice is reserved at most once). |
| `Ledger.InsertEachOwners` | eventify/database_manager.py:570-585 | The user's own seats for the event grow by exactly `reserved`; every other user's seats and every other event's seats are unchanged. |
| `Ledger.InsertEachAllBooked` | eventify/database_manager.py:585-592 | When nothing failed, every requested seat is held by the user and `reserved` is the request as a multiset. |
| `Layout.RowsShape` | eventify/base_stage_view.py:32-38 | The map has 14 rows lettered A to N; the widest row has 36 seats, so the aisle column is 41. |
| `Layout.RowsTotal` | eventify/base_stage_view.py:32-38 | The row sizes sum to 450. |
| `Layout.RowsLabelsDistinct` | eventify/base_stage_view.py:32-38 | No two rows share a letter. |
| `Layout.MaxSize` | eventify/base_stage_view.py:223-224 | The maximum is at least every row's size and is the size of some row. |
| `Layout.RowNumbering` | eventify/base_stage_view.py:229-256 | The k-th seat placed in a row is seat k + 1 of that row, so a row of n seats gets the numbers 1..n once each, the left half first. |
| `Layout.RowColumns` | eventify/base_stage_view.py:242-256 | No seat is at the aisle column; seats of the left half are exactly those left of it; columns strictly increase along the row and stay within the row's span. |
| `Layout.LabelColumnNonNegative` | eventify/base_stage_view.py:223-239 | The left row label's column `center - size/2 - 1` is at least 4, never negative. |
| `Layout.AllPlacementsSeats` | eventify/base_stage_view.py:210-262 | The seats placed by the nested loops are exactly the seats of the map. |
| `Layout.AllPlacementsDistinct` | eventify/base_stage_view.py:210-262 | With distinct row letters no seat is placed twice. |
| `Layout.MapSeatsCount` | eventify/base_stage_view.py:32-38 | The map has 450 distinct seats. |
| `Layout.PlaceRow` | eventify/base_stage_view.py:229-256 | One pass of the outer loop: the left-half loop then the right-half loop produce exactly the row's placements. |
| `Layout.InitialiseSeats` | eventify/base_stage_view.py:210-262 | The nested loops produce the placements of every row in order, around the column max size + 5. |
| `Stage.Classify` | eventify/stage_view.py:269-289 | Disabled iff the seat is held by another user, which takes priority; cancel iff not that but the user's own; toggle otherwise. |
| `Stage.ClassifyFromLedger` | eventify/stage_view.py:44-55 | With the sets loaded from the ledger, a button is disabled iff another user holds the seat, offers cancel iff the user holds it, and toggles iff nobody holds it. |
| `Stage.StageView.constructor` | eventify/stage_view.py:44-66 | The screen starts from the ledger's two seat lists and count, with an empty selection and a disabled book button. Every map seat has a button, and each button is the one `create_seat_button` makes from the loaded sets. |
| `Stage.StageView.InitializeSeats` | eventify/stage_view.py:216-267 | Every seat of the map gets exactly one button, made from the current sets and selection. |
| `Stage.StageView.UpdateReservedDisplay` | eventify/stage_view.py:452-471 | The count is re-read from the ledger. |
| `Stage.StageView.UpdateSelectedDisplay` | eventify/stage_view.py:473-505 | The book button is enabled iff the selection is non-empty and its size is at most 4 minus the count. |
| `Stage.StageView.ToggleSeat` | eventify/stage_view.py:507-541 | Without a button nothing happens; picking an unselected seat is refused, changing nothing, when count + selection ≥ 4; otherwise the seat is added or removed, its flag follows, and count + selection ≤ 4 is preserved. |
| `Stage.StageView.SetSelected` | eventify/stage_view.py:529-541 | A permitted toggle adds or removes exactly that seat, so the selection's size moves by one; only that button's flag changes, and the book button follows the new selection. |
| `Stage.StageView.CancelSeatReservation` | eventify/stage_view.py:543-580 | A seat not among the user's, or a declined dialog, leaves the ledger and every field of the screen unchanged. A confirmed cancel deletes exactly the user's row for that seat from the ledger and succeeds iff that row existed. A refused cancel leaves the screen unchanged; a successful one removes the seat from the user's set and reloads the count, the sets and the buttons from the ledger. |
| `Stage.StageView.RefreshSeatButtons` | eventify/stage_view.py:582-603 | Both seat sets are re-read from the ledger and every button rebuilt from them. |
| `Stage.StageView.ReserveSelectedSeats` | eventify/stage_view.py:605-659 | An empty selection, or one past the quota by the screen's count, is turned away without a ledger call. Otherwise the ledger afterwards is `reserve_seats`' insert loop applied to the old rows, or the old rows when the ledger's own count refuses the request; either way every earlier row is kept. On success every selected seat is booked for the user, the selection is cleared and the count is re-read from the ledger. Any other outcome leaves every field of the screen unchanged, though seats inserted before a conflict stay in the ledger. |
| `Stage.StageView.BookSeats` | eventify/stage_view.py:630-659 | The ledger call. The ledger afterwards is the insert loop applied to the old rows, or the old rows past the quota, and every earlier row is kept. Success books every selected seat; the count then matches the ledger and has grown by the reserved seats. A failure leaves the screen unchanged. |
| `Stage.StageView.AfterBooking` | eventify/stage_view.py:634-649 | After a booking the selection is empty and the book button disabled. The count and seat sets agree with the ledger, and every button is rebuilt from the reloaded sets. |
| `AdminStage.GetAllReservedSeats` | eventify/admin_stage_view.py:84-114 | The event's (row, number, username) triples, sorted by row then number; a triple is listed iff such a reservation row exists. |
| `AdminStage.HolderLeTotalPreorder` | eventify/admin_stage_view.py:96-100 | The triples' ORDER BY is a total preorder. |
| `AdminStage.HoldersUnique` | eventify/admin_stage_view.py:288-296 | The loaded triples name at most one holder per seat, so the first match is the only match. |
| `AdminStage.AdminStageView.constructor` | eventify/admin_stage_view.py:44-57 | The screen loads the triples once; total seats is the sum of the row sizes (450); the reserved count is the number of triples; "available" is total minus that count; every seat's entry describes the triples. |
| `AdminStage.AdminStageView.FindHolder` | eventify/admin_stage_view.py:288-296 | The entry is reserved iff some triple is for the seat, and then carries the username of such a triple; otherwise no username. |
| `AdminStage.AdminStageView.InitializeSeats` | eventify/admin_stage_view.py:236-277 | Every seat of the map gets an entry describing the triples. |
| `AdminStage.AdminStageView.UpdateStats` | eventify/admin_stage_view.py:483-506 | With an event loaded, the reserved figure becomes the number of triples and "available" becomes total minus that; without one nothing changes. |
| `AdminStage.AdminStageView.CancelReservation` | eventify/admin_stage_view.py:430-481 | The ledger is asked to delete the reservation of the seat's stored holder. On success the entry is cleared, but the triples are unchanged, so with the event loaded the reserved figure ends where it began (it drops by one only when no event was found), and "available" never changes. |
| `AdminStage.AdminStageView.CancelReservationRecounted` | eventify/admin_stage_view.py:430-481 | The same flow with the cancelled triple also removed: the reserved figure drops by one, "available" rises by one, and every entry keeps describing the triples. |
| `AdminStage.ExportLeTotalPreorder` | eventify/admin_stage_view.py:640-641 | The export sort key (row, seat) is a total preorder. |
| `AdminStage.AdminStageView.ExportRows` | eventify/admin_stage_view.py:625-641 | Nothing when there are no triples; otherwise one row per triple with seat_id = row + str(number), sorted by row then seat. |
| `Dashboard.AvailableSeatsCount` | eventify/user_dashboard_view.py:205-226 | 0 for a missing event; otherwise the capacity less the number of the event's seats held under a non-empty username. |
| `Dashboard.BookedCount` | eventify/user_dashboard_view.py:218-226 | The length of `get_reserved_seats(e, "")` is the number of such seats (the list has no repeats). |
| `Dashboard.FullMapShowsSeatsLeft` | eventify/user_dashboard_view.py:218-226 | With every seat of the map booked, an event of capacity 550 still shows 100 seats left, in green. |
| `Dashboard.FreeMapSeats` | eventify/user_dashboard_view.py:205-226 | The map-based count lies between 0 and 450, and is 0 exactly when the event is missing or every map seat is held. |
| `Dashboard.FullMapShowsNoneLeft` | eventify/user_dashboard_view.py:218-226 | Counting free map seats, a full map shows none left, in red. |
| `Dashboard.AvailabilityLabel` | eventify/user_dashboard_view.py:404-411 | The label is green iff the available figure is positive. |
| `Dashboard.ReservedOf` | eventify/user_dashboard_view.py:186-200 | The reserved list holds exactly the given events the user has seats for, in their order, each carrying the user's seat list for it. |
| `Dashboard.ReservedCardCounts` | eventify/user_dashboard_view.py:414-420 | A reserved card's count is the user's reservation count for that event, and is positive. |
| `Dashboard.LoadEvents` | eventify/user_dashboard_view.py:171-203 | The available panel gets all future events unfiltered; the reserved list is `ReservedOf` of them; the id set is exactly the reserved events' ids. |
| `Dashboard.SeatListRoundTrip` | eventify/user_dashboard_view.py:301-305 | The payload's seat list, written as `str` of each (row, number) tuple joined by ", ", reads back as exactly those seats, for row letters that `repr` prints unescaped. |
| `Dashboard.QrPayloadReadsBack` | eventify/user_dashboard_view.py:301-305 | The QR text starts with "username -- event name -- SEATS ", and the rest of it reads back as exactly the user's seats. |
| `Dashboard.QrFilenameInjective` | eventify/user_dashboard_view.py:312-313 | The file name `reservation_qr_event{id}_{username}.ppm` determines both the event id and the username, so two different tickets never share a file. |
| `EventForm.DaysIn` | eventify/base_event_view.py:469-469 | Each month has 28 to 31 days, and February has 29 exactly in leap years. |
| `EventForm.StrptimeDate` | eventify/base_event_view.py:469-469 | `strptime` succeeds only on a ten-character YYYY-MM-DD text naming a real day. |
| `EventForm.NextDay` | eventify/base_event_view.py:564-564 | The day after a valid date is valid, later, and no valid date lies strictly between the two: it is the next calendar day. |
| `EventForm.FormatDateRoundTrip` | eventify/base_event_view.py:564-565 | A four-digit-year date formatted with `strftime` has the YYYY-MM-DD shape and reads back as the same date. |
| `EventForm.TimeOrderCheck` | eventify/base_event_view.py:437-453 | For two well-formed times it passes iff the end minute is strictly after the start; it never answers "Invalid time format" for them. |
| `EventForm.PriceCheck` | eventify/base_event_view.py:457-464 | Passes iff the price is a number ≥ 0, otherwise "not a number" or "negative". |
| `EventForm.DateCheck` | eventify/base_event_view.py:469-481 | Passes iff the text is a real date not before today; otherwise "Invalid date" or "in the past". |
| `EventForm.Truthy` | eventify/base_event_view.py:485-490 | The excluded id is passed on only when given and non-zero. |
| `EventForm.ShapedChecks` | eventify/base_event_view.py:437-499 | Once both times have their shape, the rest of the chain never answers "Invalid time format". |
| `EventForm.ValidateInputsAccepts` | eventify/base_event_view.py:376-502 | The form is accepted exactly when the stripped fields satisfy every rule: non-empty name ≤ 40, description ≤ 1000, a real date not in the past, HH:MM times with end after start, price ≥ 0, and no other event that day (the id excluded only when truthy). |
| `EventForm.ConflictRule` | eventify/base_event_view.py:485-499 | The conflict query, with the truthiness rule applied, reports an event on the date with an id other than a truthy excluded one. |
| `EventForm.NoInvalidTimeFormat` | eventify/base_event_view.py:422-453 | This form never shows "Invalid time format": the int parse cannot fail after the anchored patterns passed. |
| `EventForm.EqualTimesRejected` | eventify/base_event_view.py:437-448 | Equal start and end times are refused with "End time must be after start time". |
| `EventForm.TodayAccepted` | eventify/base_event_view.py:469-476 | An event dated today passes the date check. |
| `EventForm.DescriptionLength` | eventify/base_event_view.py:367-370 | Text ending in a newline counts one less than its length; any other text counts its full length. |
| `EventForm.LimitersBlockAtLimit` | eventify/base_event_view.py:301-374 | A key is blocked only at 40 name characters or 1000 description characters, never a navigation key; the description's trailing newline is not counted. |
| `EventForm.TypeNameKey` | eventify/base_event_view.py:313-321 | One key press grows the name by at most one character, and only below 40. |
| `EventForm.TypeNameBounded` | eventify/base_event_view.py:301-321 | Typed key by key through the limiter, the name never exceeds 40 characters. |
| `EventForm.DefaultsPassChecks` | eventify/base_event_view.py:557-572 | The defaults (tomorrow, 19:00, 21:00) pass the date and time format checks, the end-after-start check and the not-in-the-past check. |
| `EditEvent.PrefixesAreShapes` | eventify/edit_event_view.py:225-239 | The edit screen's patterns match iff the text begins with the anchored date or time shape. |
| `EditEvent.CheckEditAccepts` | eventify/edit_event_view.py:207-292 | The edited form is accepted exactly when every rule holds: name present, a real date not in the past, times beginning HH:MM that `int` parses with end after start, price ≥ 0, and no other event that day but this one. |
| `EditEvent.NoLengthLimits` | eventify/edit_event_view.py:213-292 | The answer does not depend on the name's or description's length. |
| `EditEvent.TrailingDateRejected` | eventify/edit_event_view.py:225-281 | Text after a well-formed date passes the format check and is refused only later, as "Invalid date". |
| `EditEvent.TrailingDateExample` | eventify/edit_event_view.py:225-228 | "2030-01-01xyz" is such a date. |
| `EditEvent.TrailingTimeRejected` | eventify/edit_event_view.py:231-257 | A time with one stray non-digit character after it passes the format check and is refused as "Invalid time format". |
| `EditEvent.TrailingTimeExample` | eventify/edit_event_view.py:231-234 | "10:30x" is such a time. |
| `EditEvent.DigitRunMinutes` | eventify/edit_event_view.py:244-249 | Any digit run after the colon is read whole into the minutes. |
| `EditEvent.OverlongMinutesAccepted` | eventify/edit_event_view.py:231-257 | "10:301" passes the edit screen's pattern though it is not HH:MM, and is read as minute 901. |
| `EditEvent.AnchoredAcceptsShapedTimes` | eventify/edit_event_view.py:231-257 | With anchored patterns an accepted form has HH:MM times read as written, end after start, and is also accepted by the edit check; "Invalid time format" never appears. |
| `EditEvent.PassedPrice` | eventify/edit_event_view.py:259-267 | An accepted form has a price that is a number ≥ 0. |
| `EditEvent.EditEventView.constructor` | eventify/edit_event_view.py:20-30 | A missing event shows "Event with ID … not found", goes back when a callback exists and builds no form; otherwise the form holds the stored event. |
| `EditEvent.EditEventView.SaveChanges` | eventify/edit_event_view.py:294-335 | A refused form writes nothing and shows the first failed check; an accepted one is written back under the edited id. |
| `EditEvent.EditEventView.EditedEvent` | eventify/edit_event_view.py:304-313 | The written event keeps the edited id and has the fixed venue, capacity 550 and the parsed price. |
| `EditEvent.EditEventView.Write` | eventify/edit_event_view.py:316-335 | `update_event` replaces the event in place and success is reported (and the screen goes back), or the event is missing, nothing changes and the failure is reported. |
| `Register.AnyChar` | eventify/register_view.py:282-283 | `any(f(ch) for ch in s)` is true iff some character satisfies `f`. |
| `Register.CreateUser` | eventify/database_manager.py:110-146 | A new username is added and answers true; a taken one answers false and leaves the store as it was. |
| `Register.CheckPassesIff` | eventify/register_view.py:253-305 | The guards pass exactly when every rule holds: both fields alphanumeric, username 4 to 20, password 8 to 30 with a letter and a digit, confirm equal, username free. |
| `Register.RefusalIsFirstBrokenRule` | eventify/register_view.py:253-296 | A refusal names a rule the input breaks, and every earlier guard's rule holds. |
| `Register.RequiredOnlyForEmptyConfirm` | eventify/register_view.py:254-261 | An empty username or password is reported as special characters, so "All fields are required" appears exactly for alphanumeric fields with an empty confirmation. |
| `Register.RegisterOutcome` | eventify/register_view.py:294-305 | An account is created iff every rule holds, adding the username; "Failed to create account" cannot follow the guards; a refusal leaves the store alone. |
| `Register.LimitersBlockAtLimit` | eventify/register_view.py:144-233 | The limiters block exactly the non-navigation keys at 20 characters for the username and 30 for password and confirmation. |
| `Register.TypeKey` | eventify/register_view.py:144-159 | One key press grows a field by at most one character, and only below the limit. |
| `Register.TypeFieldBounded` | eventify/register_view.py:181-196 | Typed key by key through its limiter, a field never exceeds the limit. |
| `Register.TypedFieldsNeverTooLong` | eventify/register_view.py:272-279 | With fields typed through the limiters, the too-long guards never fire. |
| `LegacyRegister.LegacyPassesIff` | register_view.py:183-216 | The older guards pass exactly when both fields are alphanumeric, username ≤ 20, password ≤ 30, confirm equal and username free. |
| `LegacyRegister.LegacyRefusalIsFirstBrokenRule` | register_view.py:189-216 | A refusal is one of the older screen's guards, broken by the input, with every earlier guard's rule holding. |
| `LegacyRegister.LegacyRegisterOutcome` | register_view.py:211-221 | An account is created iff every checked rule holds; `create_user` is the last step and cannot fail after the guards. |
| `LegacyRegister.CurrentRulesAreStricter` | register_view.py:189-209 | Whatever the current screen accepts the older one accepts; "abc"/"abc" is accepted by the older one and refused as too short by the current one. |
| `LegacyRegister.LegacyLimitersBlockAtLimit` | register_view.py:124-181 | The older limiters block non-navigation keys at 20, 30 and 30 characters, as the current ones do. |
| `Ppm.PpmImage.constructor` | eventify/make_qr.py:13-32 | The buffer is a `width * box_size` square with every pixel 255. |
| `Ppm.PpmImage.DrawRect` | eventify/make_qr.py:34-47 | Exactly the box of module (row, col) turns 0; every other pixel keeps its value. |
| `Ppm.PpmImage.Save` | eventify/make_qr.py:49-70 | The lines written are the header "P3", "n n", "255" and then one "0 0 0" or "255 255 255" line per pixel in row-major order. |
| `Ppm.MagicLine` | eventify/make_qr.py:88-89 | The first line written reads back as "P3". |
| `Ppm.HeaderSize` | eventify/make_qr.py:60-92 | The size line written splits into two tokens that `int` reads as the size. |
| `Ppm.MaxvalLine` | eventify/make_qr.py:95-97 | The maximum-value line written reads back as 255. |
| `Ppm.ColorLineValues` | eventify/make_qr.py:64-102 | Each RGB line written reads back as the triple of its pixel. |
| `Ppm.ParseChecks` | eventify/make_qr.py:84-107 | Refused when the first line is not "P3" or the maximum is not 255. Accepted files have non-negative sizes, exactly width × height × 3 values, and the picture those values decode to. |
| `Ppm.ParseAccepts` | eventify/make_qr.py:84-123 | A file passing every check is accepted with the size from its second line and its decoded pixels. |
| `Ppm.MapAllAppend` | eventify/make_qr.py:99-102 | Converting two token lists in turn is converting their concatenation. |
| `Ppm.PixelValuesByTokens` | eventify/make_qr.py:99-102 | The pixel loop's values are `int` of all tokens after the header, however they are spread over lines. |
| `Ppm.LayoutIndependent` | eventify/make_qr.py:99-107 | Two files with the same header and the same pixel tokens parse alike. |
| `Ppm.SaveParseRoundTrip` | eventify/make_qr.py:49-123 | Parsing what `save` writes for an n × n grid gives an n × n picture whose black pixels are exactly the grid's zero values. |
| `Ppm.SavedImageReadsBack` | eventify/make_qr.py:49-123 | What a buffer saves reads back as its own black and white pattern. |
| `Text.Strip` | eventify/base_event_view.py:391-395 | `strip` removes exactly the leading whitespace and a trailing run of whitespace: the result is the text that follows the leading whitespace, cut before an all-whitespace tail, with no whitespace at either end. |
| `Text.StripLine` | eventify/make_qr.py:84-95 | A line as `readlines` returns it, stripped, is the text without its newline. |
| `Text.SplitJoin` | eventify/edit_event_view.py:244-245 | Joining the parts of `split(':')` with ':' gives back the text. |
| `Text.WordsOfJoin` | eventify/make_qr.py:92-102 | Words separated by single spaces are split back into the same words. |
| `Text.PyIntDigits` | eventify/make_qr.py:92-102 | `int` of a bare digit run is its value. |
| `Text.IntToStringRoundTrip` | eventify/make_qr.py:60-92 | `int(str(i)) == i` for every integer. |
| `SeqUtil.SortBySorted` | eventify/database_manager.py:484-484 | Sorting by a total preorder gives a sorted list. |
| `SeqUtil.Enumerate` | eventify/stage_view.py:612-612 | `list(set)`: every element once, in some order. |

## Left out

- User interface: every Tkinter widget, layout, image, scrolling, hover panel,
  legend and message box. Colours are modelled only for the availability label.
  Character-count colour thresholds are not modelled.
- Connection plumbing: SQLite connections, `sqlite3.Row` conversion and the
  catch-all `except` branches. The store is one in-memory state with atomic
  commands.
- The catch-all branch of `reserve_seats`, which returns every seat as failed
  after a connection failure, is not modelled. Such infrastructure failures do
  not occur in the model.
- Password hashing, `verify_user` and the login screens: users are a set of
  usernames. `create_user` is modelled only by its UNIQUE-username outcome.
- Floating point: prices are `real` values. The validators receive the result
  of `float(price)` as a parameter (a number, or not a number). Totals and the
  occupancy percentage are not modelled.
- Python's Unicode-aware `isalnum`, `isalpha`, `isdigit`, `isspace` and regex
  `\d` are modelled as their ASCII versions.
- The wall clock: today's date is a parameter, as a calendar date for the
  validators and as a YYYY-MM-DD string for `get_future_events`.
- `datetime.date` is modelled for the years 1 to 9999 only. The date check on
  the edit screen is handed texts that start with the date shape, as the
  pattern guarantees.
- QR symbol encoding by the third-party `qrcode` library, file I/O,
  `tk.PhotoImage` and the QR window are not modelled. A saved file is the
  sequence of lines that `readlines` would return. `PhotoImage`'s refusal of a
  negative size is taken as a parse failure.
- Ppm.ParsePpm: the error messages the parser shows before returning `None`
  are not modelled.
- Ppm.PpmImage.DrawRect: it requires the module to lie inside the grid, as the
  library's calls do. The source would raise on an overflowing index, or wrap
  round on a negative one.
- Ppm.PpmImage.constructor: it takes a non-negative width and box size, since
  a negative size gives an empty buffer in the source.
- CSV writing and the save dialog of `export_reservation_data`. Only the
  sorted list is modelled.
- Multi-client concurrency: operations are sequential, and seat uniqueness is
  checked inside the insert loop.
- Typing is modelled at the end of a field only. The cursor position, text
  selection and pasting are not modelled; only a field's length matters to the
  limiters.
- The bootstrap and glue files (`main.py`, the admin dashboard, the
  create-event screen) and the root-level prototype files other than
  `register_view.py` are not part of this model.
- The `hasattr(self, 'event')` test in `update_stats` is modelled as whether
  the event was found when the screen opened.

## Findings

| source | as written | input that shows it | evidently intended | confidence | as-written member | corrected member |
|---|---|---|---|---|---|---|
| eventify/user_dashboard_view.py:218-226 | Seats left = capacity (550 by default) minus booked seats, but the seat map's rows hold only 450 seats. | An event of default capacity with all 450 map seats booked shows "Available Seats: 100 of 550" in green. | The figure reaches 0, in red, once every seat of the map is taken. | not executed | `Dashboard.FullMapShowsSeatsLeft` | `Dashboard.FullMapShowsNoneLeft` |
| eventify/admin_stage_view.py:472-491 | The admin cancel decrements the reserved count, then `update_stats` recounts it from `reserved_seats`, which the cancel never updates. | Cancel any reserved seat of a loaded event: "Reserved" and "Available" stay as they were. | The cancelled triple leaves `reserved_seats`, so the recount drops by one. | not executed | `AdminStage.AdminStageView.CancelReservation` | `AdminStage.AdminStageView.CancelReservationRecounted` |
| eventify/edit_event_view.py:231-257 | The time pattern is anchored only at the start, so any digits after `HH:M` are read into the minutes. | Start time "10:301" passes and is read as minute 901 (10 h + 301 min); the create form refuses it. | Times are exactly `HH:MM`, as on the create form. | not executed | `EditEvent.OverlongMinutesAccepted` | `EditEvent.AnchoredAcceptsShapedTimes` |
