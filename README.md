# Hall booking system — a Dafny model

This project models the core of a college hall-booking web application.

- **The Express backend.** It holds a `users` table and a `bookings` table. It offers signup and login, booking creation and cancellation, an availability query, and an admin user delete. It also offers a rule-based chat assistant. The assistant classifies a message by intent and resolves a hall, a date, a slot list and a purpose from free text. It then reports availability, reports a conflict, books the slots, or asks for whatever is missing.
- **Three React pages.**
  - The booking page: slot selection, slot colouring, the Book Now guard, and the availability, booking and cancel calls.
  - The availability grid: one row of sixteen slot colours per hall.
  - The login/signup form: the 10-digit phone check and the submit gate.

Modules, in dependency order:

| file | module | models |
|---|---|---|
| `wrappers.dfy` | `Wrappers` | `Option` (JavaScript `null`, an absent JSON field) and `Result` (an HTTP error answer) |
| `seqs.dfy` | `Seqs` | `filter`, the SQL array overlap `&&`, order-preserving sub-lists, lists without repeats |
| `text.dfy` | `Text` | `toLowerCase`, `trim`, `includes`, anchored-prefix regexes, `join`, string order |
| `catalog.dfy` | `Catalog` | the four halls and the sixteen slot labels |
| `resolvers.dfy` | `Resolvers` | `parseDate`, `parseTime`, `extractPurpose`, hall extraction |
| `tables.dfy` | `Tables` | the rows of both tables and each SQL statement as an operation on a list of rows |
| `assistant.dfy` | `Assistant` | the intent dispatch and the structured reply of POST `/api/ai-chat` |
| `server.dfy` | `Server` | the `Store` class: both tables as fields, one method per route |
| `client.dfy` | `Client` | the availability response as the pages read it |
| `hall_booking.dfy` | `HallBookingPage` | `BookingPage`, the booking page's state |
| `hall_availability.dfy` | `HallAvailabilityPage` | `AvailabilityPage`, the availability grid |
| `login.dfy` | `LoginPage` | `LoginForm`, the login/signup form |

Modelling choices:

- **Dates.** A date is an integer day number counted from 1970-01-01. The weekday is `(d + 4) % 7`, with 0 for Sunday as in `getDay()`. The one literal date, 2025-12-11, is day 20433. The server's "today" is a parameter.
- **Text.** Strings are `seq<char>`. Lower-casing changes ASCII letters only. `trim` strips the JavaScript white-space set.
- **Tables.** Each table is a sequence of rows. The serial `id` columns are counters in the store. The store's invariant `Valid()` says four things: emails are unique, ids lie below their counters, no two bookings share an id, and no two bookings at the same hall and date share a slot.
- **Replies.** A chat reply is modelled as its action tag plus the structured fields the JSON carries (`conflictSlots`, `availableSlots`, `missingInfo`, `booking`). The model also keeps `slotsDisplay` as a field of the booked reply. In the code it is only the "Time" line of the confirmation text. The rest of the prose and the emoji are not modelled.
- **Outside inputs.** Server answers seen by the pages, and the bcrypt check and hash, enter as parameters.
  - `resp: Option<...>` is `None` when a call fails.
  - `created`, `deleted` and `succeeded` say whether a call resolved.
  - `fetch(hall)` is the parsed answer for one hall.
  - `hashed` is the stored hash; `verify` is the password check.

Three orderings in the code decide cases a reader might expect to go the other way:

- `parseDate` tests "next monday" before "tomorrow", so "tomorrow" wins only without "next monday" (`Resolvers.NextMondayResolution`, `Resolvers.TomorrowResolution`).
- `extractPurpose` tests "seminar" before "gd". A message naming SF or ECE Seminar Hall "for GD" therefore gets the purpose "seminar", not "Group Discussion" (`Resolvers.SeminarHallBeatsGd`).
- A chat conflict reports every slot of every overlapping row, not only the slots shared with the request (`Assistant.ConflictReply`).

The booking page's reading of the availability answer is corrected in this model; see "## Findings".

## Model

| member | source | states |
|---|---|---|
| Catalog.CatalogShape | backend/server.js:217-221 | eight morning and eight afternoon labels, sixteen distinct slots in all, four distinct halls, and no label in both groups |
| Text.ToLowerIdempotent | backend/server.js:225-226 | lower-casing any text twice gives the same text as lower-casing it once |
| Text.TrimOfLowerIsLower | backend/server.js:321 | trimming lower-cased text leaves text that lower-casing does not change |
| Text.TrimEmptyIffBlank | backend/server.js:314 | a message trims to nothing exactly when every character is white space |
| Resolvers.DaysUntilNextMonday | backend/server.js:229 | the offset `(1 - day + 7) % 7 \|\| 7` lies in 1..7 and is 7 exactly on a Monday |
| Resolvers.DaysUntilNextMondayIsNearest | backend/server.js:229-231 | today plus the offset is a Monday, and no day strictly between is one |
| Resolvers.ParseDate | backend/server.js:224-254 | `None` exactly when no date phrase occurs; otherwise a day from today to today + 7, or 2025-12-11; the branch lemmas below fix which phrase gives which day |
| Resolvers.NextMondayResolution | backend/server.js:228-233 | with "next monday" the result is the nearest Monday strictly after today (today + 7 on a Monday), whatever else the text says |
| Resolvers.TomorrowResolution | backend/server.js:236-240 | without "next monday", "tomorrow" gives today + 1 |
| Resolvers.LiteralDateResolution | backend/server.js:243-246 | without "next monday" and "tomorrow", a literal date gives 2025-12-11, even when "today" also occurs |
| Resolvers.TodayResolution | backend/server.js:248-251 | with no earlier date phrase, "today" gives today |
| Resolvers.ParseTime | backend/server.js:257-285 | the result is one of the six fixed lists, and `[]` exactly when no time phrase occurs; the branch lemmas below fix which phrase gives which list |
| Resolvers.ParseTimeIsCatalogRun | backend/server.js:257-285 | every result is a contiguous run `ALL_SLOTS[lo..hi]`, so it is a sub-list of the catalog in catalog order |
| Resolvers.FullDayWins | backend/server.js:261-263 | a full-day phrase gives all sixteen slots even when "morning" or "afternoon" also occurs |
| Resolvers.MorningResolution | backend/server.js:265-268 | without a full-day phrase, "morning" gives the eight morning slots |
| Resolvers.AfternoonResolution | backend/server.js:270-273 | without a full-day or morning phrase, "afternoon" gives the eight afternoon slots |
| Resolvers.TenOClockResolution | backend/server.js:275-278 | with no group phrase, ten o'clock gives the 10:00 and 10:30 slots |
| Resolvers.HalfPastElevenResolution | backend/server.js:280-282 | with no group phrase and no ten o'clock, half past eleven gives the 11:30 slot |
| Resolvers.ExtractPurpose | backend/server.js:288-299 | the label is non-empty and one of the nine fixed labels; it is "General Purpose" exactly when no keyword occurs |
| Resolvers.PurposeIsFirstKeyword | backend/server.js:288-299 | when keyword `k` of the fixed list occurs and no earlier keyword does, the purpose is label `k` |
| Resolvers.SeminarHallBeatsGd | backend/server.js:292-295 | a message naming SF or ECE Seminar Hall, and without "training" or "meeting", resolves to "seminar" even when it says "gd" |
| Resolvers.AliasHall | backend/server.js:396-406 | the partial names yield `""` or a catalog hall |
| Resolvers.AliasHallOrder | backend/server.js:396-406 | each partial name yields its own hall exactly when no earlier partial name occurs, and none yields `""` |
| Resolvers.FullNameHall | backend/server.js:388-393 | the scan from index `k` yields `""` or a hall at index `k` or later |
| Resolvers.FullNameHallFirst | backend/server.js:388-393 | when hall `m` is the first whose full name occurs, the scan yields hall `m` |
| Resolvers.FullNameHallNone | backend/server.js:388-393 | when no full name occurs, the scan yields `""` |
| Resolvers.HallOfSpec | backend/server.js:387-406 | hall extraction yields `""` or a catalog hall; it is the first hall in catalog order whose full name occurs; only when none occurs do the partial names decide |
| Resolvers.HallOf | backend/server.js:387-406 | the hall the chat extracts is `""` or a catalog hall |
| Resolvers.ExtractHall | backend/server.js:477-496 | the `for … break` loop followed by the partial names computes exactly `HallOf`, and yields `""` or a catalog hall |
| Tables.RowsAt | backend/server.js:172-175 | the rows selected are exactly the stored rows at that hall and date |
| Tables.ConflictRows | backend/server.js:135-138 | the rows selected are exactly the rows at that hall and date sharing a slot with the request; none is selected exactly when no row at that hall and date overlaps |
| Tables.SlotsOf | backend/server.js:179 | `flatMap` holds a slot exactly when some row holds it |
| Tables.BookedSlots | backend/server.js:170-180 | GET `/api/availability` lists a slot exactly when a row at that hall and date holds it |
| Tables.InsertKeepsNoDoubleBooking | backend/server.js:135-148 | inserting a row with a fresh id, when no row conflicts with it, keeps the table free of double bookings |
| Tables.SubsetKeepsNoDoubleBooking | backend/server.js:160 | removing rows keeps the table free of double bookings |
| Tables.AppendFreshKeepsUniqueIds | backend/server.js:145-148 | inserting a row whose id no stored row has keeps the booking ids unique |
| Tables.FilterKeepsUniqueIds | backend/server.js:158-161 | deleting rows keeps the booking ids unique |
| Tables.InsertByDateHall | backend/server.js:340 | inserting into a list sorted by date then hall keeps it sorted and keeps its multiset of rows |
| Tables.SortByDateHall | backend/server.js:340 | `ORDER BY booking_date, hall` gives a sorted permutation of the rows |
| Tables.BeforeTransitive | backend/server.js:340 | the date-then-hall order is transitive |
| Tables.OwnUpcoming | backend/server.js:338-339 | exactly the caller's rows dated today or later |
| Tables.UpcomingFor | backend/server.js:335-344 | at most ten of the caller's upcoming rows, no row listed more often than it occurs, sorted by date then hall |
| Tables.UpcomingIsEarliest | backend/server.js:340-341 | every upcoming row the limit leaves out sorts no earlier than every listed row |
| Tables.FindByEmail | backend/server.js:85-90 | the lookup finds a row exactly when the email is registered, and the row it finds has that email |
| Tables.FindByEmailUnique | backend/server.js:85-90 | with unique emails, the lookup by a user's email returns that user |
| Tables.AppendKeepsUniqueEmails | backend/server.js:52-65 | appending a user whose email is not taken keeps emails unique |
| Tables.FilterKeepsUniqueEmails | backend/server.js:203-206 | deleting users keeps the emails unique, counted by position, so a repeated row also breaks uniqueness |
| Tables.WithoutMember | backend/server.js:203-206 | a user survives exactly when the id differs or the user is an admin, so admins are never removed; the survivors keep their order and emails stay unique |
| Tables.WithoutOwned | backend/server.js:158-161 | a booking survives exactly when its id or its owner differs, so other users' bookings are never removed; the survivors keep their order; ids stay unique |
| Assistant.Dispatch | backend/server.js:323-641 | the chain never yields the blank intent, and falls to the default reply exactly when none of the six phrase tests holds |
| Assistant.Normalize | backend/server.js:321 | the normalized message is no longer than the message, starts and ends with no white space, is empty exactly when the message is all white space, and is already lower case, so the resolvers' own `toLowerCase` changes nothing |
| Assistant.Classify | backend/server.js:314-321 | a message is blank exactly when every character is white space; otherwise the chain decides on the lower-cased, trimmed text |
| Assistant.FirstMatchIsFirst | backend/server.js:323-641 | the first rule whose test holds decides the intent |
| Assistant.FirstMatchNone | backend/server.js:637-641 | with no rule matching, the default reply answers |
| Assistant.DispatchIsFirstMatch | backend/server.js:323-641 | the handler's if-chain equals the ordered rule table thanks, view bookings, availability, booking, greeting, help, so exactly one branch answers |
| Assistant.AvailabilityBeatsBooking | backend/server.js:381-469 | a message with an availability phrase (and no thanks or view phrase) is an availability check even if it also says "book" |
| Assistant.AvailableSlots | backend/server.js:419 | a slot is free exactly when it is in the catalog and not booked |
| Assistant.AvailableInCatalogOrder | backend/server.js:419 | the free slots keep catalog order |
| Assistant.MorningGroup | backend/server.js:431 | the morning group holds exactly the listed slots that are morning slots, in the list's order |
| Assistant.AfternoonGroup | backend/server.js:432 | the afternoon group holds exactly the listed slots that are afternoon slots, in the list's order |
| Assistant.GroupsSplit | backend/server.js:431-432 | a morning-only list followed by an afternoon-only list splits back into the two parts under the group filters |
| Assistant.AvailabilityPartition | backend/server.js:418-432 | the morning and afternoon groups concatenate back to the free list, and are the free morning and free afternoon slots in catalog order |
| Assistant.Action | backend/server.js:317-640 | the action tag is `null` exactly for the welcome, thanks, greeting, help and default replies |
| Assistant.SlotsSummary | backend/server.js:561-570 | the full day and the two groups collapse to their labels, and any list shorter than a group is listed comma-separated |
| Assistant.SummaryOfParsedSlots | backend/server.js:561-570 | for every slot list the resolver produces, the summary is "Full day (all slots)", "All morning slots" or "All afternoon slots" exactly for those three groups, and the comma-joined list otherwise |
| Assistant.BookingDecision | backend/server.js:510-617 | the booking branch answers with a conflict, a booking or a request for details, and a conflict needs a resolved date and an overlapping row |
| Assistant.BookingOutcome | backend/server.js:499-617 | the booking branch on a message: a booked row carries the hall, date, slots and purpose the resolvers read from the message, the next id and the caller |
| Assistant.AvailabilityReply | backend/server.js:411-463 | availability is reported exactly when hall and date resolve; the reported hall is a catalog hall, the booked slots are those held at the hall and date, and the free slots are `AvailableSlots` of the booked ones: the catalog slots not booked, in catalog order |
| Assistant.ReplyTo | backend/server.js:314-641 | the booking replies arise exactly for the booking intent, the availability replies exactly for the availability intent, the list exactly for the view intent, and no action tag exactly for the other five |
| Assistant.Respond | backend/server.js:307-641 | the reply's kind is decided by the message's intent alone: booking replies exactly for the booking intent, availability replies exactly for the availability intent, no action tag exactly for the prose-only intents |
| Assistant.ConflictSlotsSpec | backend/server.js:517-518 | the reported conflict slots are every slot of every overlapping row at the hall and date, and at least one of them was requested |
| Assistant.RemainingSlots | backend/server.js:522 | the remaining slots are the requested ones in request order, exactly those not taken |
| Assistant.ConflictReply | backend/server.js:510-540 | a conflict reply arises only with hall, date and slots resolved and some row at that hall and date overlapping; its `conflictSlots` are all slots of all such rows, and they meet the request |
| Assistant.ConflictAlternatives | backend/server.js:522-537 | the conflict reply's `availableSlots` are the requested slots in request order, exactly those not in `conflictSlots` |
| Assistant.BookedReply | backend/server.js:510-547 | a booking is made exactly when hall, date and slots are resolved and no row at that hall and date overlaps; the new row carries the next id, the caller and the resolved fields |
| Assistant.MissingInfoReply | backend/server.js:592-617 | the reply asks for more information exactly when something is unresolved, and `missingInfo` flags exactly the unresolved fields |
| Assistant.ChatPurposeNeverMissing | backend/server.js:503-616 | in the chat the purpose always resolves, so `missingInfo.purpose` is never set; a booked row has a catalog hall and a fixed-list purpose |
| Server.LoginUser | backend/server.js:80-96 | a login succeeds only for a stored user with that email whose password verifies; an unknown email fails; with unique emails, success is exactly the password check of that user |
| Server.Store.Signup | backend/server.js:47-65 | a registered email is refused and nothing changes; otherwise exactly one user row with role `user` and the next id is appended; the invariant is kept |
| Server.Store.CreateBooking | backend/server.js:130-148 | an overlapping row at the hall and date refuses the request and nothing changes; otherwise exactly the requested row is appended with the next id; the invariant is kept |
| Server.Store.DeleteBooking | backend/server.js:157-161 | the bookings become those whose id or owner differs, and nothing else changes |
| Server.IsAdmin | backend/server.js:38-43 | the `isAdmin` guard: a token fails it only when its role is the ordinary user role |
| Server.Store.DeleteUser | backend/server.js:201-206 | a non-admin caller is refused with no change; for an admin caller the user with that id is removed unless it is an admin; bookings are untouched |
| Server.Store.ChatAvailability | backend/server.js:384-463 | the availability branch, with the looped hall extraction, answers as `AvailabilityReply` on the current table |
| Server.Store.ChatBooking | backend/server.js:470-617 | the booking branch answers as `BookingOutcome` on the table as it was, and appends exactly the booked row when the reply is `booked` |
| Server.Store.Chat | backend/server.js:307-641 | the chat reply is `Respond` on the table as it was; the bookings grow by exactly the booked row on a `booked` reply and are unchanged otherwise; users never change; the invariant is kept |
| Client.AvailabilityBody | backend/server.js:180 | the availability route's body carries the booked slots and has no `availableSlots` field |
| Client.RedSlots | src/pages/HallBooking.tsx:77-78 | the red entries' slots are exactly the slots of entries whose status is red |
| HallBookingPage.BookedAsWritten | src/pages/HallBooking.tsx:76-78 | the page as written reads a slot as booked exactly when `availableSlots` is present and holds a red entry for it, and reads nothing when that field is absent |
| HallBookingPage.BookedFromResponse | src/pages/HallBooking.tsx:76-79 | corrected reading: a slot is booked exactly when the answer's `bookedSlots` is present and holds it; nothing is booked when the field is absent |
| HallBookingPage.AsWrittenMissesBookedSlots | src/pages/HallBooking.tsx:76-79 | against the body the server sends, the reading as written finds no booked slot even when a row holds one, and a click then selects that slot |
| HallBookingPage.AsWrittenExample | src/pages/HallBooking.tsx:76-79 | one booking of 10:00 at SF Seminar Hall: the server reports the slot booked, and the page reads nothing booked |
| HallBookingPage.ReadsServerBookedSlots | src/pages/HallBooking.tsx:76-79 | read from `bookedSlots`, a slot shows booked exactly when a row at that hall and date holds it, and a click on it changes nothing |
| HallBookingPage.Toggle | src/pages/HallBooking.tsx:90-94 | toggling flips the clicked slot and keeps every other slot; an unselected slot is appended at the end; a removal keeps the rest in order |
| HallBookingPage.Click | src/pages/HallBooking.tsx:87-95 | a click on a booked slot changes nothing; otherwise the clicked slot flips and every other slot keeps its state |
| HallBookingPage.ClickKeepsSelectionOk | src/pages/HallBooking.tsx:87-95 | a click keeps the selection free of repeats and of booked slots |
| HallBookingPage.ClicksKeepSelectionOk | src/pages/HallBooking.tsx:87-95 | a selection starting free of repeats and booked slots stays so after any sequence of clicks |
| HallBookingPage.ClickTwice | src/pages/HallBooking.tsx:90-94 | two clicks on the same slot restore the selected set, and restore the list itself when the slot was not selected |
| HallBookingPage.Look | src/pages/HallBooking.tsx:97-101 | a slot looks booked exactly when booked, selected exactly when selected and not booked, and available otherwise |
| HallBookingPage.LookMatchesState | src/pages/HallBooking.tsx:97-101 | with the page invariant, a slot looks booked exactly when booked, selected exactly when selected and available otherwise, and the three class strings differ |
| HallBookingPage.BookingPage.ButtonDisabled | src/pages/HallBooking.tsx:103-111 | the button is disabled exactly when hall, date or purpose is empty, no slot is selected or a request is in flight; an enabled button passes the guard |
| HallBookingPage.BookingPage.SlotClass | src/pages/HallBooking.tsx:97-101 | the booked class appears exactly for booked slots, and under the invariant the selected class exactly for selected slots |
| HallBookingPage.BookingPage.FetchAvailability | src/pages/HallBooking.tsx:73-85 | success takes the booked slots from the response's `bookedSlots` field (the corrected reading) and clears the selection; failure clears the booked slots and keeps the selection; the invariant is kept |
| HallBookingPage.BookingPage.SetHall | src/pages/HallBooking.tsx:67-85 | availability is fetched (corrected reading) only when the hall actually changes and hall and date are both set: success takes the booked slots and clears the selection, failure clears the booked slots and keeps the selection; otherwise only the hall changes |
| HallBookingPage.BookingPage.SetDate | src/pages/HallBooking.tsx:67-85 | availability is fetched (corrected reading) only when the date actually changes and hall and date are both set: success takes the booked slots and clears the selection, failure clears the booked slots and keeps the selection; otherwise only the date changes |
| HallBookingPage.BookingPage.ClickSlot | src/pages/HallBooking.tsx:87-95 | the selection becomes `Click` of the old one; a booked slot leaves it unchanged; nothing else changes |
| HallBookingPage.BookingPage.FetchBookings | src/pages/HallBooking.tsx:57-64 | success replaces the list of bookings; failure keeps it |
| HallBookingPage.BookingPage.BookNow | src/pages/HallBooking.tsx:103-144 | a failing guard sends nothing and changes nothing; otherwise the request carries the form; success refetches (corrected reading) and clears the selection and purpose; failure leaves the form; loading ends false |
| HallBookingPage.BookingPage.CancelBooking | src/pages/HallBooking.tsx:146-164 | success removes exactly the bookings with that id and refetches availability (corrected reading) when hall and date are set, where a failed refetch clears the booked slots and keeps the selection; a failed delete changes nothing |
| HallAvailabilityPage.SlotStatuses | src/pages/HallAvailability.tsx:49-52 | one entry per catalog slot in catalog order, red exactly where the slot is booked |
| HallAvailabilityPage.HallRecord | src/pages/HallAvailability.tsx:43-62 | one hall's row has sixteen entries in catalog order, red exactly when the fetch succeeded and its `bookedSlots` (empty when absent) holds the slot |
| HallAvailabilityPage.FindHall | src/pages/HallAvailability.tsx:75 | the record found has that hall, and none is found exactly when no record has it |
| HallAvailabilityPage.FindSlot | src/pages/HallAvailability.tsx:76 | the entry found has that slot, and none is found exactly when no entry has it |
| HallAvailabilityPage.StatusIn | src/pages/HallAvailability.tsx:74-78 | red only when some record of that hall has a red entry for that slot; green when no record has the hall |
| HallAvailabilityPage.FindInStatuses | src/pages/HallAvailability.tsx:49-52 | in a built row a slot is found exactly when it is a catalog slot, and is red exactly when booked |
| HallAvailabilityPage.StatusAfterFetch | src/pages/HallAvailability.tsx:43-78 | after a fetch, a slot reads red exactly for a catalog hall whose fetch succeeded, a catalog slot, and a slot in that answer's `bookedSlots` (a missing field counts as empty); a failed hall, an unknown hall and an unknown slot read green |
| HallAvailabilityPage.AvailabilityPage.FetchAllAvailability | src/pages/HallAvailability.tsx:40-69 | the records are one per hall in catalog order, each built from that hall's own answer or all green on failure; loading ends false |
| HallAvailabilityPage.AvailabilityPage.SetDate | src/pages/HallAvailability.tsx:36-71 | the effect runs only when the date actually changes: setting the same date, or an empty one, fetches nothing and keeps the records and the loading flag; a new non-empty date fetches every hall and ends with loading false |
| HallAvailabilityPage.AvailabilityPage.GetSlotStatus | src/pages/HallAvailability.tsx:74-78 | red only when some record for that hall has a red entry for that slot; green whenever the hall has no record |
| LoginPage.ValidPhone | src/pages/Login.tsx:27-34 | a valid phone is non-empty and consists of ASCII digits only |
| LoginPage.Put | src/pages/Login.tsx:38 | the named field takes the value and the other three keep theirs |
| LoginPage.LoginForm.ValidatePhone | src/pages/Login.tsx:27-34 | the verdict is true exactly for ten ASCII digits; an invalid phone sets the fixed message and a valid one clears it; the form is untouched |
| LoginPage.LoginForm.HandleInputChange | src/pages/Login.tsx:36-43 | only the named field changes; only a phone change re-validates, others keep the error; the invariant is kept |
| LoginPage.LoginForm.HandleSubmit | src/pages/Login.tsx:45-101 | in signup mode a phone error blocks the request with no change; login mode ignores the error; a successful signup switches to login and clears all four fields; a signup is only sent with a valid phone or an empty one |
| LoginPage.LoginForm.ToggleMode | src/pages/Login.tsx:231 | the mode flips and nothing else changes |

## Left out

- HTTP, routing, CORS and JSON parsing are not modelled. Neither are the database connection and SQL text, nor bcrypt and JWT. Password checking (`verify`) and hashing (`hashed`) are parameters. The identity a token carries is given directly.
- The server clock is not modelled: "today" is a parameter. So are the UTC shift of `toISOString` and all locale date formatting. The pages keep dates as the date input's strings.
- The prose, markdown and emoji of chat replies are not modelled; only the action tag and the structured fields are.
- The race between the conflict query and the insert is not modelled; the model is sequential.
- Database errors are not modelled: the 500 answers and the chat's `'error'` reply when the insert or a query throws.
- GET `/api/bookings` (`ORDER BY booking_date DESC`) and GET `/admin/users` are not modelled. They are plain listings outside this core.
- The feedback routes and the health check are not modelled, for the same reason.
- Tables.UpcomingFor: the hall order is code-point order, where PostgreSQL would use the database collation. The chat listing returns whole rows, where the query selects four columns.
- Server.Store.DeleteUser: the bookings of a removed user are left as they are. Whatever the schema's foreign keys would do is not part of this model.
- LoginPage.LoginForm.HandleSubmit: the browser's own `required` and `type="email"` checks happen before the handler runs, so they are not inside this method. So its contract says a signup is sent with a valid phone or an empty one. It is the `required` attribute that rules out the empty phone. The token storage and navigation after a login are not modelled.
- HallBookingPage.BookingPage.BookNow: the toast messages are not modelled, nor the server's error text.
- HallBookingPage.BookingPage.FetchAvailability: it reads the answer's `bookedSlots` field, the corrected reading, where the page as written reads the red entries of `availableSlots` and so always finds none (see "## Findings"; `BookedAsWritten` models the code as written).
- HallBookingPage.BookingPage.SetHall: its refetch uses the corrected reading of `FetchAvailability`, not the reading as written.
- HallBookingPage.BookingPage.SetDate: its refetch uses the corrected reading of `FetchAvailability`, not the reading as written.
- HallBookingPage.BookingPage.BookNow: its refetch after a booking uses the corrected reading of `FetchAvailability`, not the reading as written.
- HallBookingPage.BookingPage.CancelBooking: its refetch after a cancel uses the corrected reading of `FetchAvailability`, not the reading as written.
- The chat page, the API wrapper module, the auth context, the admin and feedback pages, and the layout components are not part of this model.
- Lower-casing is ASCII-only. JavaScript's full Unicode case mapping is not modelled.

## Findings

| source | as written | input that shows it | evidently intended | confidence | as-written member | corrected member |
|---|---|---|---|---|---|---|
| src/pages/HallBooking.tsx:76-79 | `fetchAvailability` takes booked slots from `data.availableSlots`. GET `/api/availability` (backend/server.js:179-180) answers only `{ bookedSlots }`, so the page always sees no booked slot. | A booking of "10:00 - 10:30" at SF Seminar Hall on 2025-12-11. The page shows that slot free and lets it be selected. The server then refuses the booking. | Read `data.bookedSlots`, as the availability page does (src/pages/HallAvailability.tsx:46). | high (not executed) | HallBookingPage.AsWrittenMissesBookedSlots | HallBookingPage.ReadsServerBookedSlots |

`HallBookingPage.BookingPage` uses the corrected reading, `BookedFromResponse`. The reading as written is `BookedAsWritten`. `HallBookingPage.AsWrittenExample` gives the concrete input.
