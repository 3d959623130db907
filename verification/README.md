# Experience booking: a Dafny model

This project models the core of an experience-booking web app. It has two sides:

- **Server.** It keeps three relations: experiences, timeslots with a capacity and a `spots_left` counter, and bookings. Its seat-reservation handler (`POST /api/bookings`) checks the request, then inside one locked transaction takes seats from a timeslot and appends a booking. An availability endpoint (`GET /api/experiences/:id?date=`) projects one experience's timeslots for a date. A seeding script fills the catalogue insert-if-absent.
- **Client.** A booking-flow store holds the selection, the customer's details and a promo code. Three pages drive it: the experience details page (date/time pickers, quantity stepper, confirm), the time-selection page and the checkout page (form, promo code, price summary, booking request). The home page's search filter is modelled as well; it reads only the catalogue and never touches the store.

The store is a value `Db(experiences, timeslots, bookings)`. Every handler is a pure function from a store and a request to a new store and an outcome. The row lock and the BEGIN/COMMIT/ROLLBACK make a reservation one indivisible step, so concurrency needs no model of its own. Every failure returns the store unchanged.

The central property is the relationship invariant `Catalog.Consistent`:
- for every timeslot, `total_spots - spots_left` equals the seats its bookings hold;
- no `spots_left` is negative;
- every booking names a timeslot;
- booking ids are distinct.

Reservations and seeding both keep it. `Lifecycle` carries it through any sequence of both, starting from the empty store.

Modules, one per file:
- `Js`: absent fields, truthiness, object spread.
- `JsString`: `trim`, `toUpperCase`, `toLowerCase`, `includes`.
- `Catalog`: the entities, the invariant, insert-if-absent.
- `Reservation`: `server.js` lines 57-88.
- `Availability`: `server.js` lines 30-46.
- `Seed`: `db/seed.js`.
- `Lifecycle`: traces of seeding and reservation steps.
- `BookingStore`: `src/hooks/useBooking.ts`.
- `Checkout`, `ExperienceDetails`, `SelectTime`, `Home`: the four pages.

Where the code departs from what it evidently intends, the model follows the code. The intent is taken from the code's own comments and types, such as the `ISO string (yyyy-mm-dd)` comment on `BookingDetails.date` in `src/types/booking.ts`:
- The handler does not check `seats`. A negative count is booked and raises `spots_left` above capacity (`Reservation.NegativeSeatsOverfill`).
- There is no booking-lookup endpoint (`GET /bookings/:id`) in the server.
- The checkout page never sends `seats`. With no `seats` the handler computes `spots_left - undefined`, which is NaN. The model takes the `spots_left` column to be an integer column that refuses NaN, so the transaction rolls back (`Reservation.Reserve`, outcome `StoreRejected`). Under that reading no checkout request is ever booked (`Checkout.CheckoutNeverBooks`). The table definitions (`db/init.sql`) are not part of this model.
- The store's `submitBooking` posts to `/bookings`, a path the server does not route; the reservation handler is at `/api/bookings`. The model keeps the answer a parameter (`BookingStore.Response`), so it covers whatever such a request gets back.
- The home page fetches `/experiences`, while the server serves the catalogue at `/api/experiences`. The model's filter takes the loaded list as a parameter (`Home.Filter`), so it covers whatever list the page ends up holding.
- The details page records `time` and goes straight to checkout. The checkout page waits for `time_slot_id`, which only the time-selection page writes. Confirming from a fresh store therefore leads to a checkout that renders nothing (`ExperienceDetails.ConfirmThenCheckoutIsBlank`).

## Model

| member | source | states |
|---|---|---|
| Js.Spread | src/hooks/useBooking.ts:33 | Object spread: the keys of both objects; the second object's value wins on a shared key; every other key keeps the first object's value. |
| Js.TextOr | src/pages/Checkout.tsx:18-20 | A stored text field read with the empty string as default is non-empty exactly when the field holds a non-empty string, and then it is that string. |
| JsString.Trim | src/pages/Checkout.tsx:62 | The trimmed text starts and ends with a non-whitespace character (or is empty), and it is a slice of the input with only whitespace before and after it. |
| JsString.TrimPadded | src/pages/Checkout.tsx:62 | Trimming any whitespace padding off a text that has no edge whitespace of its own gives the text back. |
| JsString.Upper | src/pages/Checkout.tsx:62 | Upper-casing maps each character to its upper case in order; sharp s and the Latin ligatures become two or three letters. The text keeps its length exactly when none of those occurs, and then each position holds the upper case of its character. |
| JsString.UpperAppend | src/pages/Checkout.tsx:62 | Upper-casing a concatenation upper-cases each part. |
| JsString.UpperExpansionFree | src/pages/Checkout.tsx:62 | An upper case containing none of the letter pairs SS, ST, FF, FI, FL came from a text in which no character expands, so it has that text's length. |
| JsString.Lower | src/pages/Home.tsx:34-36 | Lower-casing keeps the length and maps each character independently. |
| JsString.LowerOfUpper | src/pages/Home.tsx:34-36 | On ASCII text, lower-casing the upper-cased text equals lower-casing the text. |
| JsString.IncludesIff | src/pages/Home.tsx:34-36 | `includes` holds exactly when the pattern occurs at some index of the text. |
| JsString.IncludesEmpty | src/pages/Home.tsx:34-36 | Every text includes the empty string. |
| Catalog.BookedSeatsAppend | server.js:76-79 | Appending a booking adds its seats to the booked total of its own timeslot and of no other. |
| Catalog.Consistent | server.js:63-88 | The store invariant the reservation transaction keeps: taken seats equal booked seats for every slot, no slot below zero, every booking names a slot, booking ids distinct. It bounds each slot's booked seats by its capacity. |
| Catalog.ConsistentWithoutTimeslots | server.js:63-88 | With no timeslots, the store is consistent exactly when it holds no bookings. |
| Catalog.NoOversell | server.js:68 | In a consistent store no timeslot has more booked seats than its capacity. |
| Catalog.InsertIfAbsent | db/seed.js:89-94 | `ON CONFLICT (id) DO NOTHING`: the key is present afterwards; every existing row is untouched; a new key gets the given row. |
| Catalog.InsertAllFirstWins | db/seed.js:88-111 | Inserting rows one by one, each only if absent, keeps every existing row and adds the first row listed for each new key. |
| Catalog.FirstWinsFunctional | db/seed.js:105-110 | When a row list never gives one key two different rows, every listed row ends up stored under its key. |
| Catalog.FirstWinsFrom | db/seed.js:105-110 | Every stored key holds a row that the list gives for that key. |
| Reservation.Status | server.js:59-84 | The status is 201 exactly for a booking; every failure answers 400. |
| Reservation.Transaction | server.js:64-80 | Inside the transaction the only errors are an unknown timeslot, too few spots and a write the store refuses. A commit keeps the experiences and the slot ids, takes `seats` from the target slot without going below zero, and appends one booking holding `seats`. |
| Reservation.Reserve | server.js:57-88 | The handler books exactly when the four required fields are given, the timeslot exists, `seats` is present, `spots_left >= seats`, and both `seats` and the new `spots_left` fit an integer column. A booking answers with the fresh id. Any failure leaves the store unchanged: missing fields, unknown timeslot, not enough spots, a missing `seats` or a value out of the column's range. |
| Reservation.ReserveSuccessEffect | server.js:69-80 | A success takes exactly `seats` from the target slot, leaving its other columns as they were, and changes no other slot and no experience. It appends exactly one booking carrying the request's fields under the fresh id. Both written values fit an integer column. |
| Reservation.ReserveNeverNegative | server.js:68-72 | A success never leaves the target slot below zero, whatever `seats` is. |
| Reservation.ReserveConservesSeats | server.js:63-88 | For every timeslot, `spots_left` plus its bookings' seats is the same before and after any call, successful or not. |
| Reservation.ReservePreservesConsistent | server.js:63-88 | A reservation keeps the relationship invariant. |
| Reservation.ReserveSpotsLeftNonIncreasing | server.js:68-72 | With no negative seat count in the request, no timeslot's `spots_left` goes up. |
| Reservation.NegativeSeatsOverfill | server.js:58-72 | The handler does not check `seats`: a request for -3 seats on a 5/5 slot is booked and leaves 8 spots on a capacity of 5. |
| Reservation.OutOfRangeSeatsRejected | server.js:70-84 | A request for -3000000000 seats on a 5/5 slot passes the capacity check, but its UPDATE does not fit the integer column, so it is refused and the store is unchanged. |
| Reservation.ScenarioSellOutThenRefuse | server.js:68-83 | On a 5-seat slot, booking 3 seats leaves 2. A second request for 3 is refused as not enough spots and leaves the store as it was. |
| Availability.ViewOf | server.js:37-43 | A slot view carries the row's id, time, `spots_left` and capacity, and is available exactly when `spots_left > 0`. |
| Availability.Project | server.js:34-43 | There are no more views than listed rows, and every view is of a listed timeslot of the requested experience and date and maps that row. |
| Availability.ProjectHasRow | server.js:34-43 | A matching timeslot listed in the scan order has a view, at an index the lemma returns. |
| Availability.ProjectDistinct | server.js:34-43 | Given each id once, no two views share an id. |
| Availability.ProjectComplete | server.js:34-43 | Given each row once, every matching timeslot has a view and no two views share an id. |
| Availability.ProjectEmptyIff | server.js:34-43 | The projection is empty exactly when no timeslot of the store matches the experience and date (an empty list, not an error). |
| Availability.GetExperience | server.js:30-46 | The date is the query parameter, or today when it is absent or empty. The experience is present exactly when a row has the id. Every listed slot belongs to that experience and date. |
| Availability.ProjectAfterReserve | server.js:37-43 | After a successful reservation the projection lists the same slots in the same order. Only the reserved slot's view changes, by exactly `seats` in `spotsLeft`. |
| Availability.ProjectAfterSpotsChange | server.js:37-43 | When only one slot's `spots_left` moves by `seats`, the projection keeps its length, ids, times and totals; that slot's view moves by `seats` and every other view is unchanged. |
| Seed.GenerateTimeSlots | db/seed.js:78-84 | Each date gets five slots with ids `TS-<date>-1` to `-5`. Capacity equals spots left and is never negative. A slot is marked available exactly when it has spots. |
| Seed.RowIdInjective | db/seed.js:109 | For dates of one width, a timeslot row id determines its date, slot number and experience id. |
| Seed.RowIdsCollideAcrossWidths | db/seed.js:102-109 | Without a fixed date width the id scheme is ambiguous: two different (date, slot, experience) triples give one id. |
| Seed.SeedDb | db/seed.js:86-113 | The script leaves the bookings alone; afterwards the experience and timeslot tables hold exactly the ids they held plus every id the script lists. |
| Seed.PlanFunctional | db/seed.js:99-111 | With fixed-width dates the script never lists two different rows under one timeslot id. |
| Seed.DayPlanMember | db/seed.js:103-110 | A row listed for a date is one experience's slot row for that date, and conversely. |
| Seed.TimeslotPlanMember | db/seed.js:99-111 | A listed timeslot row is a slot row of one seeded date and one experience, and conversely. |
| Seed.SeedKeepsExisting | db/seed.js:88-111 | Seeding never changes an existing experience, timeslot or booking. |
| Seed.SeedNewTimeslots | db/seed.js:103-110 | Every timeslot seeding adds is a planned slot row whose capacity equals its spots left, never negative. |
| Seed.SeedCovers | db/seed.js:99-111 | Every (date, experience, slot) has a row afterwards. With fixed-width dates, a new one holds exactly the planned row. |
| Seed.DayIdsCount | db/seed.js:78-84 | The five row ids of one date and experience are distinct. |
| Seed.SeededRowsAreDayIds | db/seed.js:99-111 | Seeding an empty timeslot table gives an experience and date no timeslot ids besides its five row ids. |
| Seed.DayIdsAreSeeded | db/seed.js:99-111 | Seeding an empty timeslot table with fixed-width dates stores all five row ids of every seeded date and experience. |
| Seed.FiveSlotsPerDay | db/seed.js:99-111 | Seeding an empty timeslot table with fixed-width dates gives every seeded date and experience exactly five timeslots. |
| Seed.SeedPreservesConsistent | db/seed.js:86-113 | Seeding keeps the relationship invariant. |
| Seed.SeedCopiesExperiences | db/seed.js:88-95 | A new experience row is a copy of a listed experience under its own id. With distinct ids, every listed experience whose id was absent is stored as listed. |
| Seed.SeedIdempotent | db/seed.js:88-111 | Running the seeding script a second time changes nothing. |
| Seed.MockIdsDistinct | db/seed.js:10-76 | The six catalogue experiences have distinct ids. |
| Seed.SeedScript | db/seed.js:86-113 | Each of the six catalogue experiences whose id was absent is stored exactly as listed. |
| Lifecycle.RunPreservesConsistent | server.js:63-88 | Any sequence of seeding runs and reservations keeps the relationship invariant. |
| Lifecycle.ReachableNoOversell | server.js:68 | In every store reachable from the empty one, each timeslot's taken seats are its bookings' seats and never exceed its capacity. |
| Lifecycle.RunSpotsLeftNonIncreasing | server.js:68-72 | With no negative seat request along the way, no timeslot's `spots_left` ever goes up and no booking holds negative seats. |
| Lifecycle.ReachableWithinCapacity | server.js:68-72 | With no negative seat request, every reachable timeslot has `0 <= spots_left <= total_spots`. |
| Lifecycle.RunAppendOnly | server.js:76-79 | Bookings are append-only: every later ledger has the earlier one as a prefix. |
| Lifecycle.ReseedAfterReserve | db/seed.js:105-110 | Re-running the seeding script after a reservation leaves the reservation's effect in place. |
| BookingStore.SetBookingDetails | src/hooks/useBooking.ts:31-34 | Overwrites exactly the given keys of the selection, keeps its other keys, and leaves the customer's details and the code alone. |
| BookingStore.SetUserInfo | src/hooks/useBooking.ts:36-39 | Overwrites exactly the given keys of the customer's details, keeps the rest, and leaves the selection and the code alone. |
| BookingStore.SetPromoCode | src/hooks/useBooking.ts:41 | Replaces the code and leaves the selection and the customer's details unchanged. |
| BookingStore.ResetBooking | src/hooks/useBooking.ts:43-48 | Empties the selection and the customer's details and clears the code. |
| BookingStore.ResetIdempotent | src/hooks/useBooking.ts:43-48 | Resetting twice is resetting once, and gives the initial store. |
| BookingStore.SetBookingDetailsIdempotent | src/hooks/useBooking.ts:31-34 | Merging the same selection fields twice equals merging them once. |
| BookingStore.SetUserInfoIdempotent | src/hooks/useBooking.ts:36-39 | Merging the same customer fields twice equals merging them once. |
| BookingStore.SettersCommute | src/hooks/useBooking.ts:31-41 | Each setter writes only its own part of the store, so any two of them commute. |
| BookingStore.SubmitBody | src/hooks/useBooking.ts:66-70 | The body has the selection's keys, the customer's keys and `promoCode`. The customer's values win over the selection's, and `promoCode` wins over both. |
| BookingStore.SubmitBooking | src/hooks/useBooking.ts:54-83 | No request is sent unless `experience_id`, `email` and `name` are all set; otherwise the merged body is sent. The store is reset exactly when the answer is ok and its body parses as JSON; `response.json()` runs before `response.ok` is read, so an unparsable ok answer is caught and keeps the store. |
| BookingStore.ValidatePromoBody | src/hooks/useBooking.ts:89-98 | No request for an empty code; otherwise the body is `{ code }`. |
| BookingStore.ValidatePromoMatchesSubmit | src/hooks/useBooking.ts:89-98 | The promo check asks about the very code the booking body carries as `promoCode`: it sends one exactly when that code is non-empty, and after a reset it sends nothing. |
| BookingStore.SubmitAfterFill | src/hooks/useBooking.ts:54-76 | A store filled with an experience, a name and an email is ready to submit. An ok answer with a JSON body resets it; an answer that is not ok, an ok answer that does not parse, and a missing answer all keep it. |
| Checkout.Open | src/pages/Checkout.tsx:16-23 | The form opens pre-filled from the customer's details. The promo input holds the stored code, and the promo counts as applied exactly when a code is stored. Nothing is processing. |
| Checkout.ApplyPromo | src/pages/Checkout.tsx:61-69 | An accepted input stores the canonical `SAVE10` and marks the promo applied, touching nothing else. A rejected input, or a click while applied (the button is disabled), changes nothing. |
| Checkout.ApplyPromoThenValidate | src/pages/Checkout.tsx:61-69 | Once the checkout accepts a promo input, the store's promo check would send exactly `{ code: "SAVE10" }`. |
| Checkout.PromoCodeExpansionFree | src/pages/Checkout.tsx:62 | No two adjacent letters of `SAVE10` are the upper case of one expanding character, so a text upper-cased to it keeps its length. |
| Checkout.AcceptedIsPadded | src/pages/Checkout.tsx:62 | An accepted input is `SAVE10`, in some mix of cases, with only whitespace around it. |
| Checkout.PaddedIsAccepted | src/pages/Checkout.tsx:62 | `SAVE10` in any mix of cases, with any whitespace around it, is accepted. |
| Checkout.PromoAcceptedIff | src/pages/Checkout.tsx:62 | An input is accepted exactly when it is the code, case-insensitively, padded with whitespace. |
| Checkout.PromoAcceptsPaddedLowerCase | src/pages/Checkout.tsx:62 | `"  save10\n"` is accepted. |
| Checkout.PromoAcceptsLongS | src/pages/Checkout.tsx:62 | `"ſave10"` (long s) is accepted, because its upper case is `S`. |
| Checkout.PromoRejectsNearMisses | src/pages/Checkout.tsx:62 | `"SAVE 10"`, `"SAVE100"` and the empty input are rejected. |
| Checkout.GuestCount | src/pages/Checkout.tsx:55 | An absent or zero guest count reads as one; otherwise it is the stored number. |
| Checkout.Summarize | src/pages/Checkout.tsx:55-59 | The subtotal is price times guests. The discount is zero and the total equals the subtotal unless a promo is applied and a code is stored. A NaN price makes the subtotal and total NaN. |
| Checkout.SummaryTotal | src/pages/Checkout.tsx:55-59 | With a finite price, total plus discount is the subtotal. With a code applied the total is 90% of the subtotal, otherwise all of it. A non-negative subtotal gives `0 <= total <= subtotal`. |
| Checkout.LoadAsWritten | src/pages/Checkout.tsx:41 | The page keeps the whole response object, which has no `price` or `title` of its own. |
| Checkout.LoadCorrected | src/pages/Checkout.tsx:41 | The page keeps the response's experience: present exactly when the response has one, with its price and title. |
| Checkout.PriceOf | src/pages/Checkout.tsx:55 | `experience.price` is finite exactly when the kept object has a price, and NaN otherwise. |
| Checkout.AsWrittenSummaryIsNaN | src/pages/Checkout.tsx:41-59 | As written, the render guard passes whenever the store has a date and a slot id, even when the response has no experience. Subtotal and total are then NaN. |
| Checkout.AsWrittenRendersWithoutExperience | src/pages/Checkout.tsx:41-53 | As written, a response whose experience is absent still passes the render guard, so the form can be submitted; with the corrected load the page renders nothing. |
| Checkout.Loaded | src/pages/Checkout.tsx:34-49 | With the corrected load, the page holds an experience exactly when a response arrived and carries one, with that experience's price. The summary and the submit are built on it. |
| Checkout.PageSummary | src/pages/Checkout.tsx:51-59 | A summary exists exactly when the page renders (experience, date and slot id present). It is the experience's price times the guest count less the discount, all finite. |
| Checkout.Renders | src/pages/Checkout.tsx:51-53 | The page renders only with an experience held and a date and a slot id in the store. |
| Checkout.FormValid | src/pages/Checkout.tsx:113 | The submit button is enabled only with a non-empty name, email and phone. |
| Checkout.OpenFormValid | src/pages/Checkout.tsx:18-20 | A page opened from the store has a valid form exactly when the stored name, email and phone are non-empty texts. |
| Checkout.DomainHasNoAt | src/pages/Checkout.tsx:145 | A domain of a valid e-mail address holds no `@`. |
| Checkout.ValidEmailAt | src/pages/Checkout.tsx:145 | An address is valid exactly when the text before its first `@` is a non-empty run of local characters and the text after it is a domain of dot-separated labels. |
| Checkout.ValidEmailSplit | src/pages/Checkout.tsx:145 | For a local part without `@`, `local@domain` is valid exactly when the local part is non-empty local characters and the domain is valid. |
| Checkout.WordIsLabel | src/pages/Checkout.tsx:145 | A run of 1 to 63 lower-case letters is both a domain label and a local part. |
| Checkout.DomainCons | src/pages/Checkout.tsx:145 | A label, a dot and a domain make a domain. |
| Checkout.ValidEmailAccepts | src/pages/Checkout.tsx:145 | `ana@example.com` is a valid address. |
| Checkout.ValidEmailRefuses | src/pages/Checkout.tsx:145 | `x` (no `@`) and `ana@-x.com` (a label starting with a hyphen) are refused. |
| Checkout.BookingRequest | src/pages/Checkout.tsx:80-86 | The request carries the route's experience id, the stored slot id (also sent as the time), the stored date and the form's name and email, and no `seats`. |
| Checkout.Submit | src/pages/Checkout.tsx:71-98 | With the corrected load, a request is sent exactly when the page renders, the form is valid, the browser accepts the e-mail field and nothing is in flight. It then merges name, email and phone into the store and sends the booking request. Otherwise nothing changes. |
| Checkout.CheckoutNeverBooks | src/pages/Checkout.tsx:80-87 | Because `seats` is never sent, no request the page sends is booked, and the server's store is left unchanged. |
| ExperienceDetails.Open | src/pages/ExperienceDetails.tsx:16-21 | The page opens with quantity 1 and no date or time picked. |
| ExperienceDetails.Decrement | src/pages/ExperienceDetails.tsx:208 | Minus lowers the quantity by one but never below one, and changes nothing else. |
| ExperienceDetails.Increment | src/pages/ExperienceDetails.tsx:216 | Plus raises the quantity, keeps the experience, date and time, and the minus button takes it back from any quantity of at least one. |
| ExperienceDetails.PickDate | src/pages/ExperienceDetails.tsx:149 | A date click selects that date and keeps the rest; confirming is then possible exactly when the date is non-empty and a time is already picked. |
| ExperienceDetails.PickDateIdempotent | src/pages/ExperienceDetails.tsx:149 | Clicking one date twice is clicking it once, and a later date click replaces an earlier one. |
| ExperienceDetails.PickTime | src/pages/ExperienceDetails.tsx:169 | A click on a time with places selects it; a click on a sold-out time changes nothing. |
| ExperienceDetails.RunKeepsQuantity | src/pages/ExperienceDetails.tsx:21-216 | After any sequence of clicks the quantity is at least one and the loaded experience is kept. |
| ExperienceDetails.DecrementUndoesIncrement | src/pages/ExperienceDetails.tsx:208-216 | Plus then minus gives the original page back. |
| ExperienceDetails.RunSelectsSelectable | src/pages/ExperienceDetails.tsx:31-169 | Clicking only offered cards, the selected time is always none or an offered time with places left. |
| ExperienceDetails.SoldOutNotSelectable | src/pages/ExperienceDetails.tsx:31-36 | The sold-out 03:00 PM time is never selectable; 09:00 AM is. |
| ExperienceDetails.PricePanel | src/pages/ExperienceDetails.tsx:70-72 | The subtotal is price times quantity (zero before the experience loads). Tax is 18% of it, and the total is their sum. |
| ExperienceDetails.PricePanelIncrement | src/pages/ExperienceDetails.tsx:70 | One more guest adds exactly the unit price to the subtotal. |
| ExperienceDetails.Selection | src/pages/ExperienceDetails.tsx:60-66 | Confirm records exactly `experience_id`, `guests` (the quantity), `date`, `time` and `totalPrice`. |
| ExperienceDetails.Confirm | src/pages/ExperienceDetails.tsx:58-68 | Confirm acts exactly when an experience is loaded and a date and a time are picked. It then merges the selection into the store; otherwise nothing changes. |
| ExperienceDetails.ConfirmThenCheckoutIsBlank | src/pages/ExperienceDetails.tsx:60-67 | Confirming from a fresh store moves to a checkout whose render guard fails, since no `time_slot_id` is recorded. |
| SelectTime.Open | src/pages/SelectTime.tsx:33-34 | The page keeps the response's experience (absent when the id has no row) and its slots, with nothing selected. |
| SelectTime.ClickSlot | src/pages/SelectTime.tsx:63-98 | On a page that shows its slots, a click on an available slot selects its id and a click on a sold-out one changes nothing. Without an experience the page shows only "Experience not found.", so no click changes anything. |
| SelectTime.NotFoundPageIsInert | src/pages/SelectTime.tsx:63-69 | For an id with no experience row, whatever cards are clicked nothing is selected, and continuing leaves the store alone, even when the response lists timeslots. |
| SelectTime.ClicksSelectAvailable | src/pages/SelectTime.tsx:63-98 | After any clicks on shown cards, the experience and the slots are unchanged, and the selection is none or an available slot on the page. A page with no experience is left exactly as it was. |
| SelectTime.SelectedHadPlaces | src/pages/SelectTime.tsx:63-98 | On a page loaded from the availability endpoint, a selection exists only when the experience exists, and it names a timeslot that had places left at load time. |
| SelectTime.Continue | src/pages/SelectTime.tsx:49-69 | Continue acts exactly when the page shows its slots (an experience was loaded) and a slot is selected. It then merges `time_slot_id` into the selection and touches nothing else; otherwise nothing changes. |
| SelectTime.ContinueEnablesCheckout | src/pages/SelectTime.tsx:49-69 | With a date in the store and a slot selected, continuing moves on exactly when the page shows an experience, and then the checkout's render guard passes exactly when the checkout has its experience loaded. |
| Home.Filter | src/pages/Home.tsx:32-37 | The result is no longer than the list, and each listed experience is from the list and matches the query. |
| Home.FilterIsSubsequence | src/pages/Home.tsx:32-37 | The result is an order-preserving subsequence of the list. |
| Home.FilterMembers | src/pages/Home.tsx:32-37 | An experience is listed exactly when it is in the list and its lower-cased title, location or description contains the lower-cased query. |
| Home.LowerIdempotent | src/pages/Home.tsx:34-36 | Lower-casing twice is lower-casing once. |
| Home.FilterEmptyQuery | src/pages/Home.tsx:32-37 | The empty query lists every experience. |
| Home.FilterIdempotent | src/pages/Home.tsx:32-37 | Filtering the result again with the same query changes nothing. |
| Home.FilterSameLower | src/pages/Home.tsx:34-36 | Two queries with the same lower case give the same result. |
| Home.FilterCaseInsensitive | src/pages/Home.tsx:34-36 | For an ASCII query, its upper case and its lower case give the same result as the query. |
| Home.NotIncludesChar | src/pages/Home.tsx:34-36 | A text that lacks a character does not include it. |
| Home.DotlessIBreaksCaseInsensitivity | src/pages/Home.tsx:34-36 | Dotless i as the query matches nothing in "Kayaking trip", but its upper case `I` matches it. |
| Home.SharpSBreaksCaseInsensitivity | src/pages/Home.tsx:34-36 | Sharp s as the query matches nothing in "Strasse", but its upper case `SS` matches it. |

## Left out

- Postgres, Express and the pool: connections, SQL text, JSON parsing and static serving (`server.js` lines 1-24 and 90-103). The store is an in-memory value; HTTP appears only as the status code.
- `GET /api/experiences` (the plain catalogue listing): it is a read with no logic of its own.
- `ORDER BY time` in the availability query. The store's row order is a parameter (`order`), and a projection is proved for every order.
- The clock. "Today" in the availability endpoint and the seven seeded dates are parameters. `toISOString` gives fixed-width dates, which is what `Seed.FixedWidth` asks for.
- The UUID generator. A reservation takes the new id as a parameter that must name no existing booking, which is what the handler relies on `uuidv4` for.
- `db/init.sql` is not part of this model. The column types are assumed: `spots_left` and the booking's `seats` are Postgres `integer` columns, which refuse NaN and any value outside -2147483648 to 2147483647. The other booking columns accept what the handler writes. `timeslots.experience_id` and `timeslots.date` are assumed to be text columns, so `experience_id=$1 AND date=$2` is string equality.
- Availability.GetExperience: matches the date and the experience id by string equality, which is what a text column does. With a Postgres `date` column, `?date=2025-11-1` would also match the `2025-11-01` rows, and a malformed date would make the query throw; the handler has no try/catch, so that request would get no answer. The details page stores its dates as `YYYY-MM-DD` strings, but the select-date page stores a `Date` object, after which the time-selection page sends its `toString()` text (next lines).
- JSON types other than the ones modelled. In a request, the text fields are optional strings and `seats` is an optional integer. A field of another type is not modelled: a number for a text field, a fractional or string `seats`, an array, an object or a boolean. The client store is modelled as holding only strings and numbers; the one writer of another type is the select-date page, below.
- Js.TextOr: reads a field that holds a number as empty, while JavaScript's `x || ""` would give back the number itself. No modelled writer puts a number in a text field: the pages store names, e-mail, phone, dates and slot ids as strings.
- Checkout.GuestCount: the guest count is read only as a number, as the details page writes it. JavaScript would coerce a numeric string in `price * guests`; the model requires the number.
- Floating point. Prices, the 18% tax and the 10% discount are exact reals; `toFixed` rounding is not modelled. NaN is modelled only where the checkout's summary produces it.
- Case mapping whose result is not made of ASCII letters (é to É, µ to Μ, final sigma, the Greek and Armenian special cases), and the length-changing lower case of U+0130. The upper-case mappings whose result is ASCII letters are modelled: a-z, dotless i, long s, sharp s and U+FB00 to U+FB06.
- JsString.Upper: keeps every character outside those mappings as it is, while JavaScript upper-cases, for example, é to É. The promo test is unaffected, since such a result holds no ASCII letter.
- JsString.LowerOfUpper: stated for ASCII text only, because JavaScript's full case mapping breaks the property elsewhere (dotless i, long s, sharp s, the ligatures, µ).
- Home.FilterCaseInsensitive: stated for ASCII queries only, for the same reason. `Home.DotlessIBreaksCaseInsensitivity` and `Home.SharpSBreaksCaseInsensitivity` show it failing for two non-ASCII queries.
- Checkout.Submit: the browser's value sanitization of the e-mail field is not modelled: removing newlines and stripping surrounding ASCII whitespace. The address is checked as the page holds it. The `type="tel"` field has no format check to model.
- The network parts of the client: `fetch`, toasts, `console` and the reload redirect on the checkout page. A server answer is a parameter. `ExperienceDetails.Confirm` and `SelectTime.Continue` return whether they move to checkout; the checkout's move to the confirmation page after a booking is not modelled.
- The processing flag's transient `true` during a checkout submit. The model shows the page after the request completes.
- The select-date page (`src/pages/SelectDate.tsx`). Its continue button writes `{ date: selectedDate }` into the store with `selectedDate` a JavaScript `Date` object (lines 14 and 18-22), which `Js.Value` cannot hold. It is reached by its route or by the time-selection page's back button. The time-selection page then builds `?date=` from that object's `toString()` text ("Sat Nov 01 2025 00:00:00 GMT…"). Under the text-column reading that matches no timeslot, so the page shows its experience with no slots; under a Postgres `date` column it is the malformed-date case above. The model's stores hold only string dates, as the details page writes them.
- Rendering and routing with no stated logic: the confirmation, index and not-found pages, the header, the experience card, `use-mobile` and `utils`.
- `src/data/mockData.ts`: static data. Its promo-code table is not used by the checkout, which hard-codes `SAVE10`.
- Commented-out code in the server and the pages.

## Findings

| source | as written | input that shows it | evidently intended | confidence | as-written member | corrected member |
|---|---|---|---|---|---|---|
| src/pages/Checkout.tsx:41 | `setExperience(data)` keeps the whole response `{ experience, date, timeslots }` as the experience. `experience.price` is then undefined, so subtotal and total are NaN, and the `!experience` guard never blocks. | Any successful load, e.g. experience "1" with a store holding a date and a slot id: the summary shows NaN. | `setExperience(data.experience)`, as the details page (line 46) and the time-selection page (line 33) do. | high; not executed | Checkout.AsWrittenSummaryIsNaN | Checkout.PageSummary |
| src/pages/Checkout.tsx:41-53 | Because `setExperience(data)` keeps the whole response, the `!experience` guard passes even when the route id has no experience row (the server still answers 200 with `{ date, timeslots }`). The form can then be submitted. | `resp = { experience: undefined, date: "2025-11-01", timeslots: [] }` with a date and a slot id in the store and a valid form: the page renders and posts a booking. | With `setExperience(data.experience)` the page renders nothing for such an id, and no request is sent. | high; not executed | Checkout.AsWrittenRendersWithoutExperience | Checkout.Submit |
