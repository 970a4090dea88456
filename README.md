# Flight booking: seat inventory, booking engine and seat selection

This project models the core of a flight-booking system and proves properties of the model.
The system has a Django REST backend and a React front end. The model covers:

- the **booking engine** of the backend:
  - booking named seats of a flight (`SeatBookingView.post`);
  - the generic booking endpoint, whose auto-pick branch books the first free seats
    (`BookingCreateView.post`);
  - cancelling a booking (`BookingCancelView.post`);
  - the flight listing with its filters and orderings (`FlightListView.get_queryset`);
  - sign-up and log-in validation;
- the **records** (`models.py`):
  - the flight's dynamic price with its occupancy and days-before-departure tiers;
  - the booking's PNR, assigned on save only when missing;
  - the uniqueness of (flight, seat number);
- the **seat generation hook** (`signals.py`). It gives a new flight `total_seats` seats named
  `1A`, `1B`, ..., six to a row;
- the **seat-selection page** (`SeatSelection.js`):
  - seat toggling, with a bounded, ordered, duplicate-free selection;
  - the seat-count input clamp and the total price;
  - the guards and the error path of the confirm button;
  - the grid of rows of six, split into three seats on each side of the aisle.

## How the model is organised

- `wrappers.dfy` (`Wrappers`): `Option`, `Min`/`Max` and a few sequence facts.
- `models.dfy` (`Models`): the records, as datatypes.
  - `DynamicPrice` is exact rational arithmetic. It is `None` where the source divides by zero.
  - `SavePnr` is the PNR rule of `Booking.save`.
- `signals.dfy` (`Signals`): `CreateSeatsForFlight` is the hook's counting loop, proved against
  `GeneratedSeat`. The lemmas show that seat names round-trip and are distinct.
- `sorting.dfy` (`Sorting`): a stable insertion sort. It stands for both SQL `ORDER BY` and
  `Array.prototype.sort`. It is proved to permute its input and to sort it under a strict weak
  order.
- `flight_search.dfy` (`FlightSearch`): the listing, written as filter-then-sort functions.
- `accounts.dfy` (`Accounts`): sign-up and log-in over the users table.
- `reservations.dfy` (`Reservations`): the three booking views, as functions from a database
  value `Db` to a response and a new `Db`.
  - Row ids are 1-based: the row with id k is at position k - 1.
  - A failing view returns the database unchanged. For the 400 answers this is because
    every check runs before the first write (`views.py:133-160`, `186-212`, `243-250`); a
    returned 400 response still commits its `transaction.atomic` block, which has nothing to
    commit. The 404s of `get_object_or_404` and the exceptions, modelled as `ServerError`,
    raise and so roll the block back.
  - `Valid` is the invariant the views keep:
    - a seat is booked exactly when it is linked to a booking;
    - a linked booking is a confirmed booking of the seat's own flight;
    - seat numbers are unique per flight;
    - every booking names an existing user and flight and has a PNR;
    - emails are unique.
- `backend.dfy` (`Backend`): the imperative side of the views.
  - `Database` has the four tables as fields.
  - Its methods change the tables as the views do: loops over the selected seats, a counted
    freeing loop, and `Booking.save` filling in a missing PNR.
  - `Signup`, `Commit`, `Release`, `FindBooked`, `BookSeats`, `CreateBooking` and
    `CancelBooking` are proved to produce exactly the state of the matching `Reservations` or
    `Accounts` function. `AddFlight` and `SaveBooking` have no matching function; their
    `ensures` give the new tables directly. Each view method (`Signup`, `AddFlight`, `BookSeats`,
    `CreateBooking`, `CancelBooking`) also keeps `Valid`; the steps they are built from
    (`SaveBooking`, `Commit`, `Release`, `FindBooked`) state only the new tables.
- `seat_map.dfy` (`SeatMap`): the page's `Number(seat_number)` sort, the grouping into rows by
  position (`GroupRows`, a loop), and the left/right split.
- `seat_selection.dfy` (`SeatSelection`):
  - the toggle, clamp, total and confirm logic as functions;
  - the component as the class `SeatSelectionPage`, with fields `flight`, `seats`, `loading`,
    `numSeats` and `selected`, whose handlers are methods.
  - The HTTP calls are parameters: each is either the data it returned or a failure with an
    optional error text.

## Behaviour one might expect that the code does not have

- **The selection can exceed the seat count.** One might expect the selection never to hold
  more seats than the chosen count. The code does not trim the selection when the count is
  lowered (`SeatSelection.js:171-178`). `ChangeSeatCount` leaves `selected` as it is. As a
  result, `ToggleKeeps` promises the bound only when it already held before the click.
- **The refreshed seat list is not re-sorted.** The first load sorts the seats by
  `Number(seat_number)` (`SeatSelection.js:35-37`), so one might expect the list fetched again
  after a failed confirm to be sorted too. The code stores it as received
  (`SeatSelection.js:126-127`). `HandleConfirm` says so.

## Other behaviour the proofs make explicit

- **Every confirm that sends a booking request ends on the error path.** With no seat
  selected or no stored user, the page stops at an alert before any request
  (`SeatSelection.ConfirmOutcome`). Otherwise the page asks for a payment order at
  `/bookings/<id>/create-razorpay-order/`, and the backend's URL configuration has no such
  route. The booking is created, but the order call fails without an `error` field, so the
  page reports "Booking failed" (`SeatSelection.ConfirmWithoutOrderRoute`). The seats stay
  booked.
- **The auto-pick branch does not check availability.** It never compares the requested
  count with `available_seats`. Only the number of free seats limits it, and the store is
  clamped at zero (`Reservations.AutoPickOutcome`).
- **The client sort does nothing on generated names.** Names like `"1A"` give `NaN` under
  `Number()`, so the sort leaves the fetched order unchanged
  (`SeatMap.SortSeatsNonNumeric`, `SeatMap.GeneratedNameNotNumeric`).
- **Prices for a flight without seats.** The occupancy ratio is 0, so the third tier divides
  by `total_seats`, which raises. No price exists for that flight (`Models.DynamicPrice`).
  A request that reaches pricing on such a flight fails with a server error: an auto-pick of
  `seats_booked` 0, or a request for seats added to the flight by hand. Ordinary requests fail
  earlier with a 400: the post-save hook created no seats, so named seats give "Some seats
  not found" and the default auto-pick of one seat gives "Not enough available seats"
  (`Reservations.BookNamedStatus`, `Reservations.CreateBookingStatus`,
  `Reservations.AutoPickOutcome`).
- **A repeated seat number fails the match.** A request naming the same seat twice matches
  fewer seats than numbers, so it fails as "Some seats not found"
  (`Reservations.BookNamedSeatsNotFound`).

## Model

| member | source | states |
|---|---|---|
| Models.SeatFactor | flight_booking_backend/flights/models.py:54-63 | the occupancy multiplier exists exactly when the seat total is non-zero (a zero total reaches the division in the third tier) |
| Models.TimeFactor | flight_booking_backend/flights/models.py:66-71 | with no booking date the time multiplier is 1, and it always lies between 0.85 and 1.25 |
| Models.TimeFactorMonotone | flight_booking_backend/flights/models.py:66-71 | booking closer to departure never lowers the time multiplier, and crossing from more than 3 days to 3 or fewer raises it |
| Models.DynamicPrice | flight_booking_backend/flights/models.py:50-73 | a price exists exactly when total_seats is non-zero |
| Models.SeatFactorTiers | flight_booking_backend/flights/models.py:54-63 | for a positive total, with b booked seats: 5b >= 4t gives 1.5, else 2b >= t gives 1.2, else 10·available > 7t gives 0.9, else 1.0 |
| Models.DynamicPriceMonotone | flight_booking_backend/flights/models.py:50-71 | with a fixed total and a non-negative base, fewer available seats and fewer days before departure never lower the price |
| Models.SeatFactorMonotone | flight_booking_backend/flights/models.py:54-63 | with a fixed positive total, fewer available seats never give a lower occupancy multiplier, and the multiplier is never negative |
| Models.DynamicPriceBounds | flight_booking_backend/flights/models.py:50-73 | the price lies between 0.765 and 1.875 times a non-negative base price |
| Models.SavePnr | flight_booking_backend/flights/models.py:98-101 | an existing PNR is kept; a missing one becomes 8 upper-case hex digits, the upper-cased first 8 digits of the UUID hex |
| Models.Upper | flight_booking_backend/flights/models.py:101 | upper-casing keeps the length, leaves no lower-case letter, and changes only lower-case letters, each to its capital |
| Models.SavePnrStable | flight_booking_backend/flights/models.py:94-107 | saving again never replaces the PNR the first save gave |
| Signals.NatStr | flight_booking_backend/flights/signals.py:20 | the row number's text is a non-empty string of digits |
| Signals.SeatName | flight_booking_backend/flights/signals.py:20 | a generated seat name is a string of digits followed by one column letter A to F |
| Signals.ParseNatStr | flight_booking_backend/flights/signals.py:20 | reading the row number's text back gives the row number |
| Signals.SeatNameRoundTrip | flight_booking_backend/flights/signals.py:12-22 | the k-th seat's name reads back as row k/6+1 and column k mod 6 |
| Signals.SeatNamesDistinct | flight_booking_backend/flights/signals.py:16-22 | seats at different positions get different names, as the (flight, seat number) uniqueness requires |
| Signals.CreateSeatsForFlight | flight_booking_backend/flights/signals.py:7-24 | no seats unless the flight was just created; otherwise exactly max(0, total_seats) free, unlinked seats, the k-th named row k/6+1 followed by "ABCDEF"[k mod 6] |
| Signals.GeneratedRows | flight_booking_backend/flights/signals.py:16-23 | row r holds positions 6(r-1) up to min(total, 6r); every row but the last holds 6 seats and the last holds 1 to 6 |
| FlightSearch.Filter | flight_booking_backend/flights/views.py:83-97 | a flight is kept, as often as it occurs, exactly when it case-insensitively matches the given source and destination and departs within a readable date's day |
| FlightSearch.IExact | flight_booking_backend/flights/views.py:85-88 | two strings match case-insensitively exactly when they have the same length and agree at every position up to the case of an ASCII letter |
| FlightSearch.ListFlights | flight_booking_backend/flights/views.py:77-112 | the listing is a permutation of the filtered flights, holds a flight exactly when it is in the table and passes the filters, and no flight comes before one listed ahead of it under the chosen order |
| FlightSearch.ListFlightsOrder | flight_booking_backend/flights/views.py:99-110 | price_asc and price_desc order by base price up and down; duration_asc orders by duration with unknown durations first, duration_desc the reverse with them last; anything else orders by departure time |
| FlightSearch.OrderOf | flight_booking_backend/flights/views.py:99-110 | each of the four sort values selects its ordering, and exactly the other values, none included, select the departure order |
| FlightSearch.UnparsableDateIgnored | flight_booking_backend/flights/views.py:89-97 | an unreadable date gives the same listing as no date |
| Accounts.FindByEmail | flight_booking_backend/flights/views.py:44-51 | the lookup finds a user with that email, or reports none exists |
| Accounts.Signup | flight_booking_backend/flights/views.py:17-34 | sign-up succeeds exactly when all three fields are given and the email is new, and then appends exactly one user whose id it returns; missing fields are reported first; a failure changes nothing |
| Accounts.Login | flight_booking_backend/flights/views.py:36-51 | missing credentials (400), unknown email (404), failed password check (400) or the id of the matching user whose password checks |
| Accounts.SignupKeepsEmailsUnique | flight_booking_backend/flights/views.py:26-33 | sign-up keeps emails unique over the users table |
| Accounts.SignupStatusCodes | flight_booking_backend/flights/views.py:17-34 | 201 exactly when all fields are given and the email is new, 400 otherwise |
| Accounts.LoginStatusCodes | flight_booking_backend/flights/views.py:36-51 | 200 exactly when the password checks against the user with the email, 404 exactly for given credentials and an unknown email, 400 otherwise |
| Accounts.SignupThenLogin | flight_booking_backend/flights/views.py:17-51 | signing up and then logging in with the same email and password gives the id sign-up returned |
| Reservations.Select | flight_booking_backend/flights/views.py:145-146 | the seat query returns, in table order, exactly the positions of the seats it matches |
| Reservations.Picked | flight_booking_backend/flights/views.py:203-204 | the slice takes at most n positions, all of free seats of the flight, and takes fewer only when it took every free seat of the flight |
| Reservations.FirstBooked | flight_booking_backend/flights/views.py:152-154 | the seat check finds a booked seat among the selected ones, or confirms none is booked |
| Reservations.BookNamed | flight_booking_backend/flights/views.py:133-183 | the named-seat view either fails and leaves the database as it was, or creates the booking with the next id |
| Reservations.CreateBooking | flight_booking_backend/flights/views.py:186-229 | the generic view either fails and changes nothing, or creates the booking with the next id |
| Reservations.Cancel | flight_booking_backend/flights/views.py:243-267 | cancellation fails, changing nothing, exactly when the booking does not exist or is already cancelled |
| Reservations.MatchCount | flight_booking_backend/flights/views.py:145-149 | with unique seat numbers, the query matches as many seats as numbers were asked for exactly when no number repeats and every number is one of the flight's |
| Reservations.MatchedNumbers | flight_booking_backend/flights/views.py:145-146 | the seat numbers the query matches are exactly the requested numbers the flight has |
| Reservations.BookNamedRequiresFields | flight_booking_backend/flights/views.py:139-140 | a missing or zero user id, or an empty seat list, is refused and changes nothing |
| Reservations.BookNamedSeatsNotFound | flight_booking_backend/flights/views.py:145-149 | "some seats not found" exactly when a number is unknown to the flight or repeated |
| Reservations.BookNamedAlreadyBooked | flight_booking_backend/flights/views.py:152-154 | "seat x already booked" names a requested seat of the flight that is booked |
| Reservations.BookNamedRejectsBooked | flight_booking_backend/flights/views.py:145-158 | a request whose numbers all match one seat each but include a booked seat is refused as "already booked" with a booked requested seat, before the available-seats check |
| Reservations.BookNamedNotEnough | flight_booking_backend/flights/views.py:156-158 | "not enough seats" only when more seats are requested than the flight has available |
| Reservations.CommitSpec | flight_booking_backend/flights/views.py:161-180 | committing links exactly the chosen seats to the new confirmed booking (total = price × count, PNR assigned), changes no other seat, flight or user, and sets availability to max(0, available - n) |
| Reservations.BookNamedPath | flight_booking_backend/flights/views.py:134-183 | a successful named booking passed every check and equals the commit of the matched seats at the dynamic price |
| Reservations.BookNamedSuccess | flight_booking_backend/flights/views.py:156-180 | a successful named booking books exactly the requested seats of the flight, one per number; they were all free, at most the available count, priced at the dynamic price |
| Reservations.CommitValid | flight_booking_backend/flights/views.py:164-180 | committing seats of the flight for an existing user keeps the invariant (booked exactly when linked, links to confirmed bookings of the same flight, unique seat numbers, bookings naming existing users and flights) |
| Reservations.BookNamedValid | flight_booking_backend/flights/views.py:133-183 | the named-seat view keeps the invariant |
| Reservations.CreateBookingDelegates | flight_booking_backend/flights/views.py:194-199 | with seat numbers, the generic view answers exactly as the named-seat view once the user exists |
| Reservations.AutoPickOutcome | flight_booking_backend/flights/views.py:200-226 | auto-pick is a server error for a negative count, or for a flight with total_seats 0 once enough seats are free (so that pricing is reached); it fails when fewer seats are free than requested, and otherwise books |
| Reservations.AutoPickPath | flight_booking_backend/flights/views.py:200-229 | a successful auto-pick passed the count checks and equals the commit of the picked seats at the dynamic price |
| Reservations.PickedFirst | flight_booking_backend/flights/views.py:203-204 | when n seats are picked they are free seats of the flight, in table order, and every free seat left over comes after them |
| Reservations.AutoPickSuccess | flight_booking_backend/flights/views.py:200-229 | a successful auto-pick books the first n (default 1) free seats of the flight in table order, every leftover free seat coming after them, and commits them at the dynamic price |
| Reservations.CreateBookingValid | flight_booking_backend/flights/views.py:186-229 | the generic view keeps the invariant |
| Reservations.CancelSpec | flight_booking_backend/flights/views.py:245-267 | a successful cancel frees and unlinks exactly the seats linked to the booking (all booked seats of its flight), returns that many seats to the flight, marks it cancelled with its PNR kept and reported, and changes nothing else |
| Reservations.CancelValid | flight_booking_backend/flights/views.py:245-265 | cancellation keeps the invariant |
| Reservations.BookNamedStatus | flight_booking_backend/flights/views.py:133-183 | 201 on success; 404 exactly for a missing flight, or a missing user once both fields are given; 500 only when pricing a flight with total_seats 0; 400 for every other refusal |
| Reservations.CreateBookingStatus | flight_booking_backend/flights/views.py:186-229 | 201 on success; 404 exactly for a missing flight or user; 500 only for a negative auto-pick count or pricing a flight with total_seats 0; 400 otherwise |
| Reservations.CancelStatus | flight_booking_backend/flights/views.py:243-267 | 404 exactly for a missing booking, 400 exactly for a cancelled one, 200 exactly for a confirmed one |
| Reservations.CancelKeepsSeat | flight_booking_backend/flights/views.py:251-257 | after a cancel every seat is still booked exactly when linked, and linked only to a confirmed booking of its own flight |
| Reservations.CancelKeepsBookings | flight_booking_backend/flights/views.py:263-266 | after a cancel every booking still names an existing user and flight, and emails stay unique |
| Reservations.LinkedAfterBooking | flight_booking_backend/flights/views.py:172-176 | after a named booking the seats linked to it are exactly the seats it matched |
| Reservations.BookThenCancelSeats | flight_booking_backend/flights/views.py:251-257 | cancelling a booking just made gives every seat back exactly as it was |
| Reservations.CancelAfterCommit | flight_booking_backend/flights/views.py:259-265 | cancelling right after a commit restores the flight's availability and leaves users and older bookings as they were |
| Reservations.CancelAfterCommitFlights | flight_booking_backend/flights/views.py:259-262 | cancelling right after a commit gives every flight back its availability as before the commit |
| Reservations.CancelAfterCommitBookings | flight_booking_backend/flights/views.py:263-267 | cancelling right after a commit succeeds, keeps the users and older bookings, and leaves the new booking cancelled |
| Reservations.BookThenCancelRest | flight_booking_backend/flights/views.py:259-267 | after a named booking and its cancel, flights and users are restored and the booking is kept, cancelled |
| Reservations.BookThenCancel | flight_booking_backend/flights/views.py:133-267 | a named booking followed by its cancel succeeds, keeps the invariant and restores every seat and flight; the only trace is the cancelled booking |
| Backend.LinkSeats | flight_booking_backend/flights/views.py:173-176 | the marking loop books each selected seat, links it to the booking, and leaves the others |
| Backend.FreeSeats | flight_booking_backend/flights/views.py:251-257 | the freeing loop unbooks and unlinks each linked seat and counts exactly as many |
| Backend.AddFlightValid | flight_booking_backend/flights/signals.py:7-24 | adding a flight with the seats the hook creates keeps the invariant, including unique seat numbers |
| Backend.Database.Signup | flight_booking_backend/flights/views.py:17-34 | the users table becomes what sign-up describes, the other tables stay, and the invariant holds |
| Backend.Database.AddFlight | flight_booking_backend/flights/signals.py:7-24 | the flight is appended and exactly max(0, total_seats) generated seats follow the old ones |
| Backend.Database.SaveBooking | flight_booking_backend/flights/models.py:94-107 | the booking row is written with a PNR filled in only when missing; nothing else changes |
| Backend.Database.Commit | flight_booking_backend/flights/views.py:161-180 | the tables become exactly the commit of the chosen seats |
| Backend.Database.Release | flight_booking_backend/flights/views.py:251-266 | the tables become exactly those of a successful cancel: the linked seats freed, their count returned to the flight, the booking cancelled |
| Backend.Database.FindBooked | flight_booking_backend/flights/views.py:152-154 | the checking loop returns the first booked seat among the selected ones, if any |
| Backend.Database.BookSeats | flight_booking_backend/flights/views.py:133-183 | response and new tables are those of the named-seat view; the invariant is kept |
| Backend.Database.CreateBooking | flight_booking_backend/flights/views.py:186-229 | response and new tables are those of the generic view; the invariant is kept |
| Backend.Database.CancelBooking | flight_booking_backend/flights/views.py:243-267 | response and new tables are those of the cancel view; the invariant is kept |
| SeatMap.SortSeats | flight-booking-frontend/src/pages/SeatSelection.js:35-37 | the sort keeps exactly the fetched seats, each as often |
| SeatMap.NumberValue | flight-booking-frontend/src/pages/SeatSelection.js:36 | Number() of a seat number is NaN exactly when it holds a non-digit character, and the text of a natural number reads back as that number |
| SeatMap.SortSeatsNumeric | flight-booking-frontend/src/pages/SeatSelection.js:35-37 | when every seat number is a digit string the seats come out in ascending numeric order |
| SeatMap.SortSeatsNonNumeric | flight-booking-frontend/src/pages/SeatSelection.js:35-37 | when no seat number is a digit string every comparison is NaN and the fetched order is kept |
| SeatMap.GeneratedNameNotNumeric | flight_booking_backend/flights/signals.py:20 | Number() of a generated seat name is NaN |
| SeatMap.GroupRows | flight-booking-frontend/src/pages/SeatSelection.js:132-137 | the grouping loop makes rows 1 to ceil(n/6), row r holding the seats at positions 6(r-1) up to min(6r, n) in list order, keys in creation order |
| SeatMap.FiledSpec | flight-booking-frontend/src/pages/SeatSelection.js:132-137 | after the first n seats are filed, the rows begun are those starting before position n and each holds its seats up to position n in list order |
| SeatMap.SortedRowKeys | flight-booking-frontend/src/pages/SeatSelection.js:138 | sorting the row keys numerically leaves them 1, 2, ... |
| SeatMap.Slice | flight-booking-frontend/src/pages/SeatSelection.js:189-190 | slice(a, b) holds the elements from a up to the smaller of b and the length |
| SeatMap.Split | flight-booking-frontend/src/pages/SeatSelection.js:189-190 | the left part holds min(3, n) seats and the right part the next up to 3; a row of at most six seats is the left part followed by the right part |
| SeatMap.Layout | flight-booking-frontend/src/pages/SeatSelection.js:186-190 | one drawn row per key, each showing its whole row (left then right) when the row holds at most six seats |
| SeatMap.LayoutShowsAll | flight-booking-frontend/src/pages/SeatSelection.js:186-190 | drawing the first k rows shows the seats up to position min(6k, n), in order |
| SeatMap.LayoutRows | flight-booking-frontend/src/pages/SeatSelection.js:132-190 | drawn row i shows the seats at positions 6i up to min(6i + 6, n), split three and three |
| SeatMap.LayoutShowsSeats | flight-booking-frontend/src/pages/SeatSelection.js:132-190 | reading the drawn rows left then right gives back the seat list: nothing dropped, repeated or moved |
| SeatMap.RowSizes | flight-booking-frontend/src/pages/SeatSelection.js:132-137 | every row but the last shows three seats each side; the last has one to six seats |
| SeatSelection.Without | flight-booking-frontend/src/pages/SeatSelection.js:54 | the filter keeps exactly the other numbers |
| SeatSelection.Toggled | flight-booking-frontend/src/pages/SeatSelection.js:51-62 | a click changes at most the clicked seat's membership of the selection, and a click that warns changes nothing |
| SeatSelection.WithoutAt | flight-booking-frontend/src/pages/SeatSelection.js:53-54 | removing a selected number takes out its one position and keeps the others in order |
| SeatSelection.ToggleCases | flight-booking-frontend/src/pages/SeatSelection.js:51-62 | a booked seat changes nothing; a selected seat is removed with the rest kept in order; a new seat on a full selection warns and changes nothing; otherwise it is appended |
| SeatSelection.ToggleKeeps | flight-booking-frontend/src/pages/SeatSelection.js:51-62 | a click keeps the selection duplicate-free, and a selection within the seat count stays within it |
| SeatSelection.ToggleTwice | flight-booking-frontend/src/pages/SeatSelection.js:53-60 | selecting a free seat and clicking it again restores the selection |
| SeatSelection.ClampSeatCount | flight-booking-frontend/src/pages/SeatSelection.js:171-178 | the count is the value in 1..max(1, A) closest to the input (A = available seats, or 1 when zero or no flight), and the input itself when it lies in 1..A |
| SeatSelection.SeatLimit | flight-booking-frontend/src/pages/SeatSelection.js:175 | the limit is never zero, and is the flight's available seats unless it is the fallback 1 |
| SeatSelection.ToggleTotal | flight-booking-frontend/src/pages/SeatSelection.js:141 | adding a seat adds one ticket price to the total, removing one takes it off, other clicks leave it |
| SeatSelection.ToggleLength | flight-booking-frontend/src/pages/SeatSelection.js:51-62 | adding a seat lengthens the selection by one, removing one shortens it by one, other clicks keep its length |
| SeatSelection.TotalPrice | flight-booking-frontend/src/pages/SeatSelection.js:141 | the total is 0 with no selection or no flight, and never negative for a non-negative price |
| SeatSelection.ErrorText | flight-booking-frontend/src/pages/SeatSelection.js:124 | the alert shows the server's error text when there is one, else "Booking failed" |
| SeatSelection.Request | flight-booking-frontend/src/pages/SeatSelection.js:66-81 | a booking request is sent exactly when seats are selected and a user id is stored; it carries that id and the selection in click order |
| SeatSelection.ConfirmOutcome | flight-booking-frontend/src/pages/SeatSelection.js:65-124 | empty selection and missing login are caught first; the payment popup opens exactly when both calls succeed; otherwise the first failure's text is shown |
| SeatSelection.ConfirmWithoutOrderRoute | flight-booking-frontend/src/pages/SeatSelection.js:86-89 | when the order call fails without an error text, a successful booking still ends in "Booking failed" |
| SeatSelection.SeatSelectionPage.constructor | flight-booking-frontend/src/pages/SeatSelection.js:14-20 | the page starts with no flight, no seats, loading, one seat to book and nothing selected |
| SeatSelection.SeatSelectionPage.Load | flight-booking-frontend/src/pages/SeatSelection.js:24-48 | the flight is stored, then the seats sorted; a failed fetch keeps what was already set; loading ends either way |
| SeatSelection.SeatSelectionPage.ToggleSeat | flight-booking-frontend/src/pages/SeatSelection.js:51-62 | the selection becomes the toggled one and the warning is raised exactly when the toggle refuses; nothing else changes |
| SeatSelection.SeatSelectionPage.ChangeSeatCount | flight-booking-frontend/src/pages/SeatSelection.js:171-178 | the seat count becomes the clamped input; the selection is left as it is |
| SeatSelection.SeatSelectionPage.HandleConfirm | flight-booking-frontend/src/pages/SeatSelection.js:65-129 | the outcome and request are those of the guards and calls; only a failure changes state, replacing the seat list by the refreshed one unsorted and leaving the selection |
| SeatSelection.SeatSelectionPage.Grid | flight-booking-frontend/src/pages/SeatSelection.js:131-190 | the grid has ceil(n/6) rows; row i shows the seats at positions 6i up to min(6i + 6, n), the first three left of the aisle and the rest right of it; read in order it shows every seat once, in list order |
| Sorting.Sort | flight_booking_backend/flights/views.py:99-110 | ordering keeps exactly the input elements, each as often |
| Sorting.SortSorted | flight_booking_backend/flights/views.py:99-110 | under a strict weak order the result has no element ahead of one it should follow |
| Sorting.SortKeepsSorted | flight-booking-frontend/src/pages/SeatSelection.js:35-37 | an input already in order, NaN comparisons included, is left as it is |

## Left out

- Floating point: `float(base_price)`, `round(price, 2)` and `toFixed(2)` are not modelled. Prices
  are exact reals, and nothing is claimed about rounding.
- Dates and clocks: `datetime.now()`, `fromisoformat` and day arithmetic are not modelled. The days
  before departure and the parsed date filter (`DateParam`) are inputs. A day is the range
  from its first second to 23:59:59.
- Password hashing: `make_password` becomes a given hash, and `check_password` a given predicate.
- Random PNRs: `uuid.uuid4()` becomes a given 32-digit lower-case hex string.
  - The database's uniqueness of PNRs is not modelled, because a collision of random UUID
    prefixes is outside the model.
  - `utils.py`'s PNR generator is not used by the core.
- Payments: the payment views, the Razorpay popup, its handler and the navigation after it are not
  modelled. The page's order call appears only as the outcome `order`.
- Concurrency: `select_for_update` row locking and interleaved requests are not modelled. Each view
  is one atomic step on the database value.
- Request parsing: a non-numeric `user_id` or `seats_booked` string is not modelled. Both raise in
  the source. The model takes them as (optional) integers.
- `Reservations.BookNamed`: the success response is reduced to the new booking's id, and the
  serializer's fields are not modelled.
- `Reservations.Cancel`: the `cancelled_at` timestamp is not modelled.
- Unmodelled fields: the role, `created_at`, `booking_time`, airline and arrival fields.
- Deleting rows is not modelled. Ids are positions from 1.
- Unordered queries: the seat queries of the named-seat view (`views.py:145-146`) and of the
  auto-pick branch (`views.py:203-204`) have no `order_by`, so the database may return their
  rows in any order. `Reservations.Select` fixes one admissible order, table order, and so
  `Reservations.Picked`, `Reservations.PickedFirst`, `Reservations.AutoPickSuccess` and
  `Reservations.FirstBooked` describe that order. Another order could auto-pick different
  free seats or name a different booked seat in the 400 answer.
- Null durations: `FlightSearch.DurationLess` sorts a flight without a duration before every
  other when ascending and after every other when descending. That is SQLite's rule;
  PostgreSQL, for one, puts nulls last when ascending. `FlightSearch.ListFlightsOrder` states
  the SQLite order.
- Case folding: `FlightSearch.IExact` (through `FlightSearch.FoldChar`) folds the case of ASCII
  letters only, as SQLite's case-insensitive match does. A backend that folds other letters
  would match more flights.
- Ties: `Sorting.Sort` is stable, so flights that tie under the chosen order keep their table
  order (`FlightSearch.ListFlights`). SQL promises no order among ties; the model fixes one
  admissible order.
- `SeatListView`'s `order_by('seat_number')` is not modelled. The page's seat list is an input.
- `SeatMap.SortSeats`: the order is stated only when every seat number is a digit string, or when
  none is. A mix of numeric and NaN keys has no consistent order in JavaScript; the model fixes
  one stable order and proves only the permutation for it.
- `SeatMap.NumberValue`: only strings of decimal digits count as numbers, the empty string
  being 0. Signs, decimal points, exponents, surrounding white space and hex forms, which
  `Number()` also reads, count as NaN here.
- `SeatSelection.ClampSeatCount`: the input is an integer. A fractional, empty or NaN input
  value is not modelled.
- Rendering is not modelled: the markup, CSS classes, `padStart`, the loading screen, `alert`,
  `console.error` and navigation. The page methods return the alert or navigation as a result.
- Serializers, URL configuration, admin and the other pages are framework wiring and UI. They are
  not part of this model. Serializers price flights with `dynamic_price()` and no date, which is
  `DynamicPrice(f, None)`.
