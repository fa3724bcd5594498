# TicketService seat allocation, in Dafny

This project models the seat-allocation core of the TicketService venue:
- the seats of a row and the rule that decides whether a seat is available at a given time;
- how a row holds a group of seats for a customer and how a customer then buys held seats, all or nothing;
- how the venue picks a row for a hold, numbers the holds and hands them to the tracker of holds;
- the tracker itself: a map from hold id to hold, with lazy expiry on lookup and a cleanup pass triggered at 80% of its capacity.

Each source class is modelled in the source's own form:
- `Seat` is a Dafny class whose setters change its fields in place (`seat.dfy`).
- `SeatRow` is a class over those seat objects (`seat_row.dfy`). Each of its methods is proved to change the seats exactly as the functions of module `RowSpec` say (`seat_row_spec.dfy`). Those functions work on a row's seats as values, and the row's properties are proved about them as lemmas.
- `HeldSeatsTracker` is a class whose map field is updated in place (`held_seats_tracker.dfy`). It comes with the map functions `Unexpired` and `AfterAdd` that specify it.
- `VenueSeating` is a class over the rows, the hold-id counter and the tracker (`venue_seating.dfy`).
- `SeatId` and `SeatHold` are immutable values, so they are datatypes (`seat_id.dfy`, `seat_hold.dfy`).

The loop of `holdSeatsAfterLockAcquired` counts available seats and, where the count first reaches `n`, marks the window and returns from inside the loop. The model splits it into the counting scan (`ScanForWindow`) and the marking (`HoldEndingAt`, whose inner loop is `HoldWindow`). The marking runs exactly when the source's loop would return from inside, so the outcome is the same.

Time is an integer number of seconds:
- `plusSeconds` becomes `+`;
- `isBefore` becomes `<`;
- each call of the clock becomes a parameter.

The row and tracker locks are not modelled. Every operation runs as if it held its lock. The outcome of a row's try-lock is an argument (`wasAcquired`, or `acquired[r]` for the venue).

Where the program's own comments and names say one thing and its code does another, the model follows the code:
- **The running count is never reset.** The hold's comment says customers want to sit together (src/ticket/service/data/SeatRow.java:81-86), and the counter is named `numAvailableAdjacentSeats` (src/ticket/service/data/SeatRow.java:172). But the loop never resets that count on an unavailable seat (src/ticket/service/data/SeatRow.java:172-178). So for `n >= 1`, a hold of `n` seats succeeds exactly when the row has at least `n` available seats anywhere (`RowSpec.HoldSucceedsIff`). A hold of 0 seats succeeds, returning no ids, exactly when the row has a seat 0 and that seat is unavailable (`RowSpec.ZeroSeatHold`). The window it marks is the `n` positions ending where the count first reaches `n`. That window can include sold seats or another customer's live hold, as `RowSpec.HoldMayCoverReservedSeat` and `RowSpec.HoldMayTakeOverLiveHold` show.
- **A hold can overwrite a buyer's email.** The seat's comment says that once a seat is sold, `lastHeldBy` is the email of its buyer (src/ticket/service/data/Seat.java:30-32). A hold whose window covers a sold seat sets that seat's `lastHeldBy` to the new customer (src/ticket/service/data/SeatRow.java:183-185). The seat stays sold, but it no longer names its buyer (`RowSpec.HoldMayCoverReservedSeat`).
- **Hold ids are never reused.** The constructor's comment says ids can be reused after they expire (src/ticket/service/VenueSeating.java:36-38). The code only ever increments the counter (`Venue.VenueSeating.BuildSeatHold`).
- **A row does not check expiry when selling.** A comment in `reserveSeats` says a sale can be invalid if the hold expired while it was going on (src/ticket/service/VenueSeating.java:154-156). The row checks only that each seat is unsold and was last held by the buyer (`RowSpec.CanReserve`). Expiry is checked only by the tracker lookup before the row is asked.

What the code does besides:
- **Ids come back in descending order.** A hold returns the window's rightmost seat first (`RowSpec.HeldSeatsAreTheWindow`).
- **A hold stays valid at the instant it ends.** Both the seat and the tracker treat a hold as still in force at its end time, since they test `heldUntil < time` (`RowSpec.HeldThroughExpiry`, `Tracker.HeldSeatsTracker.GetSeatHold`).

## Model

| member | source | states |
|---|---|---|
| Seats.Seat.constructor | src/ticket/service/data/Seat.java:17-35 | a seat is built with the given id, reservation flag, hold end and last holder (None for the builder's null) |
| Seats.Seat.SetReserved | src/ticket/service/data/Seat.java:21-23 | only `isReserved` changes; the id and the other fields are kept |
| Seats.Seat.SetHeldUntil | src/ticket/service/data/Seat.java:25-28 | only `heldUntil` changes |
| Seats.Seat.SetLastHeldBy | src/ticket/service/data/Seat.java:30-34 | only `lastHeldBy` changes |
| SeatIds.EqualityByValue | src/ticket/service/data/SeatId.java:14-18 | two seat ids are equal exactly when both row and seat numbers are equal, so a rebuilt id finds the same seat and an id of another row is a different key |
| RowSpec.IsSeatAvailable | src/ticket/service/data/SeatRow.java:65-79 | a sold seat is never available, and a seat whose hold ends at or after `time` is not available at `time` |
| RowSpec.HeldThroughExpiry | src/ticket/service/data/SeatRow.java:65-79 | a held seat is available at `time` iff it is unsold and its hold ended strictly before `time`; at the instant the hold ends it is still unavailable |
| RowSpec.NeverHeldAvailable | src/ticket/service/data/SeatRow.java:66-70 | a seat that was never held is available exactly while it is unsold |
| RowSpec.CountAvailable | src/ticket/service/data/SeatRow.java:48-56 | the row's count of available seats lies between 0 and the number of seats |
| RowSpec.ReservedNeverCounted | src/ticket/service/data/SeatRow.java:48-56 | available seats and sold seats together never exceed the row: a sold seat is never counted as available |
| RowSpec.CountGrowsWithTime | src/ticket/service/data/SeatRow.java:65-79 | holds only expire: the count at a later time is never smaller |
| RowSpec.ReachFrom | src/ticket/service/data/SeatRow.java:172-178 | the scan from position `i`, with the running count so far, stops at the first later position where the count of available seats equals `n`, or finds none |
| RowSpec.WindowEnd | src/ticket/service/data/SeatRow.java:172-178 | where the hold's scan stops: the least `k` with exactly `n` available seats in positions `0..k`; then `n <= k + 1`, so the window lies inside the row |
| RowSpec.Hold | src/ticket/service/data/SeatRow.java:169-193 | a hold keeps the row's length, every seat id and every reservation; it returns exactly `n` ids when it succeeds and changes nothing when it fails |
| RowSpec.HoldSucceedsIff | src/ticket/service/data/SeatRow.java:172-192 | for `n >= 1` a hold succeeds iff the row has at least `n` available seats in total; more seats than the row has are never held |
| RowSpec.ZeroSeatHold | src/ticket/service/data/SeatRow.java:172-192 | a hold of 0 seats returns an empty list when the first seat is unavailable, else nothing; it changes no seat |
| RowSpec.HeldSeatsAreTheWindow | src/ticket/service/data/SeatRow.java:179-188 | the returned ids are those of the `n` seats ending at the scan's stop, rightmost first; exactly those seats get the hold's end time and the customer's email, and every other seat is unchanged |
| RowSpec.WindowEndWasAvailable | src/ticket/service/data/SeatRow.java:175-178 | the seat where the count reached `n >= 1` was available |
| RowSpec.HoldTakesBetweenOneAndNSeats | src/ticket/service/data/SeatRow.java:169-193 | a successful hold of `n >= 1` seats lowers the row's count at the hold's time by at least 1 and at most `n` |
| RowSpec.PackedHold | src/ticket/service/data/SeatRow.java:169-193 | in a row taken up to position `j` and free after it, a hold takes exactly seats `j .. j + n - 1` and leaves the row taken up to `j + n` |
| RowSpec.HolderCanReserve | src/ticket/service/data/SeatRow.java:233-250 | when no seat of the window was sold, the customer who got the hold can buy the ids returned |
| RowSpec.HoldMayCoverReservedSeat | src/ticket/service/data/SeatRow.java:172-187 | in the row free, sold to "b", free, a hold of two seats by "a" returns seats 2 and 1 and leaves seat 0 free; the holder cannot buy them, and the sold seat now names "a" as its last holder |
| RowSpec.HoldMayTakeOverLiveHold | src/ticket/service/data/SeatRow.java:172-187 | a hold can overwrite another customer's unexpired hold; that customer can buy the seat before and cannot afterwards |
| RowSpec.Find | src/ticket/service/data/SeatRow.java:236-240 | the lookup by id gives a position holding that id, or reports that no seat of the row has it |
| RowSpec.Reserve | src/ticket/service/data/SeatRow.java:214-217 | the selling loop marks sold exactly the listed seats and changes no other field of any seat |
| RowSpec.CanReserve | src/ticket/service/data/SeatRow.java:236-246 | an id passes the check only if a seat of this row carries it, is unsold and was last held by the buyer; an id that no seat of the row carries fails |
| RowSpec.Reservable | src/ticket/service/data/SeatRow.java:233-250 | an empty list passes; a list that passes names only seats of this row |
| RowSpec.ReserveAll | src/ticket/service/data/SeatRow.java:202-224 | all or nothing: the seats change only when the whole list passes the check, and then exactly the listed seats become sold; no other field of any seat changes |
| RowSpec.ReservableIff | src/ticket/service/data/SeatRow.java:233-250 | in both directions: the ids pass the check iff each names an unsold seat of this row last held by the buyer |
| RowSpec.EmptyIsReservable | src/ticket/service/data/SeatRow.java:233-250 | an empty id list passes the check and the reservation changes nothing |
| RowSpec.WrongRowRefused | tst/ticket/service/data/SeatRowTest.java:102-116 | an id naming another row makes the reservation fail |
| RowSpec.NotHolderRefused | tst/ticket/service/data/SeatRowTest.java:118-139 | a seat already sold, held by someone else or never held makes the reservation fail |
| RowSpec.ReservedByPurchaser | src/ticket/service/data/SeatRow.java:241-246 | after a sale every listed seat is sold and its last holder is the buyer |
| RowSpec.SecondReservationRefused | src/ticket/service/data/SeatRow.java:241-246 | reserving the same non-empty list again fails, whoever asks |
| RowSpec.ReservedStaysUnavailable | src/ticket/service/data/SeatRow.java:214-217 | a sold seat stays unavailable at every later time, whatever later holds and reservations do |
| RowSpec.HoldGroupStep | src/ticket/service/data/SeatRow.java:169-193 | on a fresh row filled up to `j`, the next hold takes the `n` seats after `j`, sells none, and names them rightmost first |
| RowSpec.MarkGroup | src/ticket/service/data/SeatRow.java:179-188 | marking the `n` seats after the first `j` of a fresh row taken up to `j` takes it up to `j + n`, keeps every reservation and records the customer on those seats |
| RowSpec.GroupSale | src/ticket/service/data/SeatRow.java:214-217 | selling the ids of the `n` seats after the first `j` adds exactly `n` sold seats, and none of the ids names a seat after them |
| RowSpec.SellGroupStep | src/ticket/service/data/SeatRow.java:202-224 | buying a group just held succeeds and adds exactly `n` sold seats |
| RowSpec.NextGroup | tst/ticket/service/data/SeatRowTest.java:80-100 | one more hold of `n` seats on a row taken up to `j` takes it up to `j + n`, and adds `n` sold seats exactly when the group is bought |
| RowSpec.HoldGroupsFill | tst/ticket/service/data/SeatRowTest.java:80-100 | after `g` holds of `n` seats with every other group bought, the covered seats are taken and exactly the bought groups are sold |
| RowSpec.HoldGroupsCounts | tst/ticket/service/data/SeatRowTest.java:80-100 | when the groups fill the row, no seat is available at the hold time and, once the holds expire, exactly the unsold seats are |
| RowSpec.HundredSeatScenario | tst/ticket/service/data/SeatRowTest.java:80-100 | on a fresh row of 100 seats: 100 available, then 20 holds of 5 with every other group bought leave 0 available and 50 after expiry |
| Rows.IndexOf | src/ticket/service/data/SeatRow.java:30-37 | the index maps every seat's id to a seat of the row carrying that id |
| Rows.IndexHoldsLastSeat | src/ticket/service/data/SeatRow.java:33-35 | the index maps an id to the last seat carrying it, because later puts replace earlier ones |
| Rows.SeatRow.constructor | src/ticket/service/data/SeatRow.java:30-37 | the row keeps its seats and builds the index by putting each seat in turn; with distinct ids the index maps each seat's id to that seat |
| Rows.SeatRow.IndexAgreesWithFind | src/ticket/service/data/SeatRow.java:236-240 | a lookup in the index finds a seat iff the row has a seat with that id, and finds that seat |
| Rows.SeatRow.NumSeatsAvailable | src/ticket/service/data/SeatRow.java:48-56 | the loop returns `CountAvailable` of the row at `time` |
| Rows.SeatRow.HoldSeatsAfterLockAcquired | src/ticket/service/data/SeatRow.java:169-193 | the scan followed by the marking returns the ids and leaves the seats exactly as `Hold` says; when the scan finds no stop, nothing is returned and no seat changes |
| Rows.SeatRow.ScanForWindow | src/ticket/service/data/SeatRow.java:172-178 | the counting loop stops exactly where `WindowEnd` says, the first seat at which the running count of available seats equals `n`, or finds no such seat |
| Rows.SeatRow.HoldEndingAt | src/ticket/service/data/SeatRow.java:179-188 | once the scan has stopped at `k`, the hold succeeds, returns the ids `Hold` gives and leaves the seats as `Hold` gives them |
| Rows.SeatRow.HoldWindow | src/ticket/service/data/SeatRow.java:182-187 | walking left from the stop position marks `n` seats held and collects their ids in the order visited |
| Rows.SeatRow.HoldSeatsNonBlocking | src/ticket/service/data/SeatRow.java:98-112 | a failed try-lock returns nothing and changes no seat; otherwise it behaves like the blocking hold |
| Rows.SeatRow.HoldSeatsBlocking | src/ticket/service/data/SeatRow.java:135-151 | the ids and new seats are those of `Hold` |
| Rows.SeatRow.VerifySeatsAreReservable | src/ticket/service/data/SeatRow.java:233-250 | the early-exit loop returns true iff every id passes the check |
| Rows.SeatRow.ReserveSeatsBlocking | src/ticket/service/data/SeatRow.java:202-224 | all or nothing: returns whether the ids pass the check, and the seats become `Reserve` of the old seats when they do and stay unchanged otherwise |
| Tracker.Live | src/ticket/service/HeldSeatsTracker.java:64 | only a stored hold is live, and a stored hold is live at every time up to and including its end |
| Tracker.CleanupDue | src/ticket/service/HeldSeatsTracker.java:44 | the integer trigger agrees with `size >= maxSeatsToHold * .8` in exact real arithmetic |
| Tracker.Unexpired | src/ticket/service/HeldSeatsTracker.java:93-99 | cleanup keeps exactly the entries whose hold has not ended before the cleanup time, each with its value |
| Tracker.AfterAdd | src/ticket/service/HeldSeatsTracker.java:39-48 | after an add the hold is stored under its id, replacing any earlier entry; another entry survives iff it was there and either no cleanup was due or it had not expired |
| Tracker.PlainInsertBelowThreshold | src/ticket/service/HeldSeatsTracker.java:44-47 | below 80% of the maximum an add is a plain insertion |
| Tracker.CleanupShrinks | src/ticket/service/HeldSeatsTracker.java:93-99 | cleanup never makes the map larger |
| Tracker.CleanupInvisibleToLookups | src/ticket/service/HeldSeatsTracker.java:57-70 | a lookup at or after the cleanup time sees the same live holds, with the same values, as before the cleanup |
| Tracker.MayExceedMaximum | src/ticket/service/HeldSeatsTracker.java:44-47 | insertion is never refused: with a maximum of 1 and a live entry, a second add leaves two entries |
| Tracker.CleanupReclaimsExpired | src/ticket/service/HeldSeatsTracker.java:44-47 | at the threshold with every entry expired, an add leaves only the new hold |
| Tracker.AddLiveHolds | src/ticket/service/HeldSeatsTracker.java:39-48 | while nothing has expired, adding holds with new distinct ids grows the map by one per hold |
| Tracker.CleanupBeforeInsertScenario | tst/ticket/service/HeldSeatsTrackerTest.java:55-82 | with a maximum of 5: five holds fill the map; five more added after those expired leave exactly five entries |
| Tracker.HeldSeatsTracker.constructor | src/ticket/service/HeldSeatsTracker.java:31-37 | the tracker starts from the given map and maximum |
| Tracker.HeldSeatsTracker.AddSeatHold | src/ticket/service/HeldSeatsTracker.java:39-48 | the new map is `AfterAdd` of the old one |
| Tracker.HeldSeatsTracker.GetSeatHold | src/ticket/service/HeldSeatsTracker.java:57-70 | returns the stored hold iff it is present and has not ended before `time`, so a hold is still returned at its end time; else None |
| Tracker.HeldSeatsTracker.Cleanup | src/ticket/service/HeldSeatsTracker.java:93-104 | the removal loop leaves exactly `Unexpired` of the old map |
| Venue.SumAvailable | src/ticket/service/VenueSeating.java:69-77 | the venue's count, the sum of the rows' counts, never exceeds the venue's number of seats |
| Venue.SumAfterRowChange | src/ticket/service/VenueSeating.java:69-77 | changing one row changes the venue's count by exactly that row's change |
| Venue.VenueHoldTakesBetweenOneAndNSeats | src/ticket/service/VenueSeating.java:85-117 | a hold of `n >= 1` seats lowers the venue's count by at least 1 and at most `n` |
| Venue.FirstHoldableFrom | src/ticket/service/VenueSeating.java:93-100 | the first eligible row from `i` on whose hold would succeed; no earlier eligible row could hold |
| Venue.ChosenRow | src/ticket/service/VenueSeating.java:93-116 | a chosen row is a row of the venue that can hold the seats; when no row is chosen, no row can hold them, so no row is chosen exactly when none can |
| Venue.ChosenRowIff | src/ticket/service/VenueSeating.java:93-116 | the chosen row can hold the seats; for `n >= 1` no row is chosen iff every row has fewer than `n` available seats |
| Venue.ChosenRowIsLowest | src/ticket/service/VenueSeating.java:93-100 | with every try-lock successful, the chosen row is the lowest row that can hold the seats |
| Venue.NoHoldLargerThanARow | src/ticket/service/VenueSeating.java:85-117 | holds never span rows: when every row is shorter than the request, no row is chosen |
| Venue.TwoPasses | src/ticket/service/VenueSeating.java:93-116 | the non-blocking pass followed, when it fails, by the blocking pass holds in the chosen row or changes nothing |
| Venue.HeldIdsNameTheRow | src/ticket/service/VenueSeating.java:149-152 | every id of a hold names the row it came from, which is what reading only the first id's row relies on |
| Venue.VenueSeating.constructor | src/ticket/service/VenueSeating.java:42-49 | the venue keeps its rows, hold time, counter and tracker; it is well formed when its rows are and every tracked id is below the counter |
| Venue.VenueSeating.NumSeatsAvailable | src/ticket/service/VenueSeating.java:69-77 | the venue's count is the sum of the rows' counts |
| Venue.VenueSeating.BuildSeatHold | src/ticket/service/VenueSeating.java:128-135 | the hold gets the counter's value as its id, which no tracked hold has; the counter advances by one and the tracker stores the hold |
| Venue.VenueSeating.HoldInRow | src/ticket/service/VenueSeating.java:94-112 | one row tries the hold, blocking or not, and no other row changes |
| Venue.VenueSeating.HoldWithoutWaiting | src/ticket/service/VenueSeating.java:93-100 | the first pass holds in the first row whose try-lock succeeded and whose hold succeeds; earlier rows are untouched; with no such row nothing changes |
| Venue.VenueSeating.HoldWaiting | src/ticket/service/VenueSeating.java:105-112 | the second pass holds in the first row whose hold succeeds, or changes nothing |
| Venue.VenueSeating.HoldInChosenRow | src/ticket/service/VenueSeating.java:93-116 | the two passes together hold in the chosen row and change no other row |
| Venue.VenueSeating.FindAndHoldSeats | src/ticket/service/VenueSeating.java:85-117 | with no row chosen nothing changes and None is returned; otherwise the chosen row holds the seats, the hold has the old counter as its id, ends at `holdTime + secondsToHoldSeats`, names one row, and is stored in the tracker |
| Venue.VenueSeating.ReserveSeats | src/ticket/service/VenueSeating.java:143-166 | Fail with no change when the lookup finds no live hold; OutOfBounds when the hold has no ids or names a missing row; otherwise Success iff that row accepts the whole sale, the row becoming `ReserveAll` of its old seats |

## Left out

- Locks and threads. The row semaphores, the try-lock/acquire calls and the threads are not modelled; every operation runs sequentially. The try-lock outcome is a parameter.
- InterruptedException. The rethrow of `InterruptedException` as a `RuntimeException` is not modelled.
- Tracker.HeldSeatsTracker.AddSeatHold: this is weaker than the source in timing. The source starts cleanup on a background thread, and only when no other cleanup is in flight; the put does not wait for it. The model runs the cleanup before the put, every time it is due. The single-flight `cleanupSemaphore` is not modelled.
- Tracker.CleanupDue: the source compares the size with `maxSeatsToHold * .8` in floating point. The model uses the integer test `5 * size >= 4 * maxSeatsToHold`. Floating-point rounding of the product is not modelled.
- Clock and time. Each `ZonedDateTime.now()` call is a time parameter, and time is a whole number of seconds. The zero-argument `numSeatsAvailable()` only reads the clock and calls the modelled one.
- Hold-id counter. `AtomicInteger` is an unbounded `int`, so its 32-bit wrap-around is not modelled.
- Null email. A customer email is a string, never null. The source would let a null email "buy" a never-held seat, since `Objects.equals(null, null)` is true; the model does not capture this.
- SeatHold null checks. The `@NonNull` checks of the `SeatHold` builder cannot fail in the model: its fields are not nullable.
- ReserveSeats exceptions. `ReserveSeats` returns `OutOfBounds` where the source throws an unchecked exception: either the hold has no seat ids, or the first id names a row outside the array (negative included).
- Rows.SeatRow.HoldSeatsAfterLockAcquired, Rows.SeatRow.VerifySeatsAreReservable and Rows.SeatRow.ReserveSeatsBlocking: these require the row's seat ids to be distinct (`Valid`). The source does not demand this. With duplicate ids its index keeps the last seat (`Rows.IndexHoldsLastSeat`), and the model leaves that case out.
- Rows.SeatRow.HoldSeatsNonBlocking, Rows.SeatRow.HoldSeatsBlocking, Rows.SeatRow.HoldEndingAt and Rows.SeatRow.HoldWindow: the same distinct-ids requirement.
- Venue.VenueSeating.HoldInRow, Venue.VenueSeating.HoldWithoutWaiting, Venue.VenueSeating.HoldWaiting, Venue.VenueSeating.HoldInChosenRow and Venue.VenueSeating.ReserveSeats: these require every seat of row `r` to carry row number `r`, as the venue's wiring builds it. The source does not check this.
- Venue.VenueSeating.BuildSeatHold and Venue.VenueSeating.FindAndHoldSeats: these require the venue invariant that every tracked hold id is below the counter. The invariant is what makes the "id never used before" clause provable.
- Rows and seat list as constants. The row array and each row's seat list never change in the source, so they are constant sequences; only the seat objects change.
- Rows.SeatRow.NumSeatsAvailable: the source's count may be inexact under concurrent holds. Sequentially it is exact, and the model states the exact count.
- The wiring and the demo. The Guice wiring (src/main/ServiceModule.java), the command-line demo (src/main/Launcher.java) and the `TicketService` interface are not part of this model.
- Lombok-generated code. The builders, `toString` and `hashCode` are not modelled; value equality is that of Dafny datatypes.
- Concurrency tests. The tests that depend on thread races and `Thread.sleep` are left out: tst/ticket/service/data/SeatRowTest.java:39-55 and the integration test.
- RowSpec.HundredSeatScenario: the scenario test gives each thread its own `now()`; the lemma uses one time for every hold and one later time for the check after expiry.
- The all-blocking-holds test (tst/ticket/service/data/SeatRowTest.java:57-74) has no lemma of its own. `RowSpec.HoldGroupsCounts` covers the same row filled by holds, with half of the groups also bought.
