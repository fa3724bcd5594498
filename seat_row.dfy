/**
 * Model of src/ticket/service/data/SeatRow.java: a row of `Seat` objects in
 * position order, with an index from seat id to seat. Each method is proved to
 * change the seats exactly as the functions of `RowSpec` say. The row's lock
 * is not modelled: every method runs as if it held the lock, and the outcome
 * of a try-lock is an argument of `HoldSeatsNonBlocking`.
 */
module Rows {
  import opened Options
  import opened SeatIds
  import opened Seats
  import opened RowSpec

  /** No two seats of the sequence share an id. */
  predicate DistinctSeatIds(seats: seq<Seat>)
  {
    forall i, j :: 0 <= i < j < |seats| ==> seats[i].seatId != seats[j].seatId
  }

  /**
   * The index the constructor builds: every seat's id is a key, mapped to a
   * seat of the row that carries that id.
   */
  function IndexOf(seats: seq<Seat>): (m: map<SeatId, Seat>)
    ensures forall i :: 0 <= i < |seats| ==> seats[i].seatId in m
    ensures forall id :: id in m ==> m[id] in seats && m[id].seatId == id
  {
    if seats == [] then map[]
    else IndexOf(seats[..|seats| - 1])[seats[|seats| - 1].seatId := seats[|seats| - 1]]
  }

  /** The seat an id is mapped to is the last seat of the row carrying that id. */
  lemma {:induction false} IndexHoldsLastSeat(seats: seq<Seat>, p: nat)
    requires p < |seats| && forall q :: p < q < |seats| ==> seats[q].seatId != seats[p].seatId
    ensures IndexOf(seats)[seats[p].seatId] == seats[p]
  {
    var last := |seats| - 1;
    if p < last {
      IndexHoldsLastSeat(seats[..last], p);
    }
  }

  class SeatRow {
    /** The seats in row order: seats[i + 1] sits next to seats[i]. */
    const seats: seq<Seat>
    /** Lookup of a seat by its id. */
    const seatIdsToSeats: map<SeatId, Seat>

    /** The index maps exactly the row's seat ids, each to its own seat. */
    ghost predicate Valid()
    {
      && DistinctSeatIds(seats)
      && (forall i :: 0 <= i < |seats| ==>
            seats[i].seatId in seatIdsToSeats && seatIdsToSeats[seats[i].seatId] == seats[i])
      && (forall id :: id in seatIdsToSeats ==>
            seatIdsToSeats[id] in seats && seatIdsToSeats[id].seatId == id)
    }

    /** The seat objects of the row: everything a method of the row may change. */
    ghost function Footprint(): set<Seat>
    {
      set s | s in seats
    }

    /** The row's seats as values, in row order. */
    ghost function View(): (v: seq<SeatState>)
      reads Footprint()
      ensures |v| == |seats|
      ensures forall i :: 0 <= i < |seats| ==> v[i] == seats[i].State()
    {
      seq(|seats|, i requires 0 <= i < |seats| reads Footprint() => seats[i].State())
    }

    /** The row's seat values carry distinct ids. */
    lemma ViewHasUniqueIds()
      requires Valid()
      ensures UniqueIds(View())
    {
    }

    /**
     * A lookup in the index agrees with a search of the row by id, on any
     * sequence of seat values carrying the row's ids in order.
     */
    lemma IndexAgreesWithFind(v: seq<SeatState>, id: SeatId)
      requires Valid()
      requires |v| == |seats| && forall i :: 0 <= i < |v| ==> v[i].seatId == seats[i].seatId
      ensures id in seatIdsToSeats <==> Find(v, id).Some?
      ensures id in seatIdsToSeats ==> seatIdsToSeats[id] == seats[Find(v, id).value]
    {
      if id in seatIdsToSeats {
        var s := seatIdsToSeats[id];
        var p :| 0 <= p < |seats| && seats[p] == s;
        assert v[p].seatId == id;
        var q := Find(v, id).value;
        assert seats[q].seatId == id;
        assert p == q;
      }
    }

    /**
     * The constructor builds the id index from the seats, a later seat
     * replacing an earlier one with the same id. With distinct ids the row is
     * well formed.
     */
    constructor (seats: seq<Seat>)
      ensures this.seats == seats && seatIdsToSeats == IndexOf(seats)
      ensures DistinctSeatIds(seats) ==> Valid()
    {
      var index: map<SeatId, Seat> := map[];
      for i := 0 to |seats|
        invariant index == IndexOf(seats[..i])
      {
        assert seats[..i + 1][..i] == seats[..i];
        index := index[seats[i].seatId := seats[i]];
      }
      assert seats[..|seats|] == seats;
      this.seats := seats;
      this.seatIdsToSeats := index;
      if DistinctSeatIds(seats) {
        forall i | 0 <= i < |seats| ensures index[seats[i].seatId] == seats[i] {
          IndexHoldsLastSeat(seats, i);
        }
      }
    }

    /** numSeatsAvailable: the number of seats available at `time`. */
    method NumSeatsAvailable(time: int) returns (numAvailableSeats: int)
      ensures numAvailableSeats == CountAvailable(View(), time)
    {
      numAvailableSeats := 0;
      for i := 0 to |seats|
        invariant numAvailableSeats == CountUpTo(View(), i, time)
      {
        CountPrefixStep(View(), i, time);
        if IsSeatAvailable(seats[i].State(), time) {
          numAvailableSeats := numAvailableSeats + 1;
        }
      }
      assert View()[..|seats|] == View();
    }

    /**
     * holdSeatsAfterLockAcquired: scan left to right counting available seats
     * (never resetting the count); where the count first equals
     * `numSeatsToHold`, hold the `numSeatsToHold` seats ending there and return
     * their ids, rightmost first. None (the source's null) when the count never
     * gets there.
     */
    method HoldSeatsAfterLockAcquired(numSeatsToHold: int, customerEmail: string,
                                      reservationTime: int, secondsToHoldSeat: int)
      returns (heldSeats: Option<seq<SeatId>>)
      requires Valid()
      modifies Footprint()
      ensures var r := Hold(old(View()), numSeatsToHold, customerEmail, reservationTime, secondsToHoldSeat);
        heldSeats == r.heldSeats && View() == r.seats
    {
      var end := ScanForWindow(numSeatsToHold, reservationTime);
      if end.None? {
        return None;
      }
      var held := HoldEndingAt(end.value, numSeatsToHold, customerEmail, reservationTime, secondsToHoldSeat);
      return Some(held);
    }

    /**
     * The counting part of holdSeatsAfterLockAcquired's loop: walk the row
     * from seat 0, counting the available seats, and stop at the seat where
     * the count reaches `numSeatsToHold`; None when it never does.
     */
    method ScanForWindow(numSeatsToHold: int, reservationTime: int) returns (k: Option<nat>)
      ensures k == WindowEnd(View(), numSeatsToHold, reservationTime)
    {
      ghost var v := View();
      var numAvailableAdjacentSeats := 0;
      for seatNum := 0 to |seats|
        invariant numAvailableAdjacentSeats == CountUpTo(v, seatNum, reservationTime)
        invariant forall p :: 0 < p <= seatNum ==> CountUpTo(v, p, reservationTime) != numSeatsToHold
      {
        CountPrefixStep(v, seatNum, reservationTime);
        if IsSeatAvailable(seats[seatNum].State(), reservationTime) {
          numAvailableAdjacentSeats := numAvailableAdjacentSeats + 1;
        }
        if numAvailableAdjacentSeats == numSeatsToHold {
          WindowEndAt(v, numSeatsToHold, reservationTime, seatNum);
          assert View() == v;
          return Some(seatNum);
        }
      }
      WindowEndNone(v, numSeatsToHold, reservationTime);
      assert View() == v;
      return None;
    }

    /**
     * The hold itself, once the scan has stopped at seat `k`: the `n` seats
     * ending at `k` are held until `reservationTime + secondsToHoldSeat` by
     * `customerEmail`, and their ids are returned, seat `k` first.
     */
    method HoldEndingAt(k: nat, n: int, customerEmail: string, reservationTime: int, secondsToHoldSeat: int)
      returns (held: seq<SeatId>)
      requires Valid() && WindowEnd(View(), n, reservationTime) == Some(k)
      modifies Footprint()
      ensures var r := Hold(old(View()), n, customerEmail, reservationTime, secondsToHoldSeat);
        r.heldSeats.Some? && r.heldSeats.value == held && r.seats == View()
    {
      HoldAt(View(), n, customerEmail, reservationTime, secondsToHoldSeat, k);
      var heldUntil := reservationTime + secondsToHoldSeat;
      held := HoldWindow(k, n, heldUntil, customerEmail);
    }

    /**
     * The inner loop of holdSeatsAfterLockAcquired: walking left from seat `k`,
     * mark `n` seats held until `heldUntil` by `customerEmail`, collecting
     * their ids in the order visited.
     */
    method HoldWindow(k: nat, n: nat, heldUntil: int, customerEmail: string) returns (held: seq<SeatId>)
      requires DistinctSeatIds(seats) && n <= k + 1 <= |seats|
      modifies Footprint()
      ensures held == HeldIds(old(View()), k, n)
      ensures View() == ApplyHold(old(View()), k, n, heldUntil, customerEmail)
    {
      ghost var v0 := View();
      held := [];
      for numHeldSeats := 0 to n
        invariant |held| == numHeldSeats
        invariant forall j :: 0 <= j < numHeldSeats ==> held[j] == v0[k - j].seatId
        invariant forall i :: 0 <= i < |seats| ==> (seats[i].State() ==
          (if k - numHeldSeats < i <= k
           then v0[i].(heldUntil := Some(heldUntil), lastHeldBy := Some(customerEmail))
           else v0[i]))
      {
        var seat := seats[k - numHeldSeats];
        seat.SetHeldUntil(Some(heldUntil));
        seat.SetLastHeldBy(Some(customerEmail));
        held := held + [seat.seatId];
      }
      assert View() == ApplyHold(v0, k, n, heldUntil, customerEmail);
    }

    /**
     * holdSeatsNonBlocking: when the try-lock fails (`wasAcquired` false) the
     * row is left alone and None is returned; otherwise it is the hold above.
     */
    method HoldSeatsNonBlocking(wasAcquired: bool, numSeatsToHold: int, customerEmail: string,
                                reservationTime: int, secondsToHold: int)
      returns (heldSeats: Option<seq<SeatId>>)
      requires Valid()
      modifies Footprint()
      ensures !wasAcquired ==> heldSeats.None? && View() == old(View())
      ensures wasAcquired ==>
        var r := Hold(old(View()), numSeatsToHold, customerEmail, reservationTime, secondsToHold);
        heldSeats == r.heldSeats && View() == r.seats
    {
      heldSeats := None;
      if wasAcquired {
        heldSeats := HoldSeatsAfterLockAcquired(numSeatsToHold, customerEmail, reservationTime, secondsToHold);
      }
    }

    /** holdSeatsBlocking: waits for the lock, then holds as above. */
    method HoldSeatsBlocking(numSeatsToHold: int, customerEmail: string,
                             reservationTime: int, secondsToHold: int)
      returns (heldSeats: Option<seq<SeatId>>)
      requires Valid()
      modifies Footprint()
      ensures var r := Hold(old(View()), numSeatsToHold, customerEmail, reservationTime, secondsToHold);
        heldSeats == r.heldSeats && View() == r.seats
    {
      heldSeats := HoldSeatsAfterLockAcquired(numSeatsToHold, customerEmail, reservationTime, secondsToHold);
    }

    /**
     * verifySeatsAreReservable: true iff every id is in this row's index and
     * names an unreserved seat last held by `customerEmail`; it stops at the
     * first id that fails.
     */
    method VerifySeatsAreReservable(seatIds: seq<SeatId>, customerEmail: string) returns (ok: bool)
      requires Valid()
      ensures ok == Reservable(View(), seatIds, customerEmail)
    {
      for j := 0 to |seatIds|
        invariant forall j' :: 0 <= j' < j ==> CanReserve(View(), seatIds[j'], customerEmail)
      {
        var seatId := seatIds[j];
        IndexAgreesWithFind(View(), seatId);
        if seatId !in seatIdsToSeats {
          return false; // wrong row
        }
        var seat := seatIdsToSeats[seatId];
        if seat.isReserved || seat.lastHeldBy != Some(customerEmail) {
          return false; // already sold, or held by someone else or by no one
        }
      }
      return true;
    }

    /**
     * reserveSeatsBlocking: all or nothing. If every id passes the check, each
     * listed seat becomes reserved and true is returned; otherwise no seat
     * changes and false is returned.
     */
    method ReserveSeatsBlocking(seatIds: seq<SeatId>, customerEmail: string)
      returns (saleWasCompleted: bool)
      requires Valid()
      modifies Footprint()
      ensures saleWasCompleted == Reservable(old(View()), seatIds, customerEmail)
      ensures View() == ReserveAll(old(View()), seatIds, customerEmail)
    {
      saleWasCompleted := false;
      var saleIsValid := VerifySeatsAreReservable(seatIds, customerEmail);
      if saleIsValid {
        ghost var v0 := View();
        for j := 0 to |seatIds|
          invariant forall i :: 0 <= i < |seats| ==> (seats[i].State() ==
            (if v0[i].seatId in seatIds[..j] then v0[i].(isReserved := true) else v0[i]))
        {
          assert CanReserve(v0, seatIds[j], customerEmail);
          IndexAgreesWithFind(v0, seatIds[j]);
          var seat := seatIdsToSeats[seatIds[j]];
          seat.SetReserved(true);
          assert seatIds[..j + 1] == seatIds[..j] + [seatIds[j]];
        }
        assert seatIds[..|seatIds|] == seatIds;
        assert View() == Reserve(v0, seatIds);
        saleWasCompleted := true;
      }
    }
  }
}
