/**
 * Model of src/ticket/service/VenueSeating.java: the venue's rows, the hold-id
 * counter and the tracker of holds. The current time, which the source reads
 * from the clock, is an argument, and so is the outcome of each row's
 * try-lock in the non-blocking pass of `FindAndHoldSeats`.
 */
module Venue {
  import opened Options
  import opened SeatIds
  import opened SeatHolds
  import opened Seats
  import opened RowSpec
  import opened Rows
  import opened Tracker

  /**
   * The answer of reserveSeats. `OutOfBounds` stands for the unchecked
   * exception the source raises when a hold has no seat ids or names a row
   * the venue does not have.
   */
  datatype ReservationCode = Success | Fail | OutOfBounds

  // ---------------------------------------------------------------------------
  // The venue's rules on the values of its rows (one seq<SeatState> per row)
  // ---------------------------------------------------------------------------

  /**
   * The sum of the rows' available-seat counts; the venue never counts more
   * seats available than it has.
   */
  function SumAvailable(views: seq<seq<SeatState>>, time: int): (r: nat)
    ensures r <= TotalSeats(views)
  {
    if views == [] then 0
    else SumAvailable(views[..|views| - 1], time) + CountAvailable(views[|views| - 1], time)
  }

  /** The number of seats in the venue. */
  function TotalSeats(views: seq<seq<SeatState>>): nat
  {
    if views == [] then 0 else TotalSeats(views[..|views| - 1]) + |views[|views| - 1]|
  }

  /** Changing one row changes the venue's count by that row's change. */
  lemma {:induction false} SumAfterRowChange(views: seq<seq<SeatState>>, r: nat, w: seq<SeatState>, time: int)
    requires r < |views|
    ensures SumAvailable(views[r := w], time) + CountAvailable(views[r], time)
         == SumAvailable(views, time) + CountAvailable(w, time)
  {
    var last := |views| - 1;
    assert views[r := w][..last] == if r == last then views[..last] else views[..last][r := w];
    if r < last {
      SumAfterRowChange(views[..last], r, w, time);
    }
  }

  /**
   * A hold the venue makes (of `n >= 1` seats, held for a non-negative time)
   * lowers the venue's available count by at least one and at most `n`.
   */
  lemma VenueHoldTakesBetweenOneAndNSeats(views: seq<seq<SeatState>>, r: nat, n: int, email: string,
                                          time: int, secs: int)
    requires r < |views| && n >= 1 && secs >= 0
    requires Hold(views[r], n, email, time, secs).heldSeats.Some?
    ensures var after := views[r := Hold(views[r], n, email, time, secs).seats];
      SumAvailable(views, time) - n <= SumAvailable(after, time) < SumAvailable(views, time)
  {
    HoldTakesBetweenOneAndNSeats(views[r], n, email, time, secs);
    SumAfterRowChange(views, r, Hold(views[r], n, email, time, secs).seats, time);
  }

  /** A row's hold of `n` seats at `time` would succeed. */
  predicate Holdable(v: seq<SeatState>, n: int, time: int)
  {
    WindowEnd(v, n, time).Some?
  }

  /** The first row from `i` on that is eligible and can hold `n` seats. */
  function FirstHoldableFrom(views: seq<seq<SeatState>>, n: int, time: int, eligible: seq<bool>, i: nat)
    : (r: Option<nat>)
    requires |eligible| == |views| && i <= |views|
    ensures r.Some? ==> i <= r.value < |views| && eligible[r.value] && Holdable(views[r.value], n, time)
    ensures r.Some? ==> forall q :: i <= q < r.value ==> !(eligible[q] && Holdable(views[q], n, time))
    ensures r.None? ==> forall q :: i <= q < |views| ==> !(eligible[q] && Holdable(views[q], n, time))
    decreases |views| - i
  {
    if i == |views| then None
    else if eligible[i] && Holdable(views[i], n, time) then Some(i)
    else FirstHoldableFrom(views, n, time, eligible, i + 1)
  }

  /** Every row is tried: the blocking pass. */
  function AllRows(views: seq<seq<SeatState>>): (eligible: seq<bool>)
    ensures |eligible| == |views| && forall q :: 0 <= q < |views| ==> eligible[q]
  {
    seq(|views|, q => true)
  }

  /**
   * The row findAndHoldSeats holds in: the first row that succeeds in the
   * non-blocking pass (where only the rows whose try-lock succeeded take
   * part), otherwise the first row that succeeds in the blocking pass.
   */
  function ChosenRow(views: seq<seq<SeatState>>, n: int, time: int, acquired: seq<bool>): (r: Option<nat>)
    requires |acquired| == |views|
    ensures r.Some? ==> r.value < |views| && Holdable(views[r.value], n, time)
    ensures r.None? ==> forall q :: 0 <= q < |views| ==> !Holdable(views[q], n, time)
  {
    var first := FirstHoldableFrom(views, n, time, acquired, 0);
    if first.Some? then first else FirstHoldableFrom(views, n, time, AllRows(views), 0)
  }

  /**
   * A chosen row can hold the seats; and for `n >= 1` no row is chosen
   * exactly when no row has `n` seats available in total.
   */
  lemma ChosenRowIff(views: seq<seq<SeatState>>, n: int, email: string, time: int, secs: int,
                     acquired: seq<bool>)
    requires |acquired| == |views|
    ensures var c := ChosenRow(views, n, time, acquired);
      c.Some? ==> c.value < |views| && Hold(views[c.value], n, email, time, secs).heldSeats.Some?
    ensures n >= 1 ==>
      (ChosenRow(views, n, time, acquired).None? <==>
       forall q :: 0 <= q < |views| ==> CountAvailable(views[q], time) < n)
  {
    if n >= 1 {
      forall q | 0 <= q < |views|
        ensures Holdable(views[q], n, time) <==> CountAvailable(views[q], time) >= n
      {
        HoldSucceedsIff(views[q], n, email, time, secs);
      }
      var all := AllRows(views);
      if FirstHoldableFrom(views, n, time, all, 0).None? {
        forall q | 0 <= q < |views| ensures !Holdable(views[q], n, time) {
          assert all[q];
        }
      }
    }
  }

  /**
   * With every try-lock successful, the chosen row is the lowest-numbered row
   * that can hold the seats.
   */
  lemma ChosenRowIsLowest(views: seq<seq<SeatState>>, n: int, time: int, acquired: seq<bool>, r: nat)
    requires |acquired| == |views| && forall q :: 0 <= q < |acquired| ==> acquired[q]
    requires r < |views| && Holdable(views[r], n, time)
    requires forall q :: 0 <= q < r ==> !Holdable(views[q], n, time)
    ensures ChosenRow(views, n, time, acquired) == Some(r)
  {
    assert acquired[r];
  }

  /**
   * Holds never span rows: when every row has fewer seats than requested, no
   * row is chosen, however many seats the venue has in all.
   */
  lemma NoHoldLargerThanARow(views: seq<seq<SeatState>>, n: int, email: string, time: int,
                             acquired: seq<bool>)
    requires |acquired| == |views| && n >= 1
    requires forall q :: 0 <= q < |views| ==> |views[q]| < n
    ensures ChosenRow(views, n, time, acquired).None?
  {
    ChosenRowIff(views, n, email, time, 0, acquired);
  }

  /**
   * `after` is `before` where the first `eligible` row that can hold `n`
   * seats has held them, `rowNum` being that row and `held` the ids; or, when
   * no such row exists, `before` itself with nothing held.
   */
  predicate HeldInFirst(before: seq<seq<SeatState>>, after: seq<seq<SeatState>>, eligible: seq<bool>,
                        n: int, email: string, time: int, secs: int, rowNum: int, held: Option<seq<SeatId>>)
    requires |eligible| == |before|
  {
    var first := FirstHoldableFrom(before, n, time, eligible, 0);
    if first.None? then held.None? && after == before
    else
      var h := Hold(before[first.value], n, email, time, secs);
      && rowNum == first.value
      && held == h.heldSeats
      && after == before[first.value := h.seats]
  }

  /** A pass that holds in row `index`, after every earlier eligible row failed, meets HeldInFirst. */
  lemma HeldInFirstAt(before: seq<seq<SeatState>>, after: seq<seq<SeatState>>, eligible: seq<bool>,
                      n: int, email: string, time: int, secs: int, index: nat, held: Option<seq<SeatId>>)
    requires |eligible| == |before| && index < |before|
    requires eligible[index] && held.Some?
    requires forall q :: 0 <= q < index ==> !(eligible[q] && Holdable(before[q], n, time))
    requires held == Hold(before[index], n, email, time, secs).heldSeats
    requires after == before[index := Hold(before[index], n, email, time, secs).seats]
    ensures HeldInFirst(before, after, eligible, n, email, time, secs, index, held)
  {
    assert Holdable(before[index], n, time);
  }

  /** A pass in which every eligible row failed changes nothing and meets HeldInFirst. */
  lemma HeldInFirstNone(before: seq<seq<SeatState>>, eligible: seq<bool>,
                        n: int, email: string, time: int, secs: int, rowNum: int)
    requires |eligible| == |before|
    requires forall q :: 0 <= q < |before| ==> !(eligible[q] && Holdable(before[q], n, time))
    ensures HeldInFirst(before, before, eligible, n, email, time, secs, rowNum, None)
  {
  }

  /**
   * The two passes of findAndHoldSeats together hold the seats in the chosen
   * row, or change nothing when no row is chosen.
   */
  lemma TwoPasses(vs0: seq<seq<SeatState>>, vs1: seq<seq<SeatState>>, vs2: seq<seq<SeatState>>,
                  acquired: seq<bool>, n: int, email: string, time: int, secs: int,
                  firstRowNum: int, firstHeld: Option<seq<SeatId>>, rowNum: int, held: Option<seq<SeatId>>)
    requires |acquired| == |vs0|
    requires HeldInFirst(vs0, vs1, acquired, n, email, time, secs, firstRowNum, firstHeld)
    requires firstHeld.Some? ==> vs2 == vs1 && rowNum == firstRowNum && held == firstHeld
    requires firstHeld.None? ==> HeldInFirst(vs1, vs2, AllRows(vs1), n, email, time, secs, rowNum, held)
    ensures ChosenRow(vs0, n, time, acquired).None? ==> held.None? && vs2 == vs0
    ensures ChosenRow(vs0, n, time, acquired).Some? ==>
      && rowNum == ChosenRow(vs0, n, time, acquired).value
      && 0 <= rowNum < |vs0|
      && held == Hold(vs0[rowNum], n, email, time, secs).heldSeats
      && held.Some?
      && vs2 == vs0[rowNum := Hold(vs0[rowNum], n, email, time, secs).seats]
  {
  }

  /** The ids a row holds all name that row, when every seat of the row does. */
  lemma HeldIdsNameTheRow(v: seq<SeatState>, n: int, email: string, time: int, secs: int, rowNum: int)
    requires forall i :: 0 <= i < |v| ==> v[i].seatId.rowNum == rowNum
    requires Hold(v, n, email, time, secs).heldSeats.Some?
    ensures InOneRow(Hold(v, n, email, time, secs).heldSeats.value, rowNum)
  {
  }

  // ---------------------------------------------------------------------------
  // The venue
  // ---------------------------------------------------------------------------

  class VenueSeating {
    /** rowNumsToRows: row `r` of the venue is rowNumsToRows[r]. */
    const rowNumsToRows: seq<SeatRow>
    const secondsToHoldSeats: int
    /** The next hold id to hand out. */
    var seatIdGenerator: int
    const heldSeatsTracker: HeldSeatsTracker

    /** Every row is well formed and its seats carry its row number. */
    ghost predicate RowsValid()
    {
      forall r :: 0 <= r < |rowNumsToRows| ==>
        && rowNumsToRows[r].Valid()
        && forall j :: 0 <= j < |rowNumsToRows[r].seats| ==> rowNumsToRows[r].seats[j].seatId.rowNum == r
    }

    /** The rows are well formed, and every tracked hold id is below the counter. */
    ghost predicate Valid()
      reads this, heldSeatsTracker
    {
      && RowsValid()
      && forall id :: id in heldSeatsTracker.heldSeats ==> id < seatIdGenerator
    }

    /** Every seat of the venue. */
    ghost function SeatObjects(): set<Seat>
    {
      set r, j | 0 <= r < |rowNumsToRows| && 0 <= j < |rowNumsToRows[r].seats| :: rowNumsToRows[r].seats[j]
    }

    /** A row's seats are seats of the venue. */
    lemma RowInVenue(r: nat)
      requires r < |rowNumsToRows|
      ensures rowNumsToRows[r].Footprint() <= SeatObjects()
    {
      forall s | s in rowNumsToRows[r].Footprint() ensures s in SeatObjects() {
        var j :| 0 <= j < |rowNumsToRows[r].seats| && rowNumsToRows[r].seats[j] == s;
      }
    }

    /** Different rows share no seat, since their seats carry different row numbers. */
    lemma RowsDisjoint(r: nat, q: nat)
      requires RowsValid() && r < |rowNumsToRows| && q < |rowNumsToRows| && r != q
      ensures rowNumsToRows[r].Footprint() !! rowNumsToRows[q].Footprint()
    {
    }

    /** The seats of every row, as values. */
    ghost function Views(): (vs: seq<seq<SeatState>>)
      reads SeatObjects()
      ensures |vs| == |rowNumsToRows|
      ensures forall r :: 0 <= r < |rowNumsToRows| ==> vs[r] == rowNumsToRows[r].View()
    {
      seq(|rowNumsToRows|, r requires 0 <= r < |rowNumsToRows| reads SeatObjects() =>
        RowInVenue(r); rowNumsToRows[r].View())
    }

    constructor (rowNumsToRows: seq<SeatRow>, secondsToHoldSeats: int, seatIdGenerator: int,
                 heldSeatsTracker: HeldSeatsTracker)
      ensures (forall r :: 0 <= r < |rowNumsToRows| ==>
                && rowNumsToRows[r].Valid()
                && forall j :: 0 <= j < |rowNumsToRows[r].seats| ==> rowNumsToRows[r].seats[j].seatId.rowNum == r)
              && (forall id :: id in heldSeatsTracker.heldSeats ==> id < seatIdGenerator)
              ==> Valid()
      ensures this.rowNumsToRows == rowNumsToRows && this.secondsToHoldSeats == secondsToHoldSeats
      ensures this.seatIdGenerator == seatIdGenerator && this.heldSeatsTracker == heldSeatsTracker
    {
      this.rowNumsToRows := rowNumsToRows;
      this.secondsToHoldSeats := secondsToHoldSeats;
      this.seatIdGenerator := seatIdGenerator;
      this.heldSeatsTracker := heldSeatsTracker;
    }

    /** numSeatsAvailable(time): the sum over the rows of their available seats. */
    method NumSeatsAvailable(time: int) returns (numSeatsAvailable: int)
      ensures numSeatsAvailable == SumAvailable(Views(), time)
    {
      numSeatsAvailable := 0;
      for index := 0 to |rowNumsToRows|
        invariant numSeatsAvailable == SumAvailable(Views()[..index], time)
      {
        var seatRow := rowNumsToRows[index];
        ghost var before := Views();
        var n := seatRow.NumSeatsAvailable(time);
        forall q | 0 <= q < |rowNumsToRows| ensures rowNumsToRows[q].View() == before[q] {
          RowInVenue(q);
        }
        assert Views() == before;
        assert Views()[..index + 1][..index] == Views()[..index];
        assert Views()[..index + 1][index] == seatRow.View();
        assert SumAvailable(Views()[..index + 1], time) == SumAvailable(Views()[..index], time) + n;
        numSeatsAvailable := numSeatsAvailable + n;
      }
      assert Views()[..|rowNumsToRows|] == Views();
    }

    /**
     * buildSeatHold: take the next id from the counter, build the hold and
     * register it with the tracker.
     */
    method BuildSeatHold(heldUntil: int, seatIds: seq<SeatId>, holdTime: int) returns (seatHold: SeatHold)
      requires Valid()
      modifies this, heldSeatsTracker
      ensures Valid() && Views() == old(Views())
      ensures seatHold == SeatHold(old(seatIdGenerator), seatIds, heldUntil)
      ensures seatHold.id !in old(heldSeatsTracker.heldSeats)
      ensures seatIdGenerator == old(seatIdGenerator) + 1
      ensures heldSeatsTracker.heldSeats
           == AfterAdd(old(heldSeatsTracker.heldSeats), heldSeatsTracker.maxSeatsToHold, seatHold, holdTime)
    {
      seatHold := SeatHold(seatIdGenerator, seatIds, heldUntil);
      seatIdGenerator := seatIdGenerator + 1;
      heldSeatsTracker.AddSeatHold(seatHold, holdTime);
      forall r | 0 <= r < |rowNumsToRows| ensures rowNumsToRows[r].View() == old(rowNumsToRows[r].View()) {
        RowInVenue(r);
      }
    }

    /**
     * Row `index` tries to hold the seats: waiting for its lock when `wait`
     * holds, otherwise only if its try-lock succeeded (`acquired`). No other
     * row changes.
     */
    method HoldInRow(index: nat, wait: bool, acquired: bool, numSeats: int, customerEmail: string, holdTime: int)
      returns (seatIds: Option<seq<SeatId>>)
      requires RowsValid() && index < |rowNumsToRows|
      modifies rowNumsToRows[index].Footprint()
      ensures var h := Hold(old(Views())[index], numSeats, customerEmail, holdTime, secondsToHoldSeats);
        if wait || acquired then seatIds == h.heldSeats && Views() == old(Views())[index := h.seats]
        else seatIds.None? && Views() == old(Views())
    {
      ghost var vs0 := Views();
      RowInVenue(index);
      var seatRow := rowNumsToRows[index];
      if wait {
        seatIds := seatRow.HoldSeatsBlocking(numSeats, customerEmail, holdTime, secondsToHoldSeats);
      } else {
        seatIds := seatRow.HoldSeatsNonBlocking(acquired, numSeats, customerEmail, holdTime, secondsToHoldSeats);
      }
      OtherRowsKept(index, vs0);
    }

    /** Only row `index` can have changed since the rows' seats were `vs0`. */
    lemma OtherRowsKept(index: nat, vs0: seq<seq<SeatState>>)
      requires RowsValid() && index < |rowNumsToRows| && |vs0| == |rowNumsToRows|
      requires forall q :: 0 <= q < |rowNumsToRows| && q != index ==> rowNumsToRows[q].View() == vs0[q]
      ensures Views() == vs0[index := rowNumsToRows[index].View()]
    {
    }

    /**
     * The first loop of findAndHoldSeats: ask each row in turn to hold the
     * seats, skipping the rows whose lock is taken (`acquired[r]` is the
     * outcome of row r's try-lock). Gives the row that held them and their ids.
     */
    method HoldWithoutWaiting(numSeats: int, customerEmail: string, holdTime: int, acquired: seq<bool>)
      returns (rowNum: int, heldSeats: Option<seq<SeatId>>)
      requires RowsValid() && |acquired| == |rowNumsToRows|
      modifies SeatObjects()
      ensures HeldInFirst(old(Views()), Views(), acquired, numSeats, customerEmail, holdTime,
                          secondsToHoldSeats, rowNum, heldSeats)
    {
      ghost var vs0 := Views();
      for index := 0 to |rowNumsToRows|
        invariant Views() == vs0
        invariant forall q :: 0 <= q < index ==> !(acquired[q] && Holdable(vs0[q], numSeats, holdTime))
      {
        RowInVenue(index);
        var seatIds := HoldInRow(index, false, acquired[index], numSeats, customerEmail, holdTime);
        if seatIds.Some? {
          HeldInFirstAt(vs0, Views(), acquired, numSeats, customerEmail, holdTime, secondsToHoldSeats,
                        index, seatIds);
          return index, seatIds;
        }
      }
      HeldInFirstNone(vs0, acquired, numSeats, customerEmail, holdTime, secondsToHoldSeats, 0);
      return 0, None;
    }

    /**
     * The second loop of findAndHoldSeats: ask each row in turn to hold the
     * seats, waiting for its lock. Gives the row that held them and their ids.
     */
    method HoldWaiting(numSeats: int, customerEmail: string, holdTime: int)
      returns (rowNum: int, heldSeats: Option<seq<SeatId>>)
      requires RowsValid()
      modifies SeatObjects()
      ensures HeldInFirst(old(Views()), Views(), AllRows(old(Views())), numSeats, customerEmail, holdTime,
                          secondsToHoldSeats, rowNum, heldSeats)
    {
      ghost var vs0 := Views();
      for index := 0 to |rowNumsToRows|
        invariant Views() == vs0
        invariant forall q :: 0 <= q < index ==> !Holdable(vs0[q], numSeats, holdTime)
      {
        RowInVenue(index);
        var seatIds := HoldInRow(index, true, true, numSeats, customerEmail, holdTime);
        if seatIds.Some? {
          HeldInFirstAt(vs0, Views(), AllRows(vs0), numSeats, customerEmail, holdTime, secondsToHoldSeats,
                        index, seatIds);
          return index, seatIds;
        }
      }
      HeldInFirstNone(vs0, AllRows(vs0), numSeats, customerEmail, holdTime, secondsToHoldSeats, 0);
      return 0, None;
    }

    /**
     * The two loops of findAndHoldSeats: the first row that holds the seats
     * without waiting, else the first that holds them after waiting. The row
     * chosen holds the seats and no other row changes.
     */
    method HoldInChosenRow(numSeats: int, customerEmail: string, holdTime: int, acquired: seq<bool>)
      returns (rowNum: int, seatIds: Option<seq<SeatId>>)
      requires RowsValid() && |acquired| == |rowNumsToRows|
      modifies SeatObjects()
      ensures ChosenRow(old(Views()), numSeats, holdTime, acquired).None? ==>
        seatIds.None? && Views() == old(Views())
      ensures ChosenRow(old(Views()), numSeats, holdTime, acquired).Some? ==>
        && rowNum == ChosenRow(old(Views()), numSeats, holdTime, acquired).value
        && 0 <= rowNum < |rowNumsToRows|
        && seatIds == Hold(old(Views())[rowNum], numSeats, customerEmail, holdTime, secondsToHoldSeats).heldSeats
        && seatIds.Some?
        && Views() == old(Views())[rowNum := Hold(old(Views())[rowNum], numSeats, customerEmail, holdTime,
                                                  secondsToHoldSeats).seats]
    {
      ghost var vs0 := Views();
      rowNum, seatIds := HoldWithoutWaiting(numSeats, customerEmail, holdTime, acquired);
      ghost var vs1 := Views();
      ghost var firstRowNum, firstSeatIds := rowNum, seatIds;
      if seatIds.None? {
        rowNum, seatIds := HoldWaiting(numSeats, customerEmail, holdTime);
      }
      TwoPasses(vs0, vs1, Views(), acquired, numSeats, customerEmail, holdTime, secondsToHoldSeats,
                firstRowNum, firstSeatIds, rowNum, seatIds);
    }

    /**
     * findAndHoldSeats: the first row that holds the seats without waiting,
     * else the first that holds them after waiting, gives the hold. The hold
     * gets the counter's id, ends at `holdTime + secondsToHoldSeats`, is stored
     * in the tracker, and its seat ids all name the row it was taken from.
     * When no row can hold the seats, nothing changes.
     */
    method FindAndHoldSeats(numSeats: int, customerEmail: string, holdTime: int, acquired: seq<bool>)
      returns (seatHold: Option<SeatHold>)
      requires Valid() && |acquired| == |rowNumsToRows|
      modifies this, heldSeatsTracker, SeatObjects()
      ensures Valid()
      ensures ChosenRow(old(Views()), numSeats, holdTime, acquired).None? ==>
        && seatHold.None?
        && Views() == old(Views())
        && seatIdGenerator == old(seatIdGenerator)
        && heldSeatsTracker.heldSeats == old(heldSeatsTracker.heldSeats)
      ensures ChosenRow(old(Views()), numSeats, holdTime, acquired).Some? ==>
        var r := ChosenRow(old(Views()), numSeats, holdTime, acquired).value;
        var held := Hold(old(Views())[r], numSeats, customerEmail, holdTime, secondsToHoldSeats);
        && held.heldSeats.Some?
        && seatHold.Some?
        && seatHold.value.id == old(seatIdGenerator)
        && seatHold.value.seatIds == held.heldSeats.value
        && seatHold.value.heldUntil == holdTime + secondsToHoldSeats
        && InOneRow(seatHold.value.seatIds, r)
        && Views() == old(Views())[r := held.seats]
        && seatIdGenerator == old(seatIdGenerator) + 1
        && seatHold.value.id !in old(heldSeatsTracker.heldSeats)
        && heldSeatsTracker.heldSeats
           == AfterAdd(old(heldSeatsTracker.heldSeats), heldSeatsTracker.maxSeatsToHold,
                       seatHold.value, holdTime)
    {
      var heldUntil := holdTime + secondsToHoldSeats;
      ghost var vs0 := Views();
      ghost var generator0 := seatIdGenerator;
      var rowNum, seatIds := HoldInChosenRow(numSeats, customerEmail, holdTime, acquired);
      assert seatIdGenerator == generator0;
      if seatIds.None? {
        return None;
      }
      ghost var held := Hold(vs0[rowNum], numSeats, customerEmail, holdTime, secondsToHoldSeats);
      assert seatIds == held.heldSeats;
      HeldIdsNameTheRow(vs0[rowNum], numSeats, customerEmail, holdTime, secondsToHoldSeats, rowNum);
      var built := BuildSeatHold(heldUntil, seatIds.value, holdTime);
      assert rowNum == ChosenRow(vs0, numSeats, holdTime, acquired).value;
      assert built == SeatHold(generator0, held.heldSeats.value, heldUntil);
      return Some(built);
    }

    /**
     * reserveSeats: look the hold up at `now`; FAIL when there is none (absent
     * or expired). Otherwise the row named by the first seat id decides: SUCCESS
     * iff it accepts the whole reservation for `customerEmail`. The tracker
     * entry is kept either way.
     */
    method ReserveSeats(seatHoldId: int, customerEmail: string, now: int) returns (code: ReservationCode)
      requires RowsValid()
      modifies SeatObjects()
      ensures match heldSeatsTracker.GetSeatHold(seatHoldId, now)
        case None => code == Fail && Views() == old(Views())
        case Some(hold) =>
          if |hold.seatIds| == 0 || !(0 <= hold.seatIds[0].rowNum < |rowNumsToRows|) then
            code == OutOfBounds && Views() == old(Views())
          else
            var r := hold.seatIds[0].rowNum;
            && code == (if Reservable(old(Views())[r], hold.seatIds, customerEmail) then Success else Fail)
            && Views() == old(Views())[r := ReserveAll(old(Views())[r], hold.seatIds, customerEmail)]
    {
      var seatHold := heldSeatsTracker.GetSeatHold(seatHoldId, now);
      if seatHold.None? {
        return Fail;
      }
      var seatIds := seatHold.value.seatIds;
      if |seatIds| == 0 {
        return OutOfBounds; // seatIds.get(0) on an empty list
      }
      var rowNum := seatIds[0].rowNum;
      if !(0 <= rowNum < |rowNumsToRows|) {
        return OutOfBounds; // no such row in the array
      }
      ghost var vs0 := Views();
      RowInVenue(rowNum);
      var saleWasValid := rowNumsToRows[rowNum].ReserveSeatsBlocking(seatIds, customerEmail);
      forall q | 0 <= q < |rowNumsToRows| && q != rowNum ensures rowNumsToRows[q].View() == vs0[q] {
        RowsDisjoint(q, rowNum);
      }
      if !saleWasValid {
        return Fail;
      }
      return Success;
    }
  }
}
