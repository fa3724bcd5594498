/**
 * Model of src/ticket/service/HeldSeatsTracker.java: a map from hold id to
 * hold, with lazy expiry on lookup and a cleanup pass that insertion triggers
 * once the map holds 80% of `maxSeatsToHold` entries. The cleanup, which the
 * source runs on a background thread guarded by a semaphore, runs here
 * synchronously before the insertion.
 */
module Tracker {
  import opened Options
  import opened SeatHolds

  /** A hold stored under `id` that has not expired at `time`: its end is not before `time`. */
  predicate Live(m: map<int, SeatHold>, id: int, time: int)
    ensures Live(m, id, time) ==> id in m
    ensures id in m && time <= m[id].heldUntil ==> Live(m, id, time)
  {
    id in m && !(m[id].heldUntil < time)
  }

  /**
   * The trigger `size >= maxSeatsToHold * .8`, stated in integers; it agrees
   * with the comparison in exact real arithmetic.
   */
  predicate CleanupDue(size: int, maxSeatsToHold: int)
    ensures CleanupDue(size, maxSeatsToHold) <==> size as real >= maxSeatsToHold as real * 0.8
  {
    5 * size >= 4 * maxSeatsToHold
  }

  /** The map left by cleanup at `time`: exactly the entries that are still live. */
  function Unexpired(m: map<int, SeatHold>, time: int): (r: map<int, SeatHold>)
    ensures forall id :: id in r <==> Live(m, id, time)
    ensures forall id :: id in r ==> id in m && r[id] == m[id]
  {
    map id | id in m && !(m[id].heldUntil < time) :: m[id]
  }

  /**
   * addSeatHold on map values: clean up first when the map is at 80% of its
   * maximum, then store the hold under its id, replacing any earlier entry.
   */
  function AfterAdd(m: map<int, SeatHold>, maxSeatsToHold: int, hold: SeatHold, holdTime: int)
    : (r: map<int, SeatHold>)
    ensures hold.id in r && r[hold.id] == hold
    ensures forall id :: id != hold.id ==>
      (id in r <==> id in m && (!CleanupDue(|m|, maxSeatsToHold) || !(m[id].heldUntil < holdTime)))
    ensures forall id :: id in r && id != hold.id ==> r[id] == m[id]
  {
    (if CleanupDue(|m|, maxSeatsToHold) then Unexpired(m, holdTime) else m)[hold.id := hold]
  }

  /** Below the threshold, adding is a plain insertion. */
  lemma PlainInsertBelowThreshold(m: map<int, SeatHold>, maxSeatsToHold: int, hold: SeatHold, holdTime: int)
    requires !CleanupDue(|m|, maxSeatsToHold)
    ensures AfterAdd(m, maxSeatsToHold, hold, holdTime) == m[hold.id := hold]
  {
  }

  /** Cleanup never adds entries: the map can only get smaller. */
  lemma CleanupShrinks(m: map<int, SeatHold>, time: int)
    ensures |Unexpired(m, time)| <= |m|
  {
    var r := Unexpired(m, time);
    assert r.Keys <= m.Keys;
    assert |r.Keys| <= |m.Keys| by {
      SubsetCardinality(r.Keys, m.Keys);
    }
  }

  /** A set with no member is empty. */
  lemma EmptyIfNoMember(b: set<int>)
    requires forall x :: x !in b
    ensures b == {}
  {
    assert forall x :: x in b <==> x in {};
  }

  /** A non-empty set has a member. */
  lemma NonEmptyHasMember(b: set<int>)
    requires b != {}
    ensures exists x :: x in b
  {
    if forall x :: x !in b {
      EmptyIfNoMember(b);
      assert false;
    }
  }

  /** A subset has no more elements than its superset. */
  lemma {:induction false} SubsetCardinality(a: set<int>, b: set<int>)
    requires a <= b
    ensures |a| <= |b|
    decreases |b|
  {
    if b != {} {
      NonEmptyHasMember(b);
      var x :| x in b;
      SubsetCardinality(a - {x}, b - {x});
    }
  }

  /**
   * Cleanup at `time` is invisible to lookups at `time` or later: a hold is
   * live after cleanup exactly when it was live before, with the same value.
   */
  lemma CleanupInvisibleToLookups(m: map<int, SeatHold>, time: int, later: int, id: int)
    requires time <= later
    ensures Live(Unexpired(m, time), id, later) <==> Live(m, id, later)
    ensures Live(m, id, later) ==> Unexpired(m, time)[id] == m[id]
  {
  }

  /**
   * Insertion is never refused, so the map may grow past its maximum: with a
   * maximum of 1 and an entry that has not expired, a second insertion leaves
   * two entries.
   */
  lemma MayExceedMaximum(a: SeatHold, b: SeatHold, time: int)
    requires a.id != b.id && !(a.heldUntil < time)
    ensures |AfterAdd(map[a.id := a], 1, b, time)| == 2
  {
    var r := AfterAdd(map[a.id := a], 1, b, time);
    assert r == map[a.id := a, b.id := b];
    assert r.Keys == {a.id, b.id};
  }

  /**
   * Once the map is at the threshold and every entry has expired, the next
   * insertion leaves the new hold alone in the map.
   */
  lemma CleanupReclaimsExpired(m: map<int, SeatHold>, maxSeatsToHold: int, hold: SeatHold, holdTime: int)
    requires CleanupDue(|m|, maxSeatsToHold)
    requires forall id :: id in m ==> m[id].heldUntil < holdTime
    ensures AfterAdd(m, maxSeatsToHold, hold, holdTime) == map[hold.id := hold]
  {
    var r := AfterAdd(m, maxSeatsToHold, hold, holdTime);
    var only := map[hold.id := hold];
    assert forall id :: id in r <==> id in only;
    assert forall id :: id in r ==> r[id] == only[id];
  }

  /** addSeatHold of each hold in turn, all at `holdTime`. */
  function AddInOrder(m: map<int, SeatHold>, maxSeatsToHold: int, holds: seq<SeatHold>, holdTime: int)
    : map<int, SeatHold>
    decreases |holds|
  {
    if holds == [] then m
    else AddInOrder(AfterAdd(m, maxSeatsToHold, holds[0], holdTime), maxSeatsToHold, holds[1..], holdTime)
  }

  /** Every hold of the map ends in `[lo, hi)`. */
  predicate EndsWithin(m: map<int, SeatHold>, lo: int, hi: int)
  {
    forall id :: id in m ==> lo <= m[id].heldUntil < hi
  }

  /**
   * While nothing has expired, a cleanup removes nothing, so inserting holds
   * with new, distinct ids grows the map by one each.
   */
  lemma {:induction false} AddLiveHolds(m: map<int, SeatHold>, maxSeatsToHold: int, holds: seq<SeatHold>,
                                        holdTime: int, hi: int)
    requires EndsWithin(m, holdTime, hi)
    requires forall k :: 0 <= k < |holds| ==> holdTime <= holds[k].heldUntil < hi && holds[k].id !in m
    requires forall k, k' :: 0 <= k < k' < |holds| ==> holds[k].id != holds[k'].id
    ensures |AddInOrder(m, maxSeatsToHold, holds, holdTime)| == |m| + |holds|
    ensures EndsWithin(AddInOrder(m, maxSeatsToHold, holds, holdTime), holdTime, hi)
    decreases |holds|
  {
    if holds != [] {
      var h := holds[0];
      var m' := AfterAdd(m, maxSeatsToHold, h, holdTime);
      var plain := m[h.id := h];
      assert forall id :: id in m' <==> id in plain;
      assert forall id :: id in m' ==> m'[id] == plain[id];
      assert m' == plain;
      AddLiveHolds(m', maxSeatsToHold, holds[1..], holdTime, hi);
    }
  }

  /**
   * The sequential content of the tracker test: with a maximum of 5, five
   * holds ending two seconds after they are added fill the map; five more
   * added once those have expired leave exactly five entries, because the
   * first of them triggers a cleanup before its insertion.
   */
  lemma CleanupBeforeInsertScenario(first: seq<SeatHold>, second: seq<SeatHold>, t0: int, t1: int)
    requires |first| == 5 && |second| == 5 && t1 > t0 + 2
    requires forall k :: 0 <= k < 5 ==> first[k].id == k && first[k].heldUntil == t0 + 2
    requires forall k :: 0 <= k < 5 ==> second[k].id == k + 5 && second[k].heldUntil == t1 + 2
    ensures |AddInOrder(map[], 5, first, t0)| == 5
    ensures |AddInOrder(AddInOrder(map[], 5, first, t0), 5, second, t1)| == 5
  {
    AddLiveHolds(map[], 5, first, t0, t1);
    var m1 := AddInOrder(map[], 5, first, t0);
    CleanupReclaimsExpired(m1, 5, second[0], t1);
    var m2 := map[second[0].id := second[0]];
    AddLiveHolds(m2, 5, second[1..], t1, t1 + 3);
  }

  class HeldSeatsTracker {
    var heldSeats: map<int, SeatHold>
    const maxSeatsToHold: int

    constructor (heldSeats: map<int, SeatHold>, maxSeatsToHold: int)
      ensures this.heldSeats == heldSeats && this.maxSeatsToHold == maxSeatsToHold
    {
      this.heldSeats := heldSeats;
      this.maxSeatsToHold := maxSeatsToHold;
    }

    /** addSeatHold: cleanup when due, then an unconditional put under the hold's id. */
    method AddSeatHold(seatHold: SeatHold, holdTime: int)
      modifies this
      ensures heldSeats == AfterAdd(old(heldSeats), maxSeatsToHold, seatHold, holdTime)
    {
      if CleanupDue(|heldSeats|, maxSeatsToHold) {
        Cleanup(holdTime);
      }
      heldSeats := heldSeats[seatHold.id := seatHold];
    }

    /**
     * getSeatHold: the stored hold if there is one and it has not expired at
     * `time` (a hold is still returned at the instant it ends), else None. An
     * expired entry is left in the map.
     */
    function GetSeatHold(id: int, time: int): (r: Option<SeatHold>)
      reads this
      ensures r.Some? <==> Live(heldSeats, id, time)
      ensures r.Some? ==> r.value == heldSeats[id]
    {
      if id !in heldSeats then None
      else if heldSeats[id].heldUntil < time then None // expired
      else Some(heldSeats[id])
    }

    /** cleanup: remove every entry whose hold ended before `heldTime`. */
    method Cleanup(heldTime: int)
      modifies this
      ensures heldSeats == Unexpired(old(heldSeats), heldTime)
    {
      ghost var m0 := heldSeats;
      var toVisit := heldSeats.Keys;
      while toVisit != {}
        invariant toVisit <= m0.Keys
        invariant forall id :: id in heldSeats <==> id in m0 && (id in toVisit || !(m0[id].heldUntil < heldTime))
        invariant forall id :: id in heldSeats ==> heldSeats[id] == m0[id]
        decreases |toVisit|
      {
        NonEmptyHasMember(toVisit);
        var id :| id in toVisit;
        if heldSeats[id].heldUntil < heldTime {
          heldSeats := heldSeats - {id};
        }
        toVisit := toVisit - {id};
      }
      var expected := Unexpired(m0, heldTime);
      assert forall id :: id in heldSeats <==> id in expected;
      assert forall id :: id in heldSeats ==> heldSeats[id] == expected[id];
    }
  }
}
