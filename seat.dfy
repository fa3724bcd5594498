/** Model of src/ticket/service/data/Seat.java: a mutable seat record. */
module Seats {
  import opened Options
  import opened SeatIds

  /** A snapshot of the fields of a seat. */
  datatype SeatState = SeatState(
    seatId: SeatId,
    isReserved: bool,
    heldUntil: Option<int>,     // None: the seat was never held
    lastHeldBy: Option<string>) // the last holder's email; a later hold whose window covers a sold seat overwrites the buyer's

  /**
   * One seat of the venue. Its id is fixed at construction; the other three
   * fields are changed in place through their setters.
   */
  class Seat {
    const seatId: SeatId
    var isReserved: bool
    var heldUntil: Option<int>
    var lastHeldBy: Option<string>

    /** The current fields as a value. */
    function State(): SeatState
      reads this
    {
      SeatState(seatId, isReserved, heldUntil, lastHeldBy)
    }

    /** The builder: fields not given to it are false and null (None). */
    constructor (seatId: SeatId, isReserved: bool, heldUntil: Option<int>, lastHeldBy: Option<string>)
      ensures State() == SeatState(seatId, isReserved, heldUntil, lastHeldBy)
    {
      this.seatId := seatId;
      this.isReserved := isReserved;
      this.heldUntil := heldUntil;
      this.lastHeldBy := lastHeldBy;
    }

    method SetReserved(isReserved: bool)
      modifies this
      ensures State() == old(State()).(isReserved := isReserved)
    {
      this.isReserved := isReserved;
    }

    method SetHeldUntil(heldUntil: Option<int>)
      modifies this
      ensures State() == old(State()).(heldUntil := heldUntil)
    {
      this.heldUntil := heldUntil;
    }

    method SetLastHeldBy(lastHeldBy: Option<string>)
      modifies this
      ensures State() == old(State()).(lastHeldBy := lastHeldBy)
    {
      this.lastHeldBy := lastHeldBy;
    }
  }
}
