/** Model of src/ticket/service/data/SeatHold.java: an immutable record of a hold. */
module SeatHolds {
  import opened SeatIds

  /**
   * A hold: the id the venue gave it, the seats it covers (never null) and
   * the instant it expires (never null). Values are immutable and compared
   * field by field.
   */
  datatype SeatHold = SeatHold(id: int, seatIds: seq<SeatId>, heldUntil: int)

  /** All seat ids of a hold name the same row. */
  predicate InOneRow(ids: seq<SeatId>, rowNum: int)
  {
    forall j :: 0 <= j < |ids| ==> ids[j].rowNum == rowNum
  }
}
