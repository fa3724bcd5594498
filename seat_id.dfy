/** Model of src/ticket/service/data/SeatId.java: an immutable (row, seat) pair. */
module SeatIds {

  /**
   * A seat's identity. Equality is structural, so an id rebuilt from the
   * same two numbers is the same id, and ids that differ in either number
   * are different keys.
   */
  datatype SeatId = SeatId(rowNum: int, seatNum: int)

  /** Two ids are equal exactly when both of their numbers are. */
  lemma EqualityByValue(a: SeatId, b: SeatId)
    ensures a == b <==> a.rowNum == b.rowNum && a.seatNum == b.seatNum
  {
  }
}
