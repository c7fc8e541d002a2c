/** Concrete requests against the admission chain: a slot next to a stored
    booking, an overlap, the same slot in another room, the boundary of each
    rule, and the two inputs on which the handler's business-hours test lets a
    booking end after 22:00. */
module Scenarios {
  import opened Clock
  import opened Bookings
  import opened Admission

  /** A working day, as a day number, used by every scenario. */
  const Today: int := 20000

  function Ask(start: int, end: int): Request
  {
    Request(1, 1, "Standup", start, end, 4, [])
  }

  /** Room 1 holds [10:00, 11:00) today. */
  function RoomA(): seq<Booking>
  {
    [Booking(7, 2, 1, "Review", At(Today, 10, 0), At(Today, 11, 0), 5, [], At(Today, 7, 0))]
  }

  /** A booking that starts when another ends is no conflict. */
  lemma AdjacentSlotAdmitted()
    ensures Check(Ask(At(Today, 11, 0), At(Today, 12, 0)), At(Today, 8, 0), RoomA(), AsWritten) == Admit
    ensures Check(Ask(At(Today, 9, 0), At(Today, 10, 0)), At(Today, 8, 0), RoomA(), AsWritten) == Admit
  {
    assert Conflicting(RoomA(), 1, At(Today, 11, 0), At(Today, 12, 0)) == [];
    assert Conflicting(RoomA(), 1, At(Today, 9, 0), At(Today, 10, 0)) == [];
  }

  /** An interval inside a stored one of the same room is a conflict; a
      15-minute request is refused as too short before the conflict query runs. */
  lemma OverlapRejected()
    ensures Check(Ask(At(Today, 10, 30), At(Today, 11, 15)), At(Today, 8, 0), RoomA(), AsWritten) == Reject(SlotTaken)
    ensures Check(Ask(At(Today, 10, 30), At(Today, 10, 45)), At(Today, 8, 0), RoomA(), AsWritten) == Reject(TooShort)
  {
    var c := Conflicting(RoomA(), 1, At(Today, 10, 30), At(Today, 11, 15));
    assert RoomA()[0] in c;
  }

  /** The same interval in another room is admitted. */
  lemma OtherRoomAdmitted()
    ensures Check(Request(1, 2, "Standup", At(Today, 10, 30), At(Today, 11, 15), 4, []),
                  At(Today, 8, 0), RoomA(), AsWritten) == Admit
  {
    assert Conflicting(RoomA(), 2, At(Today, 10, 30), At(Today, 11, 15)) == [];
  }

  lemma DateAndTimeRules()
    ensures Check(Ask(At(Today - 1, 10, 0), At(Today - 1, 11, 0)), At(Today, 8, 0), [], AsWritten) == Reject(NotToday)
    ensures Check(Ask(At(Today + 1, 10, 0), At(Today + 1, 11, 0)), At(Today, 8, 0), [], AsWritten) == Reject(NotToday)
    ensures Check(Ask(At(Today, 10, 0), At(Today, 11, 0)), At(Today, 10, 0), [], AsWritten) == Reject(PastStart)
    ensures Check(Ask(At(Today, 11, 0), At(Today, 11, 0)), At(Today, 8, 0), [], AsWritten) == Reject(EndNotAfterStart)
    ensures Check(Ask(At(Today, 8, 30), At(Today, 9, 30)), At(Today, 8, 0), [], AsWritten) == Reject(OutsideBusinessHours)
  {
  }

  /** Both duration bounds are inclusive. */
  lemma DurationBounds()
    ensures Check(Ask(At(Today, 10, 0), At(Today, 10, 20)), At(Today, 8, 0), [], AsWritten) == Reject(TooShort)
    ensures Check(Ask(At(Today, 10, 0), At(Today, 10, 30) - 1), At(Today, 8, 0), [], AsWritten) == Reject(TooShort)
    ensures Check(Ask(At(Today, 10, 0), At(Today, 10, 30)), At(Today, 8, 0), [], AsWritten) == Admit
    ensures Check(Ask(At(Today, 10, 0), At(Today, 15, 0)), At(Today, 8, 0), [], AsWritten) == Admit
    ensures Check(Ask(At(Today, 10, 0), At(Today, 15, 0) + 1), At(Today, 8, 0), [], AsWritten) == Reject(TooLong)
  {
  }

  /** A booking may start at 09:00 and end at 22:00 exactly, under either test. */
  lemma OpeningAndClosingBoundaries()
    ensures Check(Ask(At(Today, 9, 0), At(Today, 10, 0)), At(Today, 8, 0), [], AsWritten) == Admit
    ensures Check(Ask(At(Today, 9, 0), At(Today, 10, 0)), At(Today, 8, 0), [], Corrected) == Admit
    ensures Check(Ask(At(Today, 17, 0), At(Today, 22, 0)), At(Today, 8, 0), [], AsWritten) == Admit
    ensures Check(Ask(At(Today, 17, 0), At(Today, 22, 0)), At(Today, 8, 0), [], Corrected) == Admit
    ensures Check(Ask(At(Today, 21, 0), At(Today, 22, 1)), At(Today, 8, 0), [], AsWritten) == Reject(OutsideBusinessHours)
  {
  }

  /** The handler admits a booking ending at 22:00:01, because only the hour and
      minute of the end are inspected; the corrected test refuses it. */
  lemma EndSecondsPastClosing()
    ensures Check(Ask(At(Today, 21, 0), At(Today, 22, 0) + 1000), At(Today, 8, 0), [], AsWritten) == Admit
    ensures Check(Ask(At(Today, 21, 0), At(Today, 22, 0) + 1000), At(Today, 8, 0), [], Corrected) == Reject(OutsideBusinessHours)
  {
  }

  /** The handler admits 23:00 today to 00:30 tomorrow, because the end's hour
      reads 0; the corrected test refuses it. */
  lemma MidnightCrossing()
    ensures Check(Ask(At(Today, 23, 0), At(Today + 1, 0, 30)), At(Today, 22, 30), [], AsWritten) == Admit
    ensures Check(Ask(At(Today, 23, 0), At(Today + 1, 0, 30)), At(Today, 22, 30), [], Corrected) == Reject(OutsideBusinessHours)
  {
  }
}
