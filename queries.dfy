/** The read queries over the bookings table: a user's bookings, a room's
    bookings on a date, and every booking on a date. Each is a WHERE clause
    followed by an ORDER BY. SQL leaves the order of rows with equal sort keys
    open, so each query is specified as "sorted, and exactly the selected rows",
    and computed by one insertion sort. */
module Queries {
  import opened Clock
  import opened Bookings
  import opened Optional

  datatype Order =
    | StartAscending    // ORDER BY start_time
    | StartDescending   // ORDER BY start_time DESC
    | RoomThenStart     // ORDER BY room_id, start_time

  /** a may come before b under the order. */
  predicate InOrder(o: Order, a: Booking, b: Booking)
  {
    match o
    case StartAscending => a.start <= b.start
    case StartDescending => a.start >= b.start
    case RoomThenStart => a.roomId < b.roomId || (a.roomId == b.roomId && a.start <= b.start)
  }

  predicate Sorted(o: Order, s: seq<Booking>)
  {
    forall i, j :: 0 <= i < j < |s| ==> InOrder(o, s[i], s[j])
  }

  /** Places x into a sorted sequence. */
  function Insert(o: Order, x: Booking, s: seq<Booking>): (r: seq<Booking>)
    requires Sorted(o, s)
    ensures Sorted(o, r)
    ensures multiset(r) == multiset(s) + multiset{x}
  {
    if |s| == 0 then [x]
    else if InOrder(o, x, s[0]) then
      assert s == [s[0]] + s[1..];
      [x] + s
    else
      var rest := Insert(o, x, s[1..]);
      assert s == [s[0]] + s[1..];
      HeadPrecedesRest(o, s, x, rest);
      assert forall j :: 0 <= j < |rest| ==> rest[j] in rest;
      [s[0]] + rest
  }

  lemma HeadPrecedesRest(o: Order, s: seq<Booking>, x: Booking, rest: seq<Booking>)
    requires Sorted(o, s) && |s| > 0 && !InOrder(o, x, s[0])
    requires multiset(rest) == multiset(s[1..]) + multiset{x}
    ensures forall y :: y in rest ==> InOrder(o, s[0], y)
  {
    forall y | y in rest
      ensures InOrder(o, s[0], y)
    {
      assert y in multiset(rest);
      if y != x {
        assert y in multiset(s[1..]);
        var k :| 0 <= k < |s[1..]| && s[1..][k] == y;
        assert s[k + 1] == y;
      }
    }
  }

  /** The rows of s, sorted by the order. */
  function Sort(o: Order, s: seq<Booking>): (r: seq<Booking>)
    ensures Sorted(o, r)
    ensures multiset(r) == multiset(s)
  {
    if |s| == 0 then []
    else
      assert s == [s[0]] + s[1..];
      Insert(o, s[0], Sort(o, s[1..]))
  }

  /** GET /api/users/:userId/bookings: the user's bookings, latest start first;
      an empty sequence when there are none. */
  function UserBookings(bs: seq<Booking>, userId: int): (r: seq<Booking>)
    ensures Sorted(StartDescending, r)
    ensures forall b :: multiset(r)[b] == if b.userId == userId then multiset(bs)[b] else 0
  {
    Sort(StartDescending, Filter(bs, (b: Booking) => b.userId == userId))
  }

  /** The answer of the availability endpoint: a listing, or the 400 answer
      when the date parameter is missing. */
  datatype Listing = Rows(rows: seq<Booking>) | DateRequired

  /** GET /api/rooms/:roomId/availability?date=: the room's bookings that start
      on that date, earliest first. */
  function Availability(bs: seq<Booking>, roomId: int, date: Option<int>): (r: Listing)
    ensures r.DateRequired? <==> date.None?
    ensures r.Rows? ==> Sorted(StartAscending, r.rows)
    ensures r.Rows? ==>
              forall b :: multiset(r.rows)[b] ==
                  (if b.roomId == roomId && DayOf(b.start) == date.value then multiset(bs)[b] else 0)
  {
    match date
    case None => DateRequired
    case Some(d) =>
      Rows(Sort(StartAscending, Filter(bs, (b: Booking) => b.roomId == roomId && DayOf(b.start) == d)))
  }

  /** GET /api/bookings/today: every booking that starts on the day, grouped by
      room and earliest first within a room. */
  function DayBookings(bs: seq<Booking>, day: int): (r: seq<Booking>)
    ensures Sorted(RoomThenStart, r)
    ensures forall b :: multiset(r)[b] == if DayOf(b.start) == day then multiset(bs)[b] else 0
  {
    Sort(RoomThenStart, Filter(bs, (b: Booking) => DayOf(b.start) == day))
  }

  /** The day listing, cut down to one room, holds exactly the rows the
      availability listing of that room and day holds. */
  lemma DayListingAgreesWithAvailability(bs: seq<Booking>, roomId: int, day: int)
    ensures multiset(Filter(DayBookings(bs, day), (b: Booking) => b.roomId == roomId))
         == multiset(Availability(bs, roomId, Some(day)).rows)
  {
    var lhs := multiset(Filter(DayBookings(bs, day), (b: Booking) => b.roomId == roomId));
    var rhs := multiset(Availability(bs, roomId, Some(day)).rows);
    forall b
      ensures lhs[b] == rhs[b]
    {
    }
  }

  /** Within one room the day listing is in start order. */
  lemma DayListingRoomRunsAscend(bs: seq<Booking>, day: int)
    ensures var r := DayBookings(bs, day);
            forall i, j :: 0 <= i < j < |r| && r[i].roomId == r[j].roomId ==> r[i].start <= r[j].start
  {
  }
}
