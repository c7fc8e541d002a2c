/** The bookings table: its rows, the conflict clause of the overlap query,
    row selection, and the table invariants (unique ids, no two bookings of
    one room overlapping). */
module Bookings {

  /** One row of the bookings table. Times are Clock timestamps. */
  datatype Booking = Booking(
    id: int,
    userId: int,
    roomId: int,
    title: string,
    start: int,
    end: int,
    attendees: int,
    equipment: seq<string>,
    createdAt: int)

  /** Half-open intervals [s1, e1) and [s2, e2) share an instant. */
  predicate Overlaps(s1: int, e1: int, s2: int, e2: int)
  {
    s1 < e2 && s2 < e1
  }

  /** The WHERE clause of the conflict query, for a stored row [rowStart, rowEnd)
      against the requested [s, e). For non-empty intervals it is exactly
      half-open overlap, so rows that only touch the request are no conflict. */
  function ConflictClause(rowStart: int, rowEnd: int, s: int, e: int): (r: bool)
    ensures rowStart < rowEnd && s < e ==> (r <==> Overlaps(rowStart, rowEnd, s, e))
    ensures rowStart < rowEnd && s < e && (rowEnd == s || e == rowStart) ==> !r
  {
    || (rowStart <= s && rowEnd > s)
    || (rowStart < e && rowEnd >= e)
    || (rowStart >= s && rowEnd <= e)
  }

  /** The rows of bs that satisfy keep, in table order: a WHERE clause. */
  function Filter(bs: seq<Booking>, keep: Booking -> bool): (r: seq<Booking>)
    ensures |r| <= |bs|
    ensures forall b :: multiset(r)[b] == if keep(b) then multiset(bs)[b] else 0
    ensures forall b :: b in r <==> b in bs && keep(b)
  {
    if |bs| == 0 then []
    else
      assert bs == [bs[0]] + bs[1..];
      (if keep(bs[0]) then [bs[0]] else []) + Filter(bs[1..], keep)
  }

  /** DELETE FROM bookings WHERE id = bookingId. */
  function Without(bs: seq<Booking>, bookingId: int): (r: seq<Booking>)
    ensures forall b :: b in r <==> b in bs && b.id != bookingId
  {
    Filter(bs, (b: Booking) => b.id != bookingId)
  }

  /** The primary key: no two rows share an id. */
  predicate DistinctIds(bs: seq<Booking>)
  {
    forall i, j :: 0 <= i < j < |bs| ==> bs[i].id != bs[j].id
  }

  /** The room invariant: two different bookings of the same room never overlap. */
  predicate RoomsDisjoint(bs: seq<Booking>)
  {
    forall a, b :: a in bs && b in bs && a.id != b.id && a.roomId == b.roomId ==>
      !Overlaps(a.start, a.end, b.start, b.end)
  }

  lemma {:induction false} FilterKeepsDistinctIds(bs: seq<Booking>, keep: Booking -> bool)
    requires DistinctIds(bs)
    ensures DistinctIds(Filter(bs, keep))
  {
    if |bs| > 0 {
      var rest := Filter(bs[1..], keep);
      FilterKeepsDistinctIds(bs[1..], keep);
      if keep(bs[0]) {
        assert Filter(bs, keep) == [bs[0]] + rest;
        forall j | 0 <= j < |rest|
          ensures bs[0].id != rest[j].id
        {
          RowOfTail(bs, rest[j]);
        }
      } else {
        assert Filter(bs, keep) == rest;
      }
    }
  }

  /** A row of a table's tail has an id other than the head's. */
  lemma RowOfTail(bs: seq<Booking>, b: Booking)
    requires DistinctIds(bs) && |bs| > 0 && b in bs[1..]
    ensures b.id != bs[0].id
  {
    var k :| 0 <= k < |bs[1..]| && bs[1..][k] == b;
    assert bs[k + 1] == b;
  }

  /** Appending a row whose id is above every stored id keeps the key unique. */
  lemma {:induction false} AppendKeepsDistinctIds(bs: seq<Booking>, nb: Booking)
    requires DistinctIds(bs)
    requires forall b :: b in bs ==> b.id < nb.id
    ensures DistinctIds(bs + [nb])
  {
    forall i, j | 0 <= i < j < |bs + [nb]|
      ensures (bs + [nb])[i].id != (bs + [nb])[j].id
    {
      assert (bs + [nb])[i] == bs[i];
      if j < |bs| {
        assert (bs + [nb])[j] == bs[j];
      } else {
        assert bs[i] in bs;
      }
    }
  }

  /** Removing rows keeps the room invariant. */
  lemma FilterKeepsRoomsDisjoint(bs: seq<Booking>, keep: Booking -> bool)
    requires RoomsDisjoint(bs)
    ensures RoomsDisjoint(Filter(bs, keep))
  {
  }

  /** Create preserves the room invariant: appending a non-empty booking that
      no stored row of its room matches under the conflict clause. */
  lemma {:induction false} AppendKeepsRoomsDisjoint(bs: seq<Booking>, nb: Booking)
    requires RoomsDisjoint(bs)
    requires forall b :: b in bs ==> b.start < b.end && b.id != nb.id
    requires nb.start < nb.end
    requires forall b :: b in bs && b.roomId == nb.roomId ==> !ConflictClause(b.start, b.end, nb.start, nb.end)
    ensures RoomsDisjoint(bs + [nb])
  {
    forall a, b | a in bs + [nb] && b in bs + [nb] && a.id != b.id && a.roomId == b.roomId
      ensures !Overlaps(a.start, a.end, b.start, b.end)
    {
      if a == nb {
        assert b in bs && !ConflictClause(b.start, b.end, nb.start, nb.end);
      } else if b == nb {
        assert a in bs && !ConflictClause(a.start, a.end, nb.start, nb.end);
      }
    }
  }

  /** With a unique key, deleting by an id that is present removes exactly one row. */
  lemma {:induction false} WithoutRemovesOneRow(bs: seq<Booking>, i: int)
    requires DistinctIds(bs)
    requires 0 <= i < |bs|
    ensures |Without(bs, bs[i].id)| == |bs| - 1
  {
    assert bs == [bs[0]] + bs[1..];
    if i == 0 {
      forall b | b in bs[1..]
        ensures b.id != bs[0].id
      {
        RowOfTail(bs, b);
      }
      WithoutAbsentKeepsAll(bs[1..], bs[0].id);
    } else {
      assert bs[1..][i - 1] == bs[i];
      WithoutRemovesOneRow(bs[1..], i - 1);
    }
  }

  lemma {:induction false} WithoutAbsentKeepsAll(bs: seq<Booking>, bookingId: int)
    requires forall b :: b in bs ==> b.id != bookingId
    ensures Without(bs, bookingId) == bs
  {
    if |bs| > 0 {
      assert bs[0] in bs;
      WithoutAbsentKeepsAll(bs[1..], bookingId);
      assert bs == [bs[0]] + bs[1..];
    }
  }

  lemma {:induction false} FilterAppend(a: seq<Booking>, b: seq<Booking>, keep: Booking -> bool)
    ensures Filter(a + b, keep) == Filter(a, keep) + Filter(b, keep)
  {
    if |a| > 0 {
      assert (a + b)[1..] == a[1..] + b;
      FilterAppend(a[1..], b, keep);
    } else {
      assert a + b == b;
    }
  }

  /** Cancelling a booking right after creating it restores the table. */
  lemma WithoutUndoesAppend(bs: seq<Booking>, nb: Booking)
    requires forall b :: b in bs ==> b.id != nb.id
    ensures Without(bs + [nb], nb.id) == bs
  {
    FilterAppend(bs, [nb], (b: Booking) => b.id != nb.id);
    WithoutAbsentKeepsAll(bs, nb.id);
    assert Without([nb], nb.id) == [];
  }
}
