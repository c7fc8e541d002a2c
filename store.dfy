/** The tables as one in-memory store, with the three writing handlers:
    login (upsert a user), create a booking, cancel a booking. Each handler is
    one atomic step. */
module Store {
  import opened Optional
  import opened Bookings
  import opened Users
  import opened Admission

  /** One row of the rooms table; rooms are seeded once and only read here. */
  datatype Room = Room(id: int, name: string, capacity: int, equipment: seq<string>)

  /** The answer of POST /api/bookings: the created row (201), a rule's error
      (400, or 409 for SlotTaken), or the foreign-key failure of the insert
      when the user or the room does not exist (500). */
  datatype CreateOutcome = Created(booking: Booking) | Rejected(reason: Rejection) | MissingReference

  predicate HasRoom(rooms: seq<Room>, id: int)
  {
    exists r :: r in rooms && r.id == id
  }

  /** The row the insert writes for an admitted request. */
  function NewBooking(id: int, req: Request, now: int): Booking
  {
    Booking(id, req.userId, req.roomId, req.title, req.start, req.end, req.attendees, req.equipment, now)
  }

  /** What every stored booking satisfies, whenever it was created. */
  predicate WellFormed(b: Booking)
  {
    InWindow(b.start, b.end) && b.attendees >= 1 && |b.title| > 0
  }

  class BookingStore {
    const rooms: seq<Room>
    var users: seq<User>
    var bookings: seq<Booking>
    var nextUserId: int       // next value of the users id sequence
    var nextBookingId: int    // next value of the bookings id sequence

    ghost predicate Valid()
      reads this
    {
      && WellKeyed(users, nextUserId)
      && 1 <= nextBookingId
      && DistinctIds(bookings)
      && (forall b :: b in bookings ==> 1 <= b.id < nextBookingId)
      && (forall b :: b in bookings ==> WellFormed(b) && HasId(users, b.userId) && HasRoom(rooms, b.roomId))
      && RoomsDisjoint(bookings)
    }

    constructor (rooms: seq<Room>)
      ensures Valid()
      ensures this.rooms == rooms && users == [] && bookings == []
      ensures nextUserId == 1 && nextBookingId == 1
    {
      this.rooms := rooms;
      users, bookings := [], [];
      nextUserId, nextBookingId := 1, 1;
    }

    /** POST /api/auth/login: an empty name is refused (None, the 400 answer)
        and changes nothing; otherwise the upsert answers with the user. */
    method Login(name: string, email: string, now: int) returns (u: Option<User>)
      requires Valid()
      modifies this
      ensures Valid()
      ensures u.None? <==> |name| == 0
      ensures u.None? ==> users == old(users) && nextUserId == old(nextUserId)
      ensures u.Some? ==>
                var r := Upsert(old(users), old(nextUserId), name, email, now);
                users == r.users && nextUserId == r.nextId && u.value == r.user
      ensures bookings == old(bookings) && nextBookingId == old(nextBookingId)
    {
      if |name| == 0 {
        return None;
      }
      match FindByEmail(users, email) {
        case None =>
          var nu := User(nextUserId, name, email, now);
          users := users + [nu];
          nextUserId := nextUserId + 1;
          u := Some(nu);
        case Some(i) =>
          var found := users[i];
          if found.name != name {
            found := found.(name := name);
            users := users[i := found];
          }
          u := Some(found);
      }
      UpsertKeepsKeys(old(users), old(nextUserId), name, email, now);
      forall b | b in bookings
        ensures HasId(users, b.userId)
      {
        UpsertKeepsIds(old(users), old(nextUserId), name, email, now, b.userId);
      }
    }

    /** POST /api/bookings, after field validation. The row is inserted only
        when every rule passes and both foreign keys resolve; the id sequence
        advances as soon as the insert is attempted. */
    method Create(req: Request, now: int) returns (out: CreateOutcome)
      requires Valid()
      modifies this
      ensures Valid()
      ensures users == old(users) && nextUserId == old(nextUserId)
      ensures var v := Check(req, now, old(bookings), Corrected);
              if v.Reject? then
                out == Rejected(v.reason) && bookings == old(bookings) && nextBookingId == old(nextBookingId)
              else if !HasId(users, req.userId) || !HasRoom(rooms, req.roomId) then
                out == MissingReference && bookings == old(bookings) && nextBookingId == old(nextBookingId) + 1
              else
                out == Created(NewBooking(old(nextBookingId), req, now))
                && bookings == old(bookings) + [out.booking] && nextBookingId == old(nextBookingId) + 1
    {
      var v := Check(req, now, bookings, Corrected);
      if v.Reject? {
        return Rejected(v.reason);
      }
      var b := NewBooking(nextBookingId, req, now);
      nextBookingId := nextBookingId + 1;
      if !HasId(users, req.userId) || !HasRoom(rooms, req.roomId) {
        return MissingReference;
      }
      CheckAdmitsIffAllRulesHold(req, now, bookings, Corrected);
      assert RuleHolds(7, req, now, bookings, Corrected);
      AppendKeepsDistinctIds(bookings, b);
      AppendKeepsRoomsDisjoint(bookings, b);
      bookings := bookings + [b];
      out := Created(b);
    }

    /** DELETE /api/bookings/:bookingId: only the owner may cancel; otherwise
        the answer is not-found and nothing changes. */
    method Cancel(bookingId: int, userId: int) returns (cancelled: bool)
      requires Valid()
      modifies this
      ensures Valid()
      ensures cancelled <==> exists b :: b in old(bookings) && b.id == bookingId && b.userId == userId
      ensures bookings == if cancelled then Without(old(bookings), bookingId) else old(bookings)
      ensures users == old(users) && nextUserId == old(nextUserId) && nextBookingId == old(nextBookingId)
    {
      cancelled := exists b :: b in bookings && b.id == bookingId && b.userId == userId;
      if cancelled {
        FilterKeepsDistinctIds(bookings, (b: Booking) => b.id != bookingId);
        FilterKeepsRoomsDisjoint(bookings, (b: Booking) => b.id != bookingId);
        bookings := Without(bookings, bookingId);
      }
    }
  }

  /** The handler's own chain, with its own hours test, also keeps the keys
      unique and the rooms free of overlaps: only the hours part of the store's
      invariant depends on the corrected test. */
  lemma HandlerAdmissionKeepsKeysAndRooms(bs: seq<Booking>, req: Request, now: int, id: int)
    ensures && RoomsDisjoint(bs) && DistinctIds(bs)
            && (forall b :: b in bs ==> b.start < b.end && b.id < id)
            && Check(req, now, bs, AsWritten) == Admit
            ==> && RoomsDisjoint(bs + [NewBooking(id, req, now)])
                && DistinctIds(bs + [NewBooking(id, req, now)])
  {
    var nb := NewBooking(id, req, now);
    if && RoomsDisjoint(bs) && DistinctIds(bs)
       && (forall b :: b in bs ==> b.start < b.end && b.id < id)
       && Check(req, now, bs, AsWritten) == Admit
    {
      CheckAdmitsIffAllRulesHold(req, now, bs, AsWritten);
      assert RuleHolds(3, req, now, bs, AsWritten);
      assert RuleHolds(7, req, now, bs, AsWritten);
      AppendKeepsRoomsDisjoint(bs, nb);
      AppendKeepsDistinctIds(bs, nb);
    }
  }

  /** On a new database the first login with a name gets user id 1, the first
      value of the users id sequence. */
  method FirstLogin(rooms: seq<Room>, name: string, email: string, now: int) returns (u: Option<User>)
    ensures |name| == 0 ==> u == None
    ensures |name| > 0 ==> u == Some(User(1, name, email, now))
  {
    var s := new BookingStore(rooms);
    u := s.Login(name, email, now);
  }

  /** Creating a booking and having its owner cancel it at once leaves the
      bookings table as it was. */
  method CreateThenCancel(s: BookingStore, req: Request, now: int) returns (out: CreateOutcome, cancelled: bool)
    requires s.Valid()
    modifies s
    ensures s.Valid()
    ensures out.Created? ==> cancelled
    ensures s.bookings == old(s.bookings) && s.users == old(s.users)
  {
    out := s.Create(req, now);
    cancelled := false;
    if out.Created? {
      ghost var before := old(s.bookings);
      assert forall b :: b in before ==> b.id != out.booking.id;
      assert out.booking in s.bookings;
      cancelled := s.Cancel(out.booking.id, out.booking.userId);
      WithoutUndoesAppend(before, out.booking);
    }
  }
}
