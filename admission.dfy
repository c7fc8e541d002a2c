/** The admission rule of POST /api/bookings: a fail-fast chain of checks on a
    requested interval [start, end), evaluated against the current time and
    the bookings already stored. */
module Admission {
  import opened Clock
  import opened Bookings

  /** The request body after field validation. */
  datatype Request = Request(
    userId: int,
    roomId: int,
    title: string,
    start: int,
    end: int,
    attendees: int,
    equipment: seq<string>)

  /** One distinct error per rule. SlotTaken is the 409 answer, the others 400. */
  datatype Rejection =
    | InvalidFields
    | NotToday
    | PastStart
    | EndNotAfterStart
    | OutsideBusinessHours
    | TooShort
    | TooLong
    | SlotTaken

  datatype Verdict = Admit | Reject(reason: Rejection)

  /** Which business-hours test to apply: the one the handler performs, which
      looks only at the hour and minute of the end, or the intended one, which
      keeps the end at or before 22:00 of the booking's own day. */
  datatype HoursRule = AsWritten | Corrected

  const OpeningHour: int := 9
  const ClosingHour: int := 22
  const MinDuration: int := 30 * MsPerMinute
  const MaxDuration: int := 300 * MsPerMinute

  /** The express-validator checks that can fail on well-typed input. */
  predicate FieldsValid(req: Request)
  {
    req.attendees >= 1 && |req.title| > 0
  }

  /** The business-hours test. The handler's own test reads the start's hour
      and the end's hour and minute, so it compares the end with 22:00 of the
      end's own day and ignores its seconds; the corrected test keeps the end
      at or before 22:00 of the start's day. */
  predicate WithinHours(rule: HoursRule, start: int, end: int): (r: bool)
    ensures rule.AsWritten? ==>
              (r <==>
                 Midnight(start) + OpeningHour * MsPerHour <= start
                 && end < Midnight(end) + ClosingHour * MsPerHour + MsPerMinute)
    ensures rule.Corrected? ==>
              (r <==>
                 Midnight(start) + OpeningHour * MsPerHour <= start
                 && end <= Midnight(start) + ClosingHour * MsPerHour)
  {
    match rule
    case AsWritten =>
      HourOf(start) >= OpeningHour
      && !(HourOf(end) > ClosingHour || (HourOf(end) == ClosingHour && MinuteOf(end) > 0))
    case Corrected =>
      HourOf(start) >= OpeningHour && end <= Midnight(start) + ClosingHour * MsPerHour
  }

  /** The rows the conflict query returns: same room, conflict clause true. */
  function Conflicting(existing: seq<Booking>, roomId: int, start: int, end: int): (r: seq<Booking>)
    ensures forall b :: b in r <==> b in existing && b.roomId == roomId && ConflictClause(b.start, b.end, start, end)
  {
    Filter(existing, (b: Booking) => b.roomId == roomId && ConflictClause(b.start, b.end, start, end))
  }

  /** A stored booking satisfies every time rule that does not depend on "now". */
  predicate InWindow(start: int, end: int)
  {
    && start < end
    && MinDuration <= end - start <= MaxDuration
    && Midnight(start) + OpeningHour * MsPerHour <= start
    && end <= Midnight(start) + ClosingHour * MsPerHour
  }

  /** The handler's checks, in the handler's order; the first that fails decides. */
  function Check(req: Request, now: int, existing: seq<Booking>, rule: HoursRule): (v: Verdict)
    ensures v.Admit? ==> FieldsValid(req) && DayOf(req.start) == DayOf(now) && now < req.start < req.end
    ensures v.Admit? ==> MinDuration <= req.end - req.start <= MaxDuration
    ensures v.Admit? && rule.Corrected? ==> InWindow(req.start, req.end)
    ensures v.Admit? && rule.Corrected? ==>
              At(DayOf(now), OpeningHour, 0) <= req.start < req.end <= At(DayOf(now), ClosingHour, 0)
    ensures v.Admit? ==> forall b :: b in existing && b.roomId == req.roomId && b.start < b.end ==>
                                      !Overlaps(b.start, b.end, req.start, req.end)
  {
    if !FieldsValid(req) then Reject(InvalidFields)
    else if DayOf(req.start) != DayOf(now) then Reject(NotToday)
    else if req.start <= now then Reject(PastStart)
    else if req.end <= req.start then Reject(EndNotAfterStart)
    else if !WithinHours(rule, req.start, req.end) then Reject(OutsideBusinessHours)
    else if req.end - req.start < MinDuration then Reject(TooShort)
    else if req.end - req.start > MaxDuration then Reject(TooLong)
    else if |Conflicting(existing, req.roomId, req.start, req.end)| > 0 then Reject(SlotTaken)
    else Admit
  }

  // ---- The rule order, as a table independent of the if-chain ----

  const RuleCount: int := 8

  /** The error of rule k, in the order the handler tests the rules. */
  function RuleError(k: int): Rejection
    requires 0 <= k < RuleCount
  {
    [InvalidFields, NotToday, PastStart, EndNotAfterStart,
     OutsideBusinessHours, TooShort, TooLong, SlotTaken][k]
  }

  /** Rule k passes. Later rules may assume the earlier ones passed, as the
      handler does; each is stated here on its own. */
  predicate RuleHolds(k: int, req: Request, now: int, existing: seq<Booking>, rule: HoursRule)
    requires 0 <= k < RuleCount
  {
    match k
    case 0 => FieldsValid(req)
    case 1 => DayOf(req.start) == DayOf(now)
    case 2 => now < req.start
    case 3 => req.start < req.end
    case 4 => WithinHours(rule, req.start, req.end)
    case 5 => req.end - req.start >= MinDuration
    case 6 => req.end - req.start <= MaxDuration
    case _ => forall b :: b in existing && b.roomId == req.roomId ==>
                !ConflictClause(b.start, b.end, req.start, req.end)
  }

  /** Every rule has its own error. */
  lemma RuleErrorsDistinct(k: int, j: int)
    requires 0 <= k < RuleCount && 0 <= j < RuleCount && k != j
    ensures RuleError(k) != RuleError(j)
  {
  }

  /** A request is admitted exactly when every rule holds. */
  lemma CheckAdmitsIffAllRulesHold(req: Request, now: int, existing: seq<Booking>, rule: HoursRule)
    ensures Check(req, now, existing, rule) == Admit <==>
            forall k :: 0 <= k < RuleCount ==> RuleHolds(k, req, now, existing, rule)
  {
    if Check(req, now, existing, rule) == Admit {
      forall k | 0 <= k < RuleCount
        ensures RuleHolds(k, req, now, existing, rule)
      {
        if k == 7 {
          forall b | b in existing && b.roomId == req.roomId
            ensures !ConflictClause(b.start, b.end, req.start, req.end)
          {
            assert b !in Conflicting(existing, req.roomId, req.start, req.end);
          }
        }
      }
    } else {
      var k := FirstFailing(req, now, existing, rule);
      assert !RuleHolds(k, req, now, existing, rule);
    }
  }

  /** The index of the first rule that fails, when one does. */
  function FirstFailing(req: Request, now: int, existing: seq<Booking>, rule: HoursRule): (k: int)
    requires Check(req, now, existing, rule).Reject?
    ensures 0 <= k < RuleCount && !RuleHolds(k, req, now, existing, rule)
    ensures forall j :: 0 <= j < k ==> RuleHolds(j, req, now, existing, rule)
    ensures Check(req, now, existing, rule) == Reject(RuleError(k))
  {
    if !RuleHolds(0, req, now, existing, rule) then 0
    else if !RuleHolds(1, req, now, existing, rule) then 1
    else if !RuleHolds(2, req, now, existing, rule) then 2
    else if !RuleHolds(3, req, now, existing, rule) then 3
    else if !RuleHolds(4, req, now, existing, rule) then 4
    else if !RuleHolds(5, req, now, existing, rule) then 5
    else if !RuleHolds(6, req, now, existing, rule) then 6
    else
      var c := Conflicting(existing, req.roomId, req.start, req.end);
      assert c[0] in c;
      7
  }

  /** Rule order: when rule k fails and every earlier rule holds, the request is
      rejected with rule k's error, whatever the later rules say. */
  lemma {:induction false} CheckRejectsAtFirstFailingRule(
    req: Request, now: int, existing: seq<Booking>, rule: HoursRule, k: int)
    requires 0 <= k < RuleCount
    requires !RuleHolds(k, req, now, existing, rule)
    requires forall j :: 0 <= j < k ==> RuleHolds(j, req, now, existing, rule)
    ensures Check(req, now, existing, rule) == Reject(RuleError(k))
  {
    CheckAdmitsIffAllRulesHold(req, now, existing, rule);
    var f := FirstFailing(req, now, existing, rule);
  }

  // ---- The two business-hours tests compared ----

  lemma SameDay(t: int, u: int)
    requires Midnight(t) <= u < Midnight(t) + MsPerDay
    ensures Midnight(u) == Midnight(t)
  {
  }

  /** The intended test never admits what the handler's test rejects. */
  lemma CorrectedIsStricter(start: int, end: int)
    requires start < end
    requires WithinHours(Corrected, start, end)
    ensures WithinHours(AsWritten, start, end)
  {
    SameDay(start, end);
    var m := Midnight(start);
    assert HourOf(end) <= ClosingHour;
    if HourOf(end) == ClosingHour {
      assert end == m + ClosingHour * MsPerHour;
    }
  }

  /** The two tests agree on every interval whose end lies on the start's day
      and falls on a whole minute; they differ only on the other intervals. */
  lemma AsWrittenIsCorrectOnSameDayWholeMinutes(start: int, end: int)
    requires start < end
    requires DayOf(end) == DayOf(start)
    requires end % MsPerMinute == 0
    requires WithinHours(AsWritten, start, end)
    ensures WithinHours(Corrected, start, end)
  {
    var m := Midnight(start);
    assert Midnight(end) == m;
    if HourOf(end) == ClosingHour {
      assert MinuteOf(end) == 0;
      assert end - m - ClosingHour * MsPerHour < MsPerMinute;
    }
  }

  /** Everything the corrected chain admits, the handler's chain admits too. */
  lemma CorrectedAdmitsOnlyWhatSourceAdmits(req: Request, now: int, existing: seq<Booking>)
    ensures Check(req, now, existing, Corrected) == Admit ==> Check(req, now, existing, AsWritten) == Admit
  {
    if Check(req, now, existing, Corrected) == Admit {
      CorrectedIsStricter(req.start, req.end);
    }
  }
}
