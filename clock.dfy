/** Wall-clock arithmetic. A timestamp is an integer number of milliseconds
    since a local-time epoch: the value a JavaScript Date compares by, read in
    the server's one fixed local time zone. */
module Clock {

  const MsPerMinute: int := 60000
  const MsPerHour: int := 3600000
  const MsPerDay: int := 86400000

  /** The calendar day a timestamp falls on, as a day number. Two timestamps
      have equal day numbers exactly when setHours(0, 0, 0, 0) maps them to
      the same midnight. */
  function DayOf(t: int): (d: int)
    ensures d * MsPerDay <= t < d * MsPerDay + MsPerDay
  {
    t / MsPerDay
  }

  /** The local midnight that starts t's day. */
  function Midnight(t: int): (m: int)
    ensures m % MsPerDay == 0
    ensures m <= t < m + MsPerDay
    ensures DayOf(m) == DayOf(t)
  {
    DayOf(t) * MsPerDay
  }

  /** Date.getHours(): the hour of the day, 0 to 23. */
  function HourOf(t: int): (h: int)
    ensures 0 <= h < 24
    ensures Midnight(t) + h * MsPerHour <= t < Midnight(t) + (h + 1) * MsPerHour
  {
    (t % MsPerDay) / MsPerHour
  }

  /** Date.getMinutes(): the minute within the hour, 0 to 59. Taking the
      remainder by the day first changes nothing, since an hour divides a day. */
  function MinuteOf(t: int): (m: int)
    ensures 0 <= m < 60
    ensures Midnight(t) + HourOf(t) * MsPerHour + m * MsPerMinute <= t
    ensures t < Midnight(t) + HourOf(t) * MsPerHour + (m + 1) * MsPerMinute
  {
    var tod := t % MsPerDay;
    assert t == Midnight(t) + tod;
    assert tod == HourOf(t) * MsPerHour + tod % MsPerHour;
    (tod % MsPerHour) / MsPerMinute
  }

  /** The timestamp of hh:mm on day number d. */
  function At(d: int, hh: int, mm: int): int
  {
    d * MsPerDay + hh * MsPerHour + mm * MsPerMinute
  }
}
