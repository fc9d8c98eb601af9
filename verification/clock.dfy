/** Wall-clock instants as naive Python `datetime` values: whole microseconds
    counted from 0001-01-01T00:00:00, bounded by the last microsecond of
    9999-12-31. The ISO-8601 text the records store is abstracted to the
    instant it denotes (`fromisoformat` undoes `isoformat`). */
module Clock {
  import opened Optional

  const MicrosPerDay: int := 86_400_000_000

  /** Days from 0001-01-01 through 9999-12-31 inclusive. */
  const CalendarDays: int := 3_652_059

  /** The instant of `datetime.max`. */
  const MaxInstant: int := CalendarDays * MicrosPerDay - 1

  /** The largest day count `timedelta(days=...)` accepts. */
  const MaxTimedeltaDays: int := 999_999_999

  type Instant = t: int | 0 <= t <= MaxInstant

  /** `t + timedelta(days=days)`: `None` is the `OverflowError` raised either by
      the `timedelta` constructor or by a sum outside the calendar. */
  function AddDays(t: Instant, days: int): Option<Instant>
  {
    if days < -MaxTimedeltaDays || MaxTimedeltaDays < days then None
    else if 0 <= t + days * MicrosPerDay <= MaxInstant then Some(t + days * MicrosPerDay)
    else None
  }

  /** The sum exists exactly when it stays inside the calendar, and is then
      `days` whole days after `t`; the `timedelta` bound never decides the
      outcome on its own, because no day count beyond it keeps the sum in range. */
  lemma AddDaysInCalendar(t: Instant, days: int)
    ensures AddDays(t, days).Some? <==> 0 <= t + days * MicrosPerDay <= MaxInstant
    ensures AddDays(t, days).Some? ==> AddDays(t, days).value - t == days * MicrosPerDay
  {
    if days < -MaxTimedeltaDays {
      assert days * MicrosPerDay < -MaxInstant;
    } else if MaxTimedeltaDays < days {
      assert days * MicrosPerDay > MaxInstant;
    }
  }
}
