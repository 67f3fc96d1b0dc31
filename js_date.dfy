/**
 * The part of JavaScript's `Date` object that the ingestion handler uses:
 * a time value in milliseconds since the epoch (or NaN, here `None`),
 * `setUTCSeconds`, `getUTCDate`, `setDate`, `getTime` and `toISOString`,
 * plus the `| 0` conversion to a 32-bit integer.
 *
 * The local time zone is taken to be UTC, so `setDate` works on the UTC
 * date fields.
 */
module JsDate {
  import opened Wrappers
  import Calendar
  import IsoFormat

  const MsPerSecond: int := 1000
  const MsPerMinute: int := 60000
  const MsPerHour: int := 3600000
  const MsPerDay: int := 86400000
  /** Largest magnitude of a time value; anything beyond it is NaN. */
  const MaxTime: int := 8640000000000000

  /** Milliseconds since 1970-01-01T00:00:00Z, or `None` for an invalid date (NaN). */
  type TimeValue = Option<int>

  predicate InRange(t: int) {
    -MaxTime <= t <= MaxTime
  }

  function TimeClip(t: int): TimeValue {
    if InRange(t) then Some(t) else None
  }

  /** Day number of a time value, rounding towards minus infinity. */
  function Day(t: int): int {
    t / MsPerDay
  }

  function TimeWithinDay(t: int): (ms: int)
    ensures 0 <= ms < MsPerDay
  {
    t % MsPerDay
  }

  function Hour(tw: int): int { tw / MsPerHour }
  function Minute(tw: int): int { (tw / MsPerMinute) % 60 }
  function Second(tw: int): int { (tw / MsPerSecond) % 60 }
  function Milli(tw: int): int { tw % MsPerSecond }

  /** A time of day is the sum of its hour, minute, second and millisecond fields. */
  lemma TimeOfDayFields(tw: int)
    requires 0 <= tw < MsPerDay
    ensures 0 <= Hour(tw) < 24 && 0 <= Minute(tw) < 60 && 0 <= Second(tw) < 60 && 0 <= Milli(tw) < 1000
    ensures Hour(tw) * MsPerHour + Minute(tw) * MsPerMinute + Second(tw) * MsPerSecond + Milli(tw) == tw
  {
    var s := tw / MsPerSecond;
    var m := tw / MsPerMinute;
    assert tw == MsPerSecond * s + Milli(tw);
    assert m == s / 60 by {
      assert tw == MsPerMinute * (s / 60) + (MsPerSecond * (s % 60) + Milli(tw));
    }
    assert Hour(tw) == m / 60 by {
      assert tw == MsPerHour * (m / 60) + (MsPerMinute * (m % 60) + MsPerSecond * (s % 60) + Milli(tw));
    }
  }

  /** `setUTCSeconds(sec)`: replaces the seconds field, keeping the day, hour, minute and milliseconds. */
  function SetUTCSecondsOf(t: TimeValue, sec: Option<int>): TimeValue {
    if t.None? || sec.None? then None
    else
      var tw := TimeWithinDay(t.value);
      TimeClip(Day(t.value) * MsPerDay + Hour(tw) * MsPerHour + Minute(tw) * MsPerMinute
               + sec.value * MsPerSecond + Milli(tw))
  }

  /** `getUTCDate()`: the day of the month. */
  function UTCDateOf(t: TimeValue): Option<int> {
    match t
    case None => None
    case Some(v) => Some(Calendar.CivilFromDays(Day(v)).day)
  }

  /** `setDate(dt)` with the local zone at UTC: day `dt` of the current month (MakeDay normalises overflow), same time of day. */
  function SetDateOf(t: TimeValue, dt: Option<int>): TimeValue {
    if t.None? || dt.None? then None
    else
      var c := Calendar.CivilFromDays(Day(t.value));
      TimeClip(Calendar.DaysFromCivil(c.year, c.month, dt.value) * MsPerDay + TimeWithinDay(t.value))
  }

  /** `toISOString()`; `None` stands for the RangeError thrown on an invalid date. */
  function IsoStringOf(t: TimeValue): (r: Option<string>)
    ensures r.Some? <==> t.Some?
    ensures t.Some? ==> |r.value| == (if 0 <= Calendar.CivilFromDays(Day(t.value)).year <= 9999 then 24 else 27)
  {
    match t
    case None => None
    case Some(v) =>
      var c := Calendar.CivilFromDays(Day(v));
      var tw := TimeWithinDay(v);
      Some(IsoFormat.IsoText(c.year, c.month, c.day, Hour(tw), Minute(tw), Second(tw), Milli(tw)))
  }

  /** The instant a 24-character ISO text denotes (the inverse of IsoStringOf for four-digit years). */
  function TimeOfIsoString(s: string): TimeValue {
    if |s| != 24 then None
    else
      var f := IsoFormat.IsoFields(s);
      if 1 <= f[1] <= 12 then
        Some(Calendar.DaysFromCivil(f[0], f[1], f[2]) * MsPerDay
             + f[3] * MsPerHour + f[4] * MsPerMinute + f[5] * MsPerSecond + f[6])
      else None
  }

  /** Starting from `new Date(0)`, `setUTCSeconds(n)` gives the instant `n` seconds after the epoch. */
  lemma SetUTCSecondsFromEpoch(n: int)
    ensures SetUTCSecondsOf(Some(0), Some(n)) == TimeClip(n * MsPerSecond)
  {
    assert TimeWithinDay(0) == 0 && Day(0) == 0;
  }

  /**
   * `setDate(getUTCDate() + 1)` moves a valid time exactly one day of
   * milliseconds forward, also on the last day of a month or a year:
   * MakeDay's normalisation carries the overflowing day into the next month.
   */
  lemma SetDateNextDay(t: int)
    requires InRange(t)
    ensures SetDateOf(Some(t), Some(UTCDateOf(Some(t)).value + 1)) == TimeClip(t + MsPerDay)
  {
    var c := Calendar.CivilFromDays(Day(t));
    Calendar.DaysFromCivilOfCivilFromDays(Day(t));
    assert Calendar.DaysFromCivil(c.year, c.month, c.day + 1) == Day(t) + 1;
    assert (Day(t) + 1) * MsPerDay + TimeWithinDay(t) == t + MsPerDay;
  }

  /** One day of milliseconds later is the next calendar date. */
  lemma NextDayDate(t: int)
    ensures Calendar.CivilFromDays(Day(t + MsPerDay)) == Calendar.NextDate(Calendar.CivilFromDays(Day(t)))
  {
    DayAfter(t);
    Calendar.CivilFromDaysNext(Day(t));
  }

  /** One day of milliseconds later is the next day number at the same time of day. */
  lemma DayAfter(t: int)
    ensures Day(t + MsPerDay) == Day(t) + 1
    ensures TimeWithinDay(t + MsPerDay) == TimeWithinDay(t)
  {
  }

  /** A valid time value prints without a RangeError, and never later than year 999999 in magnitude. */
  lemma IsoStringOfValid(t: int)
    requires InRange(t)
    ensures IsoStringOf(Some(t)).Some?
    ensures -999999 <= Calendar.CivilFromDays(Day(t)).year <= 999999
  {
    var s := Day(t) + Calendar.EpochOffset;
    assert -100000000 <= Day(t) <= 100000000;
    assert -1000 <= s / Calendar.DaysPerEra <= 1000;
    Calendar.YearOfEraBounds(s % Calendar.DaysPerEra);
  }

  /** Reading the fields of an ISO text back gives the instant they describe. */
  lemma TimeOfIsoText(year: int, month: int, day: nat, hour: nat, minute: nat, second: nat, milli: nat)
    requires 0 <= year <= 9999 && 1 <= month <= 12
    requires day < 100 && hour < 100 && minute < 100 && second < 100 && milli < 1000
    ensures TimeOfIsoString(IsoFormat.IsoText(year, month, day, hour, minute, second, milli))
            == Some(Calendar.DaysFromCivil(year, month, day) * MsPerDay
                    + hour * MsPerHour + minute * MsPerMinute + second * MsPerSecond + milli)
  {
    var s := IsoFormat.IsoText(year, month, day, hour, minute, second, milli);
    IsoFormat.IsoFieldsOfIsoText(year, month, day, hour, minute, second, milli);
    TimeOfIsoStringAt(s, [year, month, day, hour, minute, second, milli]);
  }

  /** The instant of a 24-character text whose fields are already read. */
  lemma TimeOfIsoStringAt(s: string, f: seq<int>)
    requires |s| == 24 && IsoFormat.IsoFields(s) == f && 1 <= f[1] <= 12
    ensures TimeOfIsoString(s) ==
            Some(Calendar.DaysFromCivil(f[0], f[1], f[2]) * MsPerDay
                 + f[3] * MsPerHour + f[4] * MsPerMinute + f[5] * MsPerSecond + f[6])
  {
  }

  /** For years 0..9999 the ISO string determines the instant it was printed from. */
  lemma TimeOfIsoStringOfIsoString(t: int)
    requires InRange(t)
    requires 0 <= Calendar.CivilFromDays(Day(t)).year <= 9999
    ensures TimeOfIsoString(IsoStringOf(Some(t)).value) == Some(t)
  {
    var tw := TimeWithinDay(t);
    var c := Calendar.CivilFromDays(Day(t));
    assert IsoStringOf(Some(t)).value == IsoFormat.IsoText(c.year, c.month, c.day, Hour(tw), Minute(tw), Second(tw), Milli(tw));
    Calendar.DaysFromCivilOfCivilFromDays(Day(t));
    TimeOfIsoStringOfFields(t, c.year, c.month, c.day);
  }

  /** The ISO text of a date whose day number is that of `t`, at `t`'s time of day, reads back as `t`. */
  lemma TimeOfIsoStringOfFields(t: int, year: int, month: int, day: int)
    requires 0 <= year <= 9999 && 1 <= month <= 12 && 1 <= day <= 31
    requires Calendar.DaysFromCivil(year, month, day) == Day(t)
    ensures var tw := TimeWithinDay(t);
            TimeOfIsoString(IsoFormat.IsoText(year, month, day, Hour(tw), Minute(tw), Second(tw), Milli(tw))) == Some(t)
  {
    var tw := TimeWithinDay(t);
    TimeOfIsoTextOfDay(year, month, day, tw);
    DayParts(t);
  }

  /** The ISO text of a date at time of day `tw` reads back as that day's first instant plus `tw`. */
  lemma TimeOfIsoTextOfDay(year: int, month: int, day: int, tw: int)
    requires 0 <= year <= 9999 && 1 <= month <= 12 && 1 <= day <= 31
    requires 0 <= tw < MsPerDay
    ensures TimeOfIsoString(IsoFormat.IsoText(year, month, day, Hour(tw), Minute(tw), Second(tw), Milli(tw)))
            == Some(Calendar.DaysFromCivil(year, month, day) * MsPerDay + tw)
  {
    TimeOfDayFields(tw);
    TimeOfIsoText(year, month, day, Hour(tw), Minute(tw), Second(tw), Milli(tw));
  }

  /** A time value is its day number of whole days plus its time of day. */
  lemma DayParts(t: int)
    ensures t == Day(t) * MsPerDay + TimeWithinDay(t)
  {
  }

  const TwoTo31: int := 0x8000_0000
  const TwoTo32: int := 0x1_0000_0000

  /** ECMAScript ToInt32 of an integral number, which is what `x | 0` computes: wrap-around into the signed 32-bit range. */
  function ToInt32(n: int): (r: int)
    ensures -TwoTo31 <= r < TwoTo31
    ensures (n - r) % TwoTo32 == 0
    ensures -TwoTo31 <= n < TwoTo31 ==> r == n
  {
    var m := n % TwoTo32;
    if m >= TwoTo31 then m - TwoTo32 else m
  }

  /** `x / 1000` truncated toward zero, as ToInt32 truncates the quotient. */
  function Seconds(x: int): (s: int)
    ensures x % MsPerSecond == 0 ==> s * MsPerSecond == x
    ensures if x >= 0 then 0 <= s * MsPerSecond <= x else x <= s * MsPerSecond <= 0
    ensures if x >= 0 then 0 <= x - s * MsPerSecond < MsPerSecond else -MsPerSecond < x - s * MsPerSecond <= 0
  {
    if x >= 0 then x / MsPerSecond else -((-x) / MsPerSecond)
  }

  /** A JavaScript `Date` object; its one piece of state is the time value. */
  class Date {
    var time: TimeValue

    /** `new Date(v)` for a number `v` or for another Date's time value. */
    constructor (v: TimeValue)
      ensures time == (if v.Some? then TimeClip(v.value) else None)
    {
      time := if v.Some? then TimeClip(v.value) else None;
    }

    method SetUTCSeconds(sec: Option<int>)
      modifies this
      ensures time == SetUTCSecondsOf(old(time), sec)
    {
      time := SetUTCSecondsOf(time, sec);
    }

    function GetUTCDate(): Option<int>
      reads this
    {
      UTCDateOf(time)
    }

    method SetDate(dt: Option<int>)
      modifies this
      ensures time == SetDateOf(old(time), dt)
    {
      time := SetDateOf(time, dt);
    }

    function GetTime(): TimeValue
      reads this
    {
      time
    }

    function ToISOString(): Option<string>
      reads this
    {
      IsoStringOf(time)
    }
  }
}
