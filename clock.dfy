/**
 * Integer time for the reminder core: timestamps are UTC seconds, local
 * time is UTC shifted by a fixed number of seconds, and a reminder's fire
 * time is a local "HH:mm" time of day. Dafny's `/` and `%` are Euclidean,
 * which for a positive divisor is the same as flooring towards the past,
 * as arrow's `floor` does.
 */
module Clock {
  import opened Wrappers

  const MINUTE := 60
  const HOUR := 3600
  const DAY := 86400

  /** `arrow.utcnow().floor('hour')`: the start of the hour containing t. */
  function FloorHour(t: int): (r: int)
    ensures r <= t < r + HOUR
    ensures r % HOUR == 0
  {
    t - t % HOUR
  }

  // ---------------------------------------------------------------------
  // The selection window as written: floor_hour(lo) + 1h <= begin < hi + 2h,
  // where lo is the clock reading taken before the fetch (line 38) and hi
  // the reading the test itself takes after it (line 43), so lo <= hi.
  // ---------------------------------------------------------------------

  /**
   * The test of one update run, as written. It is the corrected window
   * (the next clock hour) plus the stretch [floor_hour(lo) + 2h, hi + 2h).
   */
  predicate InWindow(lo: int, hi: int, begin: int)
    ensures lo <= hi && InHourWindow(lo, begin) ==> InWindow(lo, hi, begin)
    ensures InWindow(lo, hi, begin) && !InHourWindow(lo, begin) ==>
      FloorHour(lo) + 2 * HOUR <= begin < hi + 2 * HOUR
  {
    FloorHour(lo) + HOUR <= begin < hi + 2 * HOUR
  }

  /** The lower edge is included, the second before it and the upper edge are not. */
  lemma WindowEdges(lo: int, hi: int)
    requires lo <= hi
    ensures InWindow(lo, hi, FloorHour(lo) + HOUR)
    ensures !InWindow(lo, hi, FloorHour(lo) + HOUR - 1)
    ensures !InWindow(lo, hi, hi + 2 * HOUR)
  {
  }

  /** Whatever the time within the hour, the window holds [lo + 1h, hi + 2h). */
  lemma WindowCovers(lo: int, hi: int, begin: int)
    requires lo <= hi && lo + HOUR <= begin < hi + 2 * HOUR
    ensures InWindow(lo, hi, begin)
  {
  }

  /**
   * The window is one hour wide plus the seconds past the hour at the first
   * reading plus the seconds between the two readings.
   */
  lemma WindowWidth(lo: int, hi: int)
    ensures (hi + 2 * HOUR) - (FloorHour(lo) + HOUR) == HOUR + lo % HOUR + (hi - lo)
    ensures lo % HOUR == 0 && hi == lo ==> (hi + 2 * HOUR) - (FloorHour(lo) + HOUR) == HOUR
    ensures hi > FloorHour(lo) ==> (hi + 2 * HOUR) - (FloorHour(lo) + HOUR) > HOUR
  {
  }

  /**
   * Two runs exactly on consecutive hour boundaries, in which no time
   * passes between the two clock readings, have adjacent, disjoint windows
   * whose union is [now + 1h, now + 3h).
   */
  lemma ExactHourlyRunsAdjacent(now: int, begin: int)
    requires now % HOUR == 0
    ensures !(InWindow(now, now, begin) && InWindow(now + HOUR, now + HOUR, begin))
    ensures InWindow(now, now, begin) || InWindow(now + HOUR, now + HOUR, begin) <==>
      now + HOUR <= begin < now + 3 * HOUR
  {
  }

  /**
   * As soon as the second reading of a run lies past its hour boundary
   * (the run starts late, or any time passes before line 43), that run and
   * the run of the following hour both select an event beginning two hours
   * after the boundary: the program schedules such an event twice.
   */
  lemma LateRunsOverlap(lo1: int, hi1: int, lo2: int, hi2: int)
    requires FloorHour(lo2) == FloorHour(lo1) + HOUR && lo2 <= hi2
    requires hi1 > FloorHour(lo1)
    ensures InWindow(lo1, hi1, FloorHour(lo1) + 2 * HOUR) && InWindow(lo2, hi2, FloorHour(lo1) + 2 * HOUR)
  {
  }

  // ---------------------------------------------------------------------
  // The corrected window: the whole clock hour after the one containing now
  // ---------------------------------------------------------------------

  /**
   * The test with both edges taken from the floored first reading: an
   * event is selected exactly when it begins in the next clock hour.
   */
  predicate InHourWindow(now: int, begin: int)
    ensures InHourWindow(now, begin) <==> FloorHour(begin) == FloorHour(now) + HOUR
  {
    FloorHour(now) + HOUR <= begin < FloorHour(now) + 2 * HOUR
  }

  /**
   * Runs in hours t0, t0 + 1h, t0 + 2h, ... (each one at any moment within
   * its hour) select every event beginning at or after t0 + 1h exactly once:
   * the run in hour k selects it exactly when k is the one named here.
   */
  lemma HourlyRunsSelectOnce(t0: int, begin: int, k: nat, now: int)
    requires t0 % HOUR == 0 && begin >= t0 + HOUR
    requires FloorHour(now) == t0 + k * HOUR
    ensures InHourWindow(now, begin) <==> k == (begin - t0) / HOUR - 1
  {
  }

  // ---------------------------------------------------------------------
  // Either window, as an update run applies it
  // ---------------------------------------------------------------------

  /** The selection test an update run applies: line 43 as written, or corrected. */
  datatype Window = AsWritten | Corrected

  predicate Selects(w: Window, lo: int, hi: int, begin: int)
  {
    match w
    case AsWritten => InWindow(lo, hi, begin)
    case Corrected => InHourWindow(lo, begin)
  }

  /**
   * What two runs in consecutive clock hours both select: nothing with the
   * corrected window, and exactly [floor_hour(lo1) + 2h, hi1 + 2h) as written.
   */
  lemma ConsecutiveRunsOverlap(w: Window, lo1: int, hi1: int, lo2: int, hi2: int, begin: int)
    requires FloorHour(lo2) == FloorHour(lo1) + HOUR && lo2 <= hi2 && hi1 <= hi2
    ensures Selects(w, lo1, hi1, begin) && Selects(w, lo2, hi2, begin) <==>
      w == AsWritten && FloorHour(lo1) + 2 * HOUR <= begin < hi1 + 2 * HOUR
  {
  }

  // ---------------------------------------------------------------------
  // Time of day and the "HH:mm" format
  // ---------------------------------------------------------------------

  datatype HourMinute = HourMinute(hour: int, minute: int)

  predicate ValidHourMinute(hm: HourMinute)
  {
    0 <= hm.hour < 24 && 0 <= hm.minute < 60
  }

  /**
   * The local time of day of t floored to the minute: the seconds since
   * midnight lie within the minute hour:minute.
   */
  function TimeOfDay(t: int): (hm: HourMinute)
    ensures ValidHourMinute(hm)
    ensures 0 <= t % DAY - (hm.hour * HOUR + hm.minute * MINUTE) < MINUTE
  {
    var d := (t / MINUTE) % 1440;
    MinuteOfDay(t);
    HourMinute(d / 60, d % 60)
  }

  lemma MinuteOfDay(t: int)
    ensures var d := (t / MINUTE) % 1440;
      0 <= t % DAY - ((d / 60) * HOUR + (d % 60) * MINUTE) < MINUTE
  {
    var q, s := t / MINUTE, t % MINUTE;
    var k, d := q / 1440, q % 1440;
    assert t == MINUTE * q + s;
    assert q == 1440 * k + d;
    assert t == DAY * k + (MINUTE * d + s);
    assert t % DAY == MINUTE * d + s;
    assert d == 60 * (d / 60) + d % 60;
  }

  predicate IsDigit(c: char) { '0' <= c <= '9' }

  function DigitValue(c: char): (n: int)
    requires IsDigit(c)
    ensures 0 <= n < 10
  {
    c as int - '0' as int
  }

  function Digit(n: int): (c: char)
    requires 0 <= n < 10
    ensures IsDigit(c) && DigitValue(c) == n
  {
    ('0' as int + n) as char
  }

  /** Two decimal digits with a leading zero, as arrow's "HH" and "mm". */
  function TwoDigits(n: int): (s: string)
    requires 0 <= n < 100
    ensures |s| == 2 && IsDigit(s[0]) && IsDigit(s[1])
    ensures DigitValue(s[0]) * 10 + DigitValue(s[1]) == n
  {
    [Digit(n / 10), Digit(n % 10)]
  }

  /** `format("HH:mm")`. */
  function FormatHHmm(hm: HourMinute): (s: string)
    requires ValidHourMinute(hm)
    ensures |s| == 5 && s[2] == ':'
    ensures IsDigit(s[0]) && IsDigit(s[1]) && IsDigit(s[3]) && IsDigit(s[4])
    ensures DigitValue(s[0]) <= 2 && DigitValue(s[3]) <= 5
  {
    TwoDigits(hm.hour) + ":" + TwoDigits(hm.minute)
  }

  /** The strict reading of an "HH:mm" time of day. */
  function ParseHHmm(s: string): (r: Option<HourMinute>)
    ensures r.Some? ==> ValidHourMinute(r.value)
  {
    if |s| == 5 && IsDigit(s[0]) && IsDigit(s[1]) && s[2] == ':' && IsDigit(s[3]) && IsDigit(s[4]) then
      var h := DigitValue(s[0]) * 10 + DigitValue(s[1]);
      var m := DigitValue(s[3]) * 10 + DigitValue(s[4]);
      if h < 24 && m < 60 then Some(HourMinute(h, m)) else None
    else
      None
  }

  predicate IsHHmm(s: string) { ParseHHmm(s).Some? }

  lemma FormatThenParse(hm: HourMinute)
    requires ValidHourMinute(hm)
    ensures ParseHHmm(FormatHHmm(hm)) == Some(hm)
  {
  }

  lemma ParseThenFormat(s: string)
    requires ParseHHmm(s).Some?
    ensures FormatHHmm(ParseHHmm(s).value) == s
  {
  }

  /**
   * The fire time of a reminder for an event beginning at `begin`: the
   * local time `reminderMinutes` before the event, floored to the minute,
   * as "HH:mm".
   */
  function FireTime(begin: int, utcOffset: int, reminderMinutes: int): (s: string)
    ensures |s| == 5 && s[2] == ':' && IsHHmm(s)
    ensures var hm := ParseHHmm(s).value;
      0 <= (begin + utcOffset - reminderMinutes * MINUTE) % DAY - (hm.hour * HOUR + hm.minute * MINUTE) < MINUTE
  {
    var hm := TimeOfDay(begin + utcOffset - reminderMinutes * MINUTE);
    FormatThenParse(hm);
    FormatHHmm(hm)
  }
}
