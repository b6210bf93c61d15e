/**
  One night of sleep: when it started, when it ended, and the identifier and
  creation time every record receives from its base class. Records are values:
  their fields are set once, by the constructor.
*/
module OvernightSleepData {

  import opened Wrappers
  import opened Calendar
  import opened JsText
  import opened JsDate

  /**
    What the base class gives each record it constructs: an identifier and the
    creation time. How these are produced is not part of this model, so whoever
    constructs a record passes them in.
  */
  datatype Stamp = Stamp(id: string, loggedAt: Date)

  datatype OvernightRecord = OvernightRecord(sleepStart: Date, sleepEnd: Date, loggedAt: Date, id: string)

  /** `new OvernightSleepData(sleepStart, sleepEnd)`: the accessors give back exactly the arguments. */
  function NewOvernight(sleepStart: Date, sleepEnd: Date, stamp: Stamp): (r: OvernightRecord)
    ensures r.sleepStart == sleepStart && r.sleepEnd == sleepEnd
    ensures r.loggedAt == stamp.loggedAt && r.id == stamp.id
  {
    OvernightRecord(sleepStart, sleepEnd, stamp.loggedAt, stamp.id)
  }

  /** `(end.getTime() - start.getTime()) / (1000*60*60)`, exactly; `None` is NaN. */
  function HoursBetween(start: Date, end: Date): (h: Option<real>)
    ensures h.Some? <==> start.ValidDate? && end.ValidDate?
    ensures h.Some? ==> h.value * MsPerHour as real == (end.ms - start.ms) as real
  {
    if start.ValidDate? && end.ValidDate? then Some((end.ms - start.ms) as real / MsPerHour as real)
    else None
  }

  /** `getDurationInHours()`. */
  function DurationInHours(r: OvernightRecord): Option<real> {
    HoursBetween(r.sleepStart, r.sleepEnd)
  }

  /** The duration is positive exactly when the night ends after it starts. */
  lemma DurationPositive(r: OvernightRecord)
    requires r.sleepStart.ValidDate? && r.sleepEnd.ValidDate?
    ensures DurationInHours(r).Some?
    ensures DurationInHours(r).value > 0.0 <==> r.sleepEnd.ms > r.sleepStart.ms
  {
    var h := DurationInHours(r).value;
    var diff := (r.sleepEnd.ms - r.sleepStart.ms) as real;
    assert h * 3600000.0 == diff;
    if h > 0.0 {
      assert diff > 0.0;
    } else {
      assert diff <= 0.0;
    }
  }

  /** From 23:00 on one day to 07:00 on the next is exactly 8 hours. */
  lemma EightHourNight(y: int, m: int, d: int)
    requires NewDate(Some(y), Some(m), Some(d), Some(23), Some(0), Some(0)).ValidDate?
    requires NewDate(Some(y), Some(m), Some(d + 1), Some(7), Some(0), Some(0)).ValidDate?
    ensures HoursBetween(NewDate(Some(y), Some(m), Some(d), Some(23), Some(0), Some(0)),
                         NewDate(Some(y), Some(m), Some(d + 1), Some(7), Some(0), Some(0))) == Some(8.0)
  {
    var yr := if 0 <= y <= 99 then 1900 + y else y;
    assert MakeDay(yr, m, d + 1) == MakeDay(yr, m, d) + 1;
  }

  /** `((a as real) / (b as real)).Floor` is the integer floor division a / b. */
  lemma FloorOfQuotient(a: int, b: int)
    requires b > 0
    ensures ((a as real) / (b as real)).Floor == a / b
  {
    var q, r := a / b, a % b;
    assert a == q * b + r && 0 <= r < b;
    assert (a as real) / (b as real) == q as real + (r as real) / (b as real);
    assert 0.0 <= (r as real) / (b as real) < 1.0;
  }

  /** The whole hours and the whole minutes of what is left, as `summaryString` computes them. */
  function SummaryParts(duration: real): (p: (int, int))
    ensures p.0 as real <= duration < p.0 as real + 1.0
    ensures 0 <= p.1 < 60
  {
    var h := duration.Floor;
    var rest := (duration - h as real) * 60.0;
    assert 0.0 <= rest < 60.0;
    (h, rest.Floor)
  }

  /** `summaryString()`: `{hours}h {minutes}m`, and `NaNh NaNm` when the duration is NaN. */
  function SummaryString(r: OvernightRecord): string {
    match DurationInHours(r)
    case None => "NaNh NaNm"
    case Some(d) =>
      TextOfParts(SummaryParts(d))
  }

  /**
    The summary shows the whole minutes between start and end, split into hours
    and the minutes past the hour (for negative durations too, with floor division).
  */
  lemma SummaryWholeMinutes(r: OvernightRecord)
    requires r.sleepStart.ValidDate? && r.sleepEnd.ValidDate?
    ensures SummaryString(r) == HoursMinutesText((r.sleepEnd.ms - r.sleepStart.ms) / MsPerMinute)
  {
    var diff := r.sleepEnd.ms - r.sleepStart.ms;
    var d := (diff as real) / (MsPerHour as real);
    assert DurationInHours(r) == Some(d);
    SummaryPartsOfMs(diff);
    var p := SummaryParts(d);
    assert p == (diff / MsPerMinute / 60, diff / MsPerMinute % 60);
    assert SummaryString(r) == TextOfParts(p);
  }

  function TextOfParts(p: (int, int)): string {
    IntToString(p.0) + "h " + IntToString(p.1) + "m"
  }

  /** k minutes written as whole hours and the minutes past the hour. */
  function HoursMinutesText(k: int): string {
    TextOfParts((k / 60, k % 60))
  }

  lemma SummaryPartsOfMs(diff: int)
    ensures SummaryParts((diff as real) / (MsPerHour as real))
            == ((diff / MsPerMinute) / 60, (diff / MsPerMinute) % 60)
  {
    var dur := (diff as real) / (MsPerHour as real);
    FloorOfQuotient(diff, MsPerHour);
    var h := diff / MsPerHour;
    var left := diff - h * MsPerHour;
    LeftOver(diff, h);
    FloorOfQuotient(left, MsPerMinute);
    MinutesSplit(diff);
  }

  lemma LeftOver(diff: int, h: int)
    ensures ((diff as real) / (MsPerHour as real) - h as real) * 60.0
            == ((diff - h * MsPerHour) as real) / (MsPerMinute as real)
  {
  }

  lemma MinutesSplit(diff: int)
    ensures (diff / MsPerMinute) / 60 == diff / MsPerHour
    ensures (diff / MsPerMinute) % 60 == (diff - (diff / MsPerHour) * MsPerHour) / MsPerMinute
  {
    var k := diff / MsPerMinute;
    var h := k / 60;
    assert diff == MsPerMinute * k + diff % MsPerMinute;
    assert k == 60 * h + k % 60;
    assert diff == MsPerHour * h + (MsPerMinute * (k % 60) + diff % MsPerMinute);
    assert diff / MsPerHour == h;
    assert diff - h * MsPerHour == MsPerMinute * (k % 60) + diff % MsPerMinute;
  }

  /** `getSleepDate()`: midnight of the calendar date on which the night started. */
  function SleepDate(r: OvernightRecord): Date {
    LocalMidnight(r.sleepStart)
  }

  /**
    The sleep date depends only on the day the night started: neither the end
    nor the time of day of the start matter.
  */
  lemma SleepDateOnlyByStartDay(r1: OvernightRecord, r2: OvernightRecord)
    requires r1.sleepStart.ValidDate? && r2.sleepStart.ValidDate?
    requires Day(r1.sleepStart.ms) == Day(r2.sleepStart.ms)
    ensures SleepDate(r1) == SleepDate(r2)
  {
    assert YearFromTime(r1.sleepStart.ms) == YearFromTime(r2.sleepStart.ms);
  }

  /** Outside the years 0..99, the sleep date is the first millisecond of the start's day. */
  lemma SleepDateIsDayStart(r: OvernightRecord)
    requires r.sleepStart.ValidDate? && !(0 <= YearFromTime(r.sleepStart.ms) <= 99)
    ensures SleepDate(r) == ValidDate(DayStart(r.sleepStart.ms))
  {
    MidnightOfDay(r.sleepStart.ms);
  }

  /**
    The lookup the logging page makes for a night matches that night's own
    sleep date: the page passes midnight of the start, and the store takes
    midnight of that again.
  */
  lemma SleepDateMatchesOwnStart(r: OvernightRecord)
    requires r.sleepStart.ValidDate?
    ensures SameTime(SleepDate(r), LocalMidnight(LocalMidnight(r.sleepStart)))
  {
    MidnightIdempotent(r.sleepStart.ms);
  }
}
