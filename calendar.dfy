/**
  Time values and their calendar fields, after section 21.4.1 ("Time Values and Time
  Range") of ECMA-262, the arithmetic behind every JavaScript `Date`.

  A time value is a whole number of milliseconds since 1970-01-01T00:00:00 and
  lies within 8.64e15 ms of it; anything else is NaN, here `InvalidDate`.
  The local time zone is taken to be UTC without daylight saving, so local and
  UTC fields coincide.
*/
module Calendar {

  const MsPerSecond: int := 1000
  const MsPerMinute: int := 60000
  const MsPerHour: int := 3600000
  const MsPerDay: int := 86400000
  const MaxTime: int := 8640000000000000

  /** The time values a `Date` can hold. */
  type TimeValue = t: int | -MaxTime <= t <= MaxTime

  /** A JavaScript `Date`: a time value, or NaN. */
  datatype Date = ValidDate(ms: TimeValue) | InvalidDate

  /** TimeClip: out-of-range times become NaN. */
  function TimeClip(t: int): (d: Date)
    ensures d.ValidDate? <==> -MaxTime <= t <= MaxTime
    ensures d.ValidDate? ==> d.ms == t
  {
    if -MaxTime <= t <= MaxTime then ValidDate(t) else InvalidDate
  }

  /** The day number of a time value (floor division: Dafny's `/` rounds down for a positive divisor). */
  function Day(t: int): int { t / MsPerDay }

  function TimeWithinDay(t: int): (r: int)
    ensures 0 <= r < MsPerDay
  {
    t % MsPerDay
  }

  predicate IsLeapYear(y: int) {
    y % 4 == 0 && (y % 100 != 0 || y % 400 == 0)
  }

  function DaysInYear(y: int): int {
    if IsLeapYear(y) then 366 else 365
  }

  /** The day number of January 1st of year y. */
  function DayFromYear(y: int): int {
    365 * (y - 1970) + (y - 1969) / 4 - (y - 1901) / 100 + (y - 1601) / 400
  }

  lemma FloorDivStep(a: int, k: int)
    requires k == 4 || k == 100 || k == 400
    ensures (a + 1) / k == a / k + (if (a + 1) % k == 0 then 1 else 0)
  {
    var q, r := a / k, a % k;
    assert a == k * q + r && 0 <= r < k;
    if r + 1 < k {
      assert a + 1 == k * q + (r + 1);
    } else {
      assert a + 1 == k * (q + 1) + 0;
    }
  }

  /** The remainders the leap-year rule looks at, for the year offsets DayFromYear uses. */
  lemma ShiftedRemainders(y: int)
    ensures (y - 1968) % 4 == y % 4
    ensures (y - 1900) % 100 == y % 100
    ensures (y - 1600) % 400 == y % 400
  {
    assert y - 1968 == 4 * (y / 4 - 492) + y % 4;
    assert y - 1900 == 100 * (y / 100 - 19) + y % 100;
    assert y - 1600 == 400 * (y / 400 - 4) + y % 400;
  }

  /** A multiple of 400 is one of 100. */
  lemma MultipleOf400(y: int)
    requires y % 400 == 0
    ensures y % 100 == 0
  {
    var q := y / 400;
    assert y == 100 * (4 * q) + 0;
  }

  /** A multiple of 100 is one of 4. */
  lemma MultipleOf100(y: int)
    requires y % 100 == 0
    ensures y % 4 == 0
  {
    var q := y / 100;
    assert y == 4 * (25 * q) + 0;
  }

  /** Consecutive years are DaysInYear apart. */
  lemma DayFromYearStep(y: int)
    ensures DayFromYear(y + 1) == DayFromYear(y) + DaysInYear(y)
  {
    FloorDivStep(y - 1969, 4);
    FloorDivStep(y - 1901, 100);
    FloorDivStep(y - 1601, 400);
    ShiftedRemainders(y);
    if y % 400 == 0 { MultipleOf400(y); }
    if y % 100 == 0 { MultipleOf100(y); }
  }

  /** DayFromYear is increasing. */
  lemma {:induction false} DayFromYearMonotone(a: int, b: int)
    requires a <= b
    ensures DayFromYear(a) + 365 * (b - a) <= DayFromYear(b)
    decreases b - a
  {
    if a < b {
      DayFromYearMonotone(a, b - 1);
      DayFromYearStep(b - 1);
    }
  }

  /** The year containing day d, searching upwards from a year that starts no later than d. */
  function YearUp(d: int, y: int): (r: int)
    requires DayFromYear(y) <= d
    ensures DayFromYear(r) <= d < DayFromYear(r + 1)
    decreases d - DayFromYear(y)
  {
    DayFromYearStep(y);
    if d < DayFromYear(y + 1) then y else YearUp(d, y + 1)
  }

  /** The year containing day d, searching downwards from a year that ends after d. */
  function YearDown(d: int, y: int): (r: int)
    requires d < DayFromYear(y + 1)
    ensures DayFromYear(r) <= d < DayFromYear(r + 1)
    decreases DayFromYear(y + 1) - d
  {
    DayFromYearStep(y);
    if DayFromYear(y) <= d then y else YearDown(d, y - 1)
  }

  /** The year containing day d. */
  function YearFromDay(d: int): (y: int)
    ensures DayFromYear(y) <= d < DayFromYear(y + 1)
  {
    if d >= 0 then YearUp(d, 1970) else YearDown(d, 1969)
  }

  /** There is exactly one year containing a given day. */
  lemma YearFromDayUnique(d: int, y: int)
    requires DayFromYear(y) <= d < DayFromYear(y + 1)
    ensures YearFromDay(d) == y
  {
    var r := YearFromDay(d);
    if r < y {
      YearsApart(r, y, d);
    } else if y < r {
      YearsApart(y, r, d);
    }
  }

  /** No day lies in two different years. */
  lemma YearsApart(a: int, b: int, d: int)
    requires a < b
    ensures !(DayFromYear(a) <= d < DayFromYear(a + 1) && DayFromYear(b) <= d < DayFromYear(b + 1))
  {
    DayFromYearMonotone(a + 1, b);
  }

  /** Days of the year before the first of month m (0 = January). */
  function DaysBeforeMonth(y: int, m: int): (r: int)
    requires 0 <= m < 12
    ensures 0 <= r <= 335
  {
    var base :=
      if m == 0 then 0 else if m == 1 then 31 else if m == 2 then 59
      else if m == 3 then 90 else if m == 4 then 120 else if m == 5 then 151
      else if m == 6 then 181 else if m == 7 then 212 else if m == 8 then 243
      else if m == 9 then 273 else if m == 10 then 304 else 334;
    base + (if m >= 2 && IsLeapYear(y) then 1 else 0)
  }

  function DaysInMonth(y: int, m: int): (r: int)
    requires 0 <= m < 12
    ensures 28 <= r <= 31
    ensures m < 11 ==> DaysBeforeMonth(y, m + 1) == DaysBeforeMonth(y, m) + r
    ensures m == 11 ==> DaysBeforeMonth(y, m) + r == DaysInYear(y)
  {
    if m == 1 then (if IsLeapYear(y) then 29 else 28)
    else if m == 3 || m == 5 || m == 8 || m == 10 then 30
    else 31
  }

  /** The month (0 = January) containing day-of-year n. */
  function MonthFromDayWithinYear(y: int, n: int): (m: int)
    requires 0 <= n < DaysInYear(y)
    ensures 0 <= m < 12
    ensures DaysBeforeMonth(y, m) <= n < DaysBeforeMonth(y, m) + DaysInMonth(y, m)
  {
    var leap := if IsLeapYear(y) then 1 else 0;
    if n < 31 then 0
    else if n < 59 + leap then 1
    else if n < 90 + leap then 2
    else if n < 120 + leap then 3
    else if n < 151 + leap then 4
    else if n < 181 + leap then 5
    else if n < 212 + leap then 6
    else if n < 243 + leap then 7
    else if n < 273 + leap then 8
    else if n < 304 + leap then 9
    else if n < 334 + leap then 10
    else 11
  }

  function YearFromTime(t: int): int {
    YearFromDay(Day(t))
  }

  function DayWithinYear(t: int): (n: int)
    ensures 0 <= n < DaysInYear(YearFromTime(t))
  {
    DayFromYearStep(YearFromTime(t));
    Day(t) - DayFromYear(YearFromTime(t))
  }

  /** `getMonth()`: 0 = January. */
  function MonthFromTime(t: int): (m: int)
    ensures 0 <= m < 12
  {
    MonthFromDayWithinYear(YearFromTime(t), DayWithinYear(t))
  }

  /** `getDate()`: the day of the month, from 1. */
  function DateFromTime(t: int): (dt: int)
    ensures 1 <= dt <= DaysInMonth(YearFromTime(t), MonthFromTime(t))
  {
    DayWithinYear(t) - DaysBeforeMonth(YearFromTime(t), MonthFromTime(t)) + 1
  }

  /** `getDay()`: 0 = Sunday (1970-01-01 was a Thursday). */
  function WeekDay(t: int): (w: int)
    ensures 0 <= w < 7
  {
    (Day(t) + 4) % 7
  }

  function HourFromTime(t: int): (h: int)
    ensures 0 <= h < 24
  {
    (t / MsPerHour) % 24
  }

  function MinFromTime(t: int): (m: int)
    ensures 0 <= m < 60
  {
    (t / MsPerMinute) % 60
  }

  function SecFromTime(t: int): (s: int)
    ensures 0 <= s < 60
  {
    (t / MsPerSecond) % 60
  }

  function MsFromTime(t: int): (ms: int)
    ensures 0 <= ms < 1000
  {
    t % MsPerSecond
  }

  /** MakeDay: the day number of (year, month, date); months outside 0..11 roll the year. */
  function MakeDay(year: int, month: int, date: int): int {
    var ym := year + month / 12;
    var mn := month % 12;
    DayFromYear(ym) + DaysBeforeMonth(ym, mn) + date - 1
  }

  function MakeTime(hour: int, min: int, sec: int, ms: int): int {
    hour * MsPerHour + min * MsPerMinute + sec * MsPerSecond + ms
  }

  function MakeDate(day: int, time: int): int {
    day * MsPerDay + time
  }

  /** A time value is its day plus its time within the day. */
  lemma DayAndTime(t: int)
    ensures t == MakeDate(Day(t), TimeWithinDay(t))
  {
  }

  /** The time within a day is made of its hour, minute, second and millisecond fields. */
  lemma TimeFields(t: int)
    ensures TimeWithinDay(t) == MakeTime(HourFromTime(t), MinFromTime(t), SecFromTime(t), MsFromTime(t))
  {
    var s := t / 1000;
    var mi := s / 60;
    var h := mi / 60;
    var d := h / 24;
    assert t == 1000 * s + t % 1000;
    assert s == 60 * mi + s % 60;
    assert mi == 60 * h + mi % 60;
    assert h == 24 * d + h % 24;
    assert t == 86400000 * d + (h % 24) * 3600000 + (mi % 60) * 60000 + (s % 60) * 1000 + t % 1000;
    assert t / MsPerMinute == mi;
    assert t / MsPerHour == h;
    assert Day(t) == d;
  }

  /** The day of a time value is MakeDay of its year, month and date fields. */
  lemma DayFields(t: int)
    ensures MakeDay(YearFromTime(t), MonthFromTime(t), DateFromTime(t)) == Day(t)
  {
    var y, m, dt := YearFromTime(t), MonthFromTime(t), DateFromTime(t);
    MakeDayInYear(y, m, dt);
    assert dt == DayWithinYear(t) - DaysBeforeMonth(y, m) + 1;
  }

  /** For a month within the year, MakeDay counts the days before the month and the date. */
  lemma MakeDayInYear(y: int, m: int, dt: int)
    requires 0 <= m < 12
    ensures MakeDay(y, m, dt) == DayFromYear(y) + DaysBeforeMonth(y, m) + dt - 1
  {
    assert m / 12 == 0 && m % 12 == m;
  }

  /**
    Decomposition: rebuilding a time value from its seven calendar fields gives
    it back, for every time value.
  */
  lemma Decompose(t: int)
    ensures MakeDate(MakeDay(YearFromTime(t), MonthFromTime(t), DateFromTime(t)),
                     MakeTime(HourFromTime(t), MinFromTime(t), SecFromTime(t), MsFromTime(t))) == t
  {
    DayFields(t);
    TimeFields(t);
    DayAndTime(t);
  }

  /**
    The converse: the fields of the day made from an in-range (year, month, date)
    are that year, month and date.
  */
  lemma FieldsOfDay(y: int, m: int, dt: int, time: int)
    requires 0 <= m < 12 && 1 <= dt <= DaysInMonth(y, m)
    requires 0 <= time < MsPerDay
    ensures YearFromTime(MakeDate(MakeDay(y, m, dt), time)) == y
    ensures MonthFromTime(MakeDate(MakeDay(y, m, dt), time)) == m
    ensures DateFromTime(MakeDate(MakeDay(y, m, dt), time)) == dt
  {
    var t := MakeDate(MakeDay(y, m, dt), time);
    MakeDayInYear(y, m, dt);
    assert Day(t) == MakeDay(y, m, dt);
    DayFromYearStep(y);
    assert DaysBeforeMonth(y, m) + DaysInMonth(y, m) <= DaysInYear(y) by {
      if m < 11 { MonthsFit(y, m + 1); }
    }
    YearFromDayUnique(Day(t), y);
    var n := DayWithinYear(t);
    assert n == DaysBeforeMonth(y, m) + dt - 1;
    MonthUnique(y, n, m);
  }

  /** Months never reach past the end of the year. */
  lemma MonthsFit(y: int, m: int)
    requires 0 <= m < 12
    ensures DaysBeforeMonth(y, m) + DaysInMonth(y, m) <= DaysInYear(y)
  {
  }

  lemma MonthUnique(y: int, n: int, m: int)
    requires 0 <= m < 12 && 0 <= n < DaysInYear(y)
    requires DaysBeforeMonth(y, m) <= n < DaysBeforeMonth(y, m) + DaysInMonth(y, m)
    ensures MonthFromDayWithinYear(y, n) == m
  {
  }

  /** Every time value lies in a year of at most six digits. */
  lemma YearRange(t: TimeValue)
    ensures -271822 <= YearFromTime(t) <= 275760
  {
    var y := YearFromTime(t);
    assert Day(t) >= -100000000 && Day(t) <= 100000000;
    if y < -271822 {
      DayFromYearMonotone(y + 1, -271822);
    }
    if y > 275760 {
      DayFromYearMonotone(275761, y);
    }
  }
}
