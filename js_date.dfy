/**
  The `Date` operations the application calls: the multi-argument constructor
  `new Date(year, month, ...)`, `setDate`, `toISOString` and parsing of the
  Date Time String Format of section 21.4.1.32 of ECMA-262 (`new Date(string)`).
*/
module JsDate {

  import opened Wrappers
  import opened Calendar
  import opened JsText

  /**
    `new Date(year, month, date, hours, minutes, seconds)` in local time. A NaN
    argument gives NaN, and a year from 0 to 99 means 1900 to 1999.
  */
  function NewDate(year: Option<int>, month: Option<int>, date: Option<int>,
                   hours: Option<int>, minutes: Option<int>, seconds: Option<int>): (d: Date)
    ensures (year.None? || month.None? || date.None? || hours.None? || minutes.None? || seconds.None?)
            ==> d == InvalidDate
  {
    if year.None? || month.None? || date.None? || hours.None? || minutes.None? || seconds.None? then
      InvalidDate
    else
      var yr := if 0 <= year.value <= 99 then 1900 + year.value else year.value;
      TimeClip(MakeDate(MakeDay(yr, month.value, date.value),
                        MakeTime(hours.value, minutes.value, seconds.value, 0)))
  }

  /**
    `new Date(x)` for a number of milliseconds: NaN beyond the time range,
    otherwise x with its fraction cut off toward zero (TimeClip).
  */
  function DateOfNumber(x: real): (d: Date)
    ensures d.ValidDate? <==> -MaxTime as real <= x <= MaxTime as real
    ensures d.ValidDate? && x >= 0.0 ==> d.ms as real <= x < d.ms as real + 1.0
    ensures d.ValidDate? && x < 0.0 ==> d.ms as real - 1.0 < x <= d.ms as real
  {
    if -MaxTime as real <= x <= MaxTime as real then
      ValidDate(if x >= 0.0 then x.Floor else -((-x).Floor))
    else InvalidDate
  }

  /** The time value t with its seconds and milliseconds dropped. */
  function MinuteOf(t: TimeValue): TimeValue {
    assert MaxTime == 60000 * 144000000000;
    t - t % MsPerMinute
  }

  /**
    Building a date from the year, month, date, hour and minute of a time
    value (seconds 0) gives that time value cut to the minute, unless the
    year falls in 0..99.
  */
  lemma NewDateOfFields(t: TimeValue)
    requires !(0 <= YearFromTime(t) <= 99)
    ensures NewDate(Some(YearFromTime(t)), Some(MonthFromTime(t)), Some(DateFromTime(t)),
                    Some(HourFromTime(t)), Some(MinFromTime(t)), Some(0)) == ValidDate(MinuteOf(t))
  {
    var y, m, dt := YearFromTime(t), MonthFromTime(t), DateFromTime(t);
    var h, mi := HourFromTime(t), MinFromTime(t);
    var v := MakeDate(MakeDay(y, m, dt), MakeTime(h, mi, 0, 0));
    NewDateOutsideCentury(y, m, dt, h, mi, 0);
    MinuteFields(t);
  }

  /** Outside years 0..99 the constructor is MakeDay, MakeTime and TimeClip. */
  lemma NewDateOutsideCentury(y: int, m: int, dt: int, h: int, mi: int, sec: int)
    requires !(0 <= y <= 99)
    ensures NewDate(Some(y), Some(m), Some(dt), Some(h), Some(mi), Some(sec))
            == TimeClip(MakeDate(MakeDay(y, m, dt), MakeTime(h, mi, sec, 0)))
  {
  }

  /** In years 0..99 the constructor is the same with the year read as 1900 more. */
  lemma NewDateInCentury(y: int, m: int, dt: int, h: int, mi: int, sec: int)
    requires 0 <= y <= 99
    ensures NewDate(Some(y), Some(m), Some(dt), Some(h), Some(mi), Some(sec))
            == TimeClip(MakeDate(MakeDay(1900 + y, m, dt), MakeTime(h, mi, sec, 0)))
  {
  }

  /** Cutting to the minute keeps the order of two times. */
  lemma MinuteOfMonotone(a: TimeValue, b: TimeValue)
    requires a <= b
    ensures MinuteOf(a) <= MinuteOf(b)
  {
    assert a == MsPerMinute * (a / MsPerMinute) + a % MsPerMinute;
    assert b == MsPerMinute * (b / MsPerMinute) + b % MsPerMinute;
    assert a / MsPerMinute <= b / MsPerMinute;
  }

  lemma MinuteFields(t: TimeValue)
    ensures MakeDate(MakeDay(YearFromTime(t), MonthFromTime(t), DateFromTime(t)),
                     MakeTime(HourFromTime(t), MinFromTime(t), 0, 0)) == MinuteOf(t)
  {
    DayFields(t);
    var d := Day(t);
    var h, mi := HourFromTime(t), MinFromTime(t);
    calc {
      MakeDate(MakeDay(YearFromTime(t), MonthFromTime(t), DateFromTime(t)), MakeTime(h, mi, 0, 0));
      d * MsPerDay + MakeTime(h, mi, 0, 0);
      { TimeFields(t); SubMinute(t); }
      d * MsPerDay + TimeWithinDay(t) - t % MsPerMinute;
      { DayAndTime(t); }
      MinuteOf(t);
    }
  }

  lemma SubMinute(t: int)
    ensures SecFromTime(t) * MsPerSecond + MsFromTime(t) == t % MsPerMinute
  {
    var s := t / 1000;
    assert t == 1000 * s + t % 1000;
    assert s == 60 * (s / 60) + s % 60;
    assert t / MsPerMinute == s / 60;
  }

  /** `date.setDate(dt)`: the same time of day on day dt of the same month (NaN stays NaN). */
  function SetDate(date: Date, dt: int): Date {
    match date
    case InvalidDate => InvalidDate
    case ValidDate(t) =>
      TimeClip(MakeDate(MakeDay(YearFromTime(t), MonthFromTime(t), dt), TimeWithinDay(t)))
  }

  /** Setting the date k days earlier in the month moves back exactly k whole days. */
  lemma SetDateBack(t: TimeValue, k: int)
    ensures SetDate(ValidDate(t), DateFromTime(t) - k) == TimeClip(t - k * MsPerDay)
  {
    var y, m := YearFromTime(t), MonthFromTime(t);
    assert m / 12 == 0 && m % 12 == m;
    assert MakeDay(y, m, DateFromTime(t) - k) == MakeDay(y, m, DateFromTime(t)) - k;
    DayFields(t);
    DayAndTime(t);
  }

  /** `d.getTime() === e.getTime()`: NaN equals nothing, itself included. */
  predicate SameTime(d: Date, e: Date) {
    d.ValidDate? && e.ValidDate? && d.ms == e.ms
  }

  /** `d <= e` on dates, which compares time values and is false when either is NaN. */
  predicate AtOrBefore(d: Date, e: Date) {
    d.ValidDate? && e.ValidDate? && d.ms <= e.ms
  }

  /** The first millisecond of the day of t. */
  function DayStart(t: TimeValue): TimeValue {
    assert MaxTime == MsPerDay * 100000000;
    t - t % MsPerDay
  }

  /** `d.setHours(0, 0, 0, 0)`. */
  function SetHoursToMidnight(d: Date): (r: Date)
    ensures d.ValidDate? ==> r == ValidDate(DayStart(d.ms))
    ensures d.InvalidDate? ==> r == InvalidDate
  {
    match d
    case InvalidDate => InvalidDate
    case ValidDate(t) => TimeClip(MakeDate(Day(t), MakeTime(0, 0, 0, 0)))
  }

  /** The days of the years 0..99, which the constructor reads as 1900..1999. */
  predicate InFirstCentury(day: int) {
    DayFromYear(0) <= day < DayFromYear(100)
  }

  /**
    Where a day of the years 0..99 lands when its year is read as 1900 more:
    693960 days later, or 693961 in January and February of the year 0, which
    is a leap year where 1900 is not.
  */
  function CenturyShift(day: int): (r: int)
    requires InFirstCentury(day)
    ensures DayFromYear(1900) <= r < DayFromYear(2000)
  {
    day + 693960 + (if day < DayFromYear(0) + 60 then 1 else 0)
  }

  /**
    `new Date(d.getFullYear(), d.getMonth(), d.getDate())`: midnight of the
    calendar date of d (see MidnightIsNewDate), written with the day number
    rather than the calendar fields.
  */
  function LocalMidnight(d: Date): (r: Date)
    ensures r.ValidDate? <==> d.ValidDate?
  {
    match d
    case InvalidDate => InvalidDate
    case ValidDate(t) =>
      if InFirstCentury(Day(t)) then ValidDate(CenturyShift(Day(t)) * MsPerDay)
      else ValidDate(DayStart(t))
  }

  /** The days of the years 0..99 are those whose year is 0..99. */
  lemma FirstCenturyYears(t: int)
    ensures InFirstCentury(Day(t)) <==> 0 <= YearFromTime(t) <= 99
  {
    var y := YearFromTime(t);
    if y < 0 {
      DayFromYearMonotone(y + 1, 0);
    } else if y <= 99 {
      DayFromYearMonotone(0, y);
      DayFromYearMonotone(y + 1, 100);
    } else {
      DayFromYearMonotone(100, y);
    }
  }

  /** Reading a year from 0 to 99 as 1900 more adds a fixed number of days. */
  lemma CenturyYearsApart(y: int)
    requires 0 <= y <= 99
    ensures DayFromYear(1900 + y) - DayFromYear(y) == if y == 0 then 693961 else 693960
    ensures IsLeapYear(1900 + y) <==> IsLeapYear(y) && y != 0
  {
    assert (y - 1969) / 4 == (y - 69) / 4 - 475;
    assert (y - 1901) / 100 == (y - 1) / 100 - 19;
    assert (y + 299) / 400 == 0;
    assert (y - 1601) / 400 == if y == 0 then -5 else -4;
    assert (1900 + y) % 4 == y % 4;
  }

  /**
    The definition above is the constructor applied to the calendar fields:
    midnight of the same year, month and date, with the years 0..99 read as
    1900..1999.
  */
  lemma MidnightIsNewDate(t: TimeValue)
    ensures LocalMidnight(ValidDate(t))
            == NewDate(Some(YearFromTime(t)), Some(MonthFromTime(t)), Some(DateFromTime(t)), Some(0), Some(0), Some(0))
  {
    FirstCenturyYears(t);
    if 0 <= YearFromTime(t) <= 99 {
      MidnightInCentury(t);
    } else {
      MidnightOutsideCentury(t);
    }
  }

  lemma MidnightInCentury(t: TimeValue)
    requires 0 <= YearFromTime(t) <= 99 && InFirstCentury(Day(t))
    ensures LocalMidnight(ValidDate(t))
            == NewDate(Some(YearFromTime(t)), Some(MonthFromTime(t)), Some(DateFromTime(t)), Some(0), Some(0), Some(0))
  {
    var y, m, dt := YearFromTime(t), MonthFromTime(t), DateFromTime(t);
    var k := CenturyShift(Day(t));
    assert LocalMidnight(ValidDate(t)) == ValidDate(k * MsPerDay);
    NewDateInCentury(y, m, dt, 0, 0, 0);
    DayFields(t);
    CenturyDay(y, m, dt, Day(t));
  }

  lemma MidnightOutsideCentury(t: TimeValue)
    requires !(0 <= YearFromTime(t) <= 99) && !InFirstCentury(Day(t))
    ensures LocalMidnight(ValidDate(t))
            == NewDate(Some(YearFromTime(t)), Some(MonthFromTime(t)), Some(DateFromTime(t)), Some(0), Some(0), Some(0))
  {
    var y, m, dt := YearFromTime(t), MonthFromTime(t), DateFromTime(t);
    assert LocalMidnight(ValidDate(t)) == ValidDate(DayStart(t));
    NewDateOutsideCentury(y, m, dt, 0, 0, 0);
    DayFields(t);
  }

  /** The day of a date in the years 0..99, with its year read as 1900 more. */
  lemma CenturyDay(y: int, m: int, dt: int, d: int)
    requires 0 <= y <= 99 && 0 <= m < 12 && 1 <= dt <= DaysInMonth(y, m)
    requires d == MakeDay(y, m, dt) && InFirstCentury(d)
    ensures MakeDay(1900 + y, m, dt) == CenturyShift(d)
  {
    MakeDayInYear(y, m, dt);
    MakeDayInYear(1900 + y, m, dt);
    CenturyYearsApart(y);
    CenturyMonths(y, m);
    if y == 0 {
      JanuaryFebruaryOfYearZero(m, dt);
    } else {
      DayFromYearMonotone(1, y);
      DayFromYearStep(0);
    }
  }

  /** In the year 0, a leap year, January and February are its first 60 days. */
  lemma JanuaryFebruaryOfYearZero(m: int, dt: int)
    requires 0 <= m < 12 && 1 <= dt <= DaysInMonth(0, m)
    ensures DaysBeforeMonth(0, m) + dt - 1 < 60 <==> m < 2
  {
    assert IsLeapYear(0);
  }

  /** Months start at the same day of the year in y and 1900 + y, except after February of the year 0. */
  lemma CenturyMonths(y: int, m: int)
    requires 0 <= y <= 99 && 0 <= m < 12
    ensures DaysBeforeMonth(1900 + y, m) == DaysBeforeMonth(y, m) - (if y == 0 && m >= 2 then 1 else 0)
  {
    CenturyYearsApart(y);
  }

  /** Outside the years 0..99, the calendar-date midnight is the start of the day. */
  lemma MidnightOfDay(t: TimeValue)
    requires !(0 <= YearFromTime(t) <= 99)
    ensures LocalMidnight(ValidDate(t)) == ValidDate(DayStart(t))
  {
    FirstCenturyYears(t);
  }

  /**
    Taking the calendar-date midnight twice is the same as taking it once, for
    every date: a midnight is never in the years 0..99, since those are read
    as 1900..1999.
  */
  lemma MidnightIdempotent(t: TimeValue)
    ensures LocalMidnight(LocalMidnight(ValidDate(t))) == LocalMidnight(ValidDate(t))
  {
    if InFirstCentury(Day(t)) {
      var k := CenturyShift(Day(t));
      assert Day(k * MsPerDay) == k;
      assert !InFirstCentury(k);
    } else {
      assert Day(DayStart(t)) == Day(t);
    }
  }

  /** Outside the years 0..99, two dates have the same calendar-date midnight exactly when they fall on the same day. */
  lemma SameMidnight(t1: TimeValue, t2: TimeValue)
    requires !(0 <= YearFromTime(t1) <= 99) && !(0 <= YearFromTime(t2) <= 99)
    ensures SameTime(LocalMidnight(ValidDate(t1)), LocalMidnight(ValidDate(t2))) <==> Day(t1) == Day(t2)
  {
    MidnightOfDay(t1);
    MidnightOfDay(t2);
    assert DayStart(t1) == Day(t1) * MsPerDay && DayStart(t2) == Day(t2) * MsPerDay;
  }

  // ---------------------------------------------------------------------------
  // Date Time String Format

  /** `String(n).padStart(2, '0')`. */
  function Pad2(n: nat): string { PadNumber(n, 2) }

  /** The year as `toISOString` writes it: four digits, or a sign and six digits outside 0..9999. */
  function IsoYear(y: int): string {
    if 0 <= y <= 9999 then PadNumber(y, 4)
    else if y < 0 then "-" + PadNumber(-y, 6)
    else "+" + PadNumber(y, 6)
  }

  /** `date.toISOString()`: YYYY-MM-DDTHH:mm:ss.sssZ, in UTC. */
  function ToISOString(t: TimeValue): string {
    IsoYear(YearFromTime(t))
    + ("-" + Pad2(MonthFromTime(t) + 1)
    + ("-" + Pad2(DateFromTime(t))
    + IsoTime(HourFromTime(t), MinFromTime(t), SecFromTime(t), MsFromTime(t))))
  }

  /** The `THH:mm:ss.sssZ` part. */
  function IsoTime(h: nat, mi: nat, sec: nat, ms: nat): string {
    "T" + (Pad2(h) + (":" + (Pad2(mi) + IsoSeconds(sec, ms))))
  }

  function IsoSeconds(sec: nat, ms: nat): string {
    ":" + Pad2(sec) + ("." + PadNumber(ms, 3) + "Z")
  }

  /** Exactly n digits at the front of s, with what follows them. */
  function ReadDigits(s: string, n: nat): (r: Option<(nat, string)>)
    ensures r.Some? ==> |r.value.1| == |s| - n
  {
    if |s| >= n && AllDigits(s[..n]) then Some((DigitsValue(s[..n]), s[n..])) else None
  }

  /** The character c at the front of s, with what follows it. */
  function Expect(s: string, c: char): (r: Option<string>)
    ensures r.Some? ==> |r.value| == |s| - 1
  {
    if |s| >= 1 && s[0] == c then Some(s[1..]) else None
  }

  function ParseYear(s: string): Option<(int, string)> {
    if |s| >= 1 && (s[0] == '+' || s[0] == '-') then
      var p :- ReadDigits(s[1..], 6);
      if s[0] == '-' && p.0 == 0 then None
      else
        var y: int := if s[0] == '-' then 0 - p.0 as int else p.0;
        Some((y, p.1))
    else
      var p :- ReadDigits(s, 4);
      Some((p.0 as int, p.1))
  }

  /** `-MM` and `-DD`, each optional, defaulting to 1. */
  function ParseMonthDay(s: string): Option<(int, int, string)> {
    if |s| >= 1 && s[0] == '-' then
      var pm :- ReadDigits(s[1..], 2);
      if |pm.1| >= 1 && pm.1[0] == '-' then
        var pd :- ReadDigits(pm.1[1..], 2);
        Some((pm.0 as int, pd.0 as int, pd.1))
      else Some((pm.0 as int, 1, pm.1))
    else Some((1, 1, s))
  }

  /** `Z`, `+HH:mm`, `-HH:mm` or nothing, as minutes east of UTC; absent means local time. */
  function ParseOffset(s: string): Option<int> {
    if s == "" || s == "Z" then Some(0)
    else if |s| == 6 && (s[0] == '+' || s[0] == '-') && s[3] == ':'
            && AllDigits(s[1..3]) && AllDigits(s[4..6]) then
      var h, m := DigitsValue(s[1..3]), DigitsValue(s[4..6]);
      if h > 23 || m > 59 then None
      else Some(if s[0] == '-' then 0 - (h * 60 + m) else h * 60 + m)
    else None
  }

  /** Optional `:ss` and `.sss` after the minutes: (seconds, milliseconds, what follows). */
  function ParseSeconds(s: string): (int, int, string) {
    if |s| >= 3 && s[0] == ':' && AllDigits(s[1..3]) then
      var sec := DigitsValue(s[1..3]);
      var r := s[3..];
      if |r| >= 4 && r[0] == '.' && AllDigits(r[1..4]) then (sec, DigitsValue(r[1..4]), r[4..])
      else (sec, 0, r)
    else (0, 0, s)
  }

  /** A time of day `THH:mm[:ss[.sss]]` with its offset: (time within the day, offset in minutes). */
  function ParseTime(s: string): Option<(int, int)> {
    var r0 :- Expect(s, 'T');
    var ph :- ReadDigits(r0, 2);
    var r1 :- Expect(ph.1, ':');
    var pm :- ReadDigits(r1, 2);
    var (sec, ms, zone) := ParseSeconds(pm.1);
    var offset :- ParseOffset(zone);
    if ph.0 > 24 || pm.0 > 59 || sec > 59 || (ph.0 == 24 && (pm.0 > 0 || sec > 0 || ms > 0)) then None
    else Some((MakeTime(ph.0, pm.0, sec, ms), offset))
  }

  /** The time value a string in the Date Time String Format denotes, if it is one. */
  function ParseIso(s: string): Option<int> {
    var py :- ParseYear(s);
    var pmd :- ParseMonthDay(py.1);
    IsoDateTime(py.0, pmd.0, pmd.1, pmd.2)
  }

  /** The date read from its fields (the month from 1), then the optional time and offset. */
  function IsoDateTime(y: int, mo: int, d: int, rest: string): Option<int> {
    if !(1 <= mo <= 12) || !(1 <= d <= DaysInMonth(y, mo - 1)) then None
    else if rest == [] then Some(MakeDate(MakeDay(y, mo - 1, d), 0))
    else
      var pt :- ParseTime(rest);
      Some(MakeDate(MakeDay(y, mo - 1, d), pt.0) - pt.1 * MsPerMinute)
  }

  /**
    `new Date(s)` for a string: the Date Time String Format, else NaN. (Other
    layouts a JavaScript engine may accept are not modelled.)
  */
  function DateFromString(s: string): Date {
    match ParseIso(s)
    case None => InvalidDate
    case Some(t) => TimeClip(t)
  }

  lemma ReadPadded(n: nat, width: nat, rest: string)
    requires 0 < width && n < Pow10(width)
    ensures ReadDigits(PadNumber(n, width) + rest, width) == Some((n, rest))
  {
    var p := PadNumber(n, width);
    PadNumberDigits(n, width);
    assert (p + rest)[..width] == p;
    assert (p + rest)[width..] == rest;
  }

  lemma ParseIsoYear(y: int, rest: string)
    requires -999999 <= y <= 999999
    ensures ParseYear(IsoYear(y) + rest) == Some((y, rest))
  {
    if 0 <= y <= 9999 {
      ParseShortYear(y, rest);
    } else {
      ParseLongYear(y, rest);
    }
  }

  lemma ParseShortYear(y: int, rest: string)
    requires 0 <= y <= 9999
    ensures ParseYear(IsoYear(y) + rest) == Some((y, rest))
  {
    var p := PadNumber(y, 4);
    assert IsoYear(y) == p;
    ReadPadded(y, 4, rest);
    PadNumberDigits(y, 4);
    assert IsDigit((p + rest)[0]);
  }

  lemma ParseLongYear(y: int, rest: string)
    requires -999999 <= y <= 999999 && !(0 <= y <= 9999)
    ensures ParseYear(IsoYear(y) + rest) == Some((y, rest))
  {
    if y < 0 {
      ParseSigned('-', -y, rest);
    } else {
      ParseSigned('+', y, rest);
    }
  }

  lemma ParseSigned(sign: char, n: nat, rest: string)
    requires sign == '-' || sign == '+'
    requires 0 < n <= 999999
    ensures ParseYear([sign] + PadNumber(n, 6) + rest)
            == Some((if sign == '-' then -(n as int) else n as int, rest))
  {
    ReadPadded(n, 6, rest);
    DropSign(sign, PadNumber(n, 6), rest);
  }

  lemma DropSign(c: char, a: string, b: string)
    ensures |[c] + a + b| >= 1 && ([c] + a + b)[0] == c && ([c] + a + b)[1..] == a + b
  {
  }

  lemma ParseMonthDayPadded(m: nat, d: nat, rest: string)
    requires m < 100 && d < 100
    ensures ParseMonthDay("-" + Pad2(m) + ("-" + Pad2(d) + rest)) == Some((m as int, d as int, rest))
  {
    Pad2Digits(m);
    Pad2Digits(d);
    ParseMonthDayDigits(Pad2(m), Pad2(d), rest);
  }

  lemma Pad2Digits(n: nat)
    requires n < 100
    ensures |Pad2(n)| == 2 && AllDigits(Pad2(n)) && DigitsValue(Pad2(n)) == n
  {
    PadNumberDigits(n, 2);
  }

  lemma ReadFixed(p: string, rest: string)
    requires AllDigits(p)
    ensures ReadDigits(p + rest, |p|) == Some((DigitsValue(p), rest))
  {
    assert (p + rest)[..|p|] == p;
    assert (p + rest)[|p|..] == rest;
  }

  lemma ParseMonthDayDigits(pm: string, pd: string, rest: string)
    requires |pm| == 2 && |pd| == 2 && AllDigits(pm) && AllDigits(pd)
    ensures ParseMonthDay("-" + pm + ("-" + pd + rest)) == Some((DigitsValue(pm) as int, DigitsValue(pd) as int, rest))
  {
    var afterM := "-" + pd + rest;
    var s := "-" + pm + afterM;
    assert s[1..] == pm + afterM;
    ReadFixed(pm, afterM);
    assert afterM[1..] == pd + rest;
    ReadFixed(pd, rest);
  }

  lemma ParseIsoTime(h: nat, mi: nat, sec: nat, ms: nat)
    requires h < 24 && mi < 60 && sec < 60 && ms < 1000
    ensures ParseTime(IsoTime(h, mi, sec, ms)) == Some((MakeTime(h, mi, sec, ms), 0))
  {
    Pad2Digits(h);
    Pad2Digits(mi);
    Pad2Digits(sec);
    PadNumberDigits(ms, 3);
    ParseTimeDigits(Pad2(h), Pad2(mi), Pad2(sec), PadNumber(ms, 3));
  }

  lemma ParseTimeDigits(ph: string, pm: string, ps: string, pms: string)
    requires |ph| == 2 && |pm| == 2 && |ps| == 2 && |pms| == 3
    requires AllDigits(ph) && AllDigits(pm) && AllDigits(ps) && AllDigits(pms)
    requires DigitsValue(ph) < 24 && DigitsValue(pm) < 60 && DigitsValue(ps) < 60
    ensures ParseTime("T" + (ph + (":" + (pm + (":" + ps + ("." + pms + "Z"))))))
            == Some((MakeTime(DigitsValue(ph), DigitsValue(pm), DigitsValue(ps), DigitsValue(pms)), 0))
  {
    var r2 := ":" + ps + ("." + pms + "Z");
    var r1 := ":" + (pm + r2);
    var s := "T" + (ph + r1);
    ReadFixed(ph, r1);
    ReadFixed(pm, r2);
    ParseSecondsDigits(ps, pms);
    ParseTimeSteps(s, ph + r1, r1, pm + r2, r2, DigitsValue(ph), DigitsValue(pm),
                   DigitsValue(ps), DigitsValue(pms));
  }

  /** ParseTime, one step at a time. */
  lemma ParseTimeSteps(s: string, a: string, r1: string, b: string, r2: string,
                       h: nat, mi: nat, sec: int, ms: int)
    requires Expect(s, 'T') == Some(a)
    requires ReadDigits(a, 2) == Some((h, r1))
    requires Expect(r1, ':') == Some(b)
    requires ReadDigits(b, 2) == Some((mi, r2))
    requires ParseSeconds(r2) == (sec, ms, "Z")
    requires h < 24 && mi < 60 && 0 <= sec < 60
    ensures ParseTime(s) == Some((MakeTime(h, mi, sec, ms), 0))
  {
    assert ParseOffset("Z") == Some(0);
  }

  lemma ParseSecondsDigits(ps: string, pms: string)
    requires |ps| == 2 && |pms| == 3 && AllDigits(ps) && AllDigits(pms)
    ensures ParseSeconds(":" + ps + ("." + pms + "Z")) == (DigitsValue(ps) as int, DigitsValue(pms) as int, "Z")
  {
    var r3 := "." + pms + "Z";
    var r2 := ":" + ps + r3;
    assert r2[1..3] == ps && r2[3..] == r3;
    assert r3[1..4] == pms && r3[4..] == "Z";
  }

  /** Round trip: parsing what `toISOString` writes gives back the time value. */
  lemma ParseToISOString(t: TimeValue)
    ensures ParseIso(ToISOString(t)) == Some(t)
    ensures DateFromString(ToISOString(t)) == ValidDate(t)
  {
    var y, m, d := YearFromTime(t), MonthFromTime(t), DateFromTime(t);
    var time := IsoTime(HourFromTime(t), MinFromTime(t), SecFromTime(t), MsFromTime(t));
    var md := "-" + Pad2(m + 1) + ("-" + Pad2(d) + time);
    YearRange(t);
    ParseIsoYear(y, md);
    ParseMonthDayPadded(m + 1, d, time);
    ParseIsoTime(HourFromTime(t), MinFromTime(t), SecFromTime(t), MsFromTime(t));
    Decompose(t);
    ParseIsoSteps(ToISOString(t), md, time, y, m + 1, d, MakeTime(HourFromTime(t), MinFromTime(t), SecFromTime(t), MsFromTime(t)));
  }

  /** ParseIso, one step at a time. */
  lemma ParseIsoSteps(s: string, md: string, time: string, y: int, mo: int, d: int, tm: int)
    requires ParseYear(s) == Some((y, md))
    requires ParseMonthDay(md) == Some((mo, d, time))
    requires 1 <= mo <= 12 && 1 <= d <= DaysInMonth(y, mo - 1)
    requires time != []
    requires ParseTime(time) == Some((tm, 0))
    ensures ParseIso(s) == Some(MakeDate(MakeDay(y, mo - 1, d), tm))
  {
    assert ParseIso(s) == IsoDateTime(y, mo, d, time);
    IsoDateTimeSteps(y, mo, d, time, tm);
  }

  lemma IsoDateTimeSteps(y: int, mo: int, d: int, time: string, tm: int)
    requires 1 <= mo <= 12 && 1 <= d <= DaysInMonth(y, mo - 1)
    requires time != []
    requires ParseTime(time) == Some((tm, 0))
    ensures IsoDateTime(y, mo, d, time) == Some(MakeDate(MakeDay(y, mo - 1, d), tm))
  {
  }
}
