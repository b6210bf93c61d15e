/**
  The page for logging one night: a form of four text fields (start date and
  time, end date and time), quick-fill buttons, and the submit flow that checks
  the times, asks before replacing a night already logged for the same date,
  and hands the night to the service.
*/
module LogPage {

  import opened Wrappers
  import opened Calendar
  import opened JsText
  import opened JsDate
  import opened OvernightSleepData
  import opened SleepService

  /** The form's values: dates as `YYYY-MM-DD`, times as `HH:MM`. */
  datatype SleepForm = SleepForm(startDate: string, startTime: string, endDate: string, endTime: string)

  /** Every field carries the `required` validator: the form is invalid when one is empty. */
  predicate FormInvalid(f: SleepForm) {
    f.startDate == [] || f.startTime == [] || f.endDate == [] || f.endTime == []
  }

  // ---------------------------------------------------------------------------
  // Writing and reading the form's fields

  /** `formatDateForInput(date)`: the year as `String` writes it, month and day padded to two digits. */
  function FormatDateForInput(d: Date): string {
    match d
    case InvalidDate => "NaN-NaN-NaN"
    case ValidDate(t) =>
      IntToString(YearFromTime(t)) + ("-" + (Pad2(MonthFromTime(t) + 1) + ("-" + Pad2(DateFromTime(t)))))
  }

  /** `formatTimeForDisplay(date)`: hours and minutes, each padded to two digits. */
  function FormatTimeForDisplay(d: Date): string {
    match d
    case InvalidDate => "NaN:NaN"
    case ValidDate(t) => Pad2(HourFromTime(t)) + (":" + Pad2(MinFromTime(t)))
  }

  /**
    The date field is the year's digits, a dash, two digits for the month
    counted from 1, a dash and two digits for the day (for years from 0 on;
    the year is not padded).
  */
  lemma FormatDateShape(t: TimeValue)
    requires YearFromTime(t) >= 0
    ensures DateFieldLayout(FormatDateForInput(ValidDate(t)), YearFromTime(t), MonthFromTime(t) + 1, DateFromTime(t))
  {
    var y, m, d := YearFromTime(t), MonthFromTime(t), DateFromTime(t);
    Pad2Digits(m + 1);
    Pad2Digits(d);
    DateLayout(FormatDateForInput(ValidDate(t)), IntToString(y), Pad2(m + 1), Pad2(d), y, m + 1, d);
  }

  /** `s` is `y-mm-dd`: digits for `y`, a dash, two digits for `mo`, a dash, two digits for `d`. */
  predicate DateFieldLayout(s: string, y: int, mo: int, d: int) {
    var n := |s|;
    n >= 7 && s[n - 6] == '-' && s[n - 3] == '-'
    && AllDigits(s[..n - 6]) && DigitsValue(s[..n - 6]) == y
    && AllDigits(s[n - 5..n - 3]) && DigitsValue(s[n - 5..n - 3]) == mo
    && AllDigits(s[n - 2..]) && DigitsValue(s[n - 2..]) == d
  }

  /** Where the pieces of `y-mm-dd` sit, counted from the end, and what they read as. */
  lemma DateLayout(s: string, ys: string, ms: string, ds: string, y: int, mo: int, d: int)
    requires s == ys + ("-" + (ms + ("-" + ds)))
    requires |ys| >= 1 && |ms| == 2 && |ds| == 2
    requires AllDigits(ys) && AllDigits(ms) && AllDigits(ds)
    requires DigitsValue(ys) == y && DigitsValue(ms) == mo && DigitsValue(ds) == d
    ensures DateFieldLayout(s, y, mo, d)
  {
    DatePieces(ys, ms, ds);
  }

  lemma DatePieces(ys: string, ms: string, ds: string)
    requires |ys| >= 1 && |ms| == 2 && |ds| == 2
    ensures var s := ys + ("-" + (ms + ("-" + ds))); var n := |s|;
            n >= 7 && s[n - 6] == '-' && s[n - 3] == '-'
            && s[..n - 6] == ys && s[n - 5..n - 3] == ms && s[n - 2..] == ds
  {
  }

  /** The time field is two digits for the hour, a colon and two digits for the minute. */
  lemma FormatTimeShape(t: TimeValue)
    ensures var s := FormatTimeForDisplay(ValidDate(t));
            |s| == 5 && s[2] == ':'
            && AllDigits(s[..2]) && DigitsValue(s[..2]) == HourFromTime(t)
            && AllDigits(s[3..]) && DigitsValue(s[3..]) == MinFromTime(t)
  {
    Pad2Digits(HourFromTime(t));
    Pad2Digits(MinFromTime(t));
    var s := Pad2(HourFromTime(t)) + (":" + Pad2(MinFromTime(t)));
    assert s[..2] == Pad2(HourFromTime(t)) && s[3..] == Pad2(MinFromTime(t));
  }

  /** `Number` of the k-th part of a split, where a missing part is `undefined` and reads as NaN. */
  function NumberAt(parts: seq<string>, k: nat): (v: Option<int>)
    ensures k < |parts| ==> v == ToNumber(parts[k])
    ensures k >= |parts| ==> v.None?
  {
    if k < |parts| then ToNumber(parts[k]) else None
  }

  /**
    The debug log in `createDateTime` calls `toISOString` on the date it built,
    which throws a RangeError when the date is NaN.
  */
  function LoggedDate(d: Date): (r: Outcome<Date>)
    ensures r.Ok? <==> d.ValidDate?
    ensures r.Ok? ==> r.value == d
  {
    if d.ValidDate? then Ok(d) else Threw
  }

  /** The date `createDateTime` builds from the parts of the date and of the time. */
  function DateOfParts(d: seq<string>, t: seq<string>): Outcome<Date> {
    LoggedDate(NewDate(NumberAt(d, 0), Minus(NumberAt(d, 1), 1), NumberAt(d, 2),
                       NumberAt(t, 0), NumberAt(t, 1), Some(0)))
  }

  /**
    `createDateTime(dateStr, timeStr)`: splits the date on `-` and the time on
    `:`, converts each part with `Number` and builds the local date with seconds 0.
  */
  function CreateDateTime(dateStr: string, timeStr: string): (r: Outcome<Date>)
    ensures r.Ok? ==> r.value.ValidDate?
  {
    DateOfParts(Split(dateStr, {'-'}), Split(timeStr, {':'}))
  }

  lemma SplitAt(a: string, c: char, b: string, seps: set<char>)
    requires NoSeparator(a, seps) && c in seps
    ensures Split(a + ([c] + b), seps) == [a] + Split(b, seps)
  {
    assert a + ([c] + b) == a + [c] + b;
    SplitFirst(a, c, b, seps);
  }

  lemma SplitDateFields(y: string, mo: string, d: string)
    requires NoSeparator(y, {'-'}) && NoSeparator(mo, {'-'}) && NoSeparator(d, {'-'})
    ensures Split(y + ("-" + (mo + ("-" + d))), {'-'}) == [y, mo, d]
  {
    SplitNone(d, {'-'});
    SplitAt(mo, '-', d, {'-'});
    SplitAt(y, '-', mo + ("-" + d), {'-'});
  }

  lemma SplitTimeFields(h: string, mi: string)
    requires NoSeparator(h, {':'}) && NoSeparator(mi, {':'})
    ensures Split(h + (":" + mi), {':'}) == [h, mi]
  {
    SplitNone(mi, {':'});
    SplitAt(h, ':', mi, {':'});
  }

  /** Fields written without separators are read back one by one. */
  lemma CreateFromFields(y: string, mo: string, d: string, h: string, mi: string)
    requires NoSeparator(y, {'-'}) && NoSeparator(mo, {'-'}) && NoSeparator(d, {'-'})
    requires NoSeparator(h, {':'}) && NoSeparator(mi, {':'})
    ensures CreateDateTime(y + ("-" + (mo + ("-" + d))), h + (":" + mi))
            == LoggedDate(NewDate(ToNumber(y), Minus(ToNumber(mo), 1), ToNumber(d),
                                  ToNumber(h), ToNumber(mi), Some(0)))
  {
    var ds, ts := y + ("-" + (mo + ("-" + d))), h + (":" + mi);
    SplitDateFields(y, mo, d);
    SplitTimeFields(h, mi);
    assert CreateDateTime(ds, ts) == DateOfParts([y, mo, d], [h, mi]);
    PartsRead([y, mo, d], [h, mi]);
  }

  lemma PartsRead(dp: seq<string>, tp: seq<string>)
    requires |dp| >= 3 && |tp| >= 2
    ensures DateOfParts(dp, tp)
            == LoggedDate(NewDate(ToNumber(dp[0]), Minus(ToNumber(dp[1]), 1), ToNumber(dp[2]),
                                  ToNumber(tp[0]), ToNumber(tp[1]), Some(0)))
  {
  }

  lemma DigitsNoSeparator(s: string)
    requires AllDigits(s)
    ensures NoSeparator(s, {'-'}) && NoSeparator(s, {':'})
  {
  }

  /** A two-digit field reads back as its number. */
  lemma Pad2Number(n: int)
    requires 0 <= n < 100
    ensures ToNumber(Pad2(n)) == Some(n)
    ensures NoSeparator(Pad2(n), {'-'}) && NoSeparator(Pad2(n), {':'})
  {
    Pad2Digits(n);
    DigitsNoSeparator(Pad2(n));
  }

  /**
    Writing a time into the date and time fields and reading them back gives
    the same time cut to the minute, for years from 100 on (earlier years print
    with a sign or fall into the constructor's 1900 rule).
  */
  lemma FormRoundTrip(t: TimeValue)
    requires YearFromTime(t) >= 100
    ensures CreateDateTime(FormatDateForInput(ValidDate(t)), FormatTimeForDisplay(ValidDate(t)))
            == Ok(ValidDate(MinuteOf(t)))
  {
    var h, mi := HourFromTime(t), MinFromTime(t);
    Pad2Number(h);
    Pad2Number(mi);
    DateFieldWithTime(t, Pad2(h), Pad2(mi), h, mi);
    NewDateOfFields(t);
  }

  // ---------------------------------------------------------------------------
  // The checks of `logSleep`

  datatype Verdict = EndNotAfterStart | DurationOutOfRange | Plausible

  /** `sleepEnd <= sleepStart` first, then a duration in hours below 1 or above 16. */
  function CheckTimes(start: Date, end: Date): Verdict {
    if AtOrBefore(end, start) then EndNotAfterStart
    else
      match HoursBetween(start, end)
      case None => Plausible
      case Some(h) => if h < 1.0 || h > 16.0 then DurationOutOfRange else Plausible
  }

  /**
    On valid dates the checks accept exactly the nights lasting from one to
    sixteen hours, both ends included, and reject the order exactly when the
    end is not after the start.
  */
  lemma CheckTimesMeaning(start: Date, end: Date)
    requires start.ValidDate? && end.ValidDate?
    ensures CheckTimes(start, end) == EndNotAfterStart <==> end.ms <= start.ms
    ensures CheckTimes(start, end) == Plausible <==> MsPerHour <= end.ms - start.ms <= 16 * MsPerHour
  {
    var diff := end.ms - start.ms;
    var h := HoursBetween(start, end).value;
    assert h * 3600000.0 == diff as real;
    if h < 1.0 {
      assert (diff as real) < 3600000.0;
    } else if h > 16.0 {
      assert (diff as real) > 16.0 * 3600000.0;
    } else {
      assert 3600000.0 <= diff as real <= 16.0 * 3600000.0;
    }
  }

  /** How a call of `logSleep` ends. `Stored` carries the record handed to the service. */
  datatype LogOutcome =
    | Ignored              // invalid form, or a submission already running
    | Crashed              // a field did not give a date: the debug log throws out of `logSleep`
    | RejectedOrder        // "Wake-up time must be after bedtime."
    | RejectedDuration     // "Sleep duration should be between 1 and 16 hours."
    | Declined             // a night is logged for that date and the user keeps it
    | Stored(record: OvernightRecord)

  /**
    The decision `logSleep` takes once it has built the two dates, given the
    nights already logged, the user's answer to the replace question and the
    stamp the next record receives.
  */
  function DecideDates(start: Outcome<Date>, end: Outcome<Date>, nights: seq<OvernightRecord>,
                       confirmed: bool, stamp: Stamp): LogOutcome {
    match start
    case Threw => Crashed
    case Ok(s) =>
      match end
      case Threw => Crashed
      case Ok(e) =>
        match CheckTimes(s, e)
        case EndNotAfterStart => RejectedOrder
        case DurationOutOfRange => RejectedDuration
        case Plausible =>
          if FindBySleepDate(nights, LocalMidnight(LocalMidnight(s))).Some? && !confirmed then Declined
          else Stored(NewOvernight(s, e, stamp))
  }

  /** Once the times pass the checks, only the lookup and the user's answer decide. */
  lemma DecideAfterChecks(s: Date, e: Date, nights: seq<OvernightRecord>, confirmed: bool, stamp: Stamp,
                          found: Option<OvernightRecord>)
    requires CheckTimes(s, e) == Plausible
    requires found == FindBySleepDate(nights, LocalMidnight(LocalMidnight(s)))
    ensures DecideDates(Ok(s), Ok(e), nights, confirmed, stamp)
            == if found.Some? && !confirmed then Declined else Stored(NewOvernight(s, e, stamp))
  {
  }

  /** The decision for a whole form: nothing happens for an invalid form or while a submission runs. */
  function Decide(f: SleepForm, submitting: bool, nights: seq<OvernightRecord>, confirmed: bool, stamp: Stamp): LogOutcome {
    if FormInvalid(f) || submitting then Ignored
    else DecideDates(CreateDateTime(f.startDate, f.startTime), CreateDateTime(f.endDate, f.endTime),
                     nights, confirmed, stamp)
  }

  lemma DecideValidForm(f: SleepForm, nights: seq<OvernightRecord>, confirmed: bool, stamp: Stamp,
                        start: Outcome<Date>, end: Outcome<Date>)
    requires !FormInvalid(f)
    requires start == CreateDateTime(f.startDate, f.startTime) && end == CreateDateTime(f.endDate, f.endTime)
    ensures Decide(f, false, nights, confirmed, stamp) == DecideDates(start, end, nights, confirmed, stamp)
  {
  }

  /**
    A stored night has valid times, lasts one to sixteen hours, and either no
    night was logged for its date or the user agreed to replace it.
  */
  lemma StoredIsPlausible(start: Outcome<Date>, end: Outcome<Date>, nights: seq<OvernightRecord>,
                          confirmed: bool, stamp: Stamp)
    requires start.Ok? ==> start.value.ValidDate?
    requires end.Ok? ==> end.value.ValidDate?
    requires DecideDates(start, end, nights, confirmed, stamp).Stored?
    ensures var r := DecideDates(start, end, nights, confirmed, stamp).record;
            start == Ok(r.sleepStart) && end == Ok(r.sleepEnd)
            && MsPerHour <= r.sleepEnd.ms - r.sleepStart.ms <= 16 * MsPerHour
            && (confirmed || FindBySleepDate(nights, SleepDate(r)).None?)
            && r.loggedAt == stamp.loggedAt && r.id == stamp.id
  {
    CheckTimesMeaning(start.value, end.value);
    MidnightIdempotent(start.value.ms);
  }

  /** When the user declines to replace, a night already logged for the date is what stopped it. */
  lemma DeclinedMeansExisting(start: Outcome<Date>, end: Outcome<Date>, nights: seq<OvernightRecord>,
                              confirmed: bool, stamp: Stamp)
    requires DecideDates(start, end, nights, confirmed, stamp) == Declined
    ensures !confirmed && start.Ok? && end.Ok?
    ensures exists i :: 0 <= i < |nights| && SameTime(SleepDate(nights[i]), LocalMidnight(start.value))
  {
    if start.value.ValidDate? {
      MidnightIdempotent(start.value.ms);
    }
  }

  // ---------------------------------------------------------------------------
  // The quick fills

  /** The time one calendar day before, as `setDate(getDate() - 1)` computes it. */
  function Yesterday(now: TimeValue): Date {
    SetDate(ValidDate(now), DateFromTime(now) - 1)
  }

  /** The defaults of the constructor and `setYesterdayToToday`: 23:00 on the day of `yesterday` to 07:00 today. */
  function YesterdayToTodayForm(yesterday: Date, now: TimeValue): SleepForm {
    SleepForm(FormatDateForInput(yesterday), "23:00", FormatDateForInput(ValidDate(now)), "07:00")
  }

  /**
    The form `setQuickSleep(hours)` fills in: from `hours` hours ago until now.
    `hours` is any number, so the start can fall between two milliseconds, and
    `new Date` cuts it toward zero.
  */
  function QuickSleepForm(now: TimeValue, hours: real): SleepForm {
    var start := DateOfNumber(now as real - hours * MsPerHour as real);
    SleepForm(FormatDateForInput(start), FormatTimeForDisplay(start),
              FormatDateForInput(ValidDate(now)), FormatTimeForDisplay(ValidDate(now)))
  }

  /** On the hour, outside the years 0..99: the day number times a day, plus the hours. */
  lemma NewDateOnTheHour(y: int, m: int, d: int, hour: int, day: int)
    requires !(0 <= y <= 99) && MakeDay(y, m, d) == day
    ensures NewDate(Some(y), Some(m), Some(d), Some(hour), Some(0), Some(0)) == TimeClip(day * MsPerDay + hour * MsPerHour)
  {
    NewDateOutsideCentury(y, m, d, hour, 0, 0);
  }

  /** The date field of a time, as the form holds it. */
  lemma DateFieldOf(t: TimeValue)
    requires YearFromTime(t) >= 0
    ensures var ys := IntToString(YearFromTime(t));
            FormatDateForInput(ValidDate(t)) == ys + ("-" + (Pad2(MonthFromTime(t) + 1) + ("-" + Pad2(DateFromTime(t)))))
            && AllDigits(ys) && ys != [] && DigitsValue(ys) == YearFromTime(t)
  {
    DateFieldPieces(t);
    YearDigits(YearFromTime(t));
  }

  lemma DateFieldPieces(t: TimeValue)
    ensures FormatDateForInput(ValidDate(t))
            == IntToString(YearFromTime(t)) + ("-" + (Pad2(MonthFromTime(t) + 1) + ("-" + Pad2(DateFromTime(t)))))
  {
  }

  lemma YearDigits(y: int)
    requires y >= 0
    ensures var ys := IntToString(y);
            AllDigits(ys) && ys != [] && DigitsValue(ys) == y
  {
  }

  /** The date field of a time, followed by a time field of two numbers, reads back as those fields. */
  lemma DateFieldWithTime(t: TimeValue, h: string, mi: string, hv: int, miv: int)
    requires YearFromTime(t) >= 100
    requires NoSeparator(h, {':'}) && NoSeparator(mi, {':'})
    requires ToNumber(h) == Some(hv) && ToNumber(mi) == Some(miv)
    ensures CreateDateTime(FormatDateForInput(ValidDate(t)), h + (":" + mi))
            == LoggedDate(NewDate(Some(YearFromTime(t)), Some(MonthFromTime(t)), Some(DateFromTime(t)),
                                  Some(hv), Some(miv), Some(0)))
  {
    FieldsOfTimeRead(t, h, mi, hv, miv);
    DateFieldPieces(t);
  }

  lemma FieldsOfTimeRead(t: TimeValue, h: string, mi: string, hv: int, miv: int)
    requires YearFromTime(t) >= 100
    requires NoSeparator(h, {':'}) && NoSeparator(mi, {':'})
    requires ToNumber(h) == Some(hv) && ToNumber(mi) == Some(miv)
    ensures CreateDateTime(IntToString(YearFromTime(t)) + ("-" + (Pad2(MonthFromTime(t) + 1) + ("-" + Pad2(DateFromTime(t))))),
                           h + (":" + mi))
            == LoggedDate(NewDate(Some(YearFromTime(t)), Some(MonthFromTime(t)), Some(DateFromTime(t)),
                                  Some(hv), Some(miv), Some(0)))
  {
    FieldBounds(t);
    YearFieldsRead(YearFromTime(t), MonthFromTime(t), DateFromTime(t), h, mi, hv, miv);
  }

  lemma FieldBounds(t: TimeValue)
    ensures 0 <= MonthFromTime(t) && MonthFromTime(t) + 1 < 100
    ensures 0 <= DateFromTime(t) < 100
  {
  }

  /** A year written in digits, a padded month and day, then a time of two numbers, read back as those numbers. */
  lemma YearFieldsRead(y: int, m: int, d: int, h: string, mi: string, hv: int, miv: int)
    requires y >= 0 && 0 <= m && m + 1 < 100 && 0 <= d < 100
    requires NoSeparator(h, {':'}) && NoSeparator(mi, {':'})
    requires ToNumber(h) == Some(hv) && ToNumber(mi) == Some(miv)
    ensures CreateDateTime(IntToString(y) + ("-" + (Pad2(m + 1) + ("-" + Pad2(d)))), h + (":" + mi))
            == LoggedDate(NewDate(Some(y), Some(m), Some(d), Some(hv), Some(miv), Some(0)))
  {
    var ys, ms, ds := YearFieldParts(y, m, d, h, mi);
    PartNumbers(ys, ms, ds, h, mi, y, m, d, hv, miv);
  }

  /** The date and time fields split into the year, month and day fields and the two time fields, which read as numbers. */
  lemma YearFieldParts(y: int, m: int, d: int, h: string, mi: string) returns (ys: string, ms: string, ds: string)
    requires y >= 0 && 0 <= m && m + 1 < 100 && 0 <= d < 100
    requires NoSeparator(h, {':'}) && NoSeparator(mi, {':'})
    ensures ys == IntToString(y) && ms == Pad2(m + 1) && ds == Pad2(d)
    ensures Split(ys + ("-" + (ms + ("-" + ds))), {'-'}) == [ys, ms, ds]
    ensures Split(h + (":" + mi), {':'}) == [h, mi]
    ensures ToNumber(ys) == Some(y) && Minus(ToNumber(ms), 1) == Some(m) && ToNumber(ds) == Some(d)
  {
    ys, ms, ds := IntToString(y), Pad2(m + 1), Pad2(d);
    YearDigits(y);
    DateNumbers(IntToString(y), m, d, y);
    SplitDateFields(IntToString(y), Pad2(m + 1), Pad2(d));
    SplitTimeFields(h, mi);
  }

  /** A year of digits and a padded month and day are fields without separators that read as their numbers. */
  lemma DateNumbers(ys: string, m: int, d: int, y: int)
    requires AllDigits(ys) && ys != [] && DigitsValue(ys) == y
    requires 0 <= m && m + 1 < 100 && 0 <= d < 100
    ensures NoSeparator(ys, {'-'}) && NoSeparator(Pad2(m + 1), {'-'}) && NoSeparator(Pad2(d), {'-'})
    ensures ToNumber(ys) == Some(y) && Minus(ToNumber(Pad2(m + 1)), 1) == Some(m) && ToNumber(Pad2(d)) == Some(d)
  {
    NumberField(ys);
    DigitsNoSeparator(ys);
    Pad2Number(m + 1);
    Pad2Number(d);
  }

  /** Parts that read as numbers give those numbers to the date (the month part one more than the month). */
  lemma PartNumbers(ys: string, ms: string, ds: string, h: string, mi: string, y: int, m: int, d: int, hv: int, miv: int)
    requires ToNumber(ys) == Some(y) && Minus(ToNumber(ms), 1) == Some(m) && ToNumber(ds) == Some(d)
    requires ToNumber(h) == Some(hv) && ToNumber(mi) == Some(miv)
    ensures DateOfParts([ys, ms, ds], [h, mi]) == LoggedDate(NewDate(Some(y), Some(m), Some(d), Some(hv), Some(miv), Some(0)))
  {
    PartsRead([ys, ms, ds], [h, mi]);
  }

  lemma NumberField(s: string)
    requires AllDigits(s) && s != []
    ensures ToNumber(s) == Some(DigitsValue(s) as int) && NoSeparator(s, {':'})
  {
    DigitsNoSeparator(s);
  }

  /** A date field and a fixed `HH:00` time read back as that hour of that day. */
  lemma DayAtHour(t: TimeValue, hs: string, hour: nat)
    requires YearFromTime(t) >= 100
    requires AllDigits(hs) && hs != [] && DigitsValue(hs) == hour
    ensures CreateDateTime(FormatDateForInput(ValidDate(t)), hs + (":" + "00"))
            == LoggedDate(TimeClip(Day(t) * MsPerDay + hour * MsPerHour))
  {
    var y, m, d := YearFromTime(t), MonthFromTime(t), DateFromTime(t);
    var at := NewDate(Some(y), Some(m), Some(d), Some(hour), Some(0), Some(0));
    assert at == TimeClip(Day(t) * MsPerDay + hour * MsPerHour) by {
      DayFields(t);
      NewDateOnTheHour(y, m, d, hour, Day(t));
    }
    assert CreateDateTime(FormatDateForInput(ValidDate(t)), hs + (":" + "00")) == LoggedDate(at) by {
      NumberField(hs);
      ZeroField();
      DateFieldWithTime(t, hs, "00", hour, 0);
    }
  }

  lemma ZeroField()
    ensures ToNumber("00") == Some(0) && NoSeparator("00", {':'})
  {
    NumberField("00");
    assert DigitsValue("00") == 0;
  }

  lemma DefaultHours()
    ensures "23:00" == "23" + (":" + "00") && "07:00" == "07" + (":" + "00")
    ensures AllDigits("23") && DigitsValue("23") == 23 && AllDigits("07") && DigitsValue("07") == 7
  {
    assert DigitsValue("2") == 2 && DigitsValue("0") == 0;
    assert "23"[..1] == "2" && "07"[..1] == "0";
  }

  /** An `HH:00` time on a day that ends within range reads back as a valid date. */
  lemma DayAtHourInRange(t: TimeValue, hs: string, hour: nat, at: int)
    requires -MaxTime <= t <= MaxTime - MsPerDay && hour < 24
    requires YearFromTime(t) >= 100
    requires AllDigits(hs) && hs != [] && DigitsValue(hs) == hour
    requires at == Day(t) * MsPerDay + hour * MsPerHour
    ensures -MaxTime <= at <= MaxTime
    ensures CreateDateTime(FormatDateForInput(ValidDate(t)), hs + (":" + "00")) == Ok(ValidDate(at))
  {
    var k := Day(t);
    assert k * MsPerDay <= t < k * MsPerDay + MsPerDay;
    DayAtHour(t, hs, hour);
  }

  /** A whole day earlier is the day before. */
  lemma DayBefore(now: int)
    ensures Day(now - MsPerDay) == Day(now) - 1
  {
    var k := Day(now);
    assert k * MsPerDay <= now < k * MsPerDay + MsPerDay;
  }

  /**
    The default night runs from 23:00 of the day before to 07:00 of today,
    eight hours, and passes the checks (for years from 100 on): with the
    user's consent to replace, submitting the defaults stores exactly that night.
    The day before is `now` less a whole day (see SetYesterdayToToday).
  */
  lemma YesterdayToTodayIsEightHours(now: TimeValue, nights: seq<OvernightRecord>, stamp: Stamp,
                                     start: TimeValue, end: TimeValue)
    requires -MaxTime + MsPerDay <= now <= MaxTime - MsPerDay
    requires YearFromTime(now - MsPerDay) >= 100 && YearFromTime(now) >= 100
    requires start == (Day(now) - 1) * MsPerDay + 23 * MsPerHour
    requires end == Day(now) * MsPerDay + 7 * MsPerHour
    ensures end - start == 8 * MsPerHour
    ensures Decide(YesterdayToTodayForm(ValidDate(now - MsPerDay), now), false, nights, true, stamp)
            == Stored(NewOvernight(ValidDate(start), ValidDate(end), stamp))
  {
    DayBefore(now);
    DefaultFields(now, start, end);
    DecideOnTimes(YesterdayToTodayForm(ValidDate(now - MsPerDay), now), nights, stamp, start, end);
  }

  /** The default fields are filled in and read back as 23:00 the day before and 07:00 today. */
  lemma DefaultFields(now: TimeValue, start: TimeValue, end: TimeValue)
    requires -MaxTime + MsPerDay <= now <= MaxTime - MsPerDay
    requires YearFromTime(now - MsPerDay) >= 100 && YearFromTime(now) >= 100
    requires start == Day(now - MsPerDay) * MsPerDay + 23 * MsPerHour
    requires end == Day(now) * MsPerDay + 7 * MsPerHour
    ensures var f := YesterdayToTodayForm(ValidDate(now - MsPerDay), now);
            !FormInvalid(f)
            && CreateDateTime(f.startDate, f.startTime) == Ok(ValidDate(start))
            && CreateDateTime(f.endDate, f.endTime) == Ok(ValidDate(end))
  {
    DefaultHours();
    DayAtHourInRange(now - MsPerDay, "23", 23, start);
    DayAtHourInRange(now, "07", 7, end);
  }

  /**
    A form whose fields read back as two valid times is decided by their
    difference alone when the user agrees to replace: rejected for the order
    when the end is not after the start, rejected for the duration below one
    hour or above sixteen, and stored otherwise.
  */
  lemma DecideOnTimes(f: SleepForm, nights: seq<OvernightRecord>, stamp: Stamp, start: TimeValue, end: TimeValue)
    requires !FormInvalid(f)
    requires CreateDateTime(f.startDate, f.startTime) == Ok(ValidDate(start))
    requires CreateDateTime(f.endDate, f.endTime) == Ok(ValidDate(end))
    ensures var o := Decide(f, false, nights, true, stamp);
            (end <= start ==> o == RejectedOrder)
            && (start < end && (end - start < MsPerHour || end - start > 16 * MsPerHour) ==> o == RejectedDuration)
            && (MsPerHour <= end - start <= 16 * MsPerHour ==> o == Stored(NewOvernight(ValidDate(start), ValidDate(end), stamp)))
  {
    DecideValidForm(f, nights, true, stamp, Ok(ValidDate(start)), Ok(ValidDate(end)));
    CheckTimesMeaning(ValidDate(start), ValidDate(end));
    if CheckTimes(ValidDate(start), ValidDate(end)) == Plausible {
      DecideAfterChecks(ValidDate(start), ValidDate(end), nights, true, stamp,
                        FindBySleepDate(nights, LocalMidnight(LocalMidnight(ValidDate(start)))));
    }
  }

  /** Subtracting whole hours keeps the seconds past the minute. */
  lemma MinuteOfHoursBack(now: TimeValue, hours: int, start: TimeValue)
    requires start == now - hours * MsPerHour
    ensures MinuteOf(now) - MinuteOf(start) == hours * MsPerHour
  {
    assert now == start + (60 * hours) * MsPerMinute;
    assert now % MsPerMinute == start % MsPerMinute;
  }

  /** The quick-fill fields read back as the start and now, each cut to the minute. */
  lemma QuickSleepFields(now: TimeValue, hours: real, start: TimeValue)
    requires DateOfNumber(now as real - hours * MsPerHour as real) == ValidDate(start)
    requires YearFromTime(now) >= 100 && YearFromTime(start) >= 100
    ensures var f := QuickSleepForm(now, hours);
            !FormInvalid(f)
            && CreateDateTime(f.startDate, f.startTime) == Ok(ValidDate(MinuteOf(start)))
            && CreateDateTime(f.endDate, f.endTime) == Ok(ValidDate(MinuteOf(now)))
  {
    FormRoundTrip(start);
    FormRoundTrip(now);
  }

  /**
    The quick fill for `hours` hours gives a night of exactly that many hours,
    whatever the seconds of now: the checks reject it when `hours` is not
    positive, reject it as implausible above 16, and otherwise store it.
  */
  lemma QuickSleepIsExact(now: TimeValue, hours: int, nights: seq<OvernightRecord>, stamp: Stamp, start: TimeValue)
    requires start == now - hours * MsPerHour
    requires YearFromTime(now) >= 100 && YearFromTime(start) >= 100
    ensures var o := Decide(QuickSleepForm(now, hours as real), false, nights, true, stamp);
            (hours <= 0 ==> o == RejectedOrder)
            && (hours > 16 ==> o == RejectedDuration)
            && (1 <= hours <= 16 ==> o == Stored(NewOvernight(ValidDate(MinuteOf(start)), ValidDate(MinuteOf(now)), stamp)))
            && (1 <= hours <= 16 ==> MinuteOf(now) - MinuteOf(start) == hours * MsPerHour)
  {
    assert now as real - (hours as real) * MsPerHour as real == start as real;
    QuickSleepFields(now, hours as real, start);
    MinuteOfHoursBack(now, hours, start);
    DecideOnTimes(QuickSleepForm(now, hours as real), nights, stamp, MinuteOf(start), MinuteOf(now));
  }

  /**
    A quick fill for a fractional number of hours stores a night that is within
    a minute (and the cut-off fraction of a millisecond) of that many hours: it
    is rejected for the order when `hours` is not positive, rejected as
    implausible from 16.02 hours, and stored from 1.02 to 15.98 hours.
  */
  lemma QuickSleepNearlyExact(now: TimeValue, hours: real, nights: seq<OvernightRecord>, stamp: Stamp, start: TimeValue)
    requires DateOfNumber(now as real - hours * MsPerHour as real) == ValidDate(start)
    requires YearFromTime(now) >= 100 && YearFromTime(start) >= 100
    ensures var o := Decide(QuickSleepForm(now, hours), false, nights, true, stamp);
            var stored := MinuteOf(now) - MinuteOf(start);
            -(MsPerMinute + 1) as real < stored as real - hours * MsPerHour as real < (MsPerMinute + 1) as real
            && (hours <= 0.0 ==> o == RejectedOrder)
            && (hours >= 16.02 ==> o == RejectedDuration)
            && (1.02 <= hours <= 15.98 ==> o == Stored(NewOvernight(ValidDate(MinuteOf(start)), ValidDate(MinuteOf(now)), stamp)))
  {
    QuickSleepFields(now, hours, start);
    DecideOnTimes(QuickSleepForm(now, hours), nights, stamp, MinuteOf(start), MinuteOf(now));
    if hours <= 0.0 {
      MinuteOfMonotone(now, start);
    }
  }

  // ---------------------------------------------------------------------------
  // The page

  class LogSleepPage {
    var form: SleepForm
    var isSubmitting: bool
    const service: SleepService

    /** The constructor fills the form with 23:00 yesterday to 07:00 today. */
    constructor (service: SleepService, now: TimeValue)
      ensures this.service == service
      ensures form == YesterdayToTodayForm(Yesterday(now), now) && !isSubmitting
    {
      this.service := service;
      var yesterday := SetDate(ValidDate(now), DateFromTime(now) - 1);
      form := SleepForm(FormatDateForInput(yesterday), "23:00", FormatDateForInput(ValidDate(now)), "07:00");
      isSubmitting := false;
    }

    /** `setQuickSleep(hours)`, with the current time as a parameter. */
    method SetQuickSleep(now: TimeValue, hours: real)
      modifies this`form
      ensures form == QuickSleepForm(now, hours)
    {
      var endDate := ValidDate(now);
      var startDate := DateOfNumber(now as real - hours * MsPerHour as real);
      form := SleepForm(FormatDateForInput(startDate), FormatTimeForDisplay(startDate),
                        FormatDateForInput(endDate), FormatTimeForDisplay(endDate));
    }

    /** `setYesterdayToToday()`, with the current time as a parameter. */
    method SetYesterdayToToday(now: TimeValue)
      modifies this`form
      ensures form == YesterdayToTodayForm(Yesterday(now), now)
      ensures -MaxTime <= now - MsPerDay ==> form == YesterdayToTodayForm(ValidDate(now - MsPerDay), now)
    {
      var yesterday := SetDate(ValidDate(now), DateFromTime(now) - 1);
      SetDateBack(now, 1);
      assert yesterday == TimeClip(now - MsPerDay);
      form := SleepForm(FormatDateForInput(yesterday), "23:00", FormatDateForInput(ValidDate(now)), "07:00");
    }

    /**
      `logSleep()`, with the user's answer to the replace question as a
      parameter. It ends as Decide says. Only a stored night changes the
      service; a rejection or a refusal clears `isSubmitting`, while a stored
      night (the page navigates back) and an exception leave it set.
    */
    method LogSleep(confirmed: bool) returns (outcome: LogOutcome)
      requires service.Valid()
      modifies this, service, service.storage
      ensures service.Valid() && form == old(form)
      ensures outcome == Decide(old(form), old(isSubmitting), old(service.overnight), confirmed,
                                service.mint(old(service.minted)))
      ensures outcome.Ignored? ==> isSubmitting == old(isSubmitting)
      ensures outcome.Stored? || outcome.Crashed? ==> isSubmitting
      ensures outcome.RejectedOrder? || outcome.RejectedDuration? || outcome.Declined? ==> !isSubmitting
      ensures outcome.Stored? ==>
                service.overnight == AfterLogNight(old(service.overnight), outcome.record)
                && service.sleepiness == old(service.sleepiness) && service.minted == old(service.minted) + 1
                && service.storage.entries == SavedEntries(old(service.storage.entries), service.storage.failing,
                                                           service.overnight, service.sleepiness)
      ensures !outcome.Stored? ==>
                service.overnight == old(service.overnight) && service.sleepiness == old(service.sleepiness)
                && service.minted == old(service.minted) && service.storage.entries == old(service.storage.entries)
    {
      if FormInvalid(form) || isSubmitting {
        return Ignored;
      }
      isSubmitting := true;
      var start := CreateDateTime(form.startDate, form.startTime);
      if start.Threw? {
        return Crashed;
      }
      var end := CreateDateTime(form.endDate, form.endTime);
      DecideValidForm(form, service.overnight, confirmed, service.mint(service.minted), start, end);
      if end.Threw? {
        return Crashed;
      }
      outcome := Submit(start.value, end.value, confirmed);
    }

    /** The part of `logSleep` after both dates are built: the checks, the replace question and the store. */
    method Submit(sleepStart: Date, sleepEnd: Date, confirmed: bool) returns (outcome: LogOutcome)
      requires service.Valid() && isSubmitting
      requires sleepStart.ValidDate? && sleepEnd.ValidDate?
      modifies this, service, service.storage
      ensures service.Valid() && form == old(form)
      ensures outcome == DecideDates(Ok(sleepStart), Ok(sleepEnd), old(service.overnight), confirmed,
                                     service.mint(old(service.minted)))
      ensures !outcome.Ignored? && !outcome.Crashed?
      ensures isSubmitting <==> outcome.Stored?
      ensures outcome.Stored? ==>
                service.overnight == AfterLogNight(old(service.overnight), outcome.record)
                && service.sleepiness == old(service.sleepiness) && service.minted == old(service.minted) + 1
                && service.storage.entries == SavedEntries(old(service.storage.entries), service.storage.failing,
                                                           service.overnight, service.sleepiness)
      ensures !outcome.Stored? ==>
                service.overnight == old(service.overnight) && service.sleepiness == old(service.sleepiness)
                && service.minted == old(service.minted) && service.storage.entries == old(service.storage.entries)
    {
      if AtOrBefore(sleepEnd, sleepStart) {
        isSubmitting := false;
        return RejectedOrder;
      }
      var durationHours := HoursBetween(sleepStart, sleepEnd).value;
      if durationHours < 1.0 || durationHours > 16.0 {
        isSubmitting := false;
        return RejectedDuration;
      }
      assert CheckTimes(sleepStart, sleepEnd) == Plausible;
      var sleepDate := LocalMidnight(sleepStart);
      var existingSleep := service.GetSleepForDate(sleepDate);
      DecideAfterChecks(sleepStart, sleepEnd, service.overnight, confirmed, service.mint(service.minted), existingSleep);
      if existingSleep.Some? && !confirmed {
        isSubmitting := false;
        return Declined;
      }
      var r := service.LogOvernightSleep(sleepStart, sleepEnd);
      outcome := Stored(r);
    }
  }
}
