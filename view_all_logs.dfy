/**
  The history page: both kinds of record formatted as one list, newest log
  first, shown whole or filtered by kind.
*/
module ViewAllLogsPage {

  import opened Wrappers
  import opened Calendar
  import opened JsDate
  import opened OvernightSleepData
  import opened SleepService

  // ---------------------------------------------------------------------------
  // Sleepiness descriptions

  const UnknownLevel: string := "Unknown level"

  /** The text of each Stanford scale level; index 0 is left empty. */
  const Descriptions: seq<string> := [
    "",
    "Feeling active, vital, alert, or wide awake",
    "Functioning at high levels, but not at peak; able to concentrate",
    "Awake, but relaxed; responsive but not fully alert",
    "Somewhat foggy, let down",
    "Foggy; losing interest in remaining awake; slowed down",
    "Sleepy, woozy, fighting sleep; prefer to lie down",
    "No longer fighting sleep, sleep onset soon; having dream-like thoughts"
  ]

  /**
    `getSleepinessDescription(level)`: `descriptions[level] || 'Unknown level'`.
    A missing entry is undefined and the empty entry is falsy, so both give the
    sentinel.
  */
  function GetSleepinessDescription(level: int): (s: string)
    ensures 1 <= level <= 7 ==> s == Descriptions[level]
    ensures !(1 <= level <= 7) ==> s == UnknownLevel
  {
    if 0 <= level < |Descriptions| && Descriptions[level] != "" then Descriptions[level] else UnknownLevel
  }

  /**
    The table holds eight entries, the first one empty; a level gets a real
    description exactly when it is one of 1..7, and never the empty text.
  */
  lemma DescriptionKnownExactly(level: int)
    ensures |Descriptions| == 8 && Descriptions[0] == ""
    ensures GetSleepinessDescription(level) != UnknownLevel <==> 1 <= level <= 7
    ensures GetSleepinessDescription(level) != ""
  {
    if 1 <= level <= 7 {
      assert Descriptions[level] != UnknownLevel && Descriptions[level] != "" by {
        assert |UnknownLevel| == 13;
        assert forall k :: 1 <= k <= 7 ==> |Descriptions[k]| > 13;
      }
    }
  }

  // ---------------------------------------------------------------------------
  // The entries of the list

  /**
    One displayed entry, tagged with its kind; `night` and `rating` are the
    record it was made from (`original` in the page). Icons, colours and the
    locale-formatted times are display matters and left out.
  */
  datatype LogEntry =
    | SleepEntry(date: Date, summary: string, duration: string, night: OvernightRecord)
    | SleepinessEntry(date: Date, level: int, description: string, rating: SleepinessRecord)
  {
    /** The `type` field. */
    function Type(): string {
      if SleepEntry? then "sleep" else "sleepiness"
    }

    /** `original.loggedAt`, the sort key. */
    function LoggedAt(): Date {
      if SleepEntry? then night.loggedAt else rating.loggedAt
    }
  }

  /** The entry made for a night: dated by its start, summarised by its duration. */
  function SleepLog(r: OvernightRecord): LogEntry {
    SleepEntry(r.sleepStart, SummaryString(r), SummaryString(r), r)
  }

  /** The entry made for a rating: dated when it was logged, with its level and that level's description. */
  function SleepinessLog(r: SleepinessRecord): LogEntry {
    SleepinessEntry(r.loggedAt, r.loggedValue, GetSleepinessDescription(r.loggedValue), r)
  }

  /** `sleepLogs.map(...)`. */
  function SleepLogs(rs: seq<OvernightRecord>): (es: seq<LogEntry>)
    ensures |es| == |rs| && forall i :: 0 <= i < |rs| ==> es[i] == SleepLog(rs[i])
  {
    seq(|rs|, i requires 0 <= i < |rs| => SleepLog(rs[i]))
  }

  /** `sleepinessLogs.map(...)`. */
  function SleepinessLogs(rs: seq<SleepinessRecord>): (es: seq<LogEntry>)
    ensures |es| == |rs| && forall i :: 0 <= i < |rs| ==> es[i] == SleepinessLog(rs[i])
  {
    seq(|rs|, i requires 0 <= i < |rs| => SleepinessLog(rs[i]))
  }

  /** The fields of an entry agree with the record it was made from. */
  predicate WellFormatted(e: LogEntry) {
    match e
    case SleepEntry(date, summary, duration, r) =>
      date == r.sleepStart && summary == SummaryString(r) && duration == summary
    case SleepinessEntry(date, level, description, r) =>
      date == r.loggedAt && level == r.loggedValue && description == GetSleepinessDescription(level)
  }

  // ---------------------------------------------------------------------------
  // Newest first

  /**
    The comparator `b.original.loggedAt.getTime() - a.original.loggedAt.getTime()`
    is negative, so a goes before b, exactly when a was logged later. A NaN
    time makes the difference NaN, which the sort reads as "equal".
  */
  predicate Newer(a: LogEntry, b: LogEntry) {
    a.LoggedAt().ValidDate? && b.LoggedAt().ValidDate? && a.LoggedAt().ms > b.LoggedAt().ms
  }

  /** No entry is newer than one before it. */
  predicate NewestFirst(s: seq<LogEntry>) {
    forall i, j :: 0 <= i < j < |s| ==> !Newer(s[j], s[i])
  }

  /** Puts x after every entry it is not newer than (and so after equal ones). */
  function Insert(sorted: seq<LogEntry>, x: LogEntry): (r: seq<LogEntry>)
    ensures |r| == |sorted| + 1
    ensures multiset(r) == multiset(sorted) + multiset{x}
    ensures forall z :: z in r <==> z in sorted || z == x
  {
    if sorted == [] then [x]
    else if Newer(x, sorted[0]) then [x] + sorted
    else
      assert sorted == [sorted[0]] + sorted[1..];
      [sorted[0]] + Insert(sorted[1..], x)
  }

  /**
    `sort` with the comparator above, as a stable sort: insertion, each later
    entry after the earlier ones it is not newer than.
  */
  function SortByLoggedAt(s: seq<LogEntry>): (r: seq<LogEntry>)
    ensures |r| == |s| && multiset(r) == multiset(s)
  {
    if s == [] then []
    else
      assert s == s[..|s| - 1] + [s[|s| - 1]];
      Insert(SortByLoggedAt(s[..|s| - 1]), s[|s| - 1])
  }

  lemma {:induction false} InsertNewestFirst(sorted: seq<LogEntry>, x: LogEntry)
    requires NewestFirst(sorted)
    ensures NewestFirst(Insert(sorted, x))
  {
    if sorted == [] {
    } else if Newer(x, sorted[0]) {
      var r := [x] + sorted;
      forall i, j | 0 <= i < j < |r| ensures !Newer(r[j], r[i]) {
        if i == 0 {
          assert r[j] == sorted[j - 1];
          if j - 1 > 0 {
            assert !Newer(sorted[j - 1], sorted[0]);
          }
        } else {
          assert r[i] == sorted[i - 1] && r[j] == sorted[j - 1];
        }
      }
    } else {
      var tail := sorted[1..];
      assert NewestFirst(tail) by {
        forall i, j | 0 <= i < j < |tail| ensures !Newer(tail[j], tail[i]) {
          assert tail[i] == sorted[i + 1] && tail[j] == sorted[j + 1];
        }
      }
      InsertNewestFirst(tail, x);
      var rest := Insert(tail, x);
      var r := [sorted[0]] + rest;
      forall i, j | 0 <= i < j < |r| ensures !Newer(r[j], r[i]) {
        if i == 0 {
          assert r[j] == rest[j - 1] && rest[j - 1] in rest;
          if r[j] != x {
            var k :| 0 <= k < |tail| && tail[k] == r[j];
            assert sorted[k + 1] == r[j];
          }
        } else {
          assert r[i] == rest[i - 1] && r[j] == rest[j - 1];
        }
      }
    }
  }

  /** The sorted list has no entry newer than one before it. */
  lemma {:induction false} SortedNewestFirst(s: seq<LogEntry>)
    ensures NewestFirst(SortByLoggedAt(s))
  {
    if s != [] {
      SortedNewestFirst(s[..|s| - 1]);
      InsertNewestFirst(SortByLoggedAt(s[..|s| - 1]), s[|s| - 1]);
    }
  }

  /** Every entry has a valid log time. */
  predicate AllTimed(s: seq<LogEntry>) {
    forall i :: 0 <= i < |s| ==> s[i].LoggedAt().ValidDate?
  }

  /** When every log time is valid, the sorted list runs from the newest log time to the oldest. */
  lemma SortedDescending(s: seq<LogEntry>)
    requires AllTimed(s)
    ensures var r := SortByLoggedAt(s);
            forall i, j :: 0 <= i < j < |r| ==>
              r[i].LoggedAt().ValidDate? && r[j].LoggedAt().ValidDate? && r[j].LoggedAt().ms <= r[i].LoggedAt().ms
  {
    var r := SortByLoggedAt(s);
    SortedNewestFirst(s);
    forall k | 0 <= k < |r| ensures r[k].LoggedAt().ValidDate? {
      assert r[k] in multiset(s);
    }
  }

  /**
    The combined list `loadLogs` shows: the formatted nights followed by the
    formatted ratings, sorted by log time, newest first.
  */
  function Combine(nights: seq<OvernightRecord>, ratings: seq<SleepinessRecord>): seq<LogEntry> {
    SortByLoggedAt(SleepLogs(nights) + SleepinessLogs(ratings))
  }

  /**
    The combined list is a rearrangement of one entry per night and one per
    rating, newest first.
  */
  lemma CombinedLogs(nights: seq<OvernightRecord>, ratings: seq<SleepinessRecord>)
    ensures |Combine(nights, ratings)| == |nights| + |ratings|
    ensures multiset(Combine(nights, ratings)) == multiset(SleepLogs(nights)) + multiset(SleepinessLogs(ratings))
    ensures NewestFirst(Combine(nights, ratings))
  {
    var all := SleepLogs(nights) + SleepinessLogs(ratings);
    SortedNewestFirst(all);
  }

  /** Each entry of the combined list is made from one of the records, and its fields come from that record. */
  lemma CombinedFields(nights: seq<OvernightRecord>, ratings: seq<SleepinessRecord>, e: LogEntry)
    requires e in Combine(nights, ratings)
    ensures WellFormatted(e)
    ensures e.SleepEntry? ==> e.night in nights
    ensures e.SleepinessEntry? ==> e.rating in ratings
  {
    SortedMembers(SleepLogs(nights) + SleepinessLogs(ratings), e);
    FormattedMembers(nights, ratings, e);
  }

  /** Sorting neither adds nor drops entries. */
  lemma SortedMembers(s: seq<LogEntry>, e: LogEntry)
    requires e in SortByLoggedAt(s)
    ensures e in s
  {
    assert e in multiset(SortByLoggedAt(s));
  }

  lemma FormattedMembers(nights: seq<OvernightRecord>, ratings: seq<SleepinessRecord>, e: LogEntry)
    requires e in SleepLogs(nights) + SleepinessLogs(ratings)
    ensures WellFormatted(e)
    ensures e.SleepEntry? ==> e.night in nights
    ensures e.SleepinessEntry? ==> e.rating in ratings
  {
    var a, b := SleepLogs(nights), SleepinessLogs(ratings);
    if e in a {
      var k :| 0 <= k < |a| && a[k] == e;
      assert e == SleepLog(nights[k]);
    } else {
      assert e in b;
      var k :| 0 <= k < |b| && b[k] == e;
      assert e == SleepinessLog(ratings[k]);
    }
  }

  // ---------------------------------------------------------------------------
  // The filter

  /** `formattedLogs.filter(log => log.type === t)`. */
  function OfType(logs: seq<LogEntry>, t: string): seq<LogEntry> {
    if logs == [] then []
    else if logs[0].Type() == t then [logs[0]] + OfType(logs[1..], t)
    else OfType(logs[1..], t)
  }

  /** The filter keeps every entry of kind t, as often as it occurs, and nothing else. */
  lemma {:induction false} OfTypeCounts(logs: seq<LogEntry>, t: string)
    ensures forall x :: multiset(OfType(logs, t))[x] == if x.Type() == t then multiset(logs)[x] else 0
  {
    if logs != [] {
      OfTypeCounts(logs[1..], t);
      assert logs == [logs[0]] + logs[1..];
    }
  }

  /** Filtering keeps the order of what it keeps: it distributes over concatenation. */
  lemma {:induction false} OfTypeAppend(a: seq<LogEntry>, b: seq<LogEntry>, t: string)
    ensures OfType(a + b, t) == OfType(a, t) + OfType(b, t)
  {
    if a == [] {
      assert a + b == b;
    } else {
      assert (a + b)[0] == a[0] && (a + b)[1..] == a[1..] + b;
      OfTypeAppend(a[1..], b, t);
    }
  }

  /** Every entry is of one kind or the other: the two filters split the list. */
  lemma {:induction false} OfTypeSplits(logs: seq<LogEntry>)
    ensures |OfType(logs, "sleep")| + |OfType(logs, "sleepiness")| == |logs|
  {
    if logs != [] {
      OfTypeSplits(logs[1..]);
    }
  }

  /** The sleep filter of the combined list holds one entry per night, and the sleepiness filter one per rating. */
  lemma CombinedKinds(nights: seq<OvernightRecord>, ratings: seq<SleepinessRecord>)
    ensures |OfType(Combine(nights, ratings), "sleep")| == |nights|
    ensures |OfType(Combine(nights, ratings), "sleepiness")| == |ratings|
  {
    var a, b := SleepLogs(nights), SleepinessLogs(ratings);
    assert Combine(nights, ratings) == SortByLoggedAt(a + b);
    SortedKeepsKinds(a + b, "sleep");
    SortedKeepsKinds(a + b, "sleepiness");
    assert forall i :: 0 <= i < |a| ==> a[i].SleepEntry? by {
      forall i | 0 <= i < |a| ensures a[i].SleepEntry? {
        assert a[i] == SleepLog(nights[i]);
      }
    }
    assert forall i :: 0 <= i < |b| ==> b[i].SleepinessEntry? by {
      forall i | 0 <= i < |b| ensures b[i].SleepinessEntry? {
        assert b[i] == SleepinessLog(ratings[i]);
      }
    }
    KindsOfParts(a, b);
  }

  lemma KindsOfParts(a: seq<LogEntry>, b: seq<LogEntry>)
    requires forall i :: 0 <= i < |a| ==> a[i].SleepEntry?
    requires forall i :: 0 <= i < |b| ==> b[i].SleepinessEntry?
    ensures |OfType(a + b, "sleep")| == |a| && |OfType(a + b, "sleepiness")| == |b|
  {
    OfTypeAppend(a, b, "sleep");
    OfTypeAppend(a, b, "sleepiness");
    AllOfType(a, "sleep");
    NoneOfType(a, "sleepiness");
    AllOfType(b, "sleepiness");
    NoneOfType(b, "sleep");
  }

  /** Sorting does not change how many entries of a kind there are. */
  lemma SortedKeepsKinds(s: seq<LogEntry>, t: string)
    ensures |OfType(SortByLoggedAt(s), t)| == |OfType(s, t)|
  {
    var r := SortByLoggedAt(s);
    assert multiset(OfType(r, t)) == multiset(OfType(s, t)) by {
      OfTypeCounts(r, t);
      OfTypeCounts(s, t);
    }
    assert |multiset(OfType(r, t))| == |OfType(r, t)|;
    assert |multiset(OfType(s, t))| == |OfType(s, t)|;
  }

  lemma {:induction false} AllOfType(s: seq<LogEntry>, t: string)
    requires forall i :: 0 <= i < |s| ==> s[i].Type() == t
    ensures OfType(s, t) == s
  {
    if s != [] {
      assert forall i :: 0 <= i < |s[1..]| ==> s[1..][i] == s[i + 1];
      AllOfType(s[1..], t);
      assert OfType(s, t) == [s[0]] + OfType(s[1..], t);
      assert s == [s[0]] + s[1..];
    }
  }

  lemma {:induction false} NoneOfType(s: seq<LogEntry>, t: string)
    requires forall i :: 0 <= i < |s| ==> s[i].Type() != t
    ensures OfType(s, t) == []
  {
    if s != [] {
      NoneOfType(s[1..], t);
    }
  }

  // ---------------------------------------------------------------------------
  // The page

  class ViewAllLogsPage {
    var formattedLogs: seq<LogEntry>
    /** `'all'`, `'sleep'` or `'sleepiness'` as typed, but any string the segment control sends. */
    var filter: string
    var isLoading: bool
    const service: SleepService

    constructor (service: SleepService)
      ensures this.service == service
      ensures formattedLogs == [] && filter == "all" && isLoading
    {
      this.service := service;
      formattedLogs := [];
      filter := "all";
      isLoading := true;
    }

    /**
      `loadLogs()`. Nothing in the modelled code throws here; `fails` stands for
      an exception from the code that is not modelled (the rating's own
      `summaryString`, the locale formatting), which empties the list. Either
      way the page stops loading.
    */
    method LoadLogs(fails: bool)
      requires service.Valid()
      modifies this
      ensures !isLoading && filter == old(filter)
      ensures fails ==> formattedLogs == []
      ensures !fails ==> formattedLogs == Combine(service.overnight, service.sleepiness)
    {
      isLoading := true;
      var sleepLogs := service.GetAllOvernightSleepData();
      var sleepinessLogs := service.GetAllSleepinessData();
      if fails {
        formattedLogs := [];
        isLoading := false;
        return;
      }
      var formattedSleepLogs := SleepLogs(sleepLogs);
      var formattedSleepinessLogs := SleepinessLogs(sleepinessLogs);
      formattedLogs := SortByLoggedAt(formattedSleepLogs + formattedSleepinessLogs);
      isLoading := false;
    }

    /**
      `getLogsToShow()`: everything for `'all'`, otherwise exactly the entries
      whose type is the filter, as many times as they occur (in their order, by
      OfTypeAppend).
    */
    function GetLogsToShow(): (r: seq<LogEntry>)
      reads this
      ensures filter == "all" ==> r == formattedLogs
      ensures filter != "all" ==> forall x :: multiset(r)[x] == if x.Type() == filter then multiset(formattedLogs)[x] else 0
    {
      if filter == "all" then formattedLogs
      else
        OfTypeCounts(formattedLogs, filter);
        OfType(formattedLogs, filter)
    }

    /** `onFilterChange(event)`: the segment's value becomes the filter. */
    method OnFilterChange(value: string)
      modifies this
      ensures filter == value && formattedLogs == old(formattedLogs) && isLoading == old(isLoading)
    {
      filter := value;
    }
  }
}
