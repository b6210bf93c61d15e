# Sleep tracker: the sleep log store and its pages, in Dafny

This project models the core of a small sleep-tracking app. At its centre is the
sleep log store (`SleepService`), which holds two lists, newest first:

- overnight sleep records, each a start and an end of one night's sleep;
- sleepiness ratings on the Stanford scale.

The store loads both lists once from an on-device key-value store. After every
change it writes both lists back in full. It answers three queries: lookup by
sleep date, "logged today", and the seven-day average duration.

Around the store sit four pages:

- the night-logging page, with its form fields, quick fills and submit checks;
- the history page, which merges, sorts and filters both kinds of record;
- the sleepiness page, with its scale options and custom time;
- the home page, with its greeting and weekday.

The overnight record type gives each night its duration, its summary text and
its sleep date.

Modules, one file each:

| file | module | models |
|---|---|---|
| `wrappers.dfy` | `Wrappers` | `Option`, and `Outcome` (a value or a thrown exception) |
| `calendar.dfy` | `Calendar` | ECMAScript time values: day, year, month, date, weekday, hour and minute fields; `MakeDay`, `MakeDate`, `TimeClip` |
| `js_text.dfy` | `JsText` | `String(n)`, `padStart`, `Number`, `parseInt` (integers), `split` on a set of separator characters |
| `js_date.dfy` | `JsDate` | `new Date(y, m, d, h, mi, s)` (with the 0..99 → 1900+ rule), `new Date(ms)`, `setDate`, `setHours(0,0,0,0)`, `toISOString` and the ISO parse of `new Date(string)` |
| `overnight_sleep_data.dfy` | `OvernightSleepData` | `OvernightSleepData` |
| `sleep_service.dfy` | `SleepService` | the storage collaborator, the stored layout, and the class `SleepService` |
| `log_page.dfy` | `LogPage` | `LogSleepPage` |
| `view_all_logs.dfy` | `ViewAllLogsPage` | `ViewAllLogsPage` |
| `log_sleepiness.dfy` | `LogSleepinessPage` | `LogSleepinessPage` |
| `home.dfy` | `HomePage` | `HomePage` |

Modelling choices:

- **Dates.** A `Date` is a valid time value in milliseconds or the invalid date
  (NaN). The local time zone is taken to be UTC, so local and UTC fields
  coincide.
- **Durations.** Durations and averages are exact `real`s, with `None` standing
  for NaN.
- **State.** The store and the pages are classes whose methods update their
  fields. Their contracts give the new state in terms of specification
  functions: `AfterLogNight`, `LoadInto`, `SavedEntries`, `Decide` and
  `Combine`. Lemmas then state what those functions guarantee. `LoadInto`
  applies the generic `LoadWith` to the two stored arrays and the two item
  decoders.
- **Identifiers.** The identifier and creation time each record receives from
  its base class come from the service's `mint` function. The k-th record
  constructed gets `mint(k)`.
- **Inputs.** The current time, the user's answer to "replace?" and the
  storage calls that throw are all parameters.

Notes on what the code does, where a reader might expect otherwise:

- Reloading saved data does not give back equivalent records. The stored
  identifier and the night's creation time are never read, so reloaded records
  get new stamps. See `SaveThenLoad`.
- `logSleepiness` stores any integer, not only 1..7.
- The legacy date layout ignores a seconds part. The date is built from the
  year, month, day, hours and minutes only.
- `getAverageSleepDuration` has no upper bound. It averages every night whose
  start is at or after "seven days ago", future nights included.
- Logging a night drops every record with the same sleep date, not just one.
  "At most one per date" is therefore preserved (`LogKeepsUnique`), but the
  list length stays the same only when exactly one record shared the date.
- A failed read of the ratings key keeps the nights already loaded, rather than
  leaving both lists empty.

## Model

| member | source | states |
|---|---|---|
| SleepService.NewRating | sleeptracker/src/app/services/sleep.service.ts:66 | a new rating keeps the value and time it is given, unchecked; its id comes from the base class |
| SleepService.KeyValueStorage.Get | sleeptracker/src/app/services/sleep.service.ts:46 | `get` throws when that call fails, otherwise gives the stored value or null for a key never set |
| SleepService.KeyValueStorage.Set | sleeptracker/src/app/services/sleep.service.ts:129-130 | `set` replaces exactly that key's value unless the call throws, in which case nothing changes |
| SleepService.ParseDateString | sleeptracker/src/app/services/sleep.service.ts:84-102 | a valid standard parse is returned as it is; a failed one with fewer than five parts stays the invalid date |
| SleepService.FallbackParts | sleeptracker/src/app/services/sleep.service.ts:89-98 | only when the standard parse fails, and there are at least five parts split on `-`, `T`, `:`: parts 0..4 are read with `parseInt`, the month minus one, seconds 0 |
| SleepService.ParseCustomLayout | sleeptracker/src/app/services/sleep.service.ts:90-97 | a legacy `Y-M-DTH:MI` string of digit fields is read as those five numbers, the month counted from 1 |
| SleepService.SplitCustomLayout | sleeptracker/src/app/services/sleep.service.ts:90 | the legacy layout splits into exactly its five fields |
| SleepService.ParseStoredIso | sleeptracker/src/app/services/sleep.service.ts:86-101 | a string written by `toISOString` reads back as exactly the same date |
| SleepService.EncodeNights | sleeptracker/src/app/services/sleep.service.ts:114-119 | the nights encode iff every date in every record is valid (`toISOString` throws otherwise); one object per record, in list order |
| SleepService.EncodeRatings | sleeptracker/src/app/services/sleep.service.ts:122-126 | the ratings encode iff every time is valid; one object per rating, in list order |
| SleepService.SavedEntries | sleeptracker/src/app/services/sleep.service.ts:111-135 | an unencodable list means nothing is written; no key other than the two storage keys changes |
| SleepService.SavedBoth | sleeptracker/src/app/services/sleep.service.ts:129-130 | with no failing call, the nights key holds the encoded nights and the sleepiness key the encoded ratings |
| SleepService.CollectAppend | sleeptracker/src/app/services/sleep.service.ts:48-57 | loading items a then b is loading a, then loading b with the stamp numbers that follow |
| SleepService.CollectOne | sleeptracker/src/app/services/sleep.service.ts:49-56 | loading one item gives what decoding it gives: one record, or none when it throws |
| SleepService.CollectSingles | sleeptracker/src/app/services/sleep.service.ts:48-57 | when every item decodes to one record, loading gives those records in stored order |
| SleepService.DecodeNightsAppend | sleeptracker/src/app/services/sleep.service.ts:48-57 | nights load item by item in stored order; a skipped item does not stop later ones |
| SleepService.DecodeRatingsAppend | sleeptracker/src/app/services/sleep.service.ts:63-71 | ratings load item by item in stored order; a skipped item does not stop later ones |
| SleepService.CollectStep | sleeptracker/src/app/services/sleep.service.ts:48-57 | one more pass of a loading loop appends exactly what that item decodes to |
| SleepService.LoadedNightsStep | sleeptracker/src/app/services/sleep.service.ts:48-57 | one more pass of the nights loop appends exactly that item's night, if any |
| SleepService.LoadedRatingsStep | sleeptracker/src/app/services/sleep.service.ts:63-71 | one more pass of the ratings loop appends exactly that item's rating, if any |
| SleepService.LoadNothingStored | sleeptracker/src/app/services/sleep.service.ts:47-62 | a stored value that is missing or not an array loads nothing |
| SleepService.Restamped | sleeptracker/src/app/services/sleep.service.ts:50-52 | a reloaded night keeps its start and end; its stamp is the next one |
| SleepService.RestampedRatings | sleeptracker/src/app/services/sleep.service.ts:65-66 | a reloaded rating keeps its value and time; its stamp is the next one |
| SleepService.DecodeEncodedNight | sleeptracker/src/app/services/sleep.service.ts:50-51 | a stored night decodes to the start and end it was saved with |
| SleepService.DecodeNightFields | sleeptracker/src/app/services/sleep.service.ts:50-51 | decoding a stored night object reads its two date properties and nothing else |
| SleepService.DecodeEncodedRating | sleeptracker/src/app/services/sleep.service.ts:65-66 | a stored rating decodes to the value and time it was saved with |
| SleepService.DecodeRatingFields | sleeptracker/src/app/services/sleep.service.ts:65-66 | decoding a stored rating object reads its time and value properties |
| SleepService.CollectEncoded | sleeptracker/src/app/services/sleep.service.ts:48-57 | loading what an encoder wrote gives one record per item, in order, when each encoded value decodes back |
| SleepService.NightsDecodable | sleeptracker/src/app/services/sleep.service.ts:114-119 | every night that can be written decodes back to its start and end |
| SleepService.RatingsDecodable | sleeptracker/src/app/services/sleep.service.ts:122-126 | every rating that can be written decodes back to its value and time |
| SleepService.DecodeEncodedNights | sleeptracker/src/app/services/sleep.service.ts:114-119 | decoding the saved nights array gives every night back, in order, with new stamps |
| SleepService.DecodeEncodedRatings | sleeptracker/src/app/services/sleep.service.ts:122-126 | decoding the saved ratings array gives every rating back, in order, with new stamps |
| SleepService.SaveThenLoad | sleeptracker/src/app/services/sleep.service.ts:111-135 | save then reload: each night's start and end and each rating's value and time come back, in order; ids and the nights' creation times do not |
| SleepService.SavedNightsReload | sleeptracker/src/app/services/sleep.service.ts:46-58 | the nights key after a save reloads to the saved nights, restamped |
| SleepService.SavedRatingsReload | sleeptracker/src/app/services/sleep.service.ts:61-72 | the sleepiness key after a save reloads to the saved ratings, restamped |
| SleepService.ReloadOf | sleeptracker/src/app/services/sleep.service.ts:38-81 | a load into empty lists gives the decoded nights, then the decoded ratings with the stamps after them |
| SleepService.WithoutSleepDate | sleeptracker/src/app/services/sleep.service.ts:174-177 | the filter never lengthens the list |
| SleepService.WithoutSleepDateMembers | sleeptracker/src/app/services/sleep.service.ts:174-177 | the filter keeps exactly the records whose sleep date differs from the new night's (a NaN date never matches) |
| SleepService.WithoutSleepDateAppend | sleeptracker/src/app/services/sleep.service.ts:174-177 | the filter keeps the relative order of the records it keeps |
| SleepService.AfterLogNight | sleeptracker/src/app/services/sleep.service.ts:173-180 | after logging, the new record is first, no later record shares its sleep date, and every record with another date is still there |
| SleepService.UniqueCons | sleeptracker/src/app/services/sleep.service.ts:180 | putting a record whose date is new in front keeps sleep dates unique |
| SleepService.UniqueWithout | sleeptracker/src/app/services/sleep.service.ts:174-177 | filtering keeps sleep dates unique |
| SleepService.LogKeepsUnique | sleeptracker/src/app/services/sleep.service.ts:163-186 | logging a night keeps at most one record per sleep date |
| SleepService.FindBySleepDate | sleeptracker/src/app/services/sleep.service.ts:157-160 | `find`: none iff no record has the target sleep date; otherwise the first record that does |
| SleepService.FindAfterLog | sleeptracker/src/app/services/sleep.service.ts:148-186 | after logging a night, looking up its start date finds exactly that record, and so does the page's query, the start's midnight normalised again |
| SleepService.LoggedTodayAfterLog | sleeptracker/src/app/services/sleep.service.ts:200-209 | after logging a night that started today, today counts as logged |
| SleepService.Recent | sleeptracker/src/app/services/sleep.service.ts:216-218 | keeps exactly the nights whose start is at or after the cutoff (NaN never is) |
| SleepService.RecentCounts | sleeptracker/src/app/services/sleep.service.ts:216-218 | the filter keeps every night whose start is at or after the cutoff as often as it occurs, and no other night |
| SleepService.RecentAppend | sleeptracker/src/app/services/sleep.service.ts:216-218 | the filter keeps the relative order of the nights it keeps |
| SleepService.Durations | sleeptracker/src/app/services/sleep.service.ts:222-224 | one duration per night, in order |
| SleepService.SumHours | sleeptracker/src/app/services/sleep.service.ts:222-224 | the sum is a number iff every term is (one NaN makes it NaN) |
| SleepService.TotalHours | sleeptracker/src/app/services/sleep.service.ts:222-224 | the total is a number iff every night's duration is |
| SleepService.AverageHours | sleeptracker/src/app/services/sleep.service.ts:220-226 | exactly 0 for no nights; otherwise the average times the count is the total |
| SleepService.TotalBounds | sleeptracker/src/app/services/sleep.service.ts:222-224 | with every duration in [lo, hi], the total lies in [n·lo, n·hi] |
| SleepService.SumAtLeast | sleeptracker/src/app/services/sleep.service.ts:222-224 | the sum of n terms each at least lo is at least n·lo |
| SleepService.SumAtMost | sleeptracker/src/app/services/sleep.service.ts:222-224 | the sum of n terms each at most hi is at most n·hi |
| SleepService.AverageBounds | sleeptracker/src/app/services/sleep.service.ts:211-227 | with every duration in [lo, hi], the average lies in [lo, hi] |
| SleepService.MeanBounds | sleeptracker/src/app/services/sleep.service.ts:226 | a total divided by a positive count lies between the bounds of its terms |
| SleepService.SleepService.constructor | sleeptracker/src/app/services/sleep.service.ts:19-22 | the service starts its one load at once, into empty lists |
| SleepService.SleepService.EnsureDataLoaded | sleeptracker/src/app/services/sleep.service.ts:25-36 | loads only the first time; once started or loaded nothing changes; afterwards the data is marked loaded |
| SleepService.SleepService.LoadDataInternal | sleeptracker/src/app/services/sleep.service.ts:38-81 | the lists become `LoadInto` of the store; the data is marked loaded after success and after a caught failure alike |
| SleepService.SleepService.NextStamp | sleeptracker/src/app/services/sleep.service.ts:52 | each record constructed takes the next stamp |
| SleepService.SleepService.LoadNight | sleeptracker/src/app/services/sleep.service.ts:49-56 | one pass pushes the item's night, or nothing when decoding throws |
| SleepService.SleepService.LoadRating | sleeptracker/src/app/services/sleep.service.ts:64-70 | one pass pushes the item's rating, or nothing when decoding throws |
| SleepService.SleepService.LoadNightAt | sleeptracker/src/app/services/sleep.service.ts:48-57 | pass i takes the list after items 0..i-1 to the list after items 0..i |
| SleepService.SleepService.LoadNights | sleeptracker/src/app/services/sleep.service.ts:47-58 | the nights loop appends the decoded nights of all items, in stored order |
| SleepService.SleepService.LoadRatingAt | sleeptracker/src/app/services/sleep.service.ts:63-71 | pass i takes the list after items 0..i-1 to the list after items 0..i |
| SleepService.SleepService.LoadRatings | sleeptracker/src/app/services/sleep.service.ts:62-72 | the ratings loop appends the decoded ratings of all items, in stored order |
| SleepService.SleepService.SaveDataToStorage | sleeptracker/src/app/services/sleep.service.ts:111-135 | the store becomes `SavedEntries` of the current lists; errors are swallowed |
| SleepService.SleepService.GetAllOvernightSleepData | sleeptracker/src/app/services/sleep.service.ts:138-141 | gives the nights list as it is, newest first |
| SleepService.SleepService.GetAllSleepinessData | sleeptracker/src/app/services/sleep.service.ts:143-146 | gives the ratings list as it is |
| SleepService.SleepService.GetSleepForDate | sleeptracker/src/app/services/sleep.service.ts:148-161 | null iff no record's sleep date is the query's midnight; otherwise the first record whose date is |
| SleepService.SleepService.HasLoggedToday | sleeptracker/src/app/services/sleep.service.ts:200-209 | true iff some record's sleep date is today's midnight |
| SleepService.SleepService.GetAverageSleepDuration | sleeptracker/src/app/services/sleep.service.ts:211-227 | the average duration of the nights started at or after seven days before now; 0 for none |
| SleepService.SleepService.LogOvernightSleep | sleeptracker/src/app/services/sleep.service.ts:163-186 | the new record (start and end as given) goes first after every record with its sleep date is dropped; the ratings are unchanged; both lists are saved |
| SleepService.SleepService.LogSleepiness | sleeptracker/src/app/services/sleep.service.ts:188-198 | exactly one rating with the given value and time goes first, with no range check; nothing else changes; both lists are saved |
| OvernightSleepData.NewOvernight | sleeptracker/src/app/data/overnight-sleep-data.ts:4-17 | the `sleepStart` and `sleepEnd` accessors give back exactly the constructor's arguments |
| OvernightSleepData.HoursBetween | sleeptracker/src/app/data/overnight-sleep-data.ts:36-39 | the duration is a number iff both dates are valid; hours times 3600000 is the difference in milliseconds |
| OvernightSleepData.DurationPositive | sleeptracker/src/app/data/overnight-sleep-data.ts:36-39 | the duration is positive iff the end is after the start |
| OvernightSleepData.EightHourNight | sleeptracker/src/app/data/overnight-sleep-data.ts:36-39 | 23:00 one day to 07:00 the next is exactly 8 hours |
| OvernightSleepData.SummaryParts | sleeptracker/src/app/data/overnight-sleep-data.ts:19-25 | the hours part is the floor of the duration; the minutes part lies in 0..59 |
| OvernightSleepData.SummaryWholeMinutes | sleeptracker/src/app/data/overnight-sleep-data.ts:19-25 | the summary is `{h}h {m}m` for the whole minutes between start and end, split into hours and minutes past the hour |
| OvernightSleepData.SummaryPartsOfMs | sleeptracker/src/app/data/overnight-sleep-data.ts:20-22 | the two parts are the whole minutes of the difference, divided and taken modulo 60 |
| OvernightSleepData.FloorOfQuotient | sleeptracker/src/app/data/overnight-sleep-data.ts:21-22 | `Math.floor` of an exact quotient is integer floor division |
| OvernightSleepData.SleepDateOnlyByStartDay | sleeptracker/src/app/data/overnight-sleep-data.ts:59-65 | the sleep date depends only on the start's calendar day, never on the end or the time of day |
| OvernightSleepData.SleepDateIsDayStart | sleeptracker/src/app/data/overnight-sleep-data.ts:59-65 | outside the years 0..99 the sleep date is the first millisecond of the start's day |
| OvernightSleepData.SleepDateMatchesOwnStart | sleeptracker/src/app/log-sleep/log.page.ts:177-179 | the page's lookup for a night, midnight of its start normalised once more by the store, matches that night's sleep date |
| LogPage.FormatDateShape | sleeptracker/src/app/log-sleep/log.page.ts:88-93 | the date field is the year's digits, `-`, the month counted from 1 in two digits, `-`, the day in two digits |
| LogPage.DateLayout | sleeptracker/src/app/log-sleep/log.page.ts:92 | the pieces of `y-mm-dd` sit at fixed places from the end and read as their numbers |
| LogPage.FormatTimeShape | sleeptracker/src/app/log-sleep/log.page.ts:124-128 | the time field is the hour in two digits, `:`, the minute in two digits |
| LogPage.NumberAt | sleeptracker/src/app/log-sleep/log.page.ts:133-134 | `Number` of a split part; a missing part is NaN |
| LogPage.LoggedDate | sleeptracker/src/app/log-sleep/log.page.ts:139-146 | the debug log throws iff the built date is NaN; otherwise the date is returned |
| LogPage.CreateDateTime | sleeptracker/src/app/log-sleep/log.page.ts:131-147 | a date returned is always a valid one |
| LogPage.SplitDateFields | sleeptracker/src/app/log-sleep/log.page.ts:133 | a date field of three separator-free pieces splits into those three |
| LogPage.SplitTimeFields | sleeptracker/src/app/log-sleep/log.page.ts:134 | a time field of two separator-free pieces splits into those two |
| LogPage.CreateFromFields | sleeptracker/src/app/log-sleep/log.page.ts:131-147 | fields written without separators are read one by one, the month minus one and the seconds 0 |
| LogPage.PartsRead | sleeptracker/src/app/log-sleep/log.page.ts:133-137 | the first three date parts and the first two time parts are what builds the date |
| LogPage.Pad2Number | sleeptracker/src/app/log-sleep/log.page.ts:90-91 | a two-digit padded number reads back as itself and has no separator |
| LogPage.FormRoundTrip | sleeptracker/src/app/log-sleep/log.page.ts:88-147 | writing a time into the date and time fields and reading them back gives that time cut to the minute |
| LogPage.CheckTimesMeaning | sleeptracker/src/app/log-sleep/log.page.ts:162-175 | rejected for order iff the end is not after the start; accepted iff the night lasts from 1 to 16 hours, both ends included |
| LogPage.DecideAfterChecks | sleeptracker/src/app/log-sleep/log.page.ts:177-195 | after the checks pass, a night already logged for the date plus a refusal declines; otherwise the night is stored |
| LogPage.DecideValidForm | sleeptracker/src/app/log-sleep/log.page.ts:149-160 | a valid form, with no submission running, is decided by the two dates built from its fields |
| LogPage.StoredIsPlausible | sleeptracker/src/app/log-sleep/log.page.ts:149-195 | a stored night has the built times and lasts 1 to 16 hours; either no night has its sleep date or the user confirmed |
| LogPage.DeclinedMeansExisting | sleeptracker/src/app/log-sleep/log.page.ts:177-191 | a decline happens only when the user refused and a logged night has the start's midnight as its sleep date |
| LogPage.NewDateOnTheHour | sleeptracker/src/app/log-sleep/log.page.ts:137 | a date built on the hour is the day's start plus the hours |
| LogPage.DateFieldOf | sleeptracker/src/app/log-sleep/log.page.ts:88-93 | the date field starts with the year in plain digits |
| LogPage.DateFieldWithTime | sleeptracker/src/app/log-sleep/log.page.ts:131-147 | a date field, then a time of two numbers, reads back as the time's year, month and day at those hours and minutes |
| LogPage.YearFieldsRead | sleeptracker/src/app/log-sleep/log.page.ts:133-137 | a digit year, a padded month and day, and two time numbers, read back as those numbers |
| LogPage.YearFieldParts | sleeptracker/src/app/log-sleep/log.page.ts:133-134 | the two fields split into their pieces, which read as the year, the month plus one, and the day |
| LogPage.DateNumbers | sleeptracker/src/app/log-sleep/log.page.ts:89-93 | the year, month and day pieces have no separator and read back as their numbers |
| LogPage.PartNumbers | sleeptracker/src/app/log-sleep/log.page.ts:133-137 | parts that read as numbers build the date of those numbers |
| LogPage.DayAtHour | sleeptracker/src/app/log-sleep/log.page.ts:76-79 | a date field and a fixed `HH:00` time read back as that hour of that day |
| LogPage.DayAtHourInRange | sleeptracker/src/app/log-sleep/log.page.ts:76-79 | such a time lies in range and reads back as a valid date |
| LogPage.DayBefore | sleeptracker/src/app/log-sleep/log.page.ts:73 | a whole day earlier is the previous day number |
| LogPage.YesterdayToTodayIsEightHours | sleeptracker/src/app/log-sleep/log.page.ts:110-121 | the default night runs from 23:00 the day before to 07:00 today; it lasts 8 hours, and submitting it with consent stores exactly that night |
| LogPage.DefaultFields | sleeptracker/src/app/log-sleep/log.page.ts:75-80 | the default fields are filled in and read back as 23:00 the day before and 07:00 today |
| LogPage.DecideOnTimes | sleeptracker/src/app/log-sleep/log.page.ts:149-195 | a form that reads back as two times is rejected for the order, rejected for the duration, or stored, according to their difference alone |
| LogPage.MinuteOfHoursBack | sleeptracker/src/app/log-sleep/log.page.ts:99 | going back whole hours keeps the seconds past the minute, so the minute-cut times are exactly that many hours apart |
| LogPage.QuickSleepFields | sleeptracker/src/app/log-sleep/log.page.ts:96-107 | for any number of hours h, the start fields read back as `new Date(now − h·3600000)` and the end fields as now, each cut to the minute |
| LogPage.QuickSleepIsExact | sleeptracker/src/app/log-sleep/log.page.ts:96-107 | a quick fill of whole h hours is rejected for h ≤ 0, rejected for h > 16, and otherwise stores a night of exactly h hours |
| LogPage.QuickSleepNearlyExact | sleeptracker/src/app/log-sleep/log.page.ts:96-107 | a quick fill of fractional h hours stores a night within a minute and a millisecond of h hours: rejected for h ≤ 0, rejected from 16.02, stored from 1.02 to 15.98 |
| LogPage.LogSleepPage.constructor | sleeptracker/src/app/log-sleep/log.page.ts:64-83 | the form starts as 23:00 yesterday to 07:00 today, with no submission running |
| LogPage.LogSleepPage.SetQuickSleep | sleeptracker/src/app/log-sleep/log.page.ts:96-107 | for any number of hours, the end fields come from now and the start fields from `new Date(now − h·3600000)` |
| LogPage.LogSleepPage.SetYesterdayToToday | sleeptracker/src/app/log-sleep/log.page.ts:110-121 | the form becomes 23:00 of the day before to 07:00 today |
| LogPage.LogSleepPage.LogSleep | sleeptracker/src/app/log-sleep/log.page.ts:149-210 | the outcome is `Decide` of the form: an invalid form or a running submission does nothing; only a stored night changes the service; a rejection or a decline clears `isSubmitting` |
| LogPage.LogSleepPage.Submit | sleeptracker/src/app/log-sleep/log.page.ts:162-210 | after the dates are built: the order check, then the duration check, then the replace question, then the store; `isSubmitting` stays set only when a night is stored |
| ViewAllLogsPage.GetSleepinessDescription | sleeptracker/src/app/view-all-logs/view-all-logs.page.ts:140-152 | levels 1..7 give their table entry; any other level gives `'Unknown level'` |
| ViewAllLogsPage.DescriptionKnownExactly | sleeptracker/src/app/view-all-logs/view-all-logs.page.ts:141-150 | the table has 8 entries with entry 0 empty; a level has a real description iff it is in 1..7; the result is never empty |
| ViewAllLogsPage.SleepLogs | sleeptracker/src/app/view-all-logs/view-all-logs.page.ts:96-106 | one sleep entry per night, in order |
| ViewAllLogsPage.SleepinessLogs | sleeptracker/src/app/view-all-logs/view-all-logs.page.ts:109-118 | one sleepiness entry per rating, in order |
| ViewAllLogsPage.Insert | sleeptracker/src/app/view-all-logs/view-all-logs.page.ts:121-122 | inserting adds exactly the one entry |
| ViewAllLogsPage.SortByLoggedAt | sleeptracker/src/app/view-all-logs/view-all-logs.page.ts:121-122 | the sort is a permutation |
| ViewAllLogsPage.InsertNewestFirst | sleeptracker/src/app/view-all-logs/view-all-logs.page.ts:121-122 | inserting into a newest-first list keeps it newest first |
| ViewAllLogsPage.SortedNewestFirst | sleeptracker/src/app/view-all-logs/view-all-logs.page.ts:121-122 | no entry of the sorted list was logged later than one before it |
| ViewAllLogsPage.SortedDescending | sleeptracker/src/app/view-all-logs/view-all-logs.page.ts:121-122 | with every log time valid, the sorted list runs from the latest `original.loggedAt` to the earliest |
| ViewAllLogsPage.CombinedLogs | sleeptracker/src/app/view-all-logs/view-all-logs.page.ts:121-122 | the combined list is a permutation of the sleep entries plus the sleepiness entries; its length is the sum; it is newest first |
| ViewAllLogsPage.CombinedFields | sleeptracker/src/app/view-all-logs/view-all-logs.page.ts:96-118 | every combined entry comes from one of the records: sleep entries dated by `sleepStart`; sleepiness entries dated by `loggedAt`, with level `loggedValue` |
| ViewAllLogsPage.SortedMembers | sleeptracker/src/app/view-all-logs/view-all-logs.page.ts:121-122 | sorting adds no entry |
| ViewAllLogsPage.FormattedMembers | sleeptracker/src/app/view-all-logs/view-all-logs.page.ts:96-118 | every formatted entry has the fields of the record it was made from |
| ViewAllLogsPage.OfTypeCounts | sleeptracker/src/app/view-all-logs/view-all-logs.page.ts:158 | the filter keeps every entry of that type as often as it occurs, and nothing else |
| ViewAllLogsPage.OfTypeAppend | sleeptracker/src/app/view-all-logs/view-all-logs.page.ts:158 | the filter keeps the existing order |
| ViewAllLogsPage.OfTypeSplits | sleeptracker/src/app/view-all-logs/view-all-logs.page.ts:158 | the `'sleep'` and `'sleepiness'` filters together account for every entry |
| ViewAllLogsPage.CombinedKinds | sleeptracker/src/app/view-all-logs/view-all-logs.page.ts:121-158 | the `'sleep'` filter of the combined list has one entry per night; the `'sleepiness'` filter has one per rating |
| ViewAllLogsPage.KindsOfParts | sleeptracker/src/app/view-all-logs/view-all-logs.page.ts:121 | sleep entries followed by sleepiness entries filter into the two parts |
| ViewAllLogsPage.SortedKeepsKinds | sleeptracker/src/app/view-all-logs/view-all-logs.page.ts:121-122 | sorting keeps the number of entries of each type |
| ViewAllLogsPage.AllOfType | sleeptracker/src/app/view-all-logs/view-all-logs.page.ts:158 | filtering entries all of the type keeps them all |
| ViewAllLogsPage.NoneOfType | sleeptracker/src/app/view-all-logs/view-all-logs.page.ts:158 | filtering entries none of the type keeps none |
| ViewAllLogsPage.ViewAllLogsPage.constructor | sleeptracker/src/app/view-all-logs/view-all-logs.page.ts:64-72 | the page starts with no logs, the filter `'all'`, and loading |
| ViewAllLogsPage.ViewAllLogsPage.LoadLogs | sleeptracker/src/app/view-all-logs/view-all-logs.page.ts:82-130 | the list becomes the combined, sorted list of the service's records (empty on an error); loading is always off afterwards |
| ViewAllLogsPage.ViewAllLogsPage.GetLogsToShow | sleeptracker/src/app/view-all-logs/view-all-logs.page.ts:154-160 | `'all'` shows the whole list; any other filter shows exactly the entries of that type, with their multiplicities |
| ViewAllLogsPage.ViewAllLogsPage.OnFilterChange | sleeptracker/src/app/view-all-logs/view-all-logs.page.ts:162-164 | the selected value becomes the filter; nothing else changes |
| LogSleepinessPage.SleepinessScale | sleeptracker/src/app/log-sleepiness/log-sleepiness.page.ts:78-81 | one option per scale text except index 0; option i has value i+1 and text `ScaleValues[i+1]` |
| LogSleepinessPage.ScaleLevels | sleeptracker/src/app/log-sleepiness/log-sleepiness.page.ts:78-81 | the option values increase; each level appears once; the option for v carries the text the success message shows for v |
| LogSleepinessPage.ChosenTime | sleeptracker/src/app/log-sleepiness/log-sleepiness.page.ts:100-106 | without a custom time, the rating is logged now |
| LogSleepinessPage.CustomTimeReadsBack | sleeptracker/src/app/log-sleepiness/log-sleepiness.page.ts:100-106 | a custom time written by `toISOString` is logged as exactly that time |
| LogSleepinessPage.LogSleepinessPage.constructor | sleeptracker/src/app/log-sleepiness/log-sleepiness.page.ts:72-81 | the page starts with nothing selected, not submitting, and the custom time set to now and switched off |
| LogSleepinessPage.LogSleepinessPage.LogSleepiness | sleeptracker/src/app/log-sleepiness/log-sleepiness.page.ts:91-118 | with nothing selected, neither the service nor `isSubmitting` is touched; otherwise exactly one rating goes first, with the selected value at the chosen time |
| LogSleepinessPage.LogSleepinessPage.ToggleCustomTime | sleeptracker/src/app/log-sleepiness/log-sleepiness.page.ts:120-125 | flips the switch; turning it off resets the custom time to now; turning it on keeps it |
| HomePage.GreetingPartitionsTheDay | sleeptracker/src/app/home/home.page.ts:62-71 | hours 0..11 get "Good Morning", 12..17 "Good Afternoon", 18..23 "Good Evening", each exactly one and never empty |
| HomePage.NextDayNextWeekday | sleeptracker/src/app/home/home.page.ts:73-76 | a day later the weekday name is the next one, Saturday wrapping to Sunday |
| HomePage.EpochIsThursday | sleeptracker/src/app/home/home.page.ts:73-76 | day index 4 is Thursday: 1970-01-01 maps to "Thursday" |
| HomePage.HomePage.constructor | sleeptracker/src/app/home/home.page.ts:51-56 | `today` is the time the page is made; the greeting starts empty |
| HomePage.HomePage.NgOnInit | sleeptracker/src/app/home/home.page.ts:58-60 | initialising sets the greeting for today's hour |
| HomePage.HomePage.SetGreeting | sleeptracker/src/app/home/home.page.ts:62-71 | the greeting is the one for today's hour, and never empty |
| HomePage.HomePage.GetDayOfWeek | sleeptracker/src/app/home/home.page.ts:73-76 | the name of today's weekday, counted from Sunday |
| JsDate.NewDate | sleeptracker/src/app/log-sleep/log.page.ts:137 | a NaN argument makes the built date invalid |
| JsDate.DateOfNumber | sleeptracker/src/app/log-sleep/log.page.ts:99 | `new Date(ms)` is invalid beyond the time range and otherwise cuts the fraction toward zero |
| JsDate.NewDateOfFields | sleeptracker/src/app/log-sleep/log.page.ts:137 | building a date from a time's own fields, seconds 0, gives that time cut to the minute |
| JsDate.SetDateBack | sleeptracker/src/app/services/sleep.service.ts:213-214 | `setDate(getDate() - k)` is k whole days earlier |
| JsDate.SetHoursToMidnight | sleeptracker/src/app/services/sleep.service.ts:202-203 | `setHours(0,0,0,0)` is the first millisecond of the day |
| JsDate.LocalMidnight | sleeptracker/src/app/services/sleep.service.ts:151-155 | the normalised date is valid iff the date is |
| JsDate.MidnightIsNewDate | sleeptracker/src/app/data/overnight-sleep-data.ts:59-65 | normalising is `new Date(year, month, date)` of the date's fields |
| JsDate.MidnightOfDay | sleeptracker/src/app/services/sleep.service.ts:151-155 | outside the years 0..99, normalising gives the first millisecond of the day |
| JsDate.MidnightIdempotent | sleeptracker/src/app/log-sleep/log.page.ts:178-179 | for every date, normalising twice is normalising once |
| JsDate.SameMidnight | sleeptracker/src/app/services/sleep.service.ts:157-160 | outside the years 0..99, two dates normalise to the same time iff they fall on the same day |
| JsDate.ParseToISOString | sleeptracker/src/app/services/sleep.service.ts:86-107 | `new Date(toISOString(t))` is t |
| JsText.IntToString | sleeptracker/src/app/log-sleep/log.page.ts:89-92 | `String(n)` is the decimal digits of n, with a minus sign when negative |
| JsText.PadStart | sleeptracker/src/app/log-sleep/log.page.ts:90-91 | `padStart` keeps the string at the end and fills up to the width with the pad character |
| JsText.PaddedDigits | sleeptracker/src/app/log-sleep/log.page.ts:90-91 | zero-padding a number's digits keeps its value |
| JsText.ToNumber | sleeptracker/src/app/log-sleep/log.page.ts:133-134 | `Number` of a digit string is its value; blank text is 0 |
| JsText.ParseInt | sleeptracker/src/app/services/sleep.service.ts:92-96 | `parseInt(s, 10)` of a digit string is its value |
| JsText.ParseIntDigitPrefix | sleeptracker/src/app/services/sleep.service.ts:92-96 | `parseInt(s, 10)` reads the leading digits and ignores what follows them, so a part like `08.5` reads as 8 |
| JsText.Minus | sleeptracker/src/app/services/sleep.service.ts:93 | subtracting from NaN stays NaN; otherwise it subtracts |
| JsText.Split | sleeptracker/src/app/services/sleep.service.ts:90 | `split` always gives at least one part |
| JsText.SplitNone | sleeptracker/src/app/log-sleep/log.page.ts:133-134 | a string without a separator splits into itself |
| JsText.SplitFirst | sleeptracker/src/app/log-sleep/log.page.ts:133-134 | a separator-free piece before a separator splits off first |
| JsText.SplitPartsFree | sleeptracker/src/app/services/sleep.service.ts:90 | no part of a split contains a separator |
| Calendar.TimeClip | sleeptracker/src/app/log-sleep/log.page.ts:99 | a time value is valid iff within ±8.64e15 ms, and then is kept as it is |
| Calendar.DayFields | sleeptracker/src/app/data/overnight-sleep-data.ts:61-63 | `MakeDay` of a time's year, month and date is its day number |
| Calendar.FieldsOfDay | sleeptracker/src/app/data/overnight-sleep-data.ts:61-63 | a date built from a year, month and day in range reads back as that year and month |

## Left out

- The time zone. Local time is taken to be UTC, with no daylight saving, so `getHours`, `getDate` and `setHours` act on UTC fields.
- `toLocaleString`, `toLocaleDateString` and `toLocaleTimeString` (`dateString`, `getStartTimeString`, `getEndTimeString`, `formatDate`, `getFormattedDate`): locale formatting is not modelled.
- Floating point. Durations, the summary, the average and the hours of `setQuickSleep` are exact reals, so rounding in `/ 3600000`, in the mean and in `hours * 60 * 60 * 1000` is not modelled.
- LogPage.LogSleepPage.SetQuickSleep: a NaN or infinite `hours` is not modelled, since the hours are a real.
- Promises and `async`. Every call runs to completion before the next starts, and the shared `loadPromise` is the flag `loadStarted`.
- SleepService.SleepService.EnsureDataLoaded: requires that a started load has finished (`loadStarted ==> isDataLoaded`), because overlapping callers waiting on one pending load are not modelled.
- LogSleepinessPage.LogSleepinessPage.LogSleepiness: the store call the page does not await is taken to complete before the page goes on.
- `showAlert`, `showConfirm`, `navCtrl.back()`, `cancel()` and the `console` calls. The user's answer to the replace question is a parameter of `LogSleep`.
- `setTimeout` plus `debugStorage`: debug output only.
- `SleepData` and `StanfordSleepinessData` are not part of this model. Ids and default `loggedAt` come from the service's `mint` parameter, and `ScaleValues` is a parameter of the sleepiness page.
- A stored rating whose `loggedValue` is not a number is skipped, since the rating constructor is not part of this model.
- `Number` reads integers only: an optional sign, digits and surrounding white space. Fractions, exponents and hexadecimal read as NaN. (`parseInt` is not limited this way: as in JavaScript, it reads the leading digits and ignores the rest, so `"1.5"` reads as 1 and `"0x1A"` as 0.)
- `new Date(string)` accepts only the ECMAScript date-time string format. Other formats that engines accept read as invalid and go to the fallback.
- `new Date(value)` for an array or object value is taken to throw. JavaScript first converts it to a string, so an array holding one valid date string would parse.
- Storage values are the JSON values `Json` names. Numbers are integers, so a fractional stored time is not modelled.
- ViewAllLogsPage.ViewAllLogsPage.LoadLogs: an exception from code not modelled here (the rating's own `summaryString`, locale formatting) is the `fails` parameter.
- ViewAllLogsPage.SortByLoggedAt: `Array.prototype.sort` is modelled as a stable insertion sort. With a NaN log time the comparator reads "equal" and engines may order differently.
- ViewAllLogsPage.SortedDescending: stated for lists whose log times are all valid.
- LogPage.FormRoundTrip: stated for years from 100 on. Earlier years print with a sign or fall under the constructor's 1900 rule.
- SleepService.SleepService.LogSleepiness: the default `loggedAt = new Date()` is not modelled, because every caller passes a time.
- SleepService.LoggedTodayAfterLog and OvernightSleepData.SleepDateIsDayStart: stated outside the years 0..99, where `new Date(y, m, d)` maps y to 1900 + y.
- `ionViewWillEnter`, `ngOnInit` of the history page and the `cancel` buttons: each only calls a modelled method or navigates.
- `sleeptracker/src/main.ts` and `sleeptracker/src/app/app.routes.ts`: bootstrap and routes, with no logic.
