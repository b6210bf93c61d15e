/**
  The page for logging one sleepiness rating: a choice among the Stanford
  scale levels, logged now or at a custom time.
*/
module LogSleepinessPage {

  import opened Wrappers
  import opened Calendar
  import opened JsDate
  import opened OvernightSleepData
  import opened SleepService

  /** One choice offered on the page. */
  datatype ScaleOption = ScaleOption(value: int, description: string)

  /**
    `ScaleValues.slice(1).map((description, index) => ({ value: index + 1, description }))`.
    The texts of the scale (`StanfordSleepinessData.ScaleValues`) are a parameter:
    the record class that holds them is not part of this model.
  */
  function SleepinessScale(scaleValues: seq<string>): (options: seq<ScaleOption>)
    ensures |options| == if scaleValues == [] then 0 else |scaleValues| - 1
    ensures forall i :: 0 <= i < |options| ==> options[i] == ScaleOption(i + 1, scaleValues[i + 1])
  {
    var rest := if scaleValues == [] then [] else scaleValues[1..];
    seq(|rest|, i requires 0 <= i < |rest| => ScaleOption(i + 1, rest[i]))
  }

  /**
    The options offer the levels 1, 2, ... in increasing order, each once, and
    the option for level v carries the same text `ScaleValues[v]` that the
    success message shows for it.
  */
  lemma ScaleLevels(scaleValues: seq<string>, v: int)
    requires 1 <= v < |scaleValues|
    ensures var options := SleepinessScale(scaleValues);
            forall i, j :: 0 <= i < j < |options| ==> options[i].value < options[j].value
    ensures var options := SleepinessScale(scaleValues);
            forall i :: 0 <= i < |options| ==> (options[i].value == v <==> i == v - 1)
    ensures SleepinessScale(scaleValues)[v - 1].description == scaleValues[v]
  {
  }

  /** What `logSleepiness` ends with. */
  datatype SleepinessOutcome =
    | NothingSelected            // "Please select how sleepy you feel."
    | Logged(rating: SleepinessRecord)

  /** The time a rating is logged at: the parsed custom time when one is used, now otherwise. */
  function ChosenTime(useCustomTime: bool, customTime: string, now: TimeValue): (d: Date)
    ensures !useCustomTime ==> d == ValidDate(now)
  {
    if useCustomTime then DateFromString(customTime) else ValidDate(now)
  }

  /**
    A custom time written by `toISOString` (as the page does when it starts and
    when the custom time is switched off) is logged as exactly that time.
  */
  lemma CustomTimeReadsBack(useCustomTime: bool, t: TimeValue, now: TimeValue)
    ensures ChosenTime(useCustomTime, ToISOString(t), now) == if useCustomTime then ValidDate(t) else ValidDate(now)
  {
    ParseToISOString(t);
  }

  class LogSleepinessPage {
    var isSubmitting: bool
    var selectedValue: Option<int>
    var customTime: string
    var useCustomTime: bool
    const sleepinessScale: seq<ScaleOption>
    const service: SleepService

    /** The page starts with nothing selected and the custom time set to now. */
    constructor (service: SleepService, scaleValues: seq<string>, now: TimeValue)
      ensures this.service == service && sleepinessScale == SleepinessScale(scaleValues)
      ensures !isSubmitting && selectedValue == None && customTime == ToISOString(now) && !useCustomTime
    {
      this.service := service;
      isSubmitting := false;
      selectedValue := None;
      customTime := ToISOString(now);
      useCustomTime := false;
      sleepinessScale := SleepinessScale(scaleValues);
    }

    /**
      `logSleepiness()`, with the current time as a parameter. With nothing
      selected it stops before touching `isSubmitting` or the service. Otherwise
      it logs the selected value, unchecked, at the chosen time. The service
      call is not awaited in the page; here it completes before the page goes on.
    */
    method LogSleepiness(now: TimeValue) returns (outcome: SleepinessOutcome)
      requires service.Valid()
      modifies this, service, service.storage
      ensures service.Valid()
      ensures selectedValue == old(selectedValue) && customTime == old(customTime) && useCustomTime == old(useCustomTime)
      ensures old(selectedValue).None? ==>
                outcome == NothingSelected && isSubmitting == old(isSubmitting)
                && service.overnight == old(service.overnight) && service.sleepiness == old(service.sleepiness)
                && service.minted == old(service.minted) && service.storage.entries == old(service.storage.entries)
      ensures old(selectedValue).Some? ==>
                isSubmitting
                && outcome == Logged(NewRating(old(selectedValue).value, ChosenTime(old(useCustomTime), old(customTime), now),
                                               service.mint(old(service.minted))))
                && service.sleepiness == [outcome.rating] + old(service.sleepiness)
                && service.overnight == old(service.overnight) && service.minted == old(service.minted) + 1
                && service.storage.entries == SavedEntries(old(service.storage.entries), service.storage.failing,
                                                           service.overnight, service.sleepiness)
    {
      if selectedValue.None? {
        return NothingSelected;
      }
      isSubmitting := true;
      var loggedAt: Date;
      if useCustomTime {
        loggedAt := DateFromString(customTime);
      } else {
        loggedAt := ValidDate(now);
      }
      var r := service.LogSleepiness(selectedValue.value, loggedAt);
      outcome := Logged(r);
    }

    /** `toggleCustomTime()`: switching the custom time off resets it to now; switching it on keeps it. */
    method ToggleCustomTime(now: TimeValue)
      modifies this`useCustomTime, this`customTime
      ensures useCustomTime == !old(useCustomTime)
      ensures !useCustomTime ==> customTime == ToISOString(now)
      ensures useCustomTime ==> customTime == old(customTime)
    {
      useCustomTime := !useCustomTime;
      if !useCustomTime {
        customTime := ToISOString(now);
      }
    }
  }
}
