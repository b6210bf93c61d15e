/** The home page: a greeting for the time of day and the name of today's weekday. */
module HomePage {

  import opened Calendar

  const GoodMorning: string := "Good Morning"
  const GoodAfternoon: string := "Good Afternoon"
  const GoodEvening: string := "Good Evening"

  /** The weekday names, from Sunday (`getDay()` 0). */
  const Days: seq<string> := ["Sunday", "Monday", "Tuesday", "Wednesday", "Thursday", "Friday", "Saturday"]

  /** The greeting for an hour of the day: morning before noon, afternoon until six, evening after. */
  function Greeting(hour: int): string {
    if hour < 12 then GoodMorning else if hour < 18 then GoodAfternoon else GoodEvening
  }

  /** Each hour of the day gets exactly one of the three greetings, and never the empty text. */
  lemma GreetingPartitionsTheDay(hour: int)
    requires 0 <= hour < 24
    ensures Greeting(hour) == GoodMorning <==> hour < 12
    ensures Greeting(hour) == GoodAfternoon <==> 12 <= hour < 18
    ensures Greeting(hour) == GoodEvening <==> 18 <= hour
    ensures Greeting(hour) != ""
  {
    assert GoodMorning != GoodAfternoon && GoodMorning != GoodEvening && GoodAfternoon != GoodEvening by {
      assert GoodMorning[5] == 'M' && GoodAfternoon[5] == 'A' && GoodEvening[5] == 'E';
    }
  }

  /** A day later the weekday is the next one, wrapping from Saturday to Sunday. */
  lemma NextDayNextWeekday(t: int)
    ensures Days[WeekDay(t + MsPerDay)] == Days[(WeekDay(t) + 1) % 7]
  {
    var k := Day(t);
    assert k * MsPerDay <= t < k * MsPerDay + MsPerDay;
    assert Day(t + MsPerDay) == k + 1;
  }

  /** Time value 0, 1970-01-01, was a Thursday. */
  lemma EpochIsThursday()
    ensures Days[WeekDay(0)] == "Thursday"
  {
  }

  class HomePage {
    /** `today`, set to the time the page is made. */
    var today: TimeValue
    var greeting: string

    constructor (now: TimeValue)
      ensures today == now && greeting == ""
    {
      today := now;
      greeting := "";
    }

    /** `ngOnInit()`. */
    method NgOnInit()
      modifies this
      ensures greeting == Greeting(HourFromTime(today)) && today == old(today)
    {
      SetGreeting();
    }

    /** `setGreeting()`: the greeting for the hour of `today`, which is never empty. */
    method SetGreeting()
      modifies this
      ensures today == old(today)
      ensures greeting == Greeting(HourFromTime(today))
      ensures greeting != ""
    {
      var hour := HourFromTime(today);
      if hour < 12 {
        greeting := GoodMorning;
      } else if hour < 18 {
        greeting := GoodAfternoon;
      } else {
        greeting := GoodEvening;
      }
    }

    /** `getDayOfWeek()`: the name of today's weekday, counted from Sunday. */
    function GetDayOfWeek(): (name: string)
      reads this
      ensures name in Days
      ensures name == Days[WeekDay(today)]
    {
      Days[WeekDay(today)]
    }
  }
}
