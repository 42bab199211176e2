/** The time-of-day bucket (docs/js/time.js) of an hour of the day. */
module Time {
  /** `getTimePeriod(hour)`. */
  function TimePeriod(hour: real): (r: string)
    ensures r == "morning" <==> 4.0 <= hour < 10.0
    ensures r == "day" <==> 10.0 <= hour < 18.0
    ensures r == "night" <==> hour < 4.0 || 18.0 <= hour
  {
    if 4.0 <= hour < 10.0 then "morning"
    else if 10.0 <= hour < 18.0 then "day"
    else "night"
  }

  /** Later hours of the same day never go back to an earlier bucket: night, morning, day, night. */
  lemma TimePeriodOrder(h1: real, h2: real)
    requires 4.0 <= h1 <= h2
    ensures TimePeriod(h1) == "night" ==> TimePeriod(h2) == "night"
    ensures TimePeriod(h1) == "day" ==> TimePeriod(h2) != "morning"
  {
  }
}
