/** The shared constants of the contract library (Constants.java). */
module Constants {

  /** The empty string; also the sign prefix of a non-negative duration. */
  const Empty: string := ""

  const HoursInADay: int := 24

  const MinutesInAHour: int := 60

  /** Defined from the two constants above, as in the source. */
  const MinutesInADay: int := HoursInADay * MinutesInAHour

  /** The day length the duration formatter divides by is 1440 minutes. */
  lemma MinutesInADayValue()
    ensures MinutesInADay == 1440
    ensures MinutesInADay == HoursInADay * MinutesInAHour
  {
  }

  /** The hour of the day taken from a non-negative minute count is a valid
      hour: below HoursInADay. */
  lemma HourOfDayBounded(x: nat)
    ensures 0 <= (x % MinutesInADay) / MinutesInAHour < HoursInADay
  {
    var r := x % MinutesInADay;
    assert 0 <= r < 1440;
  }

  /** Days, hour of the day and minute of the hour, taken from a
      non-negative minute count, add back up to it. */
  lemma DayClockRecombines(x: nat)
    ensures (x / MinutesInADay) * MinutesInADay
      + ((x % MinutesInADay) / MinutesInAHour) * MinutesInAHour
      + x % MinutesInAHour == x
  {
    var d := x / 1440;
    var r := x % 1440;
    var h := r / 60;
    var m := r % 60;
    assert x == d * 1440 + r;
    assert r == h * 60 + m;
    assert x == (d * 24 + h) * 60 + m;
    assert x % 60 == m;
  }
}
