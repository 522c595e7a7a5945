/** The slice of .NET `DateTime` the lottery code uses.

    An instant is a whole number of seconds since `DateTime.MinValue`
    (0001-01-01 00:00:00), which fell on a Monday; .NET numbers the week
    from Sunday = 0, so the weekday of day `d` is `(d + 1) % 7`. */
module Calendar {

  type Instant = nat

  /** `DateTime.MinValue`, the "never" value of a last appearance. */
  const MinValue: Instant := 0

  const SecondsPerDay: nat := 86400

  datatype DayOfWeek = Sunday | Monday | Tuesday | Wednesday | Thursday | Friday | Saturday

  /** The `System.DayOfWeek` value of a weekday. */
  function DayNumber(d: DayOfWeek): (k: nat)
    ensures k < 7
  {
    match d
    case Sunday => 0
    case Monday => 1
    case Tuesday => 2
    case Wednesday => 3
    case Thursday => 4
    case Friday => 5
    case Saturday => 6
  }

  function DayFromNumber(k: nat): (d: DayOfWeek)
    requires k < 7
    ensures DayNumber(d) == k
  {
    if k == 0 then Sunday
    else if k == 1 then Monday
    else if k == 2 then Tuesday
    else if k == 3 then Wednesday
    else if k == 4 then Thursday
    else if k == 5 then Friday
    else Saturday
  }

  /** Days elapsed since `MinValue`. */
  function DayIndex(t: Instant): nat {
    t / SecondsPerDay
  }

  /** Seconds elapsed since the instant's midnight. */
  function SecondOfDay(t: Instant): nat {
    t % SecondsPerDay
  }

  /** `DateTime.DayOfWeek`. The first day of the calendar is a Monday;
      `WeekdayStep` gives every later day. */
  function DayOfWeekOf(t: Instant): (d: DayOfWeek)
    ensures t < SecondsPerDay ==> d == Monday
  {
    DayBefore(t);
    DayFromNumber((DayIndex(t) + 1) % 7)
  }

  /** Each day is the weekday after the day before it. */
  lemma WeekdayStep(t: Instant)
    requires t >= SecondsPerDay
    ensures DayNumber(DayOfWeekOf(t)) == (DayNumber(DayOfWeekOf(t - SecondsPerDay)) + 1) % 7
  {
    DayBefore(t);
    NextWeekday(DayIndex(t) - 1);
  }

  lemma NextWeekday(k: nat)
    ensures ((k + 1) % 7 + 1) % 7 == (k + 2) % 7
  {
  }

  /** One day earlier is the day before. */
  lemma DayBefore(t: Instant)
    ensures t < SecondsPerDay ==> DayIndex(t) == 0
    ensures t >= SecondsPerDay ==> DayIndex(t) >= 1 && DayIndex(t - SecondsPerDay) == DayIndex(t) - 1
  {
    if t >= SecondsPerDay {
      var k, s := DayIndex(t), SecondOfDay(t);
      assert t == k * SecondsPerDay + s;
      assert t - SecondsPerDay == (k - 1) * SecondsPerDay + s;
      DayAndSecond(k - 1, s);
    } else {
      DayAndSecond(0, t);
    }
  }

  /** An instant is determined by its day and its second within the day. */
  lemma DayAndSecond(day: nat, second: nat)
    requires second < SecondsPerDay
    ensures DayIndex(day * SecondsPerDay + second) == day
    ensures SecondOfDay(day * SecondsPerDay + second) == second
  {
  }
}
