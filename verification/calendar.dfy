/** Calendar days, weekdays and hours as the JavaScript `Date` methods report them. */
module Calendar {

  /** A calendar day, counted in days since 1970-01-01; the `YYYY-MM-DD` strings
      the system compares stand for these numbers one to one. */
  type Day = int

  /** `Date.prototype.getDay`: 0 = Sunday, 1 = Monday, ..., 6 = Saturday. */
  type Weekday = w: int | 0 <= w < 7

  /** `Date.prototype.getHours`. */
  type Hour = h: int | 0 <= h < 24

  const MillisPerDay: int := 86_400_000

  /** A contact's local moment as the timezone lookup reports it: the day its
      date string names, and the weekday and hour of that moment. */
  datatype LocalMoment = LocalMoment(day: Day, weekday: Weekday, hour: Hour)

  /** The weekday `k` days after a day whose weekday is `w`. */
  function WeekdayAfter(w: Weekday, k: int): Weekday
  {
    (w + k) % 7
  }

  /** Monday to Friday. */
  predicate IsWorkday(w: Weekday)
  {
    1 <= w <= 5
  }

  /** English name of a weekday, capitalised. */
  function DayName(w: Weekday): (name: string)
    ensures |name| >= 6 && 'A' <= name[0] <= 'Z'
  {
    ["Sunday", "Monday", "Tuesday", "Wednesday", "Thursday", "Friday", "Saturday"][w]
  }

  /** Different weekdays have different names. */
  lemma DayNamesDistinct(a: Weekday, b: Weekday)
    ensures DayName(a) == DayName(b) <==> a == b
  {
    if a != b {
      assert DayName(a)[0] != DayName(b)[0] || DayName(a)[1] != DayName(b)[1];
    }
  }

  /** The instant (milliseconds since the epoch) at which a `YYYY-MM-DD` date
      string parses: midnight UTC of that day. */
  function Midnight(d: Day): int
  {
    d * MillisPerDay
  }

  lemma MidnightOrder(d: Day, e: Day)
    ensures d <= e <==> Midnight(d) <= Midnight(e)
  {
  }
}
