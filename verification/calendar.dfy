/** The validity rules of Python's `datetime(year, month, day, hour, minute)`. */
module Calendar {
  import opened Wrappers
  import opened Models

  datatype DateTime = DateTime(year: int, month: int, day: int, hour: int, minute: int)

  /** The Gregorian leap-year rule used by `datetime`. */
  predicate IsLeap(year: int) {
    year % 4 == 0 && (year % 100 != 0 || year % 400 == 0)
  }

  function DaysInMonth(year: int, month: int): (n: int)
    requires 1 <= month <= 12
    ensures 28 <= n <= 31
    ensures n == 29 <==> month == 2 && IsLeap(year)
    ensures n == 31 <==> month in {1, 3, 5, 7, 8, 10, 12}
  {
    if month == 2 then (if IsLeap(year) then 29 else 28)
    else if month in {4, 6, 9, 11} then 30
    else 31
  }

  /** The ranges `datetime` accepts: years 1 to 9999, a day that exists in its
      month, hours 0 to 23 and minutes 0 to 59. */
  predicate Valid(d: DateTime) {
    && 1 <= d.year <= 9999
    && 1 <= d.month <= 12
    && 1 <= d.day <= DaysInMonth(d.year, d.month)
    && 0 <= d.hour <= 23
    && 0 <= d.minute <= 59
  }

  /** `datetime(year, month, day, hour, minute)`: the value, or the `ValueError`
      it raises for a field out of range. */
  function MakeDateTime(year: int, month: int, day: int, hour: int, minute: int): (r: Result<DateTime, Error>)
    ensures r.Success? <==> Valid(DateTime(year, month, day, hour, minute))
    ensures r.Success? ==> r.value == DateTime(year, month, day, hour, minute)
    ensures r.Failure? ==> r.error == InvalidDate
  {
    var d := DateTime(year, month, day, hour, minute);
    if Valid(d) then Success(d) else Failure(InvalidDate)
  }

  /** The twenty-ninth of February exists exactly in leap years. */
  lemma LeapDay(year: int)
    requires 1 <= year <= 9999
    ensures MakeDateTime(year, 2, 29, 0, 0).Success? <==> IsLeap(year)
  {
  }
}
