/** Birthdays as month/day pairs and the calendar check `month_day::ok()`
    performs; no year, so February 29 is always accepted. */
module Dates {

  /** A birthday: month 1..12 and day of month, held as unsigned values. */
  datatype MonthDay = MonthDay(month: nat, day: nat)

  /** Last day of month `m` in a leap year. */
  function LastDay(m: nat): (d: nat)
    requires 1 <= m <= 12
    ensures 29 <= d <= 31
    ensures d == 31 <==> m in {1, 3, 5, 7, 8, 10, 12}
    ensures d == 29 <==> m == 2
  {
    if m == 2 then 29
    else if m == 4 || m == 6 || m == 9 || m == 11 then 30
    else 31
  }

  /** The month is a calendar month and the day exists in it. */
  predicate Valid(md: MonthDay) {
    1 <= md.month <= 12 && 1 <= md.day <= LastDay(md.month)
  }

  /** No month has a 32nd day, and there is no 13th month. */
  lemma ValidBounds(md: MonthDay)
    ensures Valid(md) ==> md.month <= 12 && md.day <= 31
    ensures md.month == 13 ==> !Valid(md)
    ensures md.day == 32 ==> !Valid(md)
  {
  }
}
