/** The proleptic Gregorian calendar, stepped one day at a time from 1970-01-01.
    Months count from 0, days of the month from 1, as in struct tm. */
module Calendar {

  datatype Date = Date(year: int, mon: int, mday: int)

  predicate IsLeap(y: int) {
    y % 4 == 0 && (y % 100 != 0 || y % 400 == 0)
  }

  function DaysInMonth(y: int, m: int): (d: int)
    ensures 28 <= d <= 31
  {
    if m == 1 then (if IsLeap(y) then 29 else 28)
    else if m == 3 || m == 5 || m == 8 || m == 10 then 30
    else 31
  }

  predicate Valid(d: Date) {
    0 <= d.mon <= 11 && 1 <= d.mday <= DaysInMonth(d.year, d.mon)
  }

  function NextDay(d: Date): Date {
    if d.mday < DaysInMonth(d.year, d.mon) then d.(mday := d.mday + 1)
    else if d.mon < 11 then Date(d.year, d.mon + 1, 1)
    else Date(d.year + 1, 0, 1)
  }

  function PreviousDay(d: Date): Date {
    if d.mday > 1 then d.(mday := d.mday - 1)
    else if d.mon > 0 then Date(d.year, d.mon - 1, DaysInMonth(d.year, d.mon - 1))
    else Date(d.year - 1, 11, 31)
  }

  const EPOCH := Date(1970, 0, 1)

  /** The date n days after the epoch, or -n days before it. */
  ghost function DateOfDay(n: int): (d: Date)
    decreases if n < 0 then -n else n
  {
    if n == 0 then EPOCH
    else if n > 0 then NextDay(DateOfDay(n - 1))
    else PreviousDay(DateOfDay(n + 1))
  }

  // ----- Closed forms -----

  /** Days from the epoch to the first of January. */
  function YearStart(y: int): int {
    365 * (y - 1970) + (y - 1969) / 4 - (y - 1901) / 100 + (y - 1601) / 400
  }

  /** Days of the year before the first of month m. */
  function DaysBefore(m: int, leap: bool): int {
    var february := if leap then 29 else 28;
    if m <= 0 then 0
    else if m == 1 then 31
    else 31 + february
         + (if m == 2 then 0 else if m == 3 then 31 else if m == 4 then 61 else if m == 5 then 92
            else if m == 6 then 122 else if m == 7 then 153 else if m == 8 then 184
            else if m == 9 then 214 else if m == 10 then 245 else 275)
  }

  function DayOfYear(d: Date): int {
    DaysBefore(d.mon, IsLeap(d.year)) + d.mday - 1
  }

  function DayNumber(d: Date): int {
    YearStart(d.year) + DayOfYear(d)
  }

  function YearLength(y: int): int {
    if IsLeap(y) then 366 else 365
  }

  lemma QuarterStep(y: int)
    ensures (y - 1968) / 4 == (y - 1969) / 4 + if y % 4 == 0 then 1 else 0
  {
  }

  lemma CenturyStep(y: int)
    ensures (y - 1900) / 100 == (y - 1901) / 100 + if y % 100 == 0 then 1 else 0
  {
  }

  lemma CycleStep(y: int)
    ensures (y - 1600) / 400 == (y - 1601) / 400 + if y % 400 == 0 then 1 else 0
  {
  }

  lemma MultiplesNest(y: int)
    ensures y % 400 == 0 ==> y % 100 == 0
    ensures y % 100 == 0 ==> y % 4 == 0
  {
  }

  lemma YearStartStep(y: int)
    ensures YearStart(y + 1) == YearStart(y) + YearLength(y)
  {
    QuarterStep(y);
    CenturyStep(y);
    CycleStep(y);
    MultiplesNest(y);
  }

  lemma QuarterShift(a: int)
    ensures (a + 400) / 4 == a / 4 + 100
  {
  }

  lemma CenturyShift(a: int)
    ensures (a + 400) / 100 == a / 100 + 4
  {
  }

  lemma CycleShift(a: int)
    ensures (a + 400) / 400 == a / 400 + 1
  {
  }

  /** 97 leap years in 400. */
  lemma FourHundredYears(y: int)
    ensures YearStart(y + 400) == YearStart(y) + 146097
  {
    QuarterShift(y - 1969);
    CenturyShift(y - 1901);
    CycleShift(y - 1601);
  }

  lemma {:induction false} YearStartMonotone(y: int, z: int)
    requires y < z
    ensures YearStart(y) + YearLength(y) <= YearStart(z)
    decreases z - y
  {
    YearStartStep(z - 1);
    if y == z - 1 {
    } else {
      YearStartMonotone(y, z - 1);
    }
  }

  lemma DayOfYearBounds(d: Date)
    requires Valid(d)
    ensures 0 <= DayOfYear(d) < YearLength(d.year)
  {
  }

  ghost predicate Earlier(d: Date, e: Date) {
    d.year < e.year || (d.year == e.year && (d.mon < e.mon || (d.mon == e.mon && d.mday < e.mday)))
  }

  /** Day numbers order valid dates as the calendar does, hence are injective. */
  lemma DayNumberOrders(d: Date, e: Date)
    requires Valid(d) && Valid(e)
    ensures Earlier(d, e) <==> DayNumber(d) < DayNumber(e)
    ensures d == e <==> DayNumber(d) == DayNumber(e)
  {
    DayOfYearBounds(d);
    DayOfYearBounds(e);
    if d.year < e.year {
      YearStartMonotone(d.year, e.year);
    } else if e.year < d.year {
      YearStartMonotone(e.year, d.year);
    }
  }

  lemma NextDayNumber(d: Date)
    requires Valid(d)
    ensures Valid(NextDay(d)) && DayNumber(NextDay(d)) == DayNumber(d) + 1
  {
    YearStartStep(d.year);
  }

  lemma PreviousDayNumber(d: Date)
    requires Valid(d)
    ensures Valid(PreviousDay(d)) && DayNumber(PreviousDay(d)) == DayNumber(d) - 1
  {
    YearStartStep(d.year - 1);
  }

  /** The closed form counts the steps of the calendar. */
  lemma {:induction false} DateOfDayNumber(n: int)
    ensures Valid(DateOfDay(n)) && DayNumber(DateOfDay(n)) == n
    decreases if n < 0 then -n else n
  {
    if n > 0 {
      DateOfDayNumber(n - 1);
      NextDayNumber(DateOfDay(n - 1));
    } else if n < 0 {
      DateOfDayNumber(n + 1);
      PreviousDayNumber(DateOfDay(n + 1));
    }
  }

  lemma DateWithNumber(d: Date)
    requires Valid(d)
    ensures d == DateOfDay(DayNumber(d))
  {
    DateOfDayNumber(DayNumber(d));
    DayNumberOrders(d, DateOfDay(DayNumber(d)));
  }
}
