/** __secs_to_tm and gmtime_r of common_time.c. */
module CivilTime {
  import opened Calendar
  import opened Limits

  const LEAPOCH: int := 946684800 + 86400 * (31 + 29)  // 2000-03-01
  const DAYS_PER_400Y: int := 365 * 400 + 97
  const DAYS_PER_100Y: int := 365 * 100 + 24
  const DAYS_PER_4Y: int := 365 * 4 + 1

  // C division and remainder truncate toward zero; on operands that are not
  // negative they are Dafny's own.
  function Quotient(a: int, b: int): int
    requires b > 0
  {
    if a >= 0 then a / b else -(-a / b)
  }

  function Remainder(a: int, b: int): int
    requires b > 0
  {
    if a >= 0 then a % b else -(-a % b)
  }

  class Tm {
    var tm_year: int
    var tm_mon: int
    var tm_mday: int
    var tm_wday: int
    var tm_yday: int
    var tm_hour: int
    var tm_min: int
    var tm_sec: int
    var tm_isdst: int

    constructor () {
      tm_year, tm_mon, tm_mday, tm_wday, tm_yday := 0, 0, 0, 0, 0;
      tm_hour, tm_min, tm_sec, tm_isdst := 0, 0, 0, 0;
    }

    ghost function Value(): Fields
      reads this
    {
      Fields(tm_year, tm_mon, tm_mday, tm_wday, tm_yday, tm_hour, tm_min, tm_sec)
    }
  }

  // ----- What the fields should be -----

  datatype Fields = Fields(year: int, mon: int, mday: int, wday: int, yday: int, hour: int, min: int, sec: int)

  /** Broken-down time by the stepping calendar: the date is t / 86400 single
      steps from the epoch, a Thursday. */
  ghost function BrokenDown(t: int): Fields {
    At(t / 86400, t % 86400)
  }

  ghost function At(day: int, rest: int): Fields {
    var date := DateOfDay(day);
    Fields(date.year - 1900, date.mon, date.mday, (4 + day) % 7, DayOfYear(date), rest / 3600, rest / 60 % 60, rest % 60)
  }

  /** Seconds Since the Epoch, section 4.16 of POSIX.1-2017 Base Definitions, division rounding down. */
  function SecondsSinceEpoch(f: Fields): int {
    f.sec + f.min * 60 + f.hour * 3600 + f.yday * 86400
    + (f.year - 70) * 31536000 + ((f.year - 69) / 4) * 86400
    - ((f.year - 1) / 100) * 86400 + ((f.year + 299) / 400) * 86400
  }

  predicate InRange(f: Fields) {
    && Valid(Date(f.year + 1900, f.mon, f.mday))
    && f.yday == DayOfYear(Date(f.year + 1900, f.mon, f.mday))
    && 0 <= f.yday < YearLength(f.year + 1900)
    && 0 <= f.wday <= 6 && 0 <= f.hour <= 23 && 0 <= f.min <= 59 && 0 <= f.sec <= 59
  }

  lemma TimeOfDay(rest: int)
    requires 0 <= rest < 86400
    ensures rest / 3600 * 3600 + rest / 60 % 60 * 60 + rest % 60 == rest && 0 <= rest / 3600 <= 23
  {
  }

  lemma EvaluateAt(day: int, rest: int)
    requires 0 <= rest < 86400
    ensures InRange(At(day, rest)) && SecondsSinceEpoch(At(day, rest)) == day * 86400 + rest
  {
    var date := DateOfDay(day);
    DateOfDayNumber(day);
    DayOfYearBounds(date);
    TimeOfDay(rest);
    assert date.year - 1900 - 69 == date.year - 1969;
    assert date.year - 1900 - 1 == date.year - 1901;
    assert date.year - 1900 + 299 == date.year - 1601;
  }

  /** The fields are in range, consistent, and evaluate back to t. */
  lemma BrokenDownEvaluates(t: int)
    ensures InRange(BrokenDown(t)) && SecondsSinceEpoch(BrokenDown(t)) == t
  {
    EvaluateAt(t / 86400, t % 86400);
  }

  ghost predicate Before(f: Fields, g: Fields) {
    var d, e := Date(f.year + 1900, f.mon, f.mday), Date(g.year + 1900, g.mon, g.mday);
    || Earlier(d, e)
    || (d == e && (f.hour < g.hour || (f.hour == g.hour && (f.min < g.min || (f.min == g.min && f.sec < g.sec)))))
  }

  /** The conversion is strictly monotone in lexicographic order, hence injective. */
  lemma BrokenDownMonotone(t: int, u: int)
    requires t < u
    ensures Before(BrokenDown(t), BrokenDown(u)) && BrokenDown(t) != BrokenDown(u)
  {
    DateOfDayNumber(t / 86400);
    DateOfDayNumber(u / 86400);
    DayNumberOrders(DateOfDay(t / 86400), DateOfDay(u / 86400));
    if t / 86400 == u / 86400 {
      TimeOfDay(t % 86400);
      TimeOfDay(u % 86400);
    }
  }

  lemma DayShift(t: int)
    ensures (t + 86400) / 86400 == t / 86400 + 1 && (t + 86400) % 86400 == t % 86400
  {
  }

  lemma WeekdayShift(n: int)
    ensures (n + 1) % 7 == if n % 7 == 6 then 0 else n % 7 + 1
  {
  }

  /** A day later is the next calendar day and the next weekday at the same time. */
  lemma OneDayLater(t: int)
    ensures var f, g := BrokenDown(t), BrokenDown(t + 86400);
            && Date(g.year + 1900, g.mon, g.mday) == NextDay(Date(f.year + 1900, f.mon, f.mday))
            && (g.hour, g.min, g.sec) == (f.hour, f.min, f.sec)
            && g.wday == (if f.wday == 6 then 0 else f.wday + 1)
  {
    var day, rest := t / 86400, t % 86400;
    DayShift(t);
    assert BrokenDown(t + 86400) == At(day + 1, rest);
    WeekdayShift(4 + day);
    assert DateOfDay(day + 1) == NextDay(DateOfDay(day)) by {
      DateOfDayNumber(day);
      NextDayNumber(DateOfDay(day));
      DateWithNumber(NextDay(DateOfDay(day)));
    }
  }

  /** The epoch was a Thursday, at midnight. */
  lemma EpochFields()
    ensures BrokenDown(0) == Fields(70, 0, 1, 4, 0, 0, 0, 0)
  {
  }

  lemma CurrentDay()
    ensures DateOfDay(16971) == Date(2016, 5, 19)
  {
    var d := Date(2016, 5, 19);
    assert Valid(d) && DayNumber(d) == 16971;
    hide DateOfDay, DayNumber;
    DateWithNumber(d);
  }

  lemma CurrentDayOfYear()
    ensures DayOfYear(Date(2016, 5, 19)) == 170 && 1466335969 / 86400 == 16971 && 1466335969 % 86400 == 41569
  {
  }

  /** The time that the program always gives as the current one: Sunday 2016-06-19, 11:32:49. */
  lemma CurrentTimeFields()
    ensures BrokenDown(1466335969) == Fields(116, 5, 19, 0, 170, 11, 32, 49)
  {
    hide DateOfDay, DayOfYear;
    CurrentDay();
    CurrentDayOfYear();
  }

  // ----- The cycles of __secs_to_tm -----

  /** The March-based year that starts qc, c, q and y cycles after 2000-03-01. */
  function MarchYear(qc: int, c: int, q: int, y: int): int {
    2000 + y + 4 * q + 100 * c + 400 * qc
  }

  lemma Divide4(a: int, k: int, r: int)
    requires a == 4 * k + r && 0 <= r < 4
    ensures a / 4 == k && a % 4 == r
  {
  }

  lemma Divide100(a: int, k: int, r: int)
    requires a == 100 * k + r && 0 <= r < 100
    ensures a / 100 == k && a % 100 == r
  {
  }

  lemma Divide400(a: int, k: int, r: int)
    requires a == 400 * k + r && 0 <= r < 400
    ensures a / 400 == k && a % 400 == r
  {
  }

  lemma LeapByRemainders(m: int, k: int, r: int)
    requires m == 400 * k + r && 0 <= r < 400
    ensures IsLeap(m) == IsLeap(r)
  {
    Divide400(m, k, r);
    Divide100(m, 4 * k + r / 100, r % 100);
    Divide4(m, 100 * k + r / 4, r % 4);
  }

  lemma MarchYearLeap(qc: int, c: int, q: int, y: int)
    requires 0 <= c <= 3 && 0 <= q <= 24 && 0 <= y <= 3
    ensures IsLeap(MarchYear(qc, c, q, y)) == (y == 0 && (q != 0 || c == 0))
    ensures IsLeap(MarchYear(qc, c, q, y) + 1) == (y == 3 && (q != 24 || c == 3))
  {
    var r := y + 4 * q + 100 * c;
    LeapByRemainders(MarchYear(qc, c, q, y), qc + 5, r);
    Divide100(r, c, y + 4 * q);
    Divide4(r, q + 25 * c, y);
    if r == 399 {
      LeapByRemainders(MarchYear(qc, c, q, y) + 1, qc + 6, 0);
    } else {
      LeapByRemainders(MarchYear(qc, c, q, y) + 1, qc + 5, r + 1);
      if y < 3 {
        Divide4(r + 1, q + 25 * c, y + 1);
      } else if q < 24 {
        Divide100(r + 1, c, 4 * q + 4);
      } else {
        Divide100(r + 1, c + 1, 0);
      }
    }
  }

  /** The three leap-day quotients of YearStart, each in a lemma of its own. */
  lemma MarchQuarter(qc: int, c: int, q: int, y: int)
    requires 0 <= c <= 3 && 0 <= q <= 24 && 0 <= y <= 3
    ensures (MarchYear(qc, c, q, y) - 1969) / 4 == q + 25 * c + 100 * qc + if y == 0 then 7 else 8
  {
    var k := q + 25 * c + 100 * qc;
    Divide4(MarchYear(qc, c, q, y) - 1969, if y == 0 then k + 7 else k + 8, if y == 0 then 3 else y - 1);
  }

  lemma MarchCentury(qc: int, c: int, q: int, y: int)
    requires 0 <= c <= 3 && 0 <= q <= 24 && 0 <= y <= 3
    ensures (MarchYear(qc, c, q, y) - 1901) / 100 == c + 4 * qc + if y == 0 && q == 0 then 0 else 1
  {
    var k := c + 4 * qc;
    if y == 0 && q == 0 {
      Divide100(MarchYear(qc, c, q, y) - 1901, k, 99);
    } else {
      Divide100(MarchYear(qc, c, q, y) - 1901, k + 1, y + 4 * q - 1);
    }
  }

  lemma MarchCycle(qc: int, c: int, q: int, y: int)
    requires 0 <= c <= 3 && 0 <= q <= 24 && 0 <= y <= 3
    ensures (MarchYear(qc, c, q, y) - 1601) / 400 == qc + if y == 0 && q == 0 && c == 0 then 0 else 1
  {
    if y == 0 && q == 0 && c == 0 {
      Divide400(MarchYear(qc, c, q, y) - 1601, qc, 399);
    } else {
      Divide400(MarchYear(qc, c, q, y) - 1601, qc + 1, y + 4 * q + 100 * c - 1);
    }
  }

  /** The leap days of YearStart, by cycles. */
  function LeapDays(qc: int, c: int, q: int, y: int): int {
    (q + 25 * c + 100 * qc + if y == 0 then 7 else 8)
    - (c + 4 * qc + if y == 0 && q == 0 then 0 else 1)
    + (qc + if y == 0 && q == 0 && c == 0 then 0 else 1)
  }

  lemma YearStartByCycles(qc: int, c: int, q: int, y: int)
    requires 0 <= c <= 3 && 0 <= q <= 24 && 0 <= y <= 3
    ensures YearStart(MarchYear(qc, c, q, y)) == 365 * (MarchYear(qc, c, q, y) - 1970) + LeapDays(qc, c, q, y)
  {
    MarchQuarter(qc, c, q, y);
    MarchCentury(qc, c, q, y);
    MarchCycle(qc, c, q, y);
    hide MarchYear;
  }

  lemma CyclesInDays(qc: int, c: int, q: int, y: int)
    requires 0 <= c <= 3 && 0 <= q <= 24 && 0 <= y <= 3
    ensures 365 * (MarchYear(qc, c, q, y) - 1970) + LeapDays(qc, c, q, y)
            + (if y == 0 && (q != 0 || c == 0) then 60 else 59)
            == 11017 + DAYS_PER_400Y * qc + DAYS_PER_100Y * c + DAYS_PER_4Y * q + 365 * y
  {
  }

  lemma DaysBeforeMarch(leap: bool)
    ensures DaysBefore(2, leap) == (if leap then 60 else 59) && LEAPOCH / 86400 == 11017
  {
  }

  lemma MarchYearStart(qc: int, c: int, q: int, y: int)
    requires 0 <= c <= 3 && 0 <= q <= 24 && 0 <= y <= 3
    ensures var m := MarchYear(qc, c, q, y);
            YearStart(m) + DaysBefore(2, IsLeap(m))
            == LEAPOCH / 86400 + DAYS_PER_400Y * qc + DAYS_PER_100Y * c + DAYS_PER_4Y * q + 365 * y
  {
    hide IsLeap, YearStart, DaysBefore, MarchYear, LeapDays;
    MarchYearLeap(qc, c, q, y);
    YearStartByCycles(qc, c, q, y);
    CyclesInDays(qc, c, q, y);
    DaysBeforeMarch(IsLeap(MarchYear(qc, c, q, y)));
  }

  const DAYS_IN_MONTH: seq<int> := [31, 30, 31, 30, 31, 31, 30, 31, 30, 31, 31, 29]

  /** Days of the March-based year before its k-th month. */
  function MarchDays(k: int): int {
    if k <= 9 then DaysBefore(k + 2, false) - 59 else if k == 10 then 306 else if k == 11 then 337 else 366
  }

  lemma MarchDaysStep(k: int)
    requires 0 <= k <= 11
    ensures MarchDays(k + 1) == MarchDays(k) + DAYS_IN_MONTH[k]
  {
  }

  /** Months of the March-based year start where the classical formula has them. */
  lemma MarchDaysFormula(k: int)
    requires 0 <= k <= 11
    ensures MarchDays(k) == (153 * k + 2) / 5
  {
  }

  /** The date that the month loop finds, r0 days into March year m. */
  function WalkedDate(m: int, months: int, remdays: int): Date {
    if months + 2 >= 12 then Date(m + 1, months - 10, remdays + 1) else Date(m, months + 2, remdays + 1)
  }

  lemma WalkFindsDate(m: int, r0: int, months: int, remdays: int)
    requires 0 <= months <= 11 && remdays == r0 - MarchDays(months) && 0 <= remdays < DAYS_IN_MONTH[months]
    requires r0 < YearLength(m + 1)
    ensures var d := WalkedDate(m, months, remdays);
            var yday := r0 + DaysBefore(2, IsLeap(m));
            && Valid(d) && DayNumber(d) == YearStart(m) + yday
            && DayOfYear(d) == if yday >= YearLength(m) then yday - YearLength(m) else yday
  {
    YearStartStep(m);
  }

  // ----- The domain of __secs_to_tm -----

  /** The first day whose 400-year cycle count times 400 fits int. */
  const FIRST_DAY: int := LEAPOCH / 86400 - 5368709 * DAYS_PER_400Y

  /** t lies between the first day above and the end of the last year that tm_year can hold. */
  predicate Representable(t: int) {
    RepresentableDay(t / 86400)
  }

  predicate RepresentableDay(day: int) {
    FIRST_DAY <= day < YearStart(1900 + INT_MAX + 1)
  }

  predicate Guarded(t: int) {
    INT_MIN * 31622400 <= t <= INT_MAX * 31622400
  }

  lemma RepresentableIsGuarded(t: int)
    ensures Representable(t) ==> Guarded(t)
  {
  }

  /** Behind the guard, neither the subtraction of the epoch nor the narrowing of
      the cycle count to int loses anything. */
  lemma GuardKeepsNarrowingExact(t: int)
    requires Guarded(t)
    ensures IsLongLong(t - LEAPOCH) && IsInt((t - LEAPOCH) / 86400 / DAYS_PER_400Y)
  {
  }

  /** Filled: 0 was returned; Rejected: -1 was returned; Overflow: a signed
      computation in type int left its range, which is undefined in C. */
  datatype Outcome = Filled | Rejected | Overflow

  // ----- __secs_to_tm -----

  /** Truncation followed by the fix-up for negative remainders is floor division. */
  lemma FixUpDay(a: int)
    ensures Remainder(a, 86400) < 0 ==> a / 86400 == Quotient(a, 86400) - 1 && a % 86400 == Remainder(a, 86400) + 86400
    ensures Remainder(a, 86400) >= 0 ==> a / 86400 == Quotient(a, 86400) && a % 86400 == Remainder(a, 86400)
  {
  }

  lemma FixUpCycle(a: int)
    ensures Remainder(a, DAYS_PER_400Y) < 0 ==>
              a / DAYS_PER_400Y == Quotient(a, DAYS_PER_400Y) - 1 && a % DAYS_PER_400Y == Remainder(a, DAYS_PER_400Y) + DAYS_PER_400Y
    ensures Remainder(a, DAYS_PER_400Y) >= 0 ==>
              a / DAYS_PER_400Y == Quotient(a, DAYS_PER_400Y) && a % DAYS_PER_400Y == Remainder(a, DAYS_PER_400Y)
  {
  }

  lemma FixUpWeek(a: int)
    ensures a % 7 == if Remainder(a, 7) < 0 then Remainder(a, 7) + 7 else Remainder(a, 7)
  {
  }

  lemma EpochShift(t: int)
    ensures (t - LEAPOCH) / 86400 == t / 86400 - 11017 && (t - LEAPOCH) % 86400 == t % 86400
    ensures (3 + (t / 86400 - 11017)) % 7 == (4 + t / 86400) % 7
  {
    assert LEAPOCH == 86400 * 11017;
  }

  /** Lines 71-76. */
  method DaysAndSeconds(secs: int) returns (days: int, remsecs: int)
    ensures days == secs / 86400 && remsecs == secs % 86400
  {
    days, remsecs := Quotient(secs, 86400), Remainder(secs, 86400);
    FixUpDay(secs);
    if remsecs < 0 {
      remsecs := remsecs + 86400;
      days := days - 1;
    }
  }

  /** Lines 78-79. */
  method Weekday(days: int) returns (wday: int)
    ensures wday == (3 + days) % 7
  {
    wday := Remainder(3 + days, 7);
    FixUpWeek(3 + days);
    if wday < 0 {
      wday := wday + 7;
    }
  }

  /** Lines 81-86. */
  method FourCenturies(days: int) returns (qc_cycles: int, remdays: int)
    ensures qc_cycles == days / DAYS_PER_400Y && remdays == days % DAYS_PER_400Y
  {
    qc_cycles, remdays := Quotient(days, DAYS_PER_400Y), Remainder(days, DAYS_PER_400Y);
    FixUpCycle(days);
    if remdays < 0 {
      remdays := remdays + DAYS_PER_400Y;
      qc_cycles := qc_cycles - 1;
    }
  }

  /** Lines 88-90: only the last century of a cycle has its extra day. */
  method Centuries(days: int) returns (c_cycles: int, remdays: int)
    requires 0 <= days < DAYS_PER_400Y
    ensures 0 <= c_cycles <= 3 && days == DAYS_PER_100Y * c_cycles + remdays
    ensures 0 <= remdays < DAYS_PER_100Y + if c_cycles == 3 then 1 else 0
  {
    c_cycles := days / DAYS_PER_100Y;
    if c_cycles == 4 {
      c_cycles := c_cycles - 1;
    }
    remdays := days - c_cycles * DAYS_PER_100Y;
  }

  /** Lines 92-94: the last four years of a century lack a day, unless the century has its extra day. */
  method FourYears(days: int, ghost extra: bool) returns (q_cycles: int, remdays: int)
    requires 0 <= days < DAYS_PER_100Y + if extra then 1 else 0
    ensures 0 <= q_cycles <= 24 && days == DAYS_PER_4Y * q_cycles + remdays
    ensures 0 <= remdays < DAYS_PER_4Y - if q_cycles == 24 && !extra then 1 else 0
  {
    q_cycles := days / DAYS_PER_4Y;
    if q_cycles == 25 {
      q_cycles := q_cycles - 1;
    }
    remdays := days - q_cycles * DAYS_PER_4Y;
  }

  /** Lines 96-98: the last of four years has the leap day, if there is one. */
  method Years(days: int, ghost leap: bool) returns (remyears: int, remdays: int)
    requires 0 <= days < DAYS_PER_4Y - if leap then 0 else 1
    ensures 0 <= remyears <= 3 && days == 365 * remyears + remdays
    ensures 0 <= remdays < 365 + if remyears == 3 && leap then 1 else 0
  {
    remyears := days / 365;
    if remyears == 4 {
      remyears := remyears - 1;
    }
    remdays := days - remyears * 365;
  }

  /** Lines 81-98: the cycles that days is made of, and the day in the March year. */
  method SplitCycles(days: int) returns (qc_cycles: int, c_cycles: int, q_cycles: int, remyears: int, remdays: int)
    ensures qc_cycles == days / DAYS_PER_400Y
    ensures 0 <= c_cycles <= 3 && 0 <= q_cycles <= 24 && 0 <= remyears <= 3
    ensures days == DAYS_PER_400Y * qc_cycles + DAYS_PER_100Y * c_cycles + DAYS_PER_4Y * q_cycles + 365 * remyears + remdays
    ensures 0 <= remdays < YearLength(MarchYear(qc_cycles, c_cycles, q_cycles, remyears) + 1)
  {
    qc_cycles, remdays := FourCenturies(days);
    c_cycles, remdays := Centuries(remdays);
    q_cycles, remdays := FourYears(remdays, c_cycles == 3);
    remyears, remdays := Years(remdays, q_cycles != 24 || c_cycles == 3);
    MarchYearLeap(qc_cycles, c_cycles, q_cycles, remyears);
  }

  /** Lines 106-107: the month loop never indexes past entry 11. */
  method WalkMonths(r0: int) returns (months: int, remdays: int)
    requires 0 <= r0 < 366
    ensures 0 <= months <= 11 && remdays == r0 - MarchDays(months) && 0 <= remdays < DAYS_IN_MONTH[months]
  {
    months, remdays := 0, r0;
    while DAYS_IN_MONTH[months] <= remdays
      invariant 0 <= months <= 11 && remdays == r0 - MarchDays(months) && 0 <= remdays
      decreases 11 - months
    {
      MarchDaysStep(months);
      remdays := remdays - DAYS_IN_MONTH[months];
      months := months + 1;
    }
  }

  /** The day of the year after the wrap of lines 100-102. */
  function WrappedDay(m: int, r0: int): int {
    var yday := r0 + DaysBefore(2, IsLeap(m));
    if yday >= YearLength(m) then yday - YearLength(m) else yday
  }

  /** Cycles and months put together are the calendar date of the day. */
  lemma CyclesFindDate(day: int, qc: int, c: int, q: int, y: int, r0: int, months: int, remdays: int)
    requires 0 <= c <= 3 && 0 <= q <= 24 && 0 <= y <= 3
    requires day - 11017 == DAYS_PER_400Y * qc + DAYS_PER_100Y * c + DAYS_PER_4Y * q + 365 * y + r0
    requires 0 <= r0 < YearLength(MarchYear(qc, c, q, y) + 1)
    requires 0 <= months <= 11 && remdays == r0 - MarchDays(months) && 0 <= remdays < DAYS_IN_MONTH[months]
    ensures var d := WalkedDate(MarchYear(qc, c, q, y), months, remdays);
            d == DateOfDay(day) && DayOfYear(d) == WrappedDay(MarchYear(qc, c, q, y), r0)
  {
    MarchYearStart(qc, c, q, y);
    WalkFindsDate(MarchYear(qc, c, q, y), r0, months, remdays);
    DateWithNumber(WalkedDate(MarchYear(qc, c, q, y), months, remdays));
  }

  lemma YearBefore(day: int, z: int)
    ensures DateOfDay(day).year < z <==> day < YearStart(z)
  {
    var d := DateOfDay(day);
    DateOfDayNumber(day);
    DayOfYearBounds(d);
    if d.year < z {
      YearStartMonotone(d.year, z);
    } else if z < d.year {
      YearStartMonotone(z, d.year);
    }
  }

  /** What the checks on 400 * qc_cycles and on tm_year amount to, in terms of the day. */
  lemma OverflowCondition(day: int, qc: int)
    requires qc == (day - 11017) / DAYS_PER_400Y
    ensures RepresentableDay(day) <==> 400 * qc >= INT_MIN && DateOfDay(day).year <= 1900 + INT_MAX
  {
    YearBefore(day, 1900 + INT_MAX + 1);
  }

  /** Lines 100-102. */
  method DayInYear(ghost qc: int, c_cycles: int, q_cycles: int, remyears: int, remdays: int) returns (yday: int)
    requires 0 <= c_cycles <= 3 && 0 <= q_cycles <= 24 && 0 <= remyears <= 3
    ensures yday == WrappedDay(MarchYear(qc, c_cycles, q_cycles, remyears), remdays)
  {
    MarchYearLeap(qc, c_cycles, q_cycles, remyears);
    var leap := if remyears == 0 && (q_cycles != 0 || c_cycles == 0) then 1 else 0;
    yday := remdays + 31 + 28 + leap;
    if yday >= 365 + leap {
      yday := yday - (365 + leap);
    }
  }

  /** Lines 104-117, with the checks that tell when int overflows. */
  method StoreDate(c_cycles: int, q_cycles: int, remyears: int, qc_cycles: int, months: int, remdays: int, tm: Tm) returns (ok: bool)
    requires 0 <= c_cycles <= 3 && 0 <= q_cycles <= 24 && 0 <= remyears <= 3 && 0 <= months <= 11
    modifies tm`tm_year, tm`tm_mon, tm`tm_mday
    ensures var d := WalkedDate(MarchYear(qc_cycles, c_cycles, q_cycles, remyears), months, remdays);
            && (ok <==> 400 * qc_cycles >= INT_MIN && d.year <= 1900 + INT_MAX)
            && (ok ==> Date(tm.tm_year + 1900, tm.tm_mon, tm.tm_mday) == d)
  {
    if !IsInt(400 * qc_cycles) {
      return false;  // line 104
    }
    var years := remyears + 4 * q_cycles + 100 * c_cycles + 400 * qc_cycles;
    if !IsInt(years) || !IsInt(years + 100) {
      return false;  // lines 104 and 109
    }
    tm.tm_year := years + 100;
    tm.tm_mon := months + 2;
    if tm.tm_mon >= 12 {
      tm.tm_mon := tm.tm_mon - 12;
      if !IsInt(tm.tm_year + 1) {
        return false;  // line 116
      }
      tm.tm_year := tm.tm_year + 1;
    }
    tm.tm_mday := remdays + 1;
    return true;
  }

  /** Lines 81-118: the date of a day counted from 2000-03-01. */
  method DateFields(days: int, tm: Tm) returns (ok: bool)
    modifies tm`tm_year, tm`tm_mon, tm`tm_mday, tm`tm_yday
    ensures ok <==> RepresentableDay(days + 11017)
    ensures ok ==> Date(tm.tm_year + 1900, tm.tm_mon, tm.tm_mday) == DateOfDay(days + 11017)
    ensures ok ==> tm.tm_yday == DayOfYear(DateOfDay(days + 11017))
  {
    var qc_cycles, c_cycles, q_cycles, remyears, r0 := SplitCycles(days);
    var yday := DayInYear(qc_cycles, c_cycles, q_cycles, remyears, r0);
    var months, remdays := WalkMonths(r0);
    CyclesFindDate(days + 11017, qc_cycles, c_cycles, q_cycles, remyears, r0, months, remdays);
    OverflowCondition(days + 11017, qc_cycles);
    ok := StoreDate(c_cycles, q_cycles, remyears, qc_cycles, months, remdays, tm);
    tm.tm_yday := yday;
  }

  lemma SecondOfDay(t: int)
    ensures t % 86400 % 60 == t % 60
  {
  }

  method SecsToTm(t: int, tm: Tm) returns (r: Outcome)
    requires IsLongLong(t)
    modifies tm
    ensures r == Rejected <==> t < -0x8000_0000 * (366 * 86400) || t > 0x7fff_ffff * (366 * 86400)
    ensures r == Filled <==> Representable(t)
    ensures r == Filled ==> tm.Value() == BrokenDown(t)
    ensures r == Filled ==>
              && Date(tm.tm_year + 1900, tm.tm_mon, tm.tm_mday) == DateOfDay(t / 86400)
              && tm.tm_wday == (4 + t / 86400) % 7 && tm.tm_yday == DayOfYear(DateOfDay(t / 86400))
              && tm.tm_hour == t % 86400 / 3600 && tm.tm_min == t % 86400 / 60 % 60 && tm.tm_sec == t % 60
    ensures r == Rejected ==> tm.Value() == old(tm.Value())
    ensures tm.tm_isdst == old(tm.tm_isdst)
  {
    RepresentableIsGuarded(t);
    if t < INT_MIN * 31622400 || t > INT_MAX * 31622400 {
      return Rejected;
    }
    var days, remsecs := DaysAndSeconds(t - LEAPOCH);
    EpochShift(t);
    var wday := Weekday(days);
    var ok := DateFields(days, tm);
    if !ok {
      return Overflow;
    }
    SecondOfDay(t);
    tm.tm_wday := wday;
    tm.tm_hour := remsecs / 3600;
    tm.tm_min := remsecs / 60 % 60;
    tm.tm_sec := remsecs % 60;
    return Filled;
  }

  method GmtimeR(timer: int, result: Tm) returns (r: Outcome)
    requires IsLongLong(timer)
    modifies result
    ensures r == Filled <==> Representable(timer)
    ensures r == Filled ==> result.Value() == BrokenDown(timer) && result.tm_isdst == 0
    ensures r == Rejected ==> result.Value() == old(result.Value()) && result.tm_isdst == 0
  {
    r := SecsToTm(timer, result);
    if r != Overflow {
      result.tm_isdst := 0;
    }
  }

  /** The guard of lines 66-68 lets through times at which int arithmetic overflows. */
  lemma GuardIsTooWide()
    ensures Guarded(67768036191676800) && !Representable(67768036191676800)
    ensures Representable(67768036191676799)
    ensures Guarded(FIRST_DAY * 86400 - 1) && !Representable(FIRST_DAY * 86400 - 1)
    ensures Representable(FIRST_DAY * 86400)
  {
  }
}
