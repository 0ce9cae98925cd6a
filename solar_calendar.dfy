/** The proleptic Gregorian calendar that `java.util.GregorianCalendar`
    supplies to the calculator: a solar date with its hour, the length of each
    month, and the day that follows a date. The day pillar formulas are
    judged against it. */
module SolarCalendar {
  import Bits

  /** A solar date and hour; `month` runs 1..12, one more than `Calendar.MONTH`. */
  datatype SolarDate = SolarDate(year: int, month: int, day: int, hour: int) {

    predicate Valid() {
      1 <= month <= 12 && 1 <= day <= DaysInMonth(year, month) && 0 <= hour <= 23
    }

    /** `Calendar.MONTH`: January is 0, so the twelve months are 0..11. */
    function CalendarMonth(): (m: int)
      ensures 1 <= month <= 12 <==> 0 <= m <= 11
    {
      month - 1
    }
  }

  predicate IsLeapYear(year: int) {
    year % 4 == 0 && (year % 100 != 0 || year % 400 == 0)
  }

  function DaysInMonth(year: int, month: int): (n: int)
    requires 1 <= month <= 12
    ensures 28 <= n <= 31
    ensures month == 2 ==> (n == 29 <==> IsLeapYear(year)) && n <= 29
    ensures month != 2 ==> (n == 30 <==> month in {4, 6, 9, 11}) && n >= 30
  {
    if month == 2 then (if IsLeapYear(year) then 29 else 28)
    else if month in {4, 6, 9, 11} then 30
    else 31
  }

  /** The date of the following day, at the same hour. */
  function NextDay(d: SolarDate): (n: SolarDate)
    requires d.Valid()
    ensures n.Valid() && n.hour == d.hour
  {
    if d.day < DaysInMonth(d.year, d.month) then SolarDate(d.year, d.month, d.day + 1, d.hour)
    else if d.month < 12 then SolarDate(d.year, d.month + 1, 1, d.hour)
    else SolarDate(d.year + 1, 1, 1, d.hour)
  }

  /** The days in the years before `year`, counted from 1 January of year 1. */
  function DaysBeforeYear(year: int): int {
    var y := year - 1;
    365 * y + y / 4 - y / 100 + y / 400
  }

  /** The days in the months of `year` before `month`. */
  function DaysBeforeMonth(year: int, month: int): (n: int)
    requires 1 <= month <= 12
    ensures month == 1 ==> n == 0
    ensures month > 1 ==> n == DaysBeforeMonth(year, month - 1) + DaysInMonth(year, month - 1)
  {
    [0, 31, 59, 90, 120, 151, 181, 212, 243, 273, 304, 334][month - 1]
      + (if month > 2 && IsLeapYear(year) then 1 else 0)
  }

  /** The number of the day: 0 for 1 January of year 1. */
  function DayNumber(d: SolarDate): int
    requires d.Valid()
  {
    DaysBeforeYear(d.year) + DaysBeforeMonth(d.year, d.month) + d.day - 1
  }

  /** The first day of a month, at the given hour. */
  function FirstOfMonth(year: int, month: int, hour: int): (d: SolarDate)
    requires 1 <= month <= 12 && 0 <= hour <= 23
    ensures d.Valid()
  {
    SolarDate(year, month, 1, hour)
  }

  /** The date a lenient `GregorianCalendar` reads back after its year,
      `Calendar.MONTH` and day of the month were set to values outside their
      ranges: the month carries into the year (floor division by 12), and the
      day then counts from the first of that month, forward past its end or
      back before its start (`LenientDayNumber`). */
  function Lenient(year: int, calendarMonth: int, day: int, hour: int): (d: SolarDate)
    requires 0 <= hour <= 23
    ensures d.Valid() && d.hour == hour
  {
    CarryDays(year + calendarMonth / 12, calendarMonth % 12 + 1, day, hour)
  }

  /** Day `day` of a month counted from its first day, carried into the
      months after or before until it lies inside one. */
  function CarryDays(year: int, month: int, day: int, hour: int): (d: SolarDate)
    requires 1 <= month <= 12 && 0 <= hour <= 23
    ensures d.Valid() && d.hour == hour
    decreases if day < 1 then 1 else 0, if day < 1 then -day else day
  {
    if day < 1 then
      var py, pm := if month == 1 then year - 1 else year, if month == 1 then 12 else month - 1;
      CarryDays(py, pm, day + DaysInMonth(py, pm), hour)
    else if day > DaysInMonth(year, month) then
      var ny, nm := if month == 12 then year + 1 else year, if month == 12 then 1 else month + 1;
      CarryDays(ny, nm, day - DaysInMonth(year, month), hour)
    else SolarDate(year, month, day, hour)
  }

  /** The date read back is the day `day - 1` days after the first of
      month m of year y, the month and year the fields name once the month
      has carried into the year. */
  lemma LenientDayNumber(year: int, calendarMonth: int, day: int, hour: int, y: int, m: int)
    requires 0 <= hour <= 23 && y == year + calendarMonth / 12 && m == calendarMonth % 12 + 1
    ensures 1 <= m <= 12
    ensures DayNumber(Lenient(year, calendarMonth, day, hour)) == DayNumber(FirstOfMonth(y, m, hour)) + day - 1
  {
    assert Lenient(year, calendarMonth, day, hour) == CarryDays(y, m, day, hour);
    CarryDaysNumber(y, m, day, hour);
  }

  lemma {:induction false} CarryDaysNumber(year: int, month: int, day: int, hour: int)
    requires 1 <= month <= 12 && 0 <= hour <= 23
    ensures DayNumber(CarryDays(year, month, day, hour)) == DayNumber(FirstOfMonth(year, month, hour)) + day - 1
    decreases if day < 1 then 1 else 0, if day < 1 then -day else day
  {
    if day < 1 {
      var py, pm := if month == 1 then year - 1 else year, if month == 1 then 12 else month - 1;
      var back := DaysInMonth(py, pm);
      assert CarryDays(year, month, day, hour) == CarryDays(py, pm, day + back, hour);
      MonthBefore(year, month, py, pm, hour);
      CarryDaysNumber(py, pm, day + back, hour);
    } else if day > DaysInMonth(year, month) {
      var ny, nm := if month == 12 then year + 1 else year, if month == 12 then 1 else month + 1;
      var here := DaysInMonth(year, month);
      assert CarryDays(year, month, day, hour) == CarryDays(ny, nm, day - here, hour);
      MonthBefore(ny, nm, year, month, hour);
      CarryDaysNumber(ny, nm, day - here, hour);
    }
  }

  /** A month begins where the month before it ends, December of the year
      before for January. */
  lemma MonthBefore(year: int, month: int, py: int, pm: int, hour: int)
    requires 1 <= month <= 12 && 0 <= hour <= 23
    requires py == (if month == 1 then year - 1 else year) && pm == (if month == 1 then 12 else month - 1)
    ensures DayNumber(FirstOfMonth(year, month, hour)) == DayNumber(FirstOfMonth(py, pm, hour)) + DaysInMonth(py, pm)
  {
    if month == 1 {
      DaysBeforeNextYear(year - 1);
    }
  }

  /** A date already inside its month reads back as itself. */
  lemma LenientInRange(d: SolarDate)
    requires d.Valid()
    ensures Lenient(d.year, d.CalendarMonth(), d.day, d.hour) == d
  {
    assert d.CalendarMonth() / 12 == 0 && d.CalendarMonth() % 12 + 1 == d.month;
  }

  /** One more multiple of k is reached at n exactly when k divides n. */
  lemma FloorStep(n: int, k: int)
    requires k > 0
    ensures n / k - (n - 1) / k == if n % k == 0 then 1 else 0
  {
    var q, r := (n - 1) / k, (n - 1) % k;
    assert n == k * q + (r + 1);
    if r + 1 == k {
      assert n == k * (q + 1) + 0;
      Bits.DivModUnique(n, k, q + 1, 0);
    } else {
      Bits.DivModUnique(n, k, q, r + 1);
    }
  }

  /** A year has 366 days when it is a leap year and 365 otherwise. */
  lemma DaysBeforeNextYear(year: int)
    ensures DaysBeforeYear(year + 1) == DaysBeforeYear(year) + (if IsLeapYear(year) then 366 else 365)
  {
    FloorStep(year, 4);
    FloorStep(year, 100);
    FloorStep(year, 400);
    DivisorsOfCenturies(year);
  }

  lemma DivisorsOfCenturies(year: int)
    ensures year % 400 == 0 ==> year % 100 == 0
    ensures year % 100 == 0 ==> year % 4 == 0
  {
    if year % 400 == 0 {
      Bits.DivModUnique(year, 100, 4 * (year / 400), 0);
    }
    if year % 100 == 0 {
      Bits.DivModUnique(year, 4, 25 * (year / 100), 0);
    }
  }

  /** `NextDay` is the day numbered one higher. */
  lemma DayNumberOfNextDay(d: SolarDate)
    requires d.Valid()
    ensures DayNumber(NextDay(d)) == DayNumber(d) + 1
  {
    if d.day < DaysInMonth(d.year, d.month) {
      assert NextDay(d) == SolarDate(d.year, d.month, d.day + 1, d.hour);
    } else if d.month < 12 {
      assert NextDay(d) == FirstOfMonth(d.year, d.month + 1, d.hour);
      MonthBefore(d.year, d.month + 1, d.year, d.month, d.hour);
    } else {
      assert NextDay(d) == FirstOfMonth(d.year + 1, 1, d.hour);
      MonthBefore(d.year + 1, 1, d.year, 12, d.hour);
    }
  }

  /** Going back from a year that is not a century year to the one before:
      the century stays and the year within it drops by one. The leap rule
      then reads the year within the century. */
  lemma WithinCenturyStep(year: int)
    requires year >= 1 && year % 100 != 0
    ensures (year - 1) / 100 == year / 100 && (year - 1) % 100 == year % 100 - 1
    ensures IsLeapYear(year) <==> (year % 100) % 4 == 0
  {
    var c, y := year / 100, year % 100;
    assert year == 100 * c + y;
    Bits.DivModUnique(year - 1, 100, c, y - 1);
    Bits.DivModUnique(year, 4, 25 * c + y / 4, y % 4);
  }

  /** Going back from a century year to the one before: the century drops by
      one and the year within it goes from 0 to 99. The leap rule then reads
      the century. */
  lemma AtCenturyStep(year: int)
    requires year >= 1 && year % 100 == 0
    ensures (year - 1) / 100 == year / 100 - 1 && (year - 1) % 100 == 99
    ensures IsLeapYear(year) <==> (year / 100) % 4 == 0
  {
    var c := year / 100;
    assert year == 100 * c;
    Bits.DivModUnique(year - 1, 100, c - 1, 99);
    Bits.DivModUnique(year, 400, c / 4, 100 * (c % 4));
    Bits.DivModUnique(year, 4, 25 * c, 0);
  }
}
