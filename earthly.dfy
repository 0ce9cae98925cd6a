/** The twelve Earthly Branches (地支) and the branch of a year, a lunar
    month, a solar day and a clock hour (Earthly.java). A lookup by ordinal
    that misses returns null, and every caller then throws. */
module Earthly {
  import JavaInt
  import opened Outcome
  import SolarCalendar
  import Bits

  datatype Branch = Zi | Chou | Yin | Mou | Chen | Si | Wu | Wei | Shen | You | Xu | Hai {

    /** Java's `ordinal()`: the 0-based position in declaration order. */
    function Ordinal(): (r: nat)
      ensures r < 12
    {
      match this
      case Zi => 0 case Chou => 1 case Yin => 2 case Mou => 3
      case Chen => 4 case Si => 5 case Wu => 6 case Wei => 7
      case Shen => 8 case You => 9 case Xu => 10 case Hai => 11
    }

    /** The `code` field: 1..12, starting at 4 for ZI and wrapping after SHEN. */
    function Code(): (c: nat)
      ensures c == (Ordinal() + 3) % 12 + 1
    {
      match this
      case Zi => 4 case Chou => 5 case Yin => 6 case Mou => 7
      case Chen => 8 case Si => 9 case Wu => 10 case Wei => 11
      case Shen => 12 case You => 1 case Xu => 2 case Hai => 3
    }

    /** The `name` field: one character. */
    function Name(): (s: string)
      ensures |s| == 1
    {
      match this
      case Zi => "子" case Chou => "丑" case Yin => "寅" case Mou => "卯"
      case Chen => "辰" case Si => "巳" case Wu => "午" case Wei => "未"
      case Shen => "申" case You => "酉" case Xu => "戌" case Hai => "亥"
    }
  }

  /** `Earthly.values()`. */
  const AllBranches: seq<Branch> := [Zi, Chou, Yin, Mou, Chen, Si, Wu, Wei, Shen, You, Xu, Hai]

  /** Codes use each of 1..12 exactly once; code c belongs to ordinal (c + 8) % 12. */
  lemma BranchCodesBijective()
    ensures forall a: Branch, b: Branch :: a.Code() == b.Code() ==> a == b
    ensures forall b: Branch :: AllBranches[(b.Code() + 8) % 12] == b
  {
    forall b: Branch ensures AllBranches[(b.Code() + 8) % 12] == b {
      match b
      case Zi => case Chou => case Yin => case Mou => case Chen => case Si =>
      case Wu => case Wei => case Shen => case You => case Xu => case Hai =>
    }
  }

  /** A branch is the one `values()` lists at its ordinal. */
  lemma ValueAtOrdinal(b: Branch)
    ensures AllBranches[b.Ordinal()] == b
  {
  }

  /** `getEarthlyByOrdinal`: the branch at 1-based position `ordinal`, or null. */
  function BranchByOrdinal(ordinal: int): (r: Option<Branch>)
    ensures r.Some? <==> 1 <= ordinal <= 12
    ensures r.Some? ==> r.value.Ordinal() == ordinal - 1
  {
    if 1 <= ordinal <= 12 then Some(AllBranches[ordinal - 1]) else None
  }

  /** `TIME_EARTHLY_MAPPING`: two clock hours per branch, ZI spanning midnight. */
  const TimeEarthlyMapping: map<int, Branch> := map[
    23 := Zi, 0 := Zi, 1 := Chou, 2 := Chou, 3 := Yin, 4 := Yin,
    5 := Mou, 6 := Mou, 7 := Chen, 8 := Chen, 9 := Si, 10 := Si,
    11 := Wu, 12 := Wu, 13 := Wei, 14 := Wei, 15 := Shen, 16 := Shen,
    17 := You, 18 := You, 19 := Xu, 20 := Xu, 21 := Hai, 22 := Hai]

  /** `getYearEarthly`: for a year y >= 0 the branch at position (y - 4) mod 12,
      so year 4 (mod 12) is ZI; a negative year may find no branch and throw. */
  function YearBranch(lunarYear: int): (r: Result<Branch>)
    ensures lunarYear >= 0 ==> r.Success? && r.value.Ordinal() == (lunarYear - 4) % 12
    ensures r.Failure? <==> lunarYear < 0 && JavaInt.Rem(lunarYear, 12) <= -9
    ensures r.Failure? ==> r.error == EarthlyIsNull(YearEarthly, lunarYear)
  {
    var yearRemainder := JavaInt.Rem(lunarYear, 12);
    var earthly := BranchByOrdinal(if yearRemainder > 3 then yearRemainder - 3 else yearRemainder + 9);
    if earthly.None? then Failure(EarthlyIsNull(YearEarthly, lunarYear)) else Success(earthly.value)
  }

  lemma YearBranchPeriod(lunarYear: nat)
    ensures YearBranch(lunarYear + 12) == YearBranch(lunarYear)
    ensures lunarYear % 12 == 4 ==> YearBranch(lunarYear) == Success(Zi)
  {
  }

  /** `getMonthEarthly`: ordinal (lunarMonth + 2) % 12, which depends on the
      month alone and finds no branch, so throws, exactly when the month is
      10 (mod 12) or below -1. */
  function MonthBranch(lunarMonth: int): (r: Result<Branch>)
    ensures r.Success? <==> lunarMonth >= -1 && lunarMonth % 12 != 10
    ensures r.Success? ==> r.value.Ordinal() == (lunarMonth + 2) % 12 - 1
    ensures r.Failure? ==> r.error == EarthlyIsNull(MonthEarthly, lunarMonth)
  {
    var earthly := BranchByOrdinal(JavaInt.Rem(lunarMonth + 2, 12));
    if earthly.None? then Failure(EarthlyIsNull(MonthEarthly, lunarMonth)) else Success(earthly.value)
  }

  lemma MonthBranchPeriod(lunarMonth: nat)
    ensures MonthBranch(lunarMonth + 12).Success? == MonthBranch(lunarMonth).Success?
    ensures MonthBranch(lunarMonth).Success? ==>
      MonthBranch(lunarMonth + 12).value == MonthBranch(lunarMonth).value
  {
    assert JavaInt.Rem(lunarMonth + 12 + 2, 12) == JavaInt.Rem(lunarMonth + 2, 12);
  }

  /** The century `getDayEarthly` uses: hard-coded to 20 after the year 2000
      and to 19 otherwise. Between 1900 and 2099 it rebuilds every year but
      2000 together with the year within the century. */
  function DayBranchCentury(shiftedYear: int): (c: int)
    ensures c == 19 || c == 20
    ensures c == 20 <==> shiftedYear > 2000
    ensures 1900 <= shiftedYear <= 2099 ==>
      (100 * c + JavaInt.Rem(shiftedYear, 100) == shiftedYear <==> shiftedYear != 2000)
  {
    if shiftedYear > 2000 then 20 else 19
  }

  /** The congruence `getDayEarthly` reduces mod 12, for century c, year y
      within it and month number m; an even month adds 6. */
  function DayBranchCongruence(c: int, y: int, m: int, day: int): int {
    DayBranchYearTerm(c, y) + DayBranchMonthTerm(m) + day + 7
  }

  /** The century's and the year's share of the day congruence. */
  function DayBranchYearTerm(c: int, y: int): int {
    8 * c + JavaInt.Div(c, 4) + 5 * y + JavaInt.Div(y, 4)
  }

  /** The month's share of the day congruence. */
  function DayBranchMonthTerm(m: int): int {
    JavaInt.Div(3 * (m + 1), 5) + (if JavaInt.Rem(m, 2) == 0 then 6 else 0)
  }

  /** The congruence as `getDayEarthly` computes it from its arguments: months
      below 3 go back one year and become months 12..14, and the century is
      hard-coded. */
  function DayBranchNumber(year: int, month: int, day: int): int {
    var shiftedYear := if month < 3 then year - 1 else year;
    var m := if month < 3 then month + 12 else month;
    DayBranchCongruence(DayBranchCentury(shiftedYear), JavaInt.Rem(shiftedYear, 100), m, day)
  }

  /** `getDayEarthly`: the branch at position n - 1 for n the congruence mod 12;
      a remainder of 0 finds no branch and throws, so HAI is never returned.
      The exception names the year after the shift for months below 3, since
      the method has overwritten its `year` parameter by then. */
  function DayBranch(year: int, month: int, day: int): (r: Result<Branch>)
    ensures var n := DayBranchNumber(year, month, day);
      && (n >= 0 ==> (r.Success? <==> n % 12 != 0))
      && (r.Success? ==> n % 12 != 0 && r.value.Ordinal() == n % 12 - 1)
    ensures r.Success? ==> r.value != Hai
    ensures r.Failure? ==> r.error == EarthlyIsNull(DayEarthly, if month < 3 then year - 1 else year)
  {
    var shiftedYear := if month < 3 then year - 1 else year;
    var earthly := BranchByOrdinal(JavaInt.Rem(DayBranchNumber(year, month, day), 12));
    if earthly.None? then Failure(EarthlyIsNull(DayEarthly, shiftedYear)) else Success(earthly.value)
  }

  /** `getTimeEarthly` (called as `getHourEarthly`): hours 0..23 only; hour h
      falls in the branch at position ((h + 1) / 2) mod 12, so 23 and 0 are ZI. */
  function TimeBranch(hour: int): (r: Result<Branch>)
    ensures r.Success? <==> 0 <= hour <= 23
    ensures r.Success? ==> r.value.Ordinal() == ((hour + 1) / 2) % 12
    ensures r.Failure? ==> r.error == EarthlyIsNull(TimeEarthly, hour)
  {
    if hour in TimeEarthlyMapping then Success(TimeEarthlyMapping[hour])
    else Failure(EarthlyIsNull(TimeEarthly, hour))
  }

  /** The hours of the day that fall in branch b: two consecutive clock hours,
      23 and 0 for ZI. */
  function HoursOf(b: Branch): (hs: set<int>)
    ensures |hs| == 2
  {
    {(2 * b.Ordinal() + 23) % 24, 2 * b.Ordinal()}
  }

  /** Every branch covers exactly two clock hours, and every hour of the day
      is covered by exactly one branch. */
  lemma TimeBranchPartition(hour: int, b: Branch)
    ensures TimeBranch(hour) == Success(b) <==> hour in HoursOf(b)
  {
    if 0 <= hour <= 23 {
      HourSlot(hour, b.Ordinal());
    }
  }

  /** Clock hour h is in slot o (counting ZI from 23:00) exactly when it is
      one of the slot's two hours. */
  lemma HourSlot(hour: int, o: int)
    requires 0 <= hour <= 23 && 0 <= o < 12
    ensures ((hour + 1) / 2) % 12 == o <==> hour == (2 * o + 23) % 24 || hour == 2 * o
  {
    var q := (hour + 1) / 2;
    assert 2 * q - 1 <= hour <= 2 * q && q <= 12;
    assert (2 * o + 23) % 24 == if o == 0 then 23 else 2 * o - 1;
  }

  // The finding on month indices: the month pillar reads the lunar MONTH field,
  // 0 for the first lunar month, whose branch is YIN.

  /** The branch of the lunar month with 0-based index `lunarMonth` (index 0 is the
      first month, YIN): corrected form of `getMonthEarthly` as it is called. */
  function CorrectedMonthBranch(lunarMonth: int): (b: Branch)
    ensures b.Ordinal() == (lunarMonth + 2) % 12
  {
    AllBranches[(lunarMonth + 2) % 12]
  }

  /** As called with the 0-based month, `getMonthEarthly` gives each month the
      branch of the month before it (the first month CHOU instead of YIN), and
      it fails on the eleventh month: index 10 gives position 0, which the
      1-based `getEarthlyByOrdinal` does not know. */
  lemma MonthBranchOffByOne(lunarMonth: int)
    requires 0 <= lunarMonth <= 11 && lunarMonth != 10
    ensures MonthBranch(0) == Success(Chou) && CorrectedMonthBranch(0) == Yin
    ensures MonthBranch(10).Failure? && CorrectedMonthBranch(10) == Zi
    ensures MonthBranch(lunarMonth).Success?
    ensures MonthBranch(lunarMonth).value.Ordinal() == (CorrectedMonthBranch(lunarMonth).Ordinal() + 11) % 12
  {
    CorrectedMonthBranchCycle(lunarMonth, 0);
  }

  /** Every lunar month has a branch; twelve consecutive months take all twelve. */
  lemma CorrectedMonthBranchCycle(lunarMonth: int, k: int)
    ensures CorrectedMonthBranch(0) == Yin && CorrectedMonthBranch(10) == Zi
    ensures CorrectedMonthBranch(lunarMonth + k) == CorrectedMonthBranch(lunarMonth) <==> k % 12 == 0
  {
    var a, b := (lunarMonth + 2) % 12, (lunarMonth + k + 2) % 12;
    assert b == (a + k) % 12;
  }

  /** The day congruence for the 0-based `Calendar.MONTH` the program holds:
      the formula's own 1-based month (January and February as months 13, 14
      of the year before) and the true century. */
  function CorrectedDayBranchNumber(year: int, calendarMonth: int, day: int): int {
    var month := calendarMonth + 1;
    var shiftedYear := if month < 3 then year - 1 else year;
    var m := if month < 3 then month + 12 else month;
    DayBranchCongruence(CorrectedDayBranchCentury(shiftedYear), JavaInt.Rem(shiftedYear, 100), m, day)
  }

  /** The day branch with the corrections above and with a remainder of 0 taken
      as the twelfth branch HAI: corrected form of `getDayEarthly` as called. */
  function CorrectedDayBranch(year: int, calendarMonth: int, day: int): (b: Branch)
    ensures b.Ordinal() == (CorrectedDayBranchNumber(year, calendarMonth, day) - 1) % 12
  {
    AllBranches[(CorrectedDayBranchNumber(year, calendarMonth, day) - 1) % 12]
  }

  /** The corrected day branch moves on by one branch from each day to the
      next, across month and year ends alike. */
  lemma CorrectedDayBranchAdvances(d: SolarCalendar.SolarDate, n: SolarCalendar.SolarDate)
    requires d.Valid() && d.year >= 1 && n == SolarCalendar.NextDay(d)
    ensures CorrectedDayBranch(n.year, n.CalendarMonth(), n.day).Ordinal()
      == (CorrectedDayBranch(d.year, d.CalendarMonth(), d.day).Ordinal() + 1) % 12
  {
    var a := CorrectedDayBranchNumber(d.year, d.CalendarMonth(), d.day);
    var b := CorrectedDayBranchNumber(n.year, n.CalendarMonth(), n.day);
    DayBranchNumberAdvances(d, n, a, b);
    CorrectedDayBranchOfNumber(d.year, d.CalendarMonth(), d.day, a);
    CorrectedDayBranchOfNumber(n.year, n.CalendarMonth(), n.day, b);
    NextBranch(a, b, CorrectedDayBranch(d.year, d.CalendarMonth(), d.day), CorrectedDayBranch(n.year, n.CalendarMonth(), n.day));
  }

  lemma CorrectedDayBranchOfNumber(year: int, calendarMonth: int, day: int, a: int)
    requires a == CorrectedDayBranchNumber(year, calendarMonth, day)
    ensures CorrectedDayBranch(year, calendarMonth, day).Ordinal() == (a - 1) % 12
  {
  }

  /** Branches at positions a - 1 and b - 1 (mod 12), for numbers one apart
      (mod 12), are one branch apart. */
  lemma NextBranch(a: int, b: int, x: Branch, y: Branch)
    requires (b - a) % 12 == 1 && x.Ordinal() == (a - 1) % 12 && y.Ordinal() == (b - 1) % 12
    ensures y.Ordinal() == (x.Ordinal() + 1) % 12
  {
    Bits.NextModulo(a, b, 12);
  }

  /** The congruence moves on by one (mod 12) from each day to the next. */
  lemma DayBranchNumberAdvances(d: SolarCalendar.SolarDate, n: SolarCalendar.SolarDate, a: int, b: int)
    requires d.Valid() && d.year >= 1 && n == SolarCalendar.NextDay(d)
    requires a == CorrectedDayBranchNumber(d.year, d.CalendarMonth(), d.day)
    requires b == CorrectedDayBranchNumber(n.year, n.CalendarMonth(), n.day)
    ensures (b - a) % 12 == 1
  {
    if d.day < SolarCalendar.DaysInMonth(d.year, d.month) {
      DayBranchWithinMonth(d, n, a, b);
    } else if d.month == 2 {
      DayBranchFebruaryEnd(d, n, a, b);
    } else if d.month == 12 {
      DayBranchDecemberEnd(d, n, a, b);
    } else {
      DayBranchMonthEnd(d, n, a, b);
    }
  }

  /** Inside a month the congruence goes up by one a day. */
  lemma DayBranchWithinMonth(d: SolarCalendar.SolarDate, n: SolarCalendar.SolarDate, a: int, b: int)
    requires n == SolarCalendar.SolarDate(d.year, d.month, d.day + 1, d.hour)
    requires a == CorrectedDayBranchNumber(d.year, d.CalendarMonth(), d.day)
    requires b == CorrectedDayBranchNumber(n.year, n.CalendarMonth(), n.day)
    ensures (b - a) % 12 == 1
  {
    assert b - a == 1;
    Bits.StepModulo(b - a, 12);
  }

  /** From 31 December to 1 January the congruence moves on by one (mod 12):
      both days count in the same shifted year. */
  lemma DayBranchDecemberEnd(d: SolarCalendar.SolarDate, n: SolarCalendar.SolarDate, a: int, b: int)
    requires d.year >= 1 && d.month == 12 && d.day == 31
    requires n == SolarCalendar.SolarDate(d.year + 1, 1, 1, d.hour)
    requires a == CorrectedDayBranchNumber(d.year, d.CalendarMonth(), d.day)
    requires b == CorrectedDayBranchNumber(n.year, n.CalendarMonth(), n.day)
    ensures (b - a) % 12 == 1
  {
    var c, y := CorrectedDayBranchCentury(d.year), JavaInt.Rem(d.year, 100);
    assert a == DayBranchCongruence(c, y, 12, 31);
    assert b == DayBranchCongruence(c, y, 13, 1);
    assert b - a == -35;
    Bits.StepModulo(b - a, 12);
  }

  /** From the last day of February to 1 March the congruence moves on by one
      (mod 12), in leap years and others, at century years too: 1 March
      counts in the year itself and the last day of February in the year
      before. */
  lemma DayBranchFebruaryEnd(d: SolarCalendar.SolarDate, n: SolarCalendar.SolarDate, a: int, b: int)
    requires d.year >= 1 && d.month == 2 && d.day == SolarCalendar.DaysInMonth(d.year, 2)
    requires n == SolarCalendar.SolarDate(d.year, 3, 1, d.hour)
    requires a == CorrectedDayBranchNumber(d.year, d.CalendarMonth(), d.day)
    requires b == CorrectedDayBranchNumber(n.year, n.CalendarMonth(), n.day)
    ensures (b - a) % 12 == 1
  {
    var c0, y0 := CorrectedDayBranchCentury(d.year - 1), JavaInt.Rem(d.year - 1, 100);
    var c1, y1 := CorrectedDayBranchCentury(d.year), JavaInt.Rem(d.year, 100);
    assert a == DayBranchCongruence(c0, y0, 14, d.day);
    assert b == DayBranchCongruence(c1, y1, 3, 1);
    DayBranchYearStep(d.year, c0, y0, c1, y1);
    assert b - a == if d.year % 100 != 0 then -35 else -551;
    Bits.StepModulo(b - a, 12);
  }

  /** The year's share of the congruence from one year to the next: five more
      inside a century, 511 less into a century year, and one more again
      into a leap year. */
  lemma DayBranchYearStep(year: int, c0: int, y0: int, c1: int, y1: int)
    requires year >= 1
    requires c0 == CorrectedDayBranchCentury(year - 1) && y0 == JavaInt.Rem(year - 1, 100)
    requires c1 == CorrectedDayBranchCentury(year) && y1 == JavaInt.Rem(year, 100)
    ensures DayBranchYearTerm(c1, y1) - DayBranchYearTerm(c0, y0)
      == (if year % 100 != 0 then 5 else -511) + (if SolarCalendar.IsLeapYear(year) then 1 else 0)
  {
    if year % 100 != 0 {
      SolarCalendar.WithinCenturyStep(year);
      SolarCalendar.FloorStep(y1, 4);
    } else {
      SolarCalendar.AtCenturyStep(year);
      SolarCalendar.FloorStep(c1, 4);
    }
  }

  /** 1 January 2000 is a WU (午) day, which with the lemma above fixes the
      branch of every day from then on. */
  lemma CorrectedDayBranchOf2000()
    ensures CorrectedDayBranch(2000, 0, 1) == Wu
  {
    assert CorrectedDayBranchNumber(2000, 0, 1) == 691;
  }

  /** At the end of a month other than February and December, the congruence
      moves on by one (mod 12) into the next month: the century and the year
      stay, and only the month's share changes. */
  lemma DayBranchMonthEnd(d: SolarCalendar.SolarDate, n: SolarCalendar.SolarDate, a: int, b: int)
    requires d.year >= 1 && 1 <= d.month <= 11 && d.month != 2
    requires d.day == SolarCalendar.DaysInMonth(d.year, d.month)
    requires n == SolarCalendar.SolarDate(d.year, d.month + 1, 1, d.hour)
    requires a == CorrectedDayBranchNumber(d.year, d.CalendarMonth(), d.day)
    requires b == CorrectedDayBranchNumber(n.year, n.CalendarMonth(), n.day)
    ensures (b - a) % 12 == 1
  {
    var m := if d.month == 1 then 13 else d.month;
    var s := if d.month == 1 then d.year - 1 else d.year;
    var c, y := CorrectedDayBranchCentury(s), JavaInt.Rem(s, 100);
    assert a == DayBranchCongruence(c, y, m, d.day);
    assert b == DayBranchCongruence(c, y, m + 1, 1);
    DayBranchMonthTermStep(d.year, d.month, m);
    assert b - a in {-23, -35};
    Bits.StepModulo(b - a, 12);
  }

  /** From the last day of a month to the first of the next the month's share
      of the congruence and the day together move by -23 or -35. */
  lemma DayBranchMonthTermStep(year: int, month: int, m: int)
    requires 1 <= month <= 11 && month != 2 && m == if month == 1 then 13 else month
    ensures DayBranchMonthTerm(m + 1) - DayBranchMonthTerm(m) + 1 - SolarCalendar.DaysInMonth(year, month) in {-23, -35}
  {
    MonthTermValues();
    if month == 1 {} else if month == 3 {} else if month == 4 {} else if month == 5 {}
    else if month == 6 {} else if month == 7 {} else if month == 8 {} else if month == 9 {}
    else if month == 10 {} else {}
  }

  /** The month's share of the congruence for months 3 to 14. */
  lemma MonthTermValues()
    ensures DayBranchMonthTerm(3) == 2 && DayBranchMonthTerm(4) == 9 && DayBranchMonthTerm(5) == 3
    ensures DayBranchMonthTerm(6) == 10 && DayBranchMonthTerm(7) == 4 && DayBranchMonthTerm(8) == 11
    ensures DayBranchMonthTerm(9) == 6 && DayBranchMonthTerm(10) == 12 && DayBranchMonthTerm(11) == 7
    ensures DayBranchMonthTerm(12) == 13 && DayBranchMonthTerm(13) == 8 && DayBranchMonthTerm(14) == 15
  {
  }

  /** As written, the branch is read with the 0-based `Calendar.MONTH` where the
      formula expects a 1-based month: 31 May and 1 June 2001 get the same
      branch ZI. */
  lemma DayBranchOfCalendarMonth()
    ensures DayBranch(2001, 4, 31) == Success(Zi) && DayBranch(2001, 5, 1) == Success(Zi)
    ensures CorrectedDayBranch(2001, 4, 31) != CorrectedDayBranch(2001, 5, 1)
  {
    assert DayBranchNumber(2001, 4, 31) == 217 && DayBranchNumber(2001, 5, 1) == 181;
    assert CorrectedDayBranchNumber(2001, 4, 31) == 211 && CorrectedDayBranchNumber(2001, 5, 1) == 188;
  }

  /** As written, a congruence of 0 (mod 12) throws instead of giving HAI:
      with the 1-based month, 5 and 6 April 2001 give XU and then fail. */
  lemma DayBranchFailsOnHai()
    ensures DayBranch(2001, 4, 5) == Success(Xu)
    ensures DayBranch(2001, 4, 6).Failure?
    ensures CorrectedDayBranch(2001, 3, 5) == Xu && CorrectedDayBranch(2001, 3, 6) == Hai
  {
    assert DayBranchNumber(2001, 4, 5) == 191 && DayBranchNumber(2001, 4, 6) == 192;
    assert CorrectedDayBranchNumber(2001, 3, 5) == 191 && CorrectedDayBranchNumber(2001, 3, 6) == 192;
  }

  /** The century and year-of-century `getDayEarthly` should split the shifted
      year into: corrected form of the hard-coded century. */
  function CorrectedDayBranchCentury(shiftedYear: int): (c: int)
    ensures shiftedYear >= 0 ==> 100 * c + JavaInt.Rem(shiftedYear, 100) == shiftedYear
  {
    JavaInt.Div(shiftedYear, 100)
  }

  /** As written, the year 2000 is split into century 19 and year 0, which
      stand for 1900; the corrected split gives 20 and 0. */
  lemma DayBranchCenturyOf2000()
    ensures 100 * DayBranchCentury(2000) + JavaInt.Rem(2000, 100) == 1900
    ensures 100 * CorrectedDayBranchCentury(2000) + JavaInt.Rem(2000, 100) == 2000
  {
  }
}
