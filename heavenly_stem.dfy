/** The ten Heavenly Stems (天干) and the stem of a year, a lunar month, a
    solar day and an hour (HeavenlyStem.java). A lookup by ordinal that
    misses falls back to JIA, so no stem lookup ever fails; the only
    failure here is the month table's array index. */
module HeavenlyStem {
  import JavaInt
  import opened Outcome
  import Earthly
  import SolarCalendar
  import Bits

  datatype Stem = Jia | Yi | Bing | Ding | Wu | Ji | Geng | Xin | Ren | Gui {

    /** Java's `ordinal()`: the 0-based position in declaration order. */
    function Ordinal(): (r: nat)
      ensures r < 10 && AllStems[r] == this
    {
      match this
      case Jia => 0 case Yi => 1 case Bing => 2 case Ding => 3 case Wu => 4
      case Ji => 5 case Geng => 6 case Xin => 7 case Ren => 8 case Gui => 9
    }

    /** The `code` field: 0..9, starting at 4 for JIA. */
    function Code(): (c: nat)
      ensures c == (Ordinal() + 4) % 10
    {
      match this
      case Jia => 4 case Yi => 5 case Bing => 6 case Ding => 7 case Wu => 8
      case Ji => 9 case Geng => 0 case Xin => 1 case Ren => 2 case Gui => 3
    }

    /** The `name` field: one character. */
    function Name(): (s: string)
      ensures |s| == 1
    {
      match this
      case Jia => "甲" case Yi => "乙" case Bing => "丙" case Ding => "丁" case Wu => "戊"
      case Ji => "己" case Geng => "庚" case Xin => "辛" case Ren => "壬" case Gui => "癸"
    }
  }

  /** `HeavenlyStem.values()`. */
  const AllStems: seq<Stem> := [Jia, Yi, Bing, Ding, Wu, Ji, Geng, Xin, Ren, Gui]

  /** Codes use each of 0..9 exactly once; code c belongs to ordinal (c + 6) % 10. */
  lemma StemCodesBijective()
    ensures forall s: Stem, t: Stem :: s.Code() == t.Code() ==> s == t
    ensures forall s: Stem :: AllStems[(s.Code() + 6) % 10] == s
  {
  }

  /** `getHeavenlyStemByOrdinal`: the stem at 1-based position `ordinal`, and
      JIA for every other argument, so it never returns null. */
  function StemByOrdinal(ordinal: int): (r: Stem)
    ensures 1 <= ordinal <= 10 ==> r.Ordinal() == ordinal - 1
    ensures !(1 <= ordinal <= 10) ==> r == Jia
  {
    if 1 <= ordinal <= 10 then AllStems[ordinal - 1] else Jia
  }

  /** `getYearHeavenlyStem`: for a year y >= 0 the stem at position (y - 4) mod 10. */
  function YearStem(lunarYear: int): (r: Stem)
    ensures lunarYear >= 0 ==> r.Ordinal() == (lunarYear - 4) % 10
  {
    var yearRemainder := JavaInt.Rem(lunarYear, 10);
    StemByOrdinal(if yearRemainder > 3 then yearRemainder - 3 else yearRemainder + 7)
  }

  /** The year stem repeats every ten years, and year 4 (mod 10) is JIA. */
  lemma YearStemPeriod(lunarYear: nat)
    ensures YearStem(lunarYear + 10) == YearStem(lunarYear)
    ensures lunarYear % 10 == 4 ==> YearStem(lunarYear) == Jia
  {
  }

  /** `YEAR_MONTH_HEAVENLY_STEM_MAPPING`: year-stem code to the 1-based stem
      ordinals of the twelve lunar months (index 0 is the first month). */
  const YearMonthStemMapping: map<int, seq<int>> := map[
    1 := [7, 8, 9, 10, 1, 2, 3, 4, 5, 6, 7, 8],
    6 := [7, 8, 9, 10, 1, 2, 3, 4, 5, 6, 7, 8],
    2 := [9, 10, 1, 2, 3, 4, 5, 6, 7, 8, 9, 10],
    7 := [9, 10, 1, 2, 3, 4, 5, 6, 7, 8, 9, 10],
    3 := [1, 2, 3, 4, 5, 6, 7, 8, 9, 10, 1, 2],
    8 := [1, 2, 3, 4, 5, 6, 7, 8, 9, 10, 1, 2],
    4 := [3, 4, 5, 6, 7, 8, 9, 10, 1, 2, 3, 4],
    9 := [3, 4, 5, 6, 7, 8, 9, 10, 1, 2, 3, 4],
    0 := [5, 6, 7, 8, 9, 10, 1, 2, 3, 4, 5, 6],
    5 := [5, 6, 7, 8, 9, 10, 1, 2, 3, 4, 5, 6]]

  /** A row of the month table read as the stems of a year: twelve stem
      ordinals that start at `start % 10 + 1` and count up by one a month,
      wrapping from 10 to 1. */
  predicate CountsUp(row: seq<int>, start: int) {
    |row| == 12 && forall i :: 0 <= i < 12 ==> row[i] == (start + i) % 10 + 1
  }

  /** The rows of the table, one for each pair of year stems five apart: a
      JIA or JI year starts at BING, YI or GENG at WU, BING or XIN at GENG,
      DING or REN at REN, and WU or GUI at JIA. For a year stem of ordinal o
      the row counts up from 2o + 2. */
  lemma MonthStemRowsJiaJi()
    ensures 4 in YearMonthStemMapping && 9 in YearMonthStemMapping
    ensures YearMonthStemMapping[4] == YearMonthStemMapping[9]
    ensures CountsUp(YearMonthStemMapping[4], 2) && CountsUp(YearMonthStemMapping[9], 12)
  {
  }

  lemma MonthStemRowsYiGeng()
    ensures 5 in YearMonthStemMapping && 0 in YearMonthStemMapping
    ensures YearMonthStemMapping[5] == YearMonthStemMapping[0]
    ensures CountsUp(YearMonthStemMapping[5], 4) && CountsUp(YearMonthStemMapping[0], 14)
  {
  }

  lemma MonthStemRowsBingXin()
    ensures 6 in YearMonthStemMapping && 1 in YearMonthStemMapping
    ensures YearMonthStemMapping[6] == YearMonthStemMapping[1]
    ensures CountsUp(YearMonthStemMapping[6], 6) && CountsUp(YearMonthStemMapping[1], 16)
  {
  }

  lemma MonthStemRowsDingRen()
    ensures 7 in YearMonthStemMapping && 2 in YearMonthStemMapping
    ensures YearMonthStemMapping[7] == YearMonthStemMapping[2]
    ensures CountsUp(YearMonthStemMapping[7], 8) && CountsUp(YearMonthStemMapping[2], 18)
  {
  }

  lemma MonthStemRowsWuGui()
    ensures 8 in YearMonthStemMapping && 3 in YearMonthStemMapping
    ensures YearMonthStemMapping[8] == YearMonthStemMapping[3]
    ensures CountsUp(YearMonthStemMapping[8], 10) && CountsUp(YearMonthStemMapping[3], 20)
  {
  }

  /** The row of a year stem's code counts up from twice its ordinal plus 2. */
  lemma MonthStemRow(yearStem: Stem)
    ensures yearStem.Code() in YearMonthStemMapping
    ensures CountsUp(YearMonthStemMapping[yearStem.Code()], 2 * yearStem.Ordinal() + 2)
  {
    match yearStem
    case Jia | Ji => MonthStemRowsJiaJi();
    case Yi | Geng => MonthStemRowsYiGeng();
    case Bing | Xin => MonthStemRowsBingXin();
    case Ding | Ren => MonthStemRowsDingRen();
    case Wu | Gui => MonthStemRowsWuGui();
  }

  /** `getMonthHeavenlyStem`: the stem of lunar month index `lunarMonth` (0 for
      the first month) in a year with stem `yearStem`; the first month of a JIA
      or JI year is BING, and an index outside 0..11 overruns the table row. */
  function MonthStem(lunarMonth: int, yearStem: Stem): (r: Result<Stem>)
    ensures r.Success? <==> 0 <= lunarMonth < 12
    ensures r.Success? ==> r.value.Ordinal() == (2 * yearStem.Ordinal() + 2 + lunarMonth) % 10
    ensures r.Failure? ==> r.error == ArrayIndexOutOfBounds(lunarMonth, 12)
  {
    MonthStemRow(yearStem);
    var row := YearMonthStemMapping[yearStem.Code()];
    if 0 <= lunarMonth < |row| then
      Success(StemByOrdinal(row[lunarMonth]))
    else Failure(ArrayIndexOutOfBounds(lunarMonth, |row|))
  }

  /** The congruence `getDayHeavenlyStem` reduces mod 10, on the month as the
      program passes it (the 0-based `Calendar.MONTH`): January and February
      become months 13 and 14, and the year is taken back by one when the
      month index is below 3. */
  function DayStemNumber(year: int, month: int, day: int): int {
    var shiftedYear := if month < 3 then year - 1 else year;
    DayStemCongruence(shiftedYear, month, day)
  }

  /** The congruence for an already shifted year: c and y are the century and
      the year within it, and m the month with January and February as 13, 14. */
  function DayStemCongruence(shiftedYear: int, month: int, day: int): int {
    DayStemYearTerm(shiftedYear) + DayStemMonthTerm(month) + day - 3
  }

  /** The century's and the year's share of the day congruence. */
  function DayStemYearTerm(shiftedYear: int): int {
    var c := JavaInt.Div(shiftedYear, 100);
    var y := JavaInt.Rem(shiftedYear, 100);
    4 * c + JavaInt.Div(c, 4) + 5 * y + JavaInt.Div(y, 4)
  }

  /** The month's share of the day congruence. */
  function DayStemMonthTerm(month: int): int {
    var m := if month < 2 then month + 13 else month + 1;
    JavaInt.Div(3 * (m + 1), 5)
  }

  /** `getDayHeavenlyStem`: the stem at position n - 1 for n the congruence mod
      10; a remainder of 0 (or a negative one) falls back to JIA, so GUI is
      never returned. */
  function DayStem(year: int, month: int, day: int): (r: Stem)
    ensures r != Gui
    ensures var n := DayStemNumber(year, month, day);
      n >= 0 && n % 10 != 0 ==> r.Ordinal() == n % 10 - 1
    ensures var n := DayStemNumber(year, month, day);
      n >= 0 && n % 10 == 0 ==> r == Jia
  {
    StemByOrdinal(JavaInt.Rem(DayStemNumber(year, month, day), 10))
  }

  /** `getHourHeavenlyStem`: ordinal 2 * code - 1 of the day stem; codes 1..5
      give JIA, BING, WU, GENG, REN and every other code falls back to JIA, so
      the result never depends on the hour and is always one of those five. */
  function HourStem(dayStem: Stem): (r: Stem)
    ensures r in {Jia, Bing, Wu, Geng, Ren}
    ensures 1 <= dayStem.Code() <= 5 ==> r.Ordinal() == 2 * dayStem.Code() - 2
    ensures !(1 <= dayStem.Code() <= 5) ==> r == Jia
  {
    StemByOrdinal(dayStem.Code() * 2 - 1)
  }

  // Corrected forms of the day and hour stems (see the findings in README.md).

  /** The day congruence with the year taken back only for January and
      February (`Calendar.MONTH` 0 and 1), the two months counted as 13 and 14. */
  function CorrectedDayStemNumber(year: int, month: int, day: int): int {
    var shiftedYear := if month < 2 then year - 1 else year;
    DayStemCongruence(shiftedYear, month, day)
  }

  /** The day stem with the corrected year shift and with a remainder of 0 taken
      as the tenth stem GUI. */
  function CorrectedDayStem(year: int, month: int, day: int): (r: Stem)
    ensures r.Ordinal() == (CorrectedDayStemNumber(year, month, day) - 1) % 10
  {
    AllStems[(CorrectedDayStemNumber(year, month, day) - 1) % 10]
  }

  /** The corrected day stem moves on by one stem from each day to the next,
      across month and year ends alike. */
  lemma CorrectedDayStemAdvances(d: SolarCalendar.SolarDate, n: SolarCalendar.SolarDate)
    requires d.Valid() && d.year >= 1 && n == SolarCalendar.NextDay(d)
    ensures CorrectedDayStem(n.year, n.CalendarMonth(), n.day).Ordinal()
      == (CorrectedDayStem(d.year, d.CalendarMonth(), d.day).Ordinal() + 1) % 10
  {
    var a := CorrectedDayStemNumber(d.year, d.CalendarMonth(), d.day);
    var b := CorrectedDayStemNumber(n.year, n.CalendarMonth(), n.day);
    DayStemNumberAdvances(d, n, a, b);
    CorrectedDayStemOfNumber(d.year, d.CalendarMonth(), d.day, a);
    CorrectedDayStemOfNumber(n.year, n.CalendarMonth(), n.day, b);
    NextStem(a, b, CorrectedDayStem(d.year, d.CalendarMonth(), d.day), CorrectedDayStem(n.year, n.CalendarMonth(), n.day));
  }

  lemma CorrectedDayStemOfNumber(year: int, month: int, day: int, a: int)
    requires a == CorrectedDayStemNumber(year, month, day)
    ensures CorrectedDayStem(year, month, day).Ordinal() == (a - 1) % 10
  {
  }

  /** Stems at positions a - 1 and b - 1 (mod 10), for numbers one apart
      (mod 10), are one stem apart. */
  lemma NextStem(a: int, b: int, x: Stem, y: Stem)
    requires (b - a) % 10 == 1 && x.Ordinal() == (a - 1) % 10 && y.Ordinal() == (b - 1) % 10
    ensures y.Ordinal() == (x.Ordinal() + 1) % 10
  {
    Bits.NextModulo(a, b, 10);
  }

  /** The corrected congruence moves on by one (mod 10) from each day to the next. */
  lemma DayStemNumberAdvances(d: SolarCalendar.SolarDate, n: SolarCalendar.SolarDate, a: int, b: int)
    requires d.Valid() && d.year >= 1 && n == SolarCalendar.NextDay(d)
    requires a == CorrectedDayStemNumber(d.year, d.CalendarMonth(), d.day)
    requires b == CorrectedDayStemNumber(n.year, n.CalendarMonth(), n.day)
    ensures (b - a) % 10 == 1
  {
    if d.day < SolarCalendar.DaysInMonth(d.year, d.month) {
      DayStemWithinMonth(d, n, a, b);
    } else if d.month == 2 {
      DayStemFebruaryEnd(d, n, a, b);
    } else if d.month == 12 {
      DayStemDecemberEnd(d, n, a, b);
    } else {
      DayStemMonthEnd(d, n, a, b);
    }
  }

  /** Inside a month the congruence goes up by one a day. */
  lemma DayStemWithinMonth(d: SolarCalendar.SolarDate, n: SolarCalendar.SolarDate, a: int, b: int)
    requires n == SolarCalendar.SolarDate(d.year, d.month, d.day + 1, d.hour)
    requires a == CorrectedDayStemNumber(d.year, d.CalendarMonth(), d.day)
    requires b == CorrectedDayStemNumber(n.year, n.CalendarMonth(), n.day)
    ensures (b - a) % 10 == 1
  {
    assert b - a == 1;
    Bits.StepModulo(b - a, 10);
  }

  /** From 31 December to 1 January the congruence moves on by one (mod 10):
      both days count in the same shifted year. */
  lemma DayStemDecemberEnd(d: SolarCalendar.SolarDate, n: SolarCalendar.SolarDate, a: int, b: int)
    requires d.year >= 1 && d.month == 12 && d.day == 31
    requires n == SolarCalendar.SolarDate(d.year + 1, 1, 1, d.hour)
    requires a == CorrectedDayStemNumber(d.year, d.CalendarMonth(), d.day)
    requires b == CorrectedDayStemNumber(n.year, n.CalendarMonth(), n.day)
    ensures (b - a) % 10 == 1
  {
    assert a == DayStemCongruence(d.year, 11, 31);
    assert b == DayStemCongruence(d.year, 0, 1);
    assert b - a == -29;
    Bits.StepModulo(b - a, 10);
  }

  /** From the last day of February to 1 March the congruence moves on by one
      (mod 10), in leap years and others, at century years too: 1 March
      counts in the year itself and the last day of February in the year
      before. */
  lemma DayStemFebruaryEnd(d: SolarCalendar.SolarDate, n: SolarCalendar.SolarDate, a: int, b: int)
    requires d.year >= 1 && d.month == 2 && d.day == SolarCalendar.DaysInMonth(d.year, 2)
    requires n == SolarCalendar.SolarDate(d.year, 3, 1, d.hour)
    requires a == CorrectedDayStemNumber(d.year, d.CalendarMonth(), d.day)
    requires b == CorrectedDayStemNumber(n.year, n.CalendarMonth(), n.day)
    ensures (b - a) % 10 == 1
  {
    DayStemYearStep(d.year, DayStemYearTerm(d.year - 1), DayStemYearTerm(d.year));
    assert a == DayStemYearTerm(d.year - 1) + 6 + d.day;
    assert b == DayStemYearTerm(d.year);
    assert b - a == if d.year % 100 != 0 then -29 else -549;
    Bits.StepModulo(b - a, 10);
  }

  /** The year's share of the congruence from one year to the next: five more
      inside a century, 515 less into a century year, and one more again
      into a leap year. */
  lemma DayStemYearStep(year: int, before: int, after: int)
    requires year >= 1 && before == DayStemYearTerm(year - 1) && after == DayStemYearTerm(year)
    ensures after - before == (if year % 100 != 0 then 5 else -515) + (if SolarCalendar.IsLeapYear(year) then 1 else 0)
  {
    if year % 100 != 0 {
      SolarCalendar.WithinCenturyStep(year);
      SolarCalendar.FloorStep(year % 100, 4);
    } else {
      SolarCalendar.AtCenturyStep(year);
      SolarCalendar.FloorStep(year / 100, 4);
    }
  }

  /** At the end of a month other than February and December, the congruence
      moves on by one (mod 10) into the next month: the century and the year
      stay, and only the month's share changes. */
  lemma DayStemMonthEnd(d: SolarCalendar.SolarDate, n: SolarCalendar.SolarDate, a: int, b: int)
    requires d.year >= 1 && 1 <= d.month <= 11 && d.month != 2
    requires d.day == SolarCalendar.DaysInMonth(d.year, d.month)
    requires n == SolarCalendar.SolarDate(d.year, d.month + 1, 1, d.hour)
    requires a == CorrectedDayStemNumber(d.year, d.CalendarMonth(), d.day)
    requires b == CorrectedDayStemNumber(n.year, n.CalendarMonth(), n.day)
    ensures (b - a) % 10 == 1
  {
    var s := if d.month == 1 then d.year - 1 else d.year;
    assert a == DayStemCongruence(s, d.month - 1, d.day);
    assert b == DayStemCongruence(s, d.month, 1);
    DayStemMonthTermStep(d.year, d.month);
    assert b - a == -29;
    Bits.StepModulo(b - a, 10);
  }

  /** From the end of a month to the next the month's share of the
      congruence grows by the length of the month, less 30. */
  lemma DayStemMonthTermStep(year: int, month: int)
    requires 1 <= month <= 11 && month != 2
    ensures DayStemMonthTerm(month) - DayStemMonthTerm(month - 1) == SolarCalendar.DaysInMonth(year, month) - 30
  {
    if month == 1 {} else if month == 3 {} else if month == 4 {} else if month == 5 {}
    else if month == 6 {} else if month == 7 {} else if month == 8 {} else if month == 9 {}
    else if month == 10 {} else {}
  }

  /** 1 January 2000 is a WU (戊) day, which with the lemma above fixes the
      stem of every day from then on. */
  lemma CorrectedDayStemOf2000()
    ensures CorrectedDayStem(2000, 0, 1) == Wu
  {
    assert CorrectedDayStemNumber(2000, 0, 1) == 605;
  }

  /** As written, March is taken back a year although it keeps its own month
      number, so the congruence of 1 March differs from the corrected one. */
  lemma DayStemMarchShift()
    ensures DayStemNumber(2001, 2, 1) != CorrectedDayStemNumber(2001, 2, 1)
    ensures DayStem(2001, 2, 1) != CorrectedDayStem(2001, 2, 1)
  {
  }

  /** As written, two consecutive days whose congruences end in 0 and 1 are
      both JIA; the corrected stem gives GUI and then JIA. */
  lemma DayStemGuiFallsBackToJia()
    ensures DayStemNumber(2001, 3, 10) % 10 == 0
    ensures DayStem(2001, 3, 10) == Jia && DayStem(2001, 3, 11) == Jia
    ensures CorrectedDayStem(2001, 3, 10) == Gui && CorrectedDayStem(2001, 3, 11) == Jia
  {
  }

  /** The stem of an hour: the Zi hour of a JIA or JI day is JIA, and the stems
      run on by one per two-hour branch, so stem and branch have the same
      parity. Corrected form of `getHourHeavenlyStem`, which ignores the hour. */
  function CorrectedHourStem(dayStem: Stem, hourBranch: Earthly.Branch): (r: Stem)
    ensures r.Ordinal() == (2 * (dayStem.Ordinal() % 5) + hourBranch.Ordinal()) % 10
  {
    AllStems[(2 * (dayStem.Ordinal() % 5) + hourBranch.Ordinal()) % 10]
  }

  /** As written, the Zi hour of a JIA day gets GENG instead of JIA, and the
      stem is the same for every hour of the day. */
  lemma HourStemIgnoresHour(b: Earthly.Branch)
    ensures HourStem(Jia) == Geng
    ensures CorrectedHourStem(Jia, Earthly.Zi) == Jia
    ensures CorrectedHourStem(Jia, b) == HourStem(Jia) <==> b == Earthly.Wu
  {
  }
}
