/** The calculation itself (CalculationEightCharacters.java): the lunar date
    of the birth date, the four pillars from the lunar year and month and the
    solar date and hour, and the tally of the five elements over the eight
    characters. The pillars are judged against the sixty-pillar cycle, in
    which a stem only ever meets a branch of the same parity. */
module CalculationEightCharacters {
  import opened Outcome
  import HeavenlyStem
  import Earthly
  import FiveElements
  import SolarCalendar
  import DateUtils
  import JavaInt
  import opened EightCharactersDto

  // The sixty-pillar cycle.

  /** Pillar i of the sixty-pillar cycle: stems and branches both run on by
      one from JIA-ZI. */
  function CyclePillar(i: int): (p: Pillar)
    requires 0 <= i < 60
    ensures p.heavenlyStem.Ordinal() == i % 10 && p.earthly.Ordinal() == i % 12
  {
    Pillar(HeavenlyStem.AllStems[i % 10], Earthly.AllBranches[i % 12])
  }

  /** A pillar that occurs in the sixty-pillar cycle. */
  predicate Sexagenary(p: Pillar) {
    exists i :: 0 <= i < 60 && CyclePillar(i) == p
  }

  /** A pillar occurs in the cycle exactly when its stem and its branch have
      the same parity: half of the 120 pairs do. */
  lemma SexagenaryParity(p: Pillar)
    ensures Sexagenary(p) <==> p.heavenlyStem.Ordinal() % 2 == p.earthly.Ordinal() % 2
  {
    if Sexagenary(p) {
      SexagenaryHasParity(p);
    }
    if p.heavenlyStem.Ordinal() % 2 == p.earthly.Ordinal() % 2 {
      ParityIsSexagenary(p);
    }
  }

  lemma SexagenaryHasParity(p: Pillar)
    requires Sexagenary(p)
    ensures p.heavenlyStem.Ordinal() % 2 == p.earthly.Ordinal() % 2
  {
    var i :| 0 <= i < 60 && CyclePillar(i) == p;
    SameParity(i, p.heavenlyStem.Ordinal(), p.earthly.Ordinal());
  }

  lemma ParityIsSexagenary(p: Pillar)
    requires p.heavenlyStem.Ordinal() % 2 == p.earthly.Ordinal() % 2
    ensures Sexagenary(p)
  {
    var s: int, b: int := p.heavenlyStem.Ordinal(), p.earthly.Ordinal();
    var i := CycleWitness(s, b);
    Earthly.ValueAtOrdinal(p.earthly);
    assert CyclePillar(i) == Pillar(HeavenlyStem.AllStems[s], Earthly.AllBranches[b]) == p;
  }

  /** The place in the cycle of stem s and branch b of the same parity:
      s plus ten times the t with 5t = d modulo 6, for b = s + 2d. */
  lemma CycleWitness(s: int, b: int) returns (i: int)
    requires 0 <= s < 10 && 0 <= b < 12 && s % 2 == b % 2
    ensures 0 <= i < 60 && i % 10 == s && i % 12 == b
  {
    var d := (b - s) / 2;
    assert b == s + 2 * d;
    var k := (5 * d) / 6;
    var t := (5 * d) % 6;
    assert 5 * d == 6 * k + t;
    i := s + 10 * t;
    TenApart(i, t, s);
    TwelveApart(i, 4 * d - 5 * k, b);
  }

  lemma TenApart(x: int, q: int, r: int)
    requires 0 <= r < 10 && x == 10 * q + r
    ensures x % 10 == r
  {
  }

  lemma TwelveApart(x: int, q: int, r: int)
    requires 0 <= r < 12 && x == 12 * q + r
    ensures x % 12 == r
  {
  }

  // The pillars as the program builds them.

  /** The year pillar: `getYearHeavenlyStem` and `getYearEarthly` of the
      lunar year; from year 0 on, the stem and branch at positions
      (y - 4) mod 10 and (y - 4) mod 12. */
  function YearPillar(lunarYear: int): (r: Result<Pillar>)
    ensures lunarYear >= 0 ==> r.Success?
    ensures lunarYear >= 0 ==>
      r.value.heavenlyStem.Ordinal() == (lunarYear - 4) % 10 && r.value.earthly.Ordinal() == (lunarYear - 4) % 12
  {
    var yearStem := HeavenlyStem.YearStem(lunarYear);
    var yearBranch :- Earthly.YearBranch(lunarYear);
    Success(Pillar(yearStem, yearBranch))
  }

  /** The month pillar: `getMonthHeavenlyStem` of the 0-based lunar month and
      the year stem, then `getMonthEarthly` of the same month index. */
  function MonthPillar(lunarMonth: int, yearStem: HeavenlyStem.Stem): (r: Result<Pillar>)
    ensures r.Success? <==> 0 <= lunarMonth < 12 && lunarMonth != 10
    ensures !(0 <= lunarMonth < 12) ==> r == Failure(ArrayIndexOutOfBounds(lunarMonth, 12))
    ensures lunarMonth == 10 ==> r == Failure(EarthlyIsNull(MonthEarthly, 10))
    ensures r.Success? ==>
      && r.value.heavenlyStem.Ordinal() == (2 * yearStem.Ordinal() + 2 + lunarMonth) % 10
      && r.value.earthly.Ordinal() == (lunarMonth + 2) % 12 - 1
  {
    var monthStem :- HeavenlyStem.MonthStem(lunarMonth, yearStem);
    var monthBranch :- Earthly.MonthBranch(lunarMonth);
    Success(Pillar(monthStem, monthBranch))
  }

  /** The day pillar: `getDayHeavenlyStem` and `getDayEarthly` of the solar
      year, the 0-based `Calendar.MONTH` and the day. */
  function DayPillar(birth: SolarCalendar.SolarDate): (r: Result<Pillar>)
    ensures r.Success? <==> Earthly.DayBranch(birth.year, birth.CalendarMonth(), birth.day).Success?
    ensures r.Success? ==> r.value.heavenlyStem != HeavenlyStem.Gui && r.value.earthly != Earthly.Hai
    ensures r.Success? ==>
      && r.value.heavenlyStem == HeavenlyStem.DayStem(birth.year, birth.CalendarMonth(), birth.day)
      && Earthly.DayBranch(birth.year, birth.CalendarMonth(), birth.day) == Success(r.value.earthly)
      && r.value.earthly.Ordinal() == Earthly.DayBranchNumber(birth.year, birth.CalendarMonth(), birth.day) % 12 - 1
  {
    var dayStem := HeavenlyStem.DayStem(birth.year, birth.CalendarMonth(), birth.day);
    var dayBranch :- Earthly.DayBranch(birth.year, birth.CalendarMonth(), birth.day);
    Success(Pillar(dayStem, dayBranch))
  }

  /** The hour pillar: `getHourHeavenlyStem` of the day stem, then
      `getHourEarthly` of the hour. */
  function HourPillar(dayStem: HeavenlyStem.Stem, hour: int): (r: Result<Pillar>)
    ensures r.Success? <==> 0 <= hour <= 23
    ensures r.Success? ==> r.value.earthly.Ordinal() == ((hour + 1) / 2) % 12
    ensures r.Success? ==> r.value.heavenlyStem in {HeavenlyStem.Jia, HeavenlyStem.Bing, HeavenlyStem.Wu, HeavenlyStem.Geng, HeavenlyStem.Ren}
    ensures r.Success? ==> r.value.heavenlyStem == HeavenlyStem.HourStem(dayStem)
  {
    var hourStem := HeavenlyStem.HourStem(dayStem);
    var hourBranch :- Earthly.TimeBranch(hour);
    Success(Pillar(hourStem, hourBranch))
  }

  /** The four pillars `calculationEightCharacters` builds from the lunar year
      and the 0-based lunar month it reads back, and from the birth date, in
      the order Java evaluates them; the first lookup that throws ends the
      calculation with its exception. */
  function PillarsOf(birth: SolarCalendar.SolarDate, lunarYear: int, lunarMonth: int): (r: Result<seq<Pillar>>)
    ensures lunarYear >= 0 ==>
      (r.Success? <==> (0 <= lunarMonth < 12 && lunarMonth != 10 && 0 <= birth.hour <= 23
                        && Earthly.DayBranch(birth.year, birth.CalendarMonth(), birth.day).Success?))
    ensures lunarYear >= 0 && lunarMonth == 10 ==> r == Failure(EarthlyIsNull(MonthEarthly, 10))
    ensures lunarYear >= 0 && !(0 <= lunarMonth < 12) ==> r == Failure(ArrayIndexOutOfBounds(lunarMonth, 12))
    ensures lunarMonth == 10 ==> r.Failure?
    ensures r.Success? ==> |r.value| == 4
    ensures r.Success? ==>
      && YearPillar(lunarYear).Success? && DayPillar(birth).Success?
      && MonthPillar(lunarMonth, HeavenlyStem.YearStem(lunarYear)).Success?
      && HourPillar(DayPillar(birth).value.heavenlyStem, birth.hour).Success?
      && r.value == [YearPillar(lunarYear).value, MonthPillar(lunarMonth, HeavenlyStem.YearStem(lunarYear)).value,
                     DayPillar(birth).value, HourPillar(DayPillar(birth).value.heavenlyStem, birth.hour).value]
  {
    var year :- YearPillar(lunarYear);
    var month :- MonthPillar(lunarMonth, year.heavenlyStem);
    var day :- DayPillar(birth);
    var hour :- HourPillar(day.heavenlyStem, birth.hour);
    Success([year, month, day, hour])
  }

  /** As written, the year pillar of a year from 0 on is in the cycle. */
  lemma YearPillarInCycle(lunarYear: int)
    requires lunarYear >= 0
    ensures Sexagenary(YearPillar(lunarYear).value)
  {
    var p := YearPillar(lunarYear).value;
    SameParity(lunarYear - 4, p.heavenlyStem.Ordinal(), p.earthly.Ordinal());
    ParityIsSexagenary(p);
  }

  /** A number's remainders by 10 and by 12 have its own parity. */
  lemma SameParity(a: int, s: int, b: int)
    requires s == a % 10 && b == a % 12
    ensures s % 2 == b % 2
  {
    var p, q := a / 10, a / 12;
    assert a == 10 * p + s && a == 12 * q + b;
    EvenApart(s, b, 6 * q - 5 * p);
  }

  /** Numbers an even distance apart have the same parity. */
  lemma EvenApart(x: int, y: int, t: int)
    requires x == y + 2 * t
    ensures x % 2 == y % 2
  {
  }

  /** Numbers an odd distance apart have different parities. */
  lemma OddApart(x: int, y: int, t: int)
    requires x == y + 2 * t + 1
    ensures x % 2 != y % 2
  {
  }

  /** As written, the month pillar is never in the cycle: its branch is the
      one before the month's own, of the other parity from the stem. */
  lemma MonthPillarOffCycle(lunarMonth: int, yearStem: HeavenlyStem.Stem)
    requires MonthPillar(lunarMonth, yearStem).Success?
    ensures !Sexagenary(MonthPillar(lunarMonth, yearStem).value)
  {
    var p := MonthPillar(lunarMonth, yearStem).value;
    MonthParities(yearStem.Ordinal(), lunarMonth, p.heavenlyStem.Ordinal(), p.earthly.Ordinal());
    if Sexagenary(p) {
      SexagenaryHasParity(p);
    }
  }

  /** The stem of month index m has the parity of m, the branch the program
      gives it the other one. */
  lemma MonthParities(y: int, m: int, s: int, b: int)
    requires 0 <= m < 12 && m != 10 && s == (2 * y + 2 + m) % 10 && b == (m + 2) % 12 - 1
    ensures s % 2 != b % 2
  {
    var a := 2 * y + 2 + m;
    var q := a / 10;
    assert a == 10 * q + s;
    var t := if m < 10 then y - 5 * q else y + 6 - 5 * q;
    assert s == b + 2 * t + 1;
    OddApart(s, b, t);
  }

  /** As written, the hour pillar is in the cycle only at hours whose branch
      has an even position, since the hour stem always has one. */
  lemma HourPillarCycle(dayStem: HeavenlyStem.Stem, hour: int)
    requires 0 <= hour <= 23
    ensures var p := HourPillar(dayStem, hour).value;
      Sexagenary(p) <==> p.earthly.Ordinal() % 2 == 0
  {
    var p := HourPillar(dayStem, hour).value;
    assert p.heavenlyStem == HeavenlyStem.HourStem(dayStem);
    assert p.heavenlyStem.Ordinal() % 2 == 0;
    SexagenaryParity(p);
  }

  /** As written, the hour pillar's stem is the same for every hour of the day. */
  lemma HourPillarIgnoresHour(dayStem: HeavenlyStem.Stem, hour: int, other: int)
    requires 0 <= hour <= 23 && 0 <= other <= 23
    ensures HourPillar(dayStem, hour).value.heavenlyStem == HourPillar(dayStem, other).value.heavenlyStem
  {
  }

  /** As written, the year pillar is in the cycle, the month pillar never
      is, and the hour pillar only at the hours of ZI, YIN, CHEN, WU, SHEN
      and XU. */
  lemma PillarsOfCycle(birth: SolarCalendar.SolarDate, lunarYear: int, lunarMonth: int)
    requires lunarYear >= 0 && PillarsOf(birth, lunarYear, lunarMonth).Success?
    ensures var ps := PillarsOf(birth, lunarYear, lunarMonth).value;
      Sexagenary(ps[0]) && !Sexagenary(ps[1])
      && (Sexagenary(ps[3]) <==> ps[3].earthly.Ordinal() % 2 == 0)
  {
    var year := YearPillar(lunarYear).value;
    var month := MonthPillar(lunarMonth, year.heavenlyStem).value;
    var day := DayPillar(birth).value;
    var hour := HourPillar(day.heavenlyStem, birth.hour).value;
    assert PillarsOf(birth, lunarYear, lunarMonth).value == [year, month, day, hour];
    YearPillarInCycle(lunarYear);
    MonthPillarOffCycle(lunarMonth, year.heavenlyStem);
    HourPillarCycle(day.heavenlyStem, birth.hour);
  }

  // The tally of the five elements.

  /** The elements of the eight characters, pillar by pillar, stem first. */
  function Symbols(ps: seq<Pillar>): (es: seq<FiveElements.Element>)
    ensures |es| == 2 * |ps|
  {
    if |ps| == 0 then []
    else
      var p := ps[|ps| - 1];
      Symbols(ps[..|ps| - 1]) + [FiveElements.OfStem(p.heavenlyStem), FiveElements.OfBranch(p.earthly)]
  }

  /** One `put` of the tally: x with a count of 1 the first time, one more
      each time after. */
  function Put(counts: map<FiveElements.Element, int>, x: FiveElements.Element): map<FiveElements.Element, int> {
    counts[x := if x in counts then counts[x] + 1 else 1]
  }

  /** The count map after putting the elements `es` in order into an empty one. */
  function Tally(es: seq<FiveElements.Element>): map<FiveElements.Element, int> {
    if |es| == 0 then map[] else Put(Tally(es[..|es| - 1]), es[|es| - 1])
  }

  lemma TallyAppend(es: seq<FiveElements.Element>, x: FiveElements.Element)
    ensures Tally(es + [x]) == Put(Tally(es), x)
  {
    assert (es + [x])[..|es|] == es;
  }

  /** The tally loop: for each pillar, the stem's element and then the
      branch's go into the map. */
  method TallyFiveElements(pillars: seq<Pillar>) returns (counts: map<FiveElements.Element, int>)
    ensures counts == Tally(Symbols(pillars))
  {
    counts := map[];
    for i := 0 to |pillars|
      invariant counts == Tally(Symbols(pillars[..i]))
    {
      var h := FiveElements.OfStem(pillars[i].heavenlyStem);
      var e := FiveElements.OfBranch(pillars[i].earthly);
      TallyPillar(pillars, i, h, e);
      ghost var before := counts;
      counts := counts[h := if h in counts then counts[h] + 1 else 1];
      assert counts == Put(before, h);
      counts := counts[e := if e in counts then counts[e] + 1 else 1];
      assert counts == Put(Put(before, h), e);
    }
    assert pillars[..|pillars|] == pillars;
  }

  /** The tally after pillar i is the tally before it with its stem's
      element and then its branch's put in. */
  lemma TallyPillar(pillars: seq<Pillar>, i: int, h: FiveElements.Element, e: FiveElements.Element)
    requires 0 <= i < |pillars|
    requires h == FiveElements.OfStem(pillars[i].heavenlyStem) && e == FiveElements.OfBranch(pillars[i].earthly)
    ensures Tally(Symbols(pillars[..i + 1])) == Put(Put(Tally(Symbols(pillars[..i])), h), e)
  {
    var before := Symbols(pillars[..i]);
    var middle := before + [h];
    assert pillars[..i + 1][..i] == pillars[..i];
    assert Symbols(pillars[..i + 1]) == middle + [e];
    TallyAppend(before, h);
    TallyAppend(middle, e);
  }

  /** The count of element e in a count map, 0 when it has no entry. */
  function CountOf(counts: map<FiveElements.Element, int>, e: FiveElements.Element): int {
    if e in counts then counts[e] else 0
  }

  /** The sum of the counts of the elements `order`. */
  function CountTotal(counts: map<FiveElements.Element, int>, order: seq<FiveElements.Element>): int {
    if |order| == 0 then 0
    else CountTotal(counts, order[..|order| - 1]) + CountOf(counts, order[|order| - 1])
  }

  /** The tally names exactly the elements that occur, each with its number
      of occurrences, and the counts add up to the number of elements
      tallied: eight for four pillars. */
  lemma TallyCounts(es: seq<FiveElements.Element>)
    ensures forall e :: e in Tally(es) <==> e in es
    ensures forall e :: CountOf(Tally(es), e) == multiset(es)[e]
    ensures CountTotal(Tally(es), FiveElements.AllElements) == |es|
  {
    TallyOccurrences(es);
    TallyTotal(es);
  }

  lemma {:induction false} TallyOccurrences(es: seq<FiveElements.Element>)
    ensures forall e :: e in Tally(es) <==> e in es
    ensures forall e :: CountOf(Tally(es), e) == multiset(es)[e]
  {
    if |es| > 0 {
      var front, x := es[..|es| - 1], es[|es| - 1];
      assert es == front + [x];
      TallyOccurrences(front);
      assert multiset(es) == multiset(front) + multiset{x};
    }
  }

  lemma {:induction false} TallyTotal(es: seq<FiveElements.Element>)
    ensures CountTotal(Tally(es), FiveElements.AllElements) == |es|
  {
    if |es| > 0 {
      var front, x := es[..|es| - 1], es[|es| - 1];
      TallyTotal(front);
      var a := Tally(front);
      CountTotalBump(a, Put(a, x), FiveElements.AllElements, x);
      ElementOnce(x);
    } else {
      CountTotalOfEmpty(FiveElements.AllElements);
    }
  }

  lemma {:induction false} CountTotalOfEmpty(order: seq<FiveElements.Element>)
    ensures CountTotal(map[], order) == 0
  {
    if |order| > 0 {
      CountTotalOfEmpty(order[..|order| - 1]);
    }
  }

  lemma ElementOnce(x: FiveElements.Element)
    ensures multiset(FiveElements.AllElements)[x] == 1
  {
    match x
    case Jin => case Mu => case Shui => case Huo => case Tu =>
  }

  /** Adding one to the count of x adds to the total once for each time x
      is among the elements summed. */
  lemma {:induction false} CountTotalBump(a: map<FiveElements.Element, int>, b: map<FiveElements.Element, int>,
                                         order: seq<FiveElements.Element>, x: FiveElements.Element)
    requires b == Put(a, x)
    ensures CountTotal(b, order) == CountTotal(a, order) + multiset(order)[x]
  {
    if |order| > 0 {
      var front := order[..|order| - 1];
      assert order == front + [order[|order| - 1]];
      CountTotalBump(a, b, front, x);
    }
  }

  // The calculation.

  /** The result object the calculation fills: the birth date, the lunar
      date, the four pillars and the tally of their elements. */
  function Assemble(birth: SolarCalendar.SolarDate, lunar: DateUtils.LunarDate, ps: seq<Pillar>): (d: EightCharacters)
    requires |ps| == 4
    ensures d.date == birth && d.lunarDate == lunar && d.Pillars() == ps
    ensures d.fiveElementsCountMap == Tally(Symbols(d.Pillars()))
  {
    EightCharacters(birth, lunar, ps[0], ps[1], ps[2], ps[3], Tally(Symbols(ps)))
  }

  /** What `calculationEightCharacters` returns for a birth date: the lunar
      date `solarToLunar` sets, read back through the lenient calendar for the
      lunar year and month, the pillars built from them, and the tally. It
      fails before the table and on every day the calendar reads as the
      eleventh month; when it succeeds, the count map tallies the pillars. */
  function EightCharactersOf(info: DateUtils.Table, birth: SolarCalendar.SolarDate): (r: Result<EightCharacters>)
    requires birth.Valid()
    ensures DateUtils.DayOffset(birth) < 0 ==> r == Failure(ArrayIndexOutOfBounds(-1, DateUtils.TableSize))
    ensures var lunar := DateUtils.LunarOf(info, DateUtils.DayOffset(birth), birth.hour);
      lunar.Success? && DateUtils.CalendarView(lunar.value).month == 10 ==> r.Failure?
    ensures var lunar := DateUtils.LunarOf(info, DateUtils.DayOffset(birth), birth.hour);
      r.Success? <==>
        && lunar.Success?
        && var view := DateUtils.CalendarView(lunar.value);
           PillarsOf(birth, view.year, view.month).Success?
    ensures r.Success? ==> r.value.date == birth
    ensures var lunar := DateUtils.LunarOf(info, DateUtils.DayOffset(birth), birth.hour);
      r.Success? ==>
        && lunar.Success? && r.value.lunarDate == lunar.value
        && var view := DateUtils.CalendarView(lunar.value);
           PillarsOf(birth, view.year, view.month).Success?
           && r.value.Pillars() == PillarsOf(birth, view.year, view.month).value
    ensures r.Success? ==> r.value.fiveElementsCountMap == Tally(Symbols(r.value.Pillars()))
  {
    var lunar :- DateUtils.LunarOf(info, DateUtils.DayOffset(birth), birth.hour);
    FromLunar(birth, lunar)
  }

  /** The rest of the calculation once the lunar date is set: the lunar year
      and month read back through the lenient calendar, the pillars and the
      tally. */
  function FromLunar(birth: SolarCalendar.SolarDate, lunar: DateUtils.LunarDate): (r: Result<EightCharacters>)
    requires 0 <= lunar.hour <= 23
    ensures DateUtils.CalendarView(lunar).month == 10 ==> r.Failure?
    ensures var view := DateUtils.CalendarView(lunar);
      r.Success? <==> PillarsOf(birth, view.year, view.month).Success?
    ensures r.Success? ==> r.value.date == birth && r.value.lunarDate == lunar
    ensures var view := DateUtils.CalendarView(lunar);
      r.Success? ==>
        PillarsOf(birth, view.year, view.month).Success?
        && r.value.Pillars() == PillarsOf(birth, view.year, view.month).value
    ensures r.Success? ==> r.value.fiveElementsCountMap == Tally(Symbols(r.value.Pillars()))
  {
    var view := DateUtils.CalendarView(lunar);
    var ps :- PillarsOf(birth, view.year, view.month);
    Success(Assemble(birth, lunar, ps))
  }

  /** `calculationEightCharacters`. */
  method CalculationEightCharacters(info: DateUtils.Table, birth: SolarCalendar.SolarDate)
    returns (r: Result<EightCharacters>)
    requires birth.Valid()
    ensures r == EightCharactersOf(info, birth)
  {
    var lunar :- DateUtils.SolarToLunar(info, birth);
    var view := DateUtils.CalendarView(lunar);
    var lunarYear, lunarMonth := view.year, view.month;
    var pillars :- PillarsOf(birth, lunarYear, lunarMonth);
    var counts := TallyFiveElements(pillars);
    r := Success(EightCharacters(birth, lunar, pillars[0], pillars[1], pillars[2], pillars[3], counts));
    assert r.value == Assemble(birth, lunar, pillars);
  }

  /** A result whose count map tallies its pillars counts eight characters,
      each element as often as it occurs among them, and the rendering of the
      counts reads back into the map. */
  lemma TalliedCounts(d: EightCharacters)
    requires d.fiveElementsCountMap == Tally(Symbols(d.Pillars()))
    ensures forall e :: CountOf(d.fiveElementsCountMap, e) == multiset(Symbols(d.Pillars()))[e]
    ensures CountTotal(d.fiveElementsCountMap, FiveElements.AllElements) == 8
    ensures ParseCounts(CountsText(d.fiveElementsCountMap, FiveElements.AllElements)) == d.fiveElementsCountMap
  {
    var es := Symbols(d.Pillars());
    TallyCounts(es);
    assert forall e :: e in d.fiveElementsCountMap ==> d.fiveElementsCountMap[e] >= 0 by {
      forall e | e in d.fiveElementsCountMap ensures d.fiveElementsCountMap[e] >= 0 {
        assert CountOf(d.fiveElementsCountMap, e) == multiset(es)[e];
      }
    }
    CountsRoundTrip(d.fiveElementsCountMap);
  }

  // The calculation as the calendar means it (see the findings in README.md).

  /** The month pillar with the month's own branch: YIN for the first month. */
  function CorrectedMonthPillar(lunarMonth: int, yearStem: HeavenlyStem.Stem): (r: Result<Pillar>)
    ensures r.Success? <==> 0 <= lunarMonth < 12
    ensures r.Success? ==> r.value.earthly == Earthly.CorrectedMonthBranch(lunarMonth)
    ensures r.Success? ==>
      && r.value.heavenlyStem.Ordinal() == (2 * yearStem.Ordinal() + 2 + lunarMonth) % 10
      && r.value.earthly.Ordinal() == (lunarMonth + 2) % 12
  {
    var monthStem :- HeavenlyStem.MonthStem(lunarMonth, yearStem);
    Success(Pillar(monthStem, Earthly.CorrectedMonthBranch(lunarMonth)))
  }

  /** The day pillar from the 0-based `Calendar.MONTH`, with the true century
      and with a remainder of 0 as the last stem and the last branch. */
  function CorrectedDayPillar(birth: SolarCalendar.SolarDate): (p: Pillar)
    ensures p.heavenlyStem.Ordinal()
      == (HeavenlyStem.CorrectedDayStemNumber(birth.year, birth.CalendarMonth(), birth.day) - 1) % 10
    ensures p.earthly.Ordinal()
      == (Earthly.CorrectedDayBranchNumber(birth.year, birth.CalendarMonth(), birth.day) - 1) % 12
  {
    Pillar(HeavenlyStem.CorrectedDayStem(birth.year, birth.CalendarMonth(), birth.day),
           Earthly.CorrectedDayBranch(birth.year, birth.CalendarMonth(), birth.day))
  }

  /** The hour pillar with the stem taken from the day stem and the hour's
      branch together. */
  function CorrectedHourPillar(dayStem: HeavenlyStem.Stem, hour: int): (r: Result<Pillar>)
    ensures r.Success? <==> 0 <= hour <= 23
    ensures r.Success? ==> r.value.earthly.Ordinal() == ((hour + 1) / 2) % 12
    ensures r.Success? ==>
      r.value.heavenlyStem.Ordinal() == (2 * (dayStem.Ordinal() % 5) + r.value.earthly.Ordinal()) % 10
  {
    var hourBranch :- Earthly.TimeBranch(hour);
    Success(Pillar(HeavenlyStem.CorrectedHourStem(dayStem, hourBranch), hourBranch))
  }

  /** The four pillars from the lunar year and 0-based month as the
      conversion labels them, and from the birth date, with every pillar
      corrected. */
  function CorrectedPillarsOf(birth: SolarCalendar.SolarDate, lunar: DateUtils.LunarDate): (r: Result<seq<Pillar>>)
    ensures lunar.year >= 0 ==> (r.Success? <==> 0 <= lunar.month < 12 && 0 <= birth.hour <= 23)
    ensures r.Success? ==> |r.value| == 4
    ensures r.Success? ==>
      && YearPillar(lunar.year).Success?
      && CorrectedMonthPillar(lunar.month, HeavenlyStem.YearStem(lunar.year)).Success?
      && CorrectedHourPillar(CorrectedDayPillar(birth).heavenlyStem, birth.hour).Success?
      && r.value == [YearPillar(lunar.year).value, CorrectedMonthPillar(lunar.month, HeavenlyStem.YearStem(lunar.year)).value,
                     CorrectedDayPillar(birth), CorrectedHourPillar(CorrectedDayPillar(birth).heavenlyStem, birth.hour).value]
  {
    var year :- YearPillar(lunar.year);
    var month :- CorrectedMonthPillar(lunar.month, year.heavenlyStem);
    var day := CorrectedDayPillar(birth);
    var hour :- CorrectedHourPillar(day.heavenlyStem, birth.hour);
    Success([year, month, day, hour])
  }

  /** The corrected month pillar is in the cycle: stem and branch both have
      the parity of the month index. */
  lemma CorrectedMonthPillarInCycle(lunarMonth: int, yearStem: HeavenlyStem.Stem)
    requires 0 <= lunarMonth < 12
    ensures Sexagenary(CorrectedMonthPillar(lunarMonth, yearStem).value)
  {
    var p := CorrectedMonthPillar(lunarMonth, yearStem).value;
    CorrectedMonthParities(yearStem.Ordinal(), lunarMonth, p.heavenlyStem.Ordinal(), p.earthly.Ordinal());
    ParityIsSexagenary(p);
  }

  /** The stem of month index m and the month's own branch both have the
      parity of m. */
  lemma CorrectedMonthParities(y: int, m: int, s: int, b: int)
    requires 0 <= m < 12 && s == (2 * y + 2 + m) % 10 && b == (m + 2) % 12
    ensures s % 2 == b % 2
  {
    var a := 2 * y + 2 + m;
    var q := a / 10;
    assert a == 10 * q + s;
    var t := if m < 10 then y - 5 * q else y + 6 - 5 * q;
    assert s == b + 2 * t;
    EvenApart(s, b, t);
  }

  /** The corrected day pillar is in the cycle: the two congruences differ
      by four centuries, ten, and six on even months, so they have the same
      parity. */
  lemma CorrectedDayPillarInCycle(birth: SolarCalendar.SolarDate)
    ensures Sexagenary(CorrectedDayPillar(birth))
  {
    var year, calendarMonth, day := birth.year, birth.CalendarMonth(), birth.day;
    var shiftedYear := if calendarMonth < 2 then year - 1 else year;
    var m := if calendarMonth < 2 then calendarMonth + 13 else calendarMonth + 1;
    var c := JavaInt.Div(shiftedYear, 100);
    var ns := HeavenlyStem.CorrectedDayStemNumber(year, calendarMonth, day);
    var nb := Earthly.CorrectedDayBranchNumber(year, calendarMonth, day);
    assert ns == HeavenlyStem.DayStemYearTerm(shiftedYear) + HeavenlyStem.DayStemMonthTerm(calendarMonth) + day - 3;
    assert nb == Earthly.DayBranchYearTerm(c, JavaInt.Rem(shiftedYear, 100)) + Earthly.DayBranchMonthTerm(m) + day + 7;
    assert HeavenlyStem.DayStemMonthTerm(calendarMonth) == JavaInt.Div(3 * (m + 1), 5);
    var k: int := 2 * c + 5 + (if JavaInt.Rem(m, 2) == 0 then 3 else 0);
    assert nb - 1 == ns - 1 + 2 * k;
    var p := CorrectedDayPillar(birth);
    DayParities(ns - 1, nb - 1, k, p.heavenlyStem.Ordinal(), p.earthly.Ordinal());
    ParityIsSexagenary(p);
  }

  /** Remainders by 10 and by 12 of two numbers an even distance apart. */
  lemma DayParities(x: int, y: int, k: int, s: int, b: int)
    requires y == x + 2 * k && s == x % 10 && b == y % 12
    ensures s % 2 == b % 2
  {
    var p, q := x / 10, y / 12;
    assert x == 10 * p + s && y == 12 * q + b;
    EvenApart(s, b, 6 * q - 5 * p - k);
  }

  /** The corrected hour pillar is in the cycle: its stem runs on with the
      hour's branch. */
  lemma CorrectedHourPillarInCycle(dayStem: HeavenlyStem.Stem, hour: int)
    requires 0 <= hour <= 23
    ensures Sexagenary(CorrectedHourPillar(dayStem, hour).value)
  {
    var p := CorrectedHourPillar(dayStem, hour).value;
    var b: int := p.earthly.Ordinal();
    var k: int := dayStem.Ordinal() % 5;
    assert p.heavenlyStem == HeavenlyStem.CorrectedHourStem(dayStem, p.earthly);
    HourParities(b + 2 * k, b, k, p.heavenlyStem.Ordinal());
    ParityIsSexagenary(p);
  }

  /** The stem b + 2k (mod 10) has the parity of b. */
  lemma HourParities(a: int, b: int, k: int, s: int)
    requires a == b + 2 * k && s == a % 10
    ensures s % 2 == b % 2
  {
    var p := a / 10;
    assert a == 10 * p + s;
    EvenApart(s, b, k - 5 * p);
  }

  /** All four corrected pillars are in the sixty-pillar cycle. */
  lemma CorrectedPillarsInCycle(birth: SolarCalendar.SolarDate, lunar: DateUtils.LunarDate)
    requires lunar.year >= 0 && CorrectedPillarsOf(birth, lunar).Success?
    ensures var ps := CorrectedPillarsOf(birth, lunar).value;
      Sexagenary(ps[0]) && Sexagenary(ps[1]) && Sexagenary(ps[2]) && Sexagenary(ps[3])
  {
    var year := YearPillar(lunar.year).value;
    var day := CorrectedDayPillar(birth);
    YearPillarInCycle(lunar.year);
    CorrectedMonthPillarInCycle(lunar.month, year.heavenlyStem);
    CorrectedDayPillarInCycle(birth);
    CorrectedHourPillarInCycle(day.heavenlyStem, birth.hour);
  }

  /** What the calculation gives with every finding corrected: the day
      offset rounded down, the lunar date read directly with the month its
      slot names, and the corrected pillars. It succeeds on every day of the
      table whose month is labelled 0..11, and then all four pillars are in
      the cycle. */
  function CorrectedEightCharacters(info: DateUtils.Table, birth: SolarCalendar.SolarDate): (r: Result<EightCharacters>)
    requires birth.Valid()
    ensures var offset := DateUtils.CorrectedDayOffset(birth);
      r.Success? <==>
        0 <= offset < DateUtils.TableDays(info)
        && 0 <= DateUtils.CorrectedLunarOf(info, offset, birth.hour).month < 12
    ensures r.Success? ==>
      && Sexagenary(r.value.yearHeavenlyStemEarthly) && Sexagenary(r.value.monthHeavenlyStemEarthly)
      && Sexagenary(r.value.dayHeavenlyStemEarthly) && Sexagenary(r.value.hourHeavenlyStemEarthly)
    ensures r.Success? ==> r.value.date == birth && r.value.fiveElementsCountMap == Tally(Symbols(r.value.Pillars()))
    ensures var offset := DateUtils.CorrectedDayOffset(birth);
      r.Success? ==>
        && 0 <= offset < DateUtils.TableDays(info)
        && var lunar := DateUtils.CorrectedLunarOf(info, offset, birth.hour);
           && r.value.lunarDate == lunar
           && CorrectedPillarsOf(birth, lunar).Success? && r.value.Pillars() == CorrectedPillarsOf(birth, lunar).value
  {
    var offset := DateUtils.CorrectedDayOffset(birth);
    var inTable :- DateUtils.LunarOf(info, offset, birth.hour);
    var lunar := DateUtils.CorrectedLunarOf(info, offset, birth.hour);
    CorrectedFromLunar(birth, lunar)
  }

  /** The corrected calculation once the lunar date is known. */
  function CorrectedFromLunar(birth: SolarCalendar.SolarDate, lunar: DateUtils.LunarDate): (r: Result<EightCharacters>)
    requires DateUtils.InTable(lunar.year) && 0 <= birth.hour <= 23
    ensures r.Success? <==> 0 <= lunar.month < 12
    ensures r.Success? ==>
      && Sexagenary(r.value.yearHeavenlyStemEarthly) && Sexagenary(r.value.monthHeavenlyStemEarthly)
      && Sexagenary(r.value.dayHeavenlyStemEarthly) && Sexagenary(r.value.hourHeavenlyStemEarthly)
    ensures r.Success? ==> r.value.date == birth && r.value.fiveElementsCountMap == Tally(Symbols(r.value.Pillars()))
    ensures r.Success? ==>
      && r.value.lunarDate == lunar
      && CorrectedPillarsOf(birth, lunar).Success? && r.value.Pillars() == CorrectedPillarsOf(birth, lunar).value
  {
    var ps :- CorrectedPillarsOf(birth, lunar);
    CorrectedPillarsInCycle(birth, lunar);
    Success(Assemble(birth, lunar, ps))
  }
}
