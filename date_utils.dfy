/** The lunar calendar of `DateUtils.LunarDate`: a table of packed 24-bit
    words for the lunar years 1900..2099, the decoders that read the leap
    month and the month lengths out of a word, the walk that turns a day offset
    from 1900-01-31 into a lunar year, month and day, and the Chinese rendering
    of a lunar date. Every decoder indexes the table at `year - MinYear`, so a
    year outside 1900..2099 is an array index out of bounds. */
module DateUtils {
  import opened Outcome
  import Bits
  import JavaInt
  import HeavenlyStem
  import Earthly
  import SolarCalendar
  import Text

  const MinYear: int := 1900
  const MaxYear: int := 2099

  /** The number of lunar years the table covers. */
  const TableSize: int := MaxYear - MinYear + 1

  /** A table in the layout of `LUNAR_INFO`: one packed word per lunar year
      from 1900, where bits 20..23 hold the leap month (0 for none), bit
      20 - m is set when month slot m (1..13) has 30 days rather than 29, and
      bits 0..6, which no code reads, the solar date of the new year. The
      operations below take the table as their first argument, `info`. */
  type Table = info: seq<nat> | |info| == TableSize witness seq(TableSize, i => 0)

  /** `LUNAR_INFO`, the table the calendar ships, ten years to a line. */
  const LunarInfo: seq<nat> :=
        [0x84B6BF, 0x04AE53, 0x0A5748, 0x5526BD, 0x0D2650, 0x0D9544, 0x46AAB9, 0x056A4D, 0x09AD42, 0x24AEB6] // 1900-1909
      + [0x04AE4A, 0x6A4DBE, 0x0A4D52, 0x0D2546, 0x5D52BA, 0x0B544E, 0x0D6A43, 0x296D37, 0x095B4B, 0x749BC1] // 1910-1919
      + [0x049754, 0x0A4B48, 0x5B25BC, 0x06A550, 0x06D445, 0x4ADAB8, 0x02B64D, 0x095742, 0x2497B7, 0x04974A] // 1920-1929
      + [0x664B3E, 0x0D4A51, 0x0EA546, 0x56D4BA, 0x05AD4E, 0x02B644, 0x393738, 0x092E4B, 0x7C96BF, 0x0C9553] // 1930-1939
      + [0x0D4A48, 0x6DA53B, 0x0B554F, 0x056A45, 0x4AADB9, 0x025D4D, 0x092D42, 0x2C95B6, 0x0A954A, 0x7B4ABD] // 1940-1949
      + [0x06CA51, 0x0B5546, 0x555ABB, 0x04DA4E, 0x0A5B43, 0x352BB8, 0x052B4C, 0x8A953F, 0x0E9552, 0x06AA48] // 1950-1959
      + [0x6AD53C, 0x0AB54F, 0x04B645, 0x4A5739, 0x0A574D, 0x052642, 0x3E9335, 0x0D9549, 0x75AABE, 0x056A51] // 1960-1969
      + [0x096D46, 0x54AEBB, 0x04AD4F, 0x0A4D43, 0x4D26B7, 0x0D254B, 0x8D52BF, 0x0B5452, 0x0B6A47, 0x696D3C] // 1970-1979
      + [0x095B50, 0x049B45, 0x4A4BB9, 0x0A4B4D, 0xAB25C2, 0x06A554, 0x06D449, 0x6ADA3D, 0x0AB651, 0x095746] // 1980-1989
      + [0x5497BB, 0x04974F, 0x064B44, 0x36A537, 0x0EA54A, 0x86B2BF, 0x05AC53, 0x0AB647, 0x5936BC, 0x092E50] // 1990-1999
      + [0x0C9645, 0x4D4AB8, 0x0D4A4C, 0x0DA541, 0x25AAB6, 0x056A49, 0x7AADBD, 0x025D52, 0x092D47, 0x5C95BA] // 2000-2009
      + [0x0A954E, 0x0B4A43, 0x4B5537, 0x0AD54A, 0x955ABF, 0x04BA53, 0x0A5B48, 0x652BBC, 0x052B50, 0x0A9345] // 2010-2019
      + [0x474AB9, 0x06AA4C, 0x0AD541, 0x24DAB6, 0x04B64A, 0x6a573D, 0x0A4E51, 0x0D2646, 0x5E933A, 0x0D534D] // 2020-2029
      + [0x05AA43, 0x36B537, 0x096D4B, 0xB4AEBF, 0x04AD53, 0x0A4D48, 0x6D25BC, 0x0D254F, 0x0D5244, 0x5DAA38] // 2030-2039
      + [0x0B5A4C, 0x056D41, 0x24ADB6, 0x049B4A, 0x7A4BBE, 0x0A4B51, 0x0AA546, 0x5B52BA, 0x06D24E, 0x0ADA42] // 2040-2049
      + [0x355B37, 0x09374B, 0x8497C1, 0x049753, 0x064B48, 0x66A53C, 0x0EA54F, 0x06AA44, 0x4AB638, 0x0AAE4C] // 2050-2059
      + [0x092E42, 0x3C9735, 0x0C9649, 0x7D4ABD, 0x0D4A51, 0x0DA545, 0x55AABA, 0x056A4E, 0x0A6D43, 0x452EB7] // 2060-2069
      + [0x052D4B, 0x8A95BF, 0x0A9553, 0x0B4A47, 0x6B553B, 0x0AD54F, 0x055A45, 0x4A5D38, 0x0A5B4C, 0x052B42] // 2070-2079
      + [0x3A93B6, 0x069349, 0x7729BD, 0x06AA51, 0x0AD546, 0x54DABA, 0x04B64E, 0x0A5743, 0x452738, 0x0D264A] // 2080-2089
      + [0x8E933E, 0x0D5252, 0x0DAA47, 0x66B53B, 0x056D4F, 0x04AE45, 0x4A4EB9, 0x0A4D4C, 0x0D1541, 0x2D92B5] // 2090-2099

  lemma LunarInfoLength()
    ensures |LunarInfo| == TableSize
  {
  }

  predicate InTable(year: int) {
    MinYear <= year <= MaxYear
  }

  /** The table word of `year`: `LUNAR_INFO[year - MIN_YEAR]`. */
  function Word(info: Table, year: int): nat
    requires InTable(year)
  {
    info[year - MinYear]
  }

  /** The leap month stored in a word: bits 20..23 (`& 0xF00000` then
      `>> 20`), a number in 0..15 where 0 means no leap month. */
  function LeapMonthOf(w: nat): (r: nat)
    ensures r < 16
  {
    (w % 0x1000000) / 0x100000
  }

  /** `leapMonth`: the leap month of lunar year `year`. */
  function LeapMonth(info: Table, year: int): (r: nat)
    requires InTable(year)
    ensures r < 16
  {
    LeapMonthOf(Word(info, year))
  }

  /** The leap month is read from exactly bits 20..23 of the word. */
  lemma LeapMonthBits(w: nat)
    ensures forall j: nat :: j < 4 ==> (Bits.Bit(LeapMonthOf(w), j) <==> Bits.Bit(w, 20 + j))
  {
    Pow2Constants();
    forall j: nat | j < 4
      ensures Bits.Bit((w % 0x1000000) / 0x100000, j) <==> Bits.Bit(w, 20 + j)
    {
      Bits.BitOfShift(w % Bits.Pow2(24), 20, j);
      Bits.LowIsMod(w, 24);
      Bits.BitOfLow(w, 24, 20 + j);
    }
  }

  lemma Pow2Constants()
    ensures Bits.Pow2(7) == 0x80 && Bits.Pow2(19) == 0x80000
    ensures Bits.Pow2(20) == 0x100000 && Bits.Pow2(24) == 0x1000000
  {
  }

  /** The word of 2014, 0x955ABF, is the documented example: a leap ninth
      month. The word of 1900 has a leap eighth month. */
  lemma LeapMonthExamples()
    ensures LeapMonth(LunarInfo, 2014) == 9
    ensures LeapMonth(LunarInfo, 1900) == 8
  {
    LunarInfoLength();
    assert Word(LunarInfo, 2014) == 0x955ABF;
    assert Word(LunarInfo, 1900) == 0x84B6BF;
  }

  /** `daysInLunarMonth`: 30 when the word has bit `0x100000 >> month` set and
      29 otherwise; month slots 1..13 read bits 19 down to 7. Java masks the
      shift distance to `month % 32`, and a shift past bit 20 leaves no bit. */
  function DaysInLunarMonth(info: Table, year: int, month: int): (n: nat)
    requires InTable(year)
    ensures n == 29 || n == 30
    ensures 1 <= month <= 13 ==> (n == 30 <==> Bits.Bit(Word(info, year), 20 - month))
  {
    var shift := month % 32;
    if shift <= 20 && Bits.Bit(Word(info, year), 20 - shift) then 30 else 29
  }

  /** The length of the lunar year a word describes: 348 days, or 377 with a
      leap month, and one more for every long month among bits 7..19. */
  function YearLengthOf(w: nat): (n: nat)
    ensures LeapMonthOf(w) == 0 ==> 348 <= n <= 361
    ensures LeapMonthOf(w) != 0 ==> 377 <= n <= 390
  {
    (if LeapMonthOf(w) != 0 then 377 else 348) + Bits.CountBits(w, 7, 20)
  }

  /** `daysInLunarYear`: the loop walks the mask i over bits 19 down to 3 of
      `word & 0x0FFF80`, counting a day for each bit set. */
  method DaysInLunarYear(info: Table, year: int) returns (sum: int)
    requires InTable(year)
    ensures sum == YearLengthOf(Word(info, year))
  {
    sum := 348;
    if LeapMonth(info, year) != 0 {
      sum := 377;
    }
    ghost var base := sum;
    var w: int := Word(info, year);
    var monthInfo := w % 0x100000 - w % 0x80;
    Pow2Constants();
    var i := 0x80000;
    ghost var k: nat := 19;
    while i > 0x7
      invariant 2 <= k <= 19 && i == Bits.Pow2(k)
      invariant sum == base + Bits.CountBits(monthInfo, k + 1, 20)
      decreases i
    {
      if (monthInfo / i) % 2 == 1 {
        sum := sum + 1;
      }
      i := i / 2;
      k := k - 1;
    }
    if k > 2 {
      Bits.Pow2AtLeast(k, 3);
      assert false;
    }
    YearLengthByCount(Word(info, year), monthInfo, base, sum, k);
  }

  /** The count the loop of `daysInLunarYear` ends with is the year's length. */
  lemma YearLengthByCount(w: nat, monthInfo: int, base: int, sum: int, k: nat)
    requires monthInfo == w % 0x100000 - w % 0x80
    requires base == if LeapMonthOf(w) != 0 then 377 else 348
    requires k == 2 && sum == base + Bits.CountBits(monthInfo, k + 1, 20)
    ensures sum == YearLengthOf(w)
  {
    MaskedMonthBits(w, monthInfo);
  }

  /** Masking a word with 0x0FFF80 keeps exactly its bits 7..19, so counting the
      masked word from bit 3 counts the word's bits 7..19. */
  lemma MaskedMonthBits(w: nat, monthInfo: int)
    requires monthInfo == w % 0x100000 - w % 0x80
    ensures Bits.CountBits(monthInfo, 3, 20) == Bits.CountBits(w, 7, 20)
  {
    Pow2Constants();
    Bits.LowIsMod(w, 20);
    Bits.LowIsMod(w, 7);
    Bits.CountBitsOfMiddle(w, monthInfo, 3, 7, 20);
  }

  /** The days in the first n lunar years of the table. */
  function DaysOfYears(info: Table, n: int): (d: nat)
    requires 0 <= n <= TableSize
    decreases n
  {
    if n == 0 then 0 else DaysOfYears(info, n - 1) + YearLengthOf(info[n - 1])
  }

  /** The day offset from the base date 1900-01-31, the first day of lunar
      1900, at which lunar year `year` begins. */
  function LunarDaysBefore(info: Table, year: int): (n: nat)
    requires MinYear <= year <= MaxYear + 1
  {
    DaysOfYears(info, year - MinYear)
  }

  /** Lunar year `year` begins where the year before it ends. */
  lemma LunarDaysBeforeStep(info: Table, year: int)
    requires InTable(year)
    ensures LunarDaysBefore(info, year + 1) == LunarDaysBefore(info, year) + YearLengthOf(Word(info, year))
  {
    assert year + 1 - MinYear - 1 == year - MinYear;
  }

  /** Later years begin later: by at least 348 days a year. */
  lemma {:induction false} LunarDaysBeforeIncreasing(info: Table, a: int, b: int)
    requires MinYear <= a <= b <= MaxYear + 1
    ensures LunarDaysBefore(info, a) + 348 * (b - a) <= LunarDaysBefore(info, b)
    decreases b - a
  {
    if a < b {
      LunarDaysBeforeIncreasing(info, a, b - 1);
      LunarDaysBeforeGrows(info, b - 1);
    }
  }

  /** A lunar year lasts at least 348 days. */
  lemma LunarDaysBeforeGrows(info: Table, year: int)
    requires InTable(year)
    ensures LunarDaysBefore(info, year) + 348 <= LunarDaysBefore(info, year + 1)
  {
    LunarDaysBeforeStep(info, year);
  }

  /** The day offset at which the table ends: the first day of lunar 2100. */
  function TableDays(info: Table): (n: nat)
    ensures n >= 69600
  {
    LunarDaysBeforeIncreasing(info, MinYear, MaxYear + 1);
    LunarDaysBefore(info, MaxYear + 1)
  }

  /** The lunar year, from `year` on, that holds day `offset`. */
  function YearFrom(info: Table, year: int, offset: int): (y: int)
    requires MinYear <= year <= MaxYear
    requires LunarDaysBefore(info, year) <= offset < TableDays(info)
    ensures year <= y <= MaxYear
    decreases MaxYear - year
  {
    if offset < LunarDaysBefore(info, year + 1) then year else YearFrom(info, year + 1, offset)
  }

  /** The search stops at the year whose days bracket `offset`. */
  lemma {:induction false} YearFromBrackets(info: Table, year: int, offset: int)
    requires MinYear <= year <= MaxYear
    requires LunarDaysBefore(info, year) <= offset < TableDays(info)
    ensures LunarDaysBefore(info, YearFrom(info, year, offset)) <= offset < LunarDaysBefore(info, YearFrom(info, year, offset) + 1)
    decreases MaxYear - year
  {
    if offset >= LunarDaysBefore(info, year + 1) {
      assert year < MaxYear;
      assert YearFrom(info, year, offset) == YearFrom(info, year + 1, offset);
      YearFromBrackets(info, year + 1, offset);
    } else {
      assert YearFrom(info, year, offset) == year;
    }
  }

  /** The lunar year that holds day `offset` of the table. */
  function YearOf(info: Table, offset: int): (y: int)
    requires 0 <= offset < TableDays(info)
    ensures InTable(y) && LunarDaysBefore(info, y) <= offset < LunarDaysBefore(info, y + 1)
  {
    YearFromBrackets(info, MinYear, offset);
    YearFrom(info, MinYear, offset)
  }

  /** The 0-based place of day `offset` of the table in its lunar year. */
  function DayOfYear(info: Table, offset: int): (rest: int)
    requires 0 <= offset < TableDays(info)
    ensures 0 <= rest < YearLengthOf(Word(info, YearOf(info, offset)))
  {
    LunarDaysBeforeStep(info, YearOf(info, offset));
    offset - LunarDaysBefore(info, YearOf(info, offset))
  }

  /** Each day offset of the table lies in exactly one lunar year. */
  lemma YearOfUnique(info: Table, offset: int, y: int)
    requires InTable(y) && LunarDaysBefore(info, y) <= offset < LunarDaysBefore(info, y + 1)
    ensures offset < TableDays(info) && YearOf(info, offset) == y
  {
    LunarDaysBeforeIncreasing(info, y + 1, MaxYear + 1);
    var z := YearOf(info, offset);
    if z < y {
      LunarDaysBeforeIncreasing(info, z + 1, y);
      assert false;
    } else if z > y {
      LunarDaysBeforeIncreasing(info, y + 1, z);
      assert false;
    }
  }

  /** The days in month slots 1..n of lunar year `year`: 29 a month, and one
      more for each long month. */
  function MonthsTotal(info: Table, year: int, n: int): (d: int)
    requires InTable(year) && 0 <= n <= 13
    ensures 29 * n <= d <= 30 * n
  {
    29 * n + Bits.CountBits(Word(info, year), 20 - n, 20)
  }

  /** The slots add up month by month: slot n adds `daysInLunarMonth(year, n)`. */
  lemma MonthsTotalStep(info: Table, year: int, n: int)
    requires InTable(year) && 1 <= n <= 13
    ensures MonthsTotal(info, year, n) == MonthsTotal(info, year, n - 1) + DaysInLunarMonth(info, year, n)
  {
  }

  /** Later slots begin later: by at least 29 days a slot. */
  lemma {:induction false} MonthsTotalIncreasing(info: Table, year: int, a: int, b: int)
    requires InTable(year) && 0 <= a <= b <= 13
    ensures MonthsTotal(info, year, a) + 29 * (b - a) <= MonthsTotal(info, year, b)
    decreases b - a
  {
    if a < b {
      MonthsTotalIncreasing(info, year, a, b - 1);
      MonthsTotalStep(info, year, b);
    }
  }

  /** The year is its months: with a leap month all thirteen slots, without one
      the first twelve and, when bit 7 is set, one day more. The thirteen slots
      always cover the year. */
  lemma YearLengthByMonths(info: Table, year: int)
    requires InTable(year)
    ensures LeapMonth(info, year) != 0 ==> YearLengthOf(Word(info, year)) == MonthsTotal(info, year, 13)
    ensures LeapMonth(info, year) == 0 ==>
      YearLengthOf(Word(info, year)) == MonthsTotal(info, year, 12) + (if Bits.Bit(Word(info, year), 7) then 1 else 0)
    ensures YearLengthOf(Word(info, year)) <= MonthsTotal(info, year, 13)
  {
  }

  /** The month slot, from `slot` on, that holds day `rest` of lunar year `year`. */
  function SlotFrom(info: Table, year: int, slot: int, rest: int): (s: int)
    requires InTable(year) && 1 <= slot <= 13
    requires MonthsTotal(info, year, slot - 1) <= rest < MonthsTotal(info, year, 13)
    ensures slot <= s <= 13
    ensures MonthsTotal(info, year, s - 1) <= rest < MonthsTotal(info, year, s)
    decreases 13 - slot, rest
  {
    if rest < MonthsTotal(info, year, slot) then slot else SlotFrom(info, year, slot + 1, rest)
  }

  /** The month slot (1..13) that holds day `rest` (0-based) of lunar year `year`. */
  function SlotOf(info: Table, year: int, rest: int): (s: int)
    requires InTable(year) && 0 <= rest < YearLengthOf(Word(info, year))
    ensures 1 <= s <= 13
    ensures MonthsTotal(info, year, s - 1) <= rest < MonthsTotal(info, year, s)
  {
    YearLengthByMonths(info, year);
    SlotFrom(info, year, 1, rest)
  }

  /** Each day of a lunar year lies in exactly one month slot. */
  lemma SlotOfUnique(info: Table, year: int, rest: int, s: int)
    requires InTable(year) && 0 <= rest < YearLengthOf(Word(info, year))
    requires 1 <= s <= 13 && MonthsTotal(info, year, s - 1) <= rest < MonthsTotal(info, year, s)
    ensures SlotOf(info, year, rest) == s
  {
    var t := SlotOf(info, year, rest);
    if t < s {
      MonthsTotalIncreasing(info, year, t, s - 1);
      assert false;
    } else if t > s {
      MonthsTotalIncreasing(info, year, s, t - 1);
      assert false;
    }
  }

  /** The 0-based month that slot `slot` names in a year whose leap month is
      `leap` (0 for none): slots count up from the first month, and the slot
      after slot `leap` repeats month `leap`, so later slots name one month less. */
  function SlotMonth(leap: int, slot: int): int {
    slot - 1 - (if leap != 0 && slot > leap then 1 else 0)
  }

  /** Slot names never go back, slot L + 1 (the leap month L) repeats the
      month index of slot L (the ordinary month L), and
      with a leap month among 1..12 the thirteen slots name exactly the months 0..11. */
  lemma SlotMonthOrder(leap: int, s: int, t: int)
    requires s <= t
    ensures SlotMonth(leap, s) <= SlotMonth(leap, t)
    ensures 1 <= leap && t == leap + 1 ==> SlotMonth(leap, t) == SlotMonth(leap, leap) == leap - 1
    ensures t == s + 1 && !(leap != 0 && t == leap + 1) ==> SlotMonth(leap, t) == SlotMonth(leap, s) + 1
    ensures 1 <= leap <= 12 && 1 <= s <= 13 ==> 0 <= SlotMonth(leap, s) <= 11
    ensures leap == 0 && 1 <= s <= 12 ==> 0 <= SlotMonth(leap, s) <= 11
  {
  }

  /** The fields `solarToLunar` sets on the lunar `Calendar`: the lunar year,
      `month` as `Calendar.MONTH` (0 for the first month), the day of the
      month, and the hour copied from the birth date. */
  datatype LunarDate = LunarDate(year: int, month: int, day: int, hour: int)

  /** The lunar date `solarToLunar` returns for day `offset` after the base
      date. Before the table the year walk stops at 1899 and after it at 2100,
      and `leapMonth` then reads outside `LUNAR_INFO`. Inside, the date lies in
      year `YearOf(info, offset)`, month slot `SlotOf` and the day counted from the
      start of that slot; the month is `SlotMonth`, one less again on the days
      after the first of the slot that carries the leap month's own number. */
  function LunarOf(info: Table, offset: int, hour: int): (r: Result<LunarDate>)
    ensures r.Success? <==> 0 <= offset < TableDays(info)
    ensures offset < 0 ==> r == Failure(ArrayIndexOutOfBounds(-1, TableSize))
    ensures offset >= TableDays(info) ==> r == Failure(ArrayIndexOutOfBounds(TableSize, TableSize))
    ensures r.Success? ==> InTable(r.value.year) && r.value.hour == hour
  {
    if offset < 0 then Failure(ArrayIndexOutOfBounds(-1, TableSize))
    else if offset >= TableDays(info) then Failure(ArrayIndexOutOfBounds(TableSize, TableSize))
    else
      Success(DateInYear(info, YearOf(info, offset), DayOfYear(info, offset), hour))
  }

  /** The date `rest` days (0-based) into lunar year `year`, as `solarToLunar`
      labels it. */
  function DateInYear(info: Table, year: int, rest: int, hour: int): (r: LunarDate)
    requires InTable(year) && 0 <= rest < YearLengthOf(Word(info, year))
    ensures r.year == year && r.hour == hour
  {
    var slot := SlotOf(info, year, rest);
    var day := rest - MonthsTotal(info, year, slot - 1) + 1;
    var leap := LeapMonth(info, year);
    LunarDate(year, SlotMonth(leap, slot) - (if leap != 0 && slot == leap && day > 1 then 1 else 0), day, hour)
  }

  /** The lunar date of day `offset` as the walk means it: the month is the
      one the slot names, on every day of the slot. */
  function CorrectedLunarOf(info: Table, offset: int, hour: int): (r: LunarDate)
    requires 0 <= offset < TableDays(info)
    ensures InTable(r.year) && r.hour == hour
  {
    CorrectedDateInYear(info, YearOf(info, offset), DayOfYear(info, offset), hour)
  }

  /** The date `rest` days (0-based) into lunar year `year`, labelled with the
      month its slot names. */
  function CorrectedDateInYear(info: Table, year: int, rest: int, hour: int): (r: LunarDate)
    requires InTable(year) && 0 <= rest < YearLengthOf(Word(info, year))
    ensures r.year == year && r.hour == hour
  {
    var slot := SlotOf(info, year, rest);
    LunarDate(year, SlotMonth(LeapMonth(info, year), slot), rest - MonthsTotal(info, year, slot - 1) + 1, hour)
  }

  /** Inside the table, LunarOf labels day `offset` by its year and by its
      place in that year. */
  lemma LunarOfInTable(info: Table, offset: int, hour: int)
    requires 0 <= offset < TableDays(info)
    ensures LunarOf(info, offset, hour) == Success(DateInYear(info, YearOf(info, offset), DayOfYear(info, offset), hour))
  {
  }

  /** The same for CorrectedLunarOf. */
  lemma CorrectedLunarOfInTable(info: Table, offset: int, hour: int)
    requires 0 <= offset < TableDays(info)
    ensures CorrectedLunarOf(info, offset, hour) == CorrectedDateInYear(info, YearOf(info, offset), DayOfYear(info, offset), hour)
  {
  }

  /** Day `rest` (0-based) of lunar year `year` is day
      `offset = LunarDaysBefore(info, year) + rest` of the table. */
  lemma DayInTable(info: Table, year: int, rest: int, offset: int)
    requires InTable(year) && 0 <= rest < YearLengthOf(Word(info, year))
    requires offset == LunarDaysBefore(info, year) + rest
    ensures 0 <= offset < TableDays(info) && YearOf(info, offset) == year && DayOfYear(info, offset) == rest
  {
    LunarDaysBeforeStep(info, year);
    LunarDaysBeforeIncreasing(info, year + 1, MaxYear + 1);
    YearOfUnique(info, offset, year);
  }

  /** LunarOf labels that day as DateInYear does. */
  lemma LunarOfDayOfYear(info: Table, year: int, rest: int, offset: int, hour: int)
    requires InTable(year) && 0 <= rest < YearLengthOf(Word(info, year))
    requires offset == LunarDaysBefore(info, year) + rest
    ensures 0 <= offset < TableDays(info)
    ensures LunarOf(info, offset, hour) == Success(DateInYear(info, year, rest, hour))
  {
    DayInTable(info, year, rest, offset);
    LunarOfInTable(info, offset, hour);
  }

  /** Later days of a year lie in the same slot or a later one. */
  lemma SlotOfMonotone(info: Table, year: int, r1: int, r2: int)
    requires InTable(year) && 0 <= r1 <= r2 < YearLengthOf(Word(info, year))
    ensures SlotOf(info, year, r1) <= SlotOf(info, year, r2)
  {
    var s, t := SlotOf(info, year, r1), SlotOf(info, year, r2);
    if t < s {
      MonthsTotalIncreasing(info, year, t, s - 1);
      assert false;
    }
  }

  /** The day of the month is the day's place in its slot: from 1 up to the
      slot's length, never more than 30. Both labellings agree on it. */
  lemma DateInYearDay(info: Table, year: int, rest: int, hour: int)
    requires InTable(year) && 0 <= rest < YearLengthOf(Word(info, year))
    ensures var d := DateInYear(info, year, rest, hour);
      1 <= d.day <= DaysInLunarMonth(info, year, SlotOf(info, year, rest)) <= 30
      && d.day == CorrectedDateInYear(info, year, rest, hour).day
  {
    MonthsTotalStep(info, year, SlotOf(info, year, rest));
  }

  /** The day after a day of the year, in the slot labelling: the next day of
      the same month while the slot lasts (`CorrectedNextInSlot`), and the
      first day of the next slot after its last day (`CorrectedNextSlot`). */
  lemma CorrectedNextInSlot(info: Table, year: int, rest: int, slot: int, hour: int)
    requires InTable(year) && 0 <= rest && rest + 1 < YearLengthOf(Word(info, year))
    requires slot == SlotOf(info, year, rest)
    requires CorrectedDateInYear(info, year, rest, hour).day < DaysInLunarMonth(info, year, slot)
    ensures SlotOf(info, year, rest + 1) == slot
    ensures CorrectedDateInYear(info, year, rest + 1, hour).day == CorrectedDateInYear(info, year, rest, hour).day + 1
    ensures CorrectedDateInYear(info, year, rest + 1, hour).month == CorrectedDateInYear(info, year, rest, hour).month
  {
    MonthsTotalStep(info, year, slot);
    SlotOfUnique(info, year, rest + 1, slot);
  }

  lemma CorrectedNextSlot(info: Table, year: int, rest: int, slot: int, hour: int)
    requires InTable(year) && 0 <= rest && rest + 1 < YearLengthOf(Word(info, year))
    requires slot == SlotOf(info, year, rest)
    requires CorrectedDateInYear(info, year, rest, hour).day >= DaysInLunarMonth(info, year, slot)
    ensures SlotOf(info, year, rest + 1) == slot + 1
    ensures CorrectedDateInYear(info, year, rest + 1, hour).day == 1
  {
    SlotLastDay(info, year, rest, slot, hour);
    SlotFirstDay(info, year, rest + 1, slot, hour);
  }

  /** A day whose place in its slot reaches the slot's length is the slot's
      last: the next day starts the next slot. */
  lemma SlotLastDay(info: Table, year: int, rest: int, slot: int, hour: int)
    requires InTable(year) && 0 <= rest < YearLengthOf(Word(info, year))
    requires slot == SlotOf(info, year, rest)
    requires CorrectedDateInYear(info, year, rest, hour).day >= DaysInLunarMonth(info, year, slot)
    ensures rest + 1 == MonthsTotal(info, year, slot)
  {
    MonthsTotalStep(info, year, slot);
  }

  /** The day that starts slot `slot + 1` is its first. */
  lemma SlotFirstDay(info: Table, year: int, next: int, slot: int, hour: int)
    requires InTable(year) && 1 <= slot <= 13 && 0 <= next < YearLengthOf(Word(info, year))
    requires next == MonthsTotal(info, year, slot)
    ensures SlotOf(info, year, next) == slot + 1
    ensures CorrectedDateInYear(info, year, next, hour).day == 1
  {
    var start := MonthsTotal(info, year, slot);
    SlotStartsNext(info, year, next, slot);
    CorrectedDay(info, year, next, slot + 1, start, hour);
  }

  /** The slot labelling counts the day of the month from the start of the slot. */
  lemma CorrectedDay(info: Table, year: int, rest: int, slot: int, start: int, hour: int)
    requires InTable(year) && 0 <= rest < YearLengthOf(Word(info, year))
    requires slot == SlotOf(info, year, rest) && start == MonthsTotal(info, year, slot - 1)
    ensures CorrectedDateInYear(info, year, rest, hour).day == rest - start + 1
  {
  }

  /** The first day after slot `slot` that is still in the year lies in slot
      `slot + 1`. */
  lemma SlotStartsNext(info: Table, year: int, next: int, slot: int)
    requires InTable(year) && 1 <= slot <= 13 && 0 <= next < YearLengthOf(Word(info, year))
    requires next == MonthsTotal(info, year, slot)
    ensures slot < 13 && SlotOf(info, year, next) == slot + 1
  {
    YearLengthByMonths(info, year);
    MonthsTotalStep(info, year, slot + 1);
    SlotOfUnique(info, year, next, slot + 1);
  }

  /** With the months the slots name, a lunar year never goes back a month,
      and all days of one slot carry the same month. */
  lemma CorrectedMonthOrder(info: Table, year: int, r1: int, r2: int, hour: int)
    requires InTable(year) && 0 <= r1 <= r2 < YearLengthOf(Word(info, year))
    ensures CorrectedDateInYear(info, year, r1, hour).month <= CorrectedDateInYear(info, year, r2, hour).month
    ensures SlotOf(info, year, r1) == SlotOf(info, year, r2) ==>
      CorrectedDateInYear(info, year, r1, hour).month == CorrectedDateInYear(info, year, r2, hour).month
  {
    SlotOfMonotone(info, year, r1, r2);
    SlotMonthOrder(LeapMonth(info, year), SlotOf(info, year, r1), SlotOf(info, year, r2));
  }

  /** `solarToLunar` and the slot labelling agree on everything but the
      month, and on the month too except on the days after the first of the
      slot numbered like the leap month: there `solarToLunar` gives one month
      less. */
  lemma DateInYearDeviation(info: Table, year: int, rest: int, hour: int)
    requires InTable(year) && 0 <= rest < YearLengthOf(Word(info, year))
    ensures var d, c := DateInYear(info, year, rest, hour), CorrectedDateInYear(info, year, rest, hour);
      var slot, leap := SlotOf(info, year, rest), LeapMonth(info, year);
      d.year == c.year && d.day == c.day && d.hour == c.hour
      && d.month == c.month - (if leap != 0 && slot == leap && d.day > 1 then 1 else 0)
  {
  }

  /** The same, for day `offset` of the table. */
  lemma LunarOfDeviation(info: Table, offset: int, hour: int)
    requires 0 <= offset < TableDays(info)
    ensures var d, c := LunarOf(info, offset, hour).value, CorrectedLunarOf(info, offset, hour);
      var slot, leap := SlotOf(info, YearOf(info, offset), DayOfYear(info, offset)), LeapMonth(info, YearOf(info, offset));
      d.year == c.year && d.day == c.day && d.hour == c.hour
      && d.month == c.month - (if leap != 0 && slot == leap && d.day > 1 then 1 else 0)
  {
    LunarOfInTable(info, offset, hour);
    CorrectedLunarOfInTable(info, offset, hour);
    DateInYearDeviation(info, YearOf(info, offset), DayOfYear(info, offset), hour);
  }

  /** `solarToLunar` gives every day of the table a day of the month from 1
      to 30 (the slot labelling gives the same day, `LunarOfDeviation`). */
  lemma LunarOfDayRange(info: Table, offset: int, hour: int)
    requires 0 <= offset < TableDays(info)
    ensures 1 <= LunarOf(info, offset, hour).value.day <= 30
  {
    LunarOfInTable(info, offset, hour);
    DateInYearDay(info, YearOf(info, offset), DayOfYear(info, offset), hour);
  }

  /** Day 0, the base date 1900-01-31, is the first day of the first month of
      lunar 1900. */
  lemma LunarOfBaseDay(info: Table, offset: int, hour: int)
    requires offset == 0
    ensures LunarOf(info, offset, hour) == Success(LunarDate(MinYear, 0, 1, hour))
    ensures CorrectedLunarOf(info, offset, hour) == LunarDate(MinYear, 0, 1, hour)
  {
    var year := MinYear;
    DayInTable(info, year, 0, offset);
    FirstDayOfYear(info, year, hour);
    LunarOfInTable(info, offset, hour);
    CorrectedLunarOfInTable(info, offset, hour);
  }

  /** Day 0 of every lunar year is the first day of its first month. */
  lemma FirstDayOfYear(info: Table, year: int, hour: int)
    requires InTable(year)
    ensures DateInYear(info, year, 0, hour) == LunarDate(year, 0, 1, hour)
    ensures CorrectedDateInYear(info, year, 0, hour) == LunarDate(year, 0, 1, hour)
  {
    SlotOfUnique(info, year, 0, 1);
  }

  /** In a year with leap month L, slot L holds the ordinary month L and
      slot L + 1 the leap month. `solarToLunar` labels the first day of slot L
      with month index L - 1 (`LeapNumberedSlotFirstDay`) and the day after it with
      month index L - 2 (`LeapNumberedSlotSecondDay`): a day later, a month earlier.
      The slot labelling gives both days month index L - 1 (`LeapNumberedSlotDates`).
      Lunar 2014, whose leap month is the ninth, is such a year. */
  lemma LeapNumberedSlotFirstDay(info: Table, year: int, leap: int, offset: int, hour: int)
    requires InTable(year) && leap == LeapMonth(info, year) && 2 <= leap <= 12
    requires offset == LeapNumberedSlotStart(info, year)
    ensures offset < TableDays(info)
    ensures LunarOf(info, offset, hour) == Success(LunarDate(year, leap - 1, 1, hour))
  {
    var rest := MonthsTotal(info, year, leap - 1);
    LeapNumberedSlotDates(info, year, leap, rest, hour);
    LunarOfDayOfYear(info, year, rest, offset, hour);
  }

  lemma LeapNumberedSlotSecondDay(info: Table, year: int, leap: int, offset: int, hour: int)
    requires InTable(year) && leap == LeapMonth(info, year) && 2 <= leap <= 12
    requires offset == LeapNumberedSlotStart(info, year) + 1
    ensures offset < TableDays(info)
    ensures LunarOf(info, offset, hour) == Success(LunarDate(year, leap - 2, 2, hour))
  {
    var rest := MonthsTotal(info, year, leap - 1);
    LeapNumberedSlotDates(info, year, leap, rest, hour);
    LunarOfDayOfYear(info, year, rest + 1, offset, hour);
  }

  /** The day offset of the first day of slot L in a year with leap month L. */
  function LeapNumberedSlotStart(info: Table, year: int): int
    requires InTable(year) && 1 <= LeapMonth(info, year) <= 14
  {
    LunarDaysBefore(info, year) + MonthsTotal(info, year, LeapMonth(info, year) - 1)
  }

  /** Slot L of a year with leap month L (`rest` days into the year) holds
      at least two days, and ends inside the year. */
  lemma LeapNumberedSlotLength(info: Table, year: int, leap: int, rest: int)
    requires InTable(year) && leap == LeapMonth(info, year) && 2 <= leap <= 12
    requires rest == MonthsTotal(info, year, leap - 1)
    ensures rest + 1 < MonthsTotal(info, year, leap) <= YearLengthOf(Word(info, year))
  {
    YearLengthByMonths(info, year);
    MonthsTotalIncreasing(info, year, leap, 13);
    MonthsTotalStep(info, year, leap);
  }

  /** The first two days of slot L, day `rest` and day `rest + 1` of the year,
      lie in slot L. */
  lemma LeapNumberedSlotDays(info: Table, year: int, leap: int, rest: int)
    requires InTable(year) && leap == LeapMonth(info, year) && 2 <= leap <= 12
    requires rest == MonthsTotal(info, year, leap - 1)
    ensures rest + 1 < YearLengthOf(Word(info, year))
    ensures SlotOf(info, year, rest) == leap && SlotOf(info, year, rest + 1) == leap
  {
    LeapNumberedSlotFirstInSlot(info, year, leap, rest);
    LeapNumberedSlotSecondInSlot(info, year, leap, rest);
  }

  lemma LeapNumberedSlotFirstInSlot(info: Table, year: int, leap: int, rest: int)
    requires InTable(year) && leap == LeapMonth(info, year) && 2 <= leap <= 12
    requires rest == MonthsTotal(info, year, leap - 1)
    ensures rest + 1 < YearLengthOf(Word(info, year))
    ensures SlotOf(info, year, rest) == leap
  {
    LeapNumberedSlotLength(info, year, leap, rest);
    SlotOfUnique(info, year, rest, leap);
  }

  lemma LeapNumberedSlotSecondInSlot(info: Table, year: int, leap: int, rest: int)
    requires InTable(year) && leap == LeapMonth(info, year) && 2 <= leap <= 12
    requires rest == MonthsTotal(info, year, leap - 1)
    ensures rest + 1 < YearLengthOf(Word(info, year))
    ensures SlotOf(info, year, rest + 1) == leap
  {
    LeapNumberedSlotLength(info, year, leap, rest);
    SlotOfUnique(info, year, rest + 1, leap);
  }

  /** The first two days of slot L in a year with leap month L, as both
      labellings name them. */
  lemma LeapNumberedSlotDates(info: Table, year: int, leap: int, rest: int, hour: int)
    requires InTable(year) && leap == LeapMonth(info, year) && 2 <= leap <= 12
    requires rest == MonthsTotal(info, year, leap - 1)
    ensures rest + 1 < YearLengthOf(Word(info, year))
    ensures DateInYear(info, year, rest, hour) == LunarDate(year, leap - 1, 1, hour)
    ensures DateInYear(info, year, rest + 1, hour) == LunarDate(year, leap - 2, 2, hour)
    ensures CorrectedDateInYear(info, year, rest, hour).month == leap - 1
    ensures CorrectedDateInYear(info, year, rest + 1, hour).month == leap - 1
  {
    LeapNumberedSlotDays(info, year, leap, rest);
  }

  /** The year loop of `solarToLunar` and the step back after it: subtract
      whole lunar years from day `offset0` while it stays positive, and undo
      the last subtraction if it went below zero. Before the table the walk
      stops at 1899, past it at 2100; inside, it finds the year of the day and
      the day's 0-based place in that year. */
  method WalkYears(info: Table, offset0: int) returns (iYear: int, offset: int)
    ensures offset0 < 0 ==> iYear == MinYear - 1 && offset == offset0
    ensures 0 <= offset0 < TableDays(info) ==>
      iYear == YearOf(info, offset0) && offset == offset0 - LunarDaysBefore(info, iYear)
    ensures offset0 >= TableDays(info) ==> iYear == MaxYear + 1 && offset == offset0 - TableDays(info)
  {
    var daysOfYear := 0;
    offset := offset0;
    iYear := MinYear;
    ghost var last := MinYear - 1;
    while iYear <= MaxYear && offset > 0
      invariant MinYear <= iYear <= MaxYear + 1 && last == iYear - 1
      invariant offset == offset0 - LunarDaysBefore(info, iYear)
      invariant iYear == MinYear ==> daysOfYear == 0
      invariant iYear > MinYear ==> offset + daysOfYear == offset0 - LunarDaysBefore(info, last) > 0
    {
      daysOfYear := DaysInLunarYear(info, iYear);
      offset := offset - daysOfYear;
      LunarDaysBeforeStep(info, iYear);
      last := iYear;
      iYear := iYear + 1;
    }
    ghost var stopped := iYear;
    if offset < 0 {
      offset := offset + daysOfYear;
      iYear := iYear - 1;
    }
    WalkYearsEnds(info, offset0, stopped, last, iYear, offset);
  }

  /** Where the year walk stops: at `stopped`, the first year whose start is
      not before the day (or past the table), then one year back if the day
      lies before that start. */
  lemma WalkYearsEnds(info: Table, offset0: int, stopped: int, last: int, iYear: int, offset: int)
    requires MinYear <= stopped <= MaxYear + 1 && last == stopped - 1
    requires stopped <= MaxYear ==> offset0 <= LunarDaysBefore(info, stopped)
    requires stopped > MinYear ==> offset0 > LunarDaysBefore(info, last)
    requires offset0 < LunarDaysBefore(info, stopped) ==>
      iYear == last && offset == offset0 - (if stopped == MinYear then 0 else LunarDaysBefore(info, last))
    requires offset0 >= LunarDaysBefore(info, stopped) ==>
      iYear == stopped && offset == offset0 - LunarDaysBefore(info, stopped)
    ensures offset0 < 0 ==> iYear == MinYear - 1 && offset == offset0
    ensures 0 <= offset0 < TableDays(info) ==>
      iYear == YearOf(info, offset0) && offset == offset0 - LunarDaysBefore(info, iYear)
    ensures offset0 >= TableDays(info) ==> iYear == MaxYear + 1 && offset == offset0 - TableDays(info)
  {
    if 0 <= offset0 < TableDays(info) {
      if offset0 < LunarDaysBefore(info, stopped) {
        YearOfUnique(info, offset0, stopped - 1);
      } else {
        LunarDaysBeforeStep(info, stopped);
        YearOfUnique(info, offset0, stopped);
      }
    } else if offset0 >= TableDays(info) && stopped <= MaxYear {
      LunarDaysBeforeIncreasing(info, stopped, MaxYear + 1);
    }
  }

  /** The month loop of `solarToLunar`: subtract month lengths, slot 1 first,
      from day `rest` of lunar year `year` while it stays positive. The loop
      ends either exactly at the start of the day's slot (offset 0, the day is
      the slot's first) or one slot past it (offset below 0, and adding back
      the last month length gives the day's place in its slot). */
  method WalkMonths(info: Table, year: int, rest: int) returns (iMonth: int, offset: int, daysOfMonth: int)
    requires InTable(year) && 0 <= rest < YearLengthOf(Word(info, year))
    ensures var slot := SlotOf(info, year, rest);
      (offset == 0 && iMonth == slot && rest == MonthsTotal(info, year, slot - 1))
      || (offset < 0 && iMonth == slot + 1 && offset + daysOfMonth == rest - MonthsTotal(info, year, slot - 1) > 0)
  {
    daysOfMonth := 0;
    offset := rest;
    iMonth := 1;
    while iMonth <= 13 && offset > 0
      invariant 1 <= iMonth <= 14
      invariant offset == rest - MonthsTotal(info, year, iMonth - 1)
      invariant iMonth > 1 ==> daysOfMonth == DaysInLunarMonth(info, year, iMonth - 1) && offset + daysOfMonth > 0
    {
      daysOfMonth := DaysInLunarMonth(info, year, iMonth);
      offset := offset - daysOfMonth;
      MonthsTotalStep(info, year, iMonth);
      iMonth := iMonth + 1;
    }
    if offset == 0 {
      WalkMonthsEndsOnSlot(info, year, rest, iMonth);
    } else {
      WalkMonthsEndsPastSlot(info, year, rest, iMonth, offset, daysOfMonth);
    }
  }

  /** The month walk stopping at offset 0 stops at the day's own slot, whose
      first day the day is. */
  lemma WalkMonthsEndsOnSlot(info: Table, year: int, rest: int, iMonth: int)
    requires InTable(year) && 0 <= rest < YearLengthOf(Word(info, year))
    requires 1 <= iMonth <= 14 && rest == MonthsTotal(info, year, iMonth - 1)
    ensures var slot := SlotOf(info, year, rest);
      iMonth == slot && rest == MonthsTotal(info, year, slot - 1)
  {
    YearLengthByMonths(info, year);
    MonthsTotalStep(info, year, iMonth);
    SlotOfUnique(info, year, rest, iMonth);
  }

  /** The month walk stopping below 0 stops one slot past the day's own, and
      the last month length it subtracted brings it back to the day's place
      in that slot. */
  lemma WalkMonthsEndsPastSlot(info: Table, year: int, rest: int, iMonth: int, offset: int, daysOfMonth: int)
    requires InTable(year) && 0 <= rest < YearLengthOf(Word(info, year))
    requires 1 <= iMonth <= 14 && offset == rest - MonthsTotal(info, year, iMonth - 1) && offset < 0
    requires iMonth > 1 ==> daysOfMonth == DaysInLunarMonth(info, year, iMonth - 1) && offset + daysOfMonth > 0
    ensures var slot := SlotOf(info, year, rest);
      iMonth == slot + 1 && offset + daysOfMonth == rest - MonthsTotal(info, year, slot - 1) > 0
  {
    YearLengthByMonths(info, year);
    assert iMonth >= 2;
    MonthsTotalStep(info, year, iMonth - 1);
    assert MonthsTotal(info, year, iMonth - 2) < rest < MonthsTotal(info, year, iMonth - 1);
    SlotOfUnique(info, year, rest, iMonth - 1);
    ghost var before := MonthsTotal(info, year, iMonth - 2);
    assert offset + daysOfMonth == rest - before;
    assert MonthsTotal(info, year, SlotOf(info, year, rest) - 1) == before;
  }

  /** The label `solarToLunar` puts on the day after its month walk: the
      walk's slot, less one past the leap month, less one again when the walk
      overshot, with the place in the slot as the day. */
  lemma WalkLabelsDate(info: Table, year: int, rest: int, walked: int, month: int, offset: int, hour: int)
    requires InTable(year) && 0 <= rest < YearLengthOf(Word(info, year))
    requires var slot := SlotOf(info, year, rest);
      var leap := LeapMonth(info, year);
      var past := if leap != 0 && walked > leap then 1 else 0;
      (walked == slot && offset == 0 && rest == MonthsTotal(info, year, slot - 1) && month == walked - past)
      || (walked == slot + 1 && offset + 1 == rest - MonthsTotal(info, year, slot - 1) + 1 > 1 && month == walked - past - 1)
    ensures LunarDate(year, month - 1, offset + 1, hour) == DateInYear(info, year, rest, hour)
  {
    var slot := SlotOf(info, year, rest);
    var leap := LeapMonth(info, year);
    var d := DateInYear(info, year, rest, hour);
    var day := rest - MonthsTotal(info, year, slot - 1) + 1;
    assert d.day == day;
    assert d.month == SlotMonth(leap, slot) - (if leap != 0 && slot == leap && day > 1 then 1 else 0);
    assert offset + 1 == day;
  }

  // The day offset `solarToLunar` starts from.

  /** `new GregorianCalendar(MIN_YEAR, Calendar.JANUARY, 31)`, midnight of the
      first day of lunar 1900. */
  const BaseDate: SolarCalendar.SolarDate := SolarCalendar.SolarDate(MinYear, 1, 31, 0)

  const MillisPerDay: int := 86400000
  const MillisPerHour: int := 3600000

  /** The calendar days from the base date to the birth date. */
  function DaysSinceBase(birth: SolarCalendar.SolarDate): int
    requires birth.Valid()
  {
    SolarCalendar.DayNumber(birth) - SolarCalendar.DayNumber(BaseDate)
  }

  /** The milliseconds from the base date to the birth date at its hour, in a
      time zone whose offset never changes. */
  function MillisSinceBase(birth: SolarCalendar.SolarDate): int
    requires birth.Valid()
  {
    DaysSinceBase(birth) * MillisPerDay + birth.hour * MillisPerHour
  }

  /** The day offset `solarToLunar` computes: the milliseconds since the base
      date divided by a day's with Java's `/`, which truncates toward zero.
      From the base date on that is the number of calendar days; before it,
      any hour but midnight moves the offset one day up, so the day before
      the base date is read as the base date itself. */
  function DayOffset(birth: SolarCalendar.SolarDate): (offset: int)
    requires birth.Valid()
    ensures DaysSinceBase(birth) >= 0 || birth.hour == 0 ==> offset == DaysSinceBase(birth)
    ensures DaysSinceBase(birth) < 0 && birth.hour > 0 ==> offset == DaysSinceBase(birth) + 1
  {
    TruncatedDays(DaysSinceBase(birth), birth.hour, MillisSinceBase(birth));
    JavaInt.Div(MillisSinceBase(birth), MillisPerDay)
  }

  /** Java's division of a number of milliseconds by a day's. */
  lemma TruncatedDays(days: int, hour: int, millis: int)
    requires 0 <= hour <= 23 && millis == days * MillisPerDay + hour * MillisPerHour
    ensures days >= 0 || hour == 0 ==> JavaInt.Div(millis, MillisPerDay) == days
    ensures days < 0 && hour > 0 ==> JavaInt.Div(millis, MillisPerDay) == days + 1
  {
    if days >= 0 {
      Bits.DivModUnique(millis, MillisPerDay, days, hour * MillisPerHour);
    } else if hour == 0 {
      Bits.DivModUnique(-millis, MillisPerDay, -days, 0);
    } else {
      Bits.DivModUnique(-millis, MillisPerDay, -days - 1, MillisPerDay - hour * MillisPerHour);
    }
  }

  /** The day offset as intended: the milliseconds since the base date
      divided by a day's rounding down, which is the number of calendar days
      to the birth date whatever the hour. */
  function CorrectedDayOffset(birth: SolarCalendar.SolarDate): (offset: int)
    requires birth.Valid()
    ensures offset == DaysSinceBase(birth)
  {
    Bits.DivModUnique(MillisSinceBase(birth), MillisPerDay, DaysSinceBase(birth), birth.hour * MillisPerHour);
    MillisSinceBase(birth) / MillisPerDay
  }

  /** As written, 05:00 on 30 January 1900, a day before the table starts, is
      read as the base date and converted to the first day of lunar 1900; the
      corrected offset is -1 and the conversion fails. */
  lemma DayBeforeBaseReadsAsBase(info: Table, birth: SolarCalendar.SolarDate)
    requires birth == SolarCalendar.SolarDate(1900, 1, 30, 5)
    ensures birth.Valid() && DaysSinceBase(birth) == -1
    ensures DayOffset(birth) == 0 && LunarOf(info, DayOffset(birth), birth.hour) == Success(LunarDate(MinYear, 0, 1, 5))
    ensures CorrectedDayOffset(birth) == -1 && LunarOf(info, CorrectedDayOffset(birth), birth.hour).Failure?
  {
    assert SolarCalendar.DayNumber(birth) + 1 == SolarCalendar.DayNumber(BaseDate);
    LunarOfBaseDay(info, 0, 5);
  }

  /** `solarToLunar`: the day offset of the birth date, the year walk,
      `leapMonth` of the year it stops at, the month walk, then the leap
      correction followed by the step back. The result holds the fields it
      sets on the lunar `Calendar`, with the birth hour copied. */
  method SolarToLunar(info: Table, birth: SolarCalendar.SolarDate) returns (r: Result<LunarDate>)
    requires birth.Valid()
    ensures r == LunarOf(info, DayOffset(birth), birth.hour)
  {
    var offset0 := DayOffset(birth);
    var hour := birth.hour;
    var iYear, offset := WalkYears(info, offset0);
    if !InTable(iYear) {
      assert offset0 < 0 || offset0 >= TableDays(info);
      return Failure(ArrayIndexOutOfBounds(iYear - MinYear, TableSize));
    }
    assert 0 <= offset0 < TableDays(info);
    var leapMonth := LeapMonth(info, iYear);
    ghost var rest := offset;
    assert rest == DayOfYear(info, offset0);
    LunarOfInTable(info, offset0, hour);
    var iMonth, daysOfMonth;
    iMonth, offset, daysOfMonth := WalkMonths(info, iYear, offset);
    ghost var walked := iMonth;
    if leapMonth != 0 && iMonth > leapMonth {
      iMonth := iMonth - 1;
    }
    if offset < 0 {
      offset := offset + daysOfMonth;
      iMonth := iMonth - 1;
    }
    WalkLabelsDate(info, iYear, rest, walked, iMonth, offset, hour);
    r := Success(LunarDate(iYear, iMonth - 1, offset + 1, hour));
  }

  // Reading the lunar Calendar back.

  /** `Calendar.get` on the calendar `solarToLunar` returns: it is a lenient
      `GregorianCalendar`, so the lunar year, month index and day it was set to
      are read as a Gregorian date, and a day past the end of that Gregorian
      month carries into the next month (a month index of -1 or 12 into the
      year before or after). */
  function CalendarView(d: LunarDate): (v: LunarDate)
    requires 0 <= d.hour <= 23
    ensures v.hour == d.hour && 0 <= v.month <= 11
    ensures 1 <= v.day <= SolarCalendar.DaysInMonth(v.year, v.month + 1)
    ensures 0 <= d.month <= 11 && 1 <= d.day <= SolarCalendar.DaysInMonth(d.year, d.month + 1) ==> v == d
  {
    var s := SolarCalendar.Lenient(d.year, d.month, d.day, d.hour);
    var v := LunarDate(s.year, s.CalendarMonth(), s.day, s.hour);
    if 0 <= d.month <= 11 && 1 <= d.day <= SolarCalendar.DaysInMonth(d.year, d.month + 1) then
      SolarCalendar.LenientInRange(SolarCalendar.SolarDate(d.year, d.month + 1, d.day, d.hour));
      v
    else v
  }

  /** The date the view reads is `d.day - 1` days after the first of the
      Gregorian month the lunar year and month index name. */
  lemma CalendarViewDayNumber(d: LunarDate)
    requires 0 <= d.hour <= 23 && 0 <= d.month <= 11
    ensures var v := CalendarView(d);
      SolarCalendar.DayNumber(SolarCalendar.SolarDate(v.year, v.month + 1, v.day, v.hour))
        == SolarCalendar.DayNumber(SolarCalendar.FirstOfMonth(d.year, d.month + 1, d.hour)) + d.day - 1
  {
    SolarCalendar.LenientDayNumber(d.year, d.month, d.day, d.hour, d.year, d.month + 1);
  }

  /** The thirtieth day of a long second month, in a year whose leap month is
      neither the first nor the second, is labelled month index 1, day 30. */
  lemma SecondMonthThirtieth(info: Table, year: int, offset: int, hour: int)
    requires InTable(year) && LeapMonth(info, year) != 1 && LeapMonth(info, year) != 2
    requires DaysInLunarMonth(info, year, 2) == 30
    requires offset == LunarDaysBefore(info, year) + DaysInLunarMonth(info, year, 1) + 29
    ensures LunarOf(info, offset, hour) == Success(LunarDate(year, 1, 30, hour))
  {
    var rest := DaysInLunarMonth(info, year, 1) + 29;
    MonthsTotalStep(info, year, 1);
    MonthsTotalStep(info, year, 2);
    MonthsTotalIncreasing(info, year, 2, 12);
    YearLengthByMonths(info, year);
    DayInTable(info, year, rest, offset);
    SlotOfUnique(info, year, rest, 2);
    LunarOfDayOfYear(info, year, rest, offset, hour);
  }

  /** As written, lunar 1900 has a long second month after a short first one
      and no early leap month, so its day 30 is solar 30 March 1900, 58 days
      after the base date; read back from the lenient calendar it becomes the
      second day of the third month. */
  lemma SecondMonthRollsOver(hour: int)
    requires 0 <= hour <= 23
    ensures LeapMonth(LunarInfo, 1900) == 8
    ensures DaysInLunarMonth(LunarInfo, 1900, 1) == 29 && DaysInLunarMonth(LunarInfo, 1900, 2) == 30
    ensures DayOffset(SolarCalendar.SolarDate(1900, 3, 30, hour)) == 58
    ensures CalendarView(LunarDate(1900, 1, 30, hour)) == LunarDate(1900, 2, 2, hour)
  {
    LeapMonthExamples();
    MonthsOf1900();
    DayOffsetOf1900(hour);
    assert SolarCalendar.DaysInMonth(1900, 2) == 28;
  }

  /** Lunar 1900: a short first month and a long second one. */
  lemma MonthsOf1900()
    ensures DaysInLunarMonth(LunarInfo, 1900, 1) == 29 && DaysInLunarMonth(LunarInfo, 1900, 2) == 30
  {
    LunarInfoLength();
    assert Word(LunarInfo, 1900) == 0x84B6BF;
    Pow2Constants();
    assert Bits.Pow2(18) == 0x40000;
  }

  /** 30 March 1900 is 58 days after the base date. */
  lemma DayOffsetOf1900(hour: int)
    requires 0 <= hour <= 23
    ensures DayOffset(SolarCalendar.SolarDate(1900, 3, 30, hour)) == 58
  {
    assert SolarCalendar.DayNumber(SolarCalendar.SolarDate(1900, 3, 30, hour)) == SolarCalendar.DayNumber(BaseDate) + 58;
  }

  // The rendering of a lunar date.

  /** `LUNAR_MONTH_MAPPING`: the names of the twelve months by 0-based index. */
  const LunarMonthMapping: map<int, string> := map[
    0 := "正", 1 := "二", 2 := "三", 3 := "四", 4 := "五", 5 := "六",
    6 := "七", 7 := "八", 8 := "九", 9 := "十", 10 := "冬", 11 := "腊"]

  /** `DAY_NUM_MAPPING`: the digit names, with both 0 and 10 as 十. */
  const DayNumMapping: map<int, string> := map[
    1 := "一", 2 := "二", 3 := "三", 4 := "四", 5 := "五", 6 := "六",
    7 := "七", 8 := "八", 9 := "九", 10 := "十", 0 := "十"]

  /** The name of a month: one character for the twelve indices 0..11, and
      the text "null" for any other index, which is what appending the
      missing entry of `ImmutableMap.get` to a `StringBuilder` gives. */
  function MonthName(month: int): (s: string)
    ensures 0 <= month <= 11 ==> |s| == 1
    ensures !(0 <= month <= 11) ==> s == "null"
  {
    if month in LunarMonthMapping then LunarMonthMapping[month] else "null"
  }

  /** The tens character of a day: 初 up to 10, 十 for 11..19, 廿 for 20..29
      and 三 from 30. */
  function TenBit(lunarDay: int): (s: string)
    ensures lunarDay <= 10 ==> s == "初"
    ensures 11 <= lunarDay <= 19 ==> s == "十"
    ensures 20 <= lunarDay <= 29 ==> s == "廿"
    ensures lunarDay >= 30 ==> s == "三"
  {
    if lunarDay > 10 then (if lunarDay >= 20 then (if lunarDay >= 30 then "三" else "廿") else "十") else "初"
  }

  /** The name of a day: the tens character and the name of the last digit
      (`lunarDay % 10`), so day 10 is 初十, day 20 is 廿十 and day 30 三十; a
      negative remainder has no name and appends "null". */
  function DayName(lunarDay: int): (s: string)
    ensures 1 <= lunarDay <= 30 ==> |s| == 2
  {
    var digit := JavaInt.Rem(lunarDay, 10);
    TenBit(lunarDay) + (if digit in DayNumMapping then DayNumMapping[digit] else "null")
  }

  /** The month index a month name stands for. */
  function ParseMonth(s: string): (r: Option<int>)
    ensures r.Some? ==> 0 <= r.value <= 11
  {
    if s == "正" then Some(0) else if s == "二" then Some(1) else if s == "三" then Some(2)
    else if s == "四" then Some(3) else if s == "五" then Some(4) else if s == "六" then Some(5)
    else if s == "七" then Some(6) else if s == "八" then Some(7) else if s == "九" then Some(8)
    else if s == "十" then Some(9) else if s == "冬" then Some(10) else if s == "腊" then Some(11)
    else None
  }

  /** The value of a digit name, 十 counting as 0. */
  function DigitOfName(c: char): (r: Option<int>)
    ensures r.Some? ==> 0 <= r.value <= 9
  {
    if c == '一' then Some(1) else if c == '二' then Some(2) else if c == '三' then Some(3)
    else if c == '四' then Some(4) else if c == '五' then Some(5) else if c == '六' then Some(6)
    else if c == '七' then Some(7) else if c == '八' then Some(8) else if c == '九' then Some(9)
    else if c == '十' then Some(0) else None
  }

  /** The day a two-character day name stands for. */
  function ParseDay(s: string): (r: Option<int>)
    ensures r.Some? ==> 1 <= r.value <= 30
  {
    if |s| != 2 || DigitOfName(s[1]).None? then None
    else
      var digit := DigitOfName(s[1]).value;
      if s[0] == '初' then Some(if digit == 0 then 10 else digit)
      else if s[0] == '十' && digit != 0 then Some(10 + digit)
      else if s[0] == '廿' then Some(20 + digit)
      else if s[0] == '三' && digit == 0 then Some(30)
      else None
  }

  /** Every month index 0..11 has its own name. */
  lemma MonthNameRoundTrip(month: int)
    requires 0 <= month <= 11
    ensures ParseMonth(MonthName(month)) == Some(month)
  {
  }

  /** Every day 1..30 has its own name, although day 20 reads 廿十. */
  lemma DayNameRoundTrip(lunarDay: int)
    requires 1 <= lunarDay <= 30
    ensures ParseDay(DayName(lunarDay)) == Some(lunarDay)
    ensures DayName(10) == "初十" && DayName(20) == "廿十" && DayName(30) == "三十"
  {
    var digit := JavaInt.Rem(lunarDay, 10);
    assert DayName(lunarDay)[1] == DayNumMapping[digit][0];
  }

  /** `lunarDateToString` on the fields read from the lunar calendar: the year
      stem and branch, 年, the month name, 月, the day name, a space, the
      hour's branch and 时. The year branch is looked up first and the hour's
      branch second, and either may throw before anything is appended. */
  function LunarDateToString(d: LunarDate): (r: Result<string>)
    ensures r.Success? <==> Earthly.YearBranch(d.year).Success? && 0 <= d.hour <= 23
    ensures Earthly.YearBranch(d.year).Failure? ==> r == Failure(Earthly.YearBranch(d.year).error)
    ensures Earthly.YearBranch(d.year).Success? && !(0 <= d.hour <= 23) ==> r == Failure(EarthlyIsNull(TimeEarthly, d.hour))
    ensures r.Success? && 0 <= d.month <= 11 && 1 <= d.day <= 30 ==>
      |r.value| == 10 && r.value[2] == '年' && r.value[4] == '月' && r.value[7] == ' ' && r.value[9] == '时'
      && ParseMonth(r.value[3..4]) == Some(d.month) && ParseDay(r.value[5..7]) == Some(d.day)
  {
    var yearStem := HeavenlyStem.YearStem(d.year);
    var yearBranch :- Earthly.YearBranch(d.year);
    var hourBranch :- Earthly.TimeBranch(d.hour);
    if 0 <= d.month <= 11 && 1 <= d.day <= 30 then
      RenderingFields(yearStem, yearBranch, d.month, d.day, hourBranch);
      Success(Rendering(yearStem, yearBranch, d.month, d.day, hourBranch))
    else Success(Rendering(yearStem, yearBranch, d.month, d.day, hourBranch))
  }

  /** The text `lunarDateToString` appends, once both branches are found. */
  function Rendering(yearStem: HeavenlyStem.Stem, yearBranch: Earthly.Branch, month: int, day: int,
                     hourBranch: Earthly.Branch): string
  {
    yearStem.Name() + yearBranch.Name() + "年" + MonthName(month) + "月"
      + DayName(day) + " " + hourBranch.Name() + "时"
  }

  /** The month and the day sit at fixed places in the rendering and read
      back as themselves. */
  lemma RenderingFields(yearStem: HeavenlyStem.Stem, yearBranch: Earthly.Branch, month: int, day: int,
                        hourBranch: Earthly.Branch)
    requires 0 <= month <= 11 && 1 <= day <= 30
    ensures var s := Rendering(yearStem, yearBranch, month, day, hourBranch);
      |s| == 10 && s[2] == '年' && s[4] == '月' && s[7] == ' ' && s[9] == '时'
      && ParseMonth(s[3..4]) == Some(month) && ParseDay(s[5..7]) == Some(day)
  {
    var s := Rendering(yearStem, yearBranch, month, day, hourBranch);
    MonthNameRoundTrip(month);
    DayNameRoundTrip(day);
    assert s[3..4] == MonthName(month) && s[5..7] == DayName(day);
  }
}
