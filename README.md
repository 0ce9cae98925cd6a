# playfulToy Four Pillars calculator, modelled in Dafny

playfulToy computes the Four Pillars (八字, BaZi) of a birth date and hour. There are three steps:

1. It converts the solar date to a lunar date. This uses a table of 200 packed 24-bit words, one for each lunar year from 1900 to 2099.
2. It builds four pillars. Each pillar is a Heavenly Stem (天干) paired with an Earthly Branch (地支):
   - the year pillar comes from the lunar year;
   - the month pillar comes from the lunar month;
   - the day pillar comes from the solar date;
   - the hour pillar comes from the day stem and the clock hour.
3. It counts how often each of the five elements (五行) occurs among the eight characters.

The result record has three renderings: the pillar names, the pillar codes and the element counts.

## Modules

| module | Java file |
|---|---|
| `DateUtils` | `utils/DateUtils.java` (the `LunarDate` converter) |
| `HeavenlyStem` | `enums/HeavenlyStem.java` |
| `Earthly` | `enums/Earthly.java` |
| `FiveElements` | `enums/FiveElements.java` |
| `EightCharactersDto` | `domain/EightCharactersDto.java` |
| `CalculationEightCharacters` | `CalculationEightCharacters.java` (the calculation without `main`) |

Five support modules:

- `Outcome`: the exceptions the program can raise, carried in a `Result`.
- `JavaInt`: Java's truncating `/` and `%`.
- `Bits`: single-bit masks and shifts, written with division by powers of two.
- `SolarCalendar`: the proleptic Gregorian calendar, including the lenient read-back of a `GregorianCalendar`. The day-pillar formulas are judged against it.
- `Text`: decimal rendering and splitting, used to read renderings back.

## How the model follows the code

- **The lunar table is a parameter.** Every table-dependent member of `DateUtils` takes the table as a parameter `info` (200 words). `LunarInfo` is the table the program ships, and `LunarInfoLength` proves that it has 200 entries.
- **Table facts about particular years are examples.** They are proved for `LunarInfo`: leap month 9 in 2014, leap month 8 in 1900, and the months of 1900.
- **Loops stay imperative.** `solarToLunar`, `daysInLunarYear` and the tally loop are methods with loops. Each is proved equal to a specification function: `LunarOf`, `YearLengthOf` and `Tally`.
- **The day offset is computed from the date.** `solarToLunar`'s offset is Java's truncating division of the millisecond difference since 1900-01-31 00:00 by 86 400 000. The model computes it from the date and the hour in a time zone with a fixed offset.
- **The lunar `Calendar` is modelled by the fields set on it.** Those fields are the year, `Calendar.MONTH` (0 for the first lunar month), the day and the hour. Reading them back goes through `CalendarView`, the lenient `GregorianCalendar` normalisation.
- **The missing `Earthly.getHourEarthly` is `Earthly.getTimeEarthly`.** `CalculationEightCharacters.java` and `DateUtils.java` call `getHourEarthly`, which is not defined in the enum. The model uses `getTimeEarthly`, the enum's only hour lookup.
- **Failures are `Result` values.** A lookup that returns null and then throws becomes `Failure(EarthlyIsNull(...))`. An array index outside a fixed table becomes `Failure(ArrayIndexOutOfBounds(...))`.
- **Each pillar is judged against the sixty-pillar cycle.** In that cycle a stem only meets a branch of the same parity.
- **Each finding has two members.** The model keeps the program's behaviour as written. It adds a corrected definition for each finding below, and proves the intended property about the corrected one.

## Model

| member | source | states |
|---|---|---|
| DateUtils.LunarInfoLength | src/main/java/com/demo/playful/toy/utils/DateUtils.java:87-130 | the table holds exactly one word for each year 1900..2099 (200 words) |
| DateUtils.LeapMonthOf | src/main/java/com/demo/playful/toy/utils/DateUtils.java:218-220 | `(w & 0xF00000) >> 20` is a nibble, 0..15 |
| DateUtils.LeapMonth | src/main/java/com/demo/playful/toy/utils/DateUtils.java:218-220 | the leap month of a table year is 0..15 (0: none) |
| DateUtils.LeapMonthBits | src/main/java/com/demo/playful/toy/utils/DateUtils.java:79-86 | bit j of the leap month is bit 20 + j of the word, for j < 4 |
| DateUtils.LeapMonthExamples | src/main/java/com/demo/playful/toy/utils/DateUtils.java:83-86 | the documented example holds: 2014 has leap month 9; 1900 has leap month 8 |
| DateUtils.DaysInLunarMonth | src/main/java/com/demo/playful/toy/utils/DateUtils.java:204-210 | a month has 29 or 30 days, and 30 exactly when bit 20 - month of the word is set (months 1..13 read bits 19..7) |
| DateUtils.YearLengthOf | src/main/java/com/demo/playful/toy/utils/DateUtils.java:183-195 | a year has 348..361 days without a leap month and 377..390 with one |
| DateUtils.DaysInLunarYear | src/main/java/com/demo/playful/toy/utils/DateUtils.java:183-195 | the mask loop returns the base (348, or 377 with a leap month) plus the number of set bits 7..19 of the word |
| DateUtils.YearLengthByCount | src/main/java/com/demo/playful/toy/utils/DateUtils.java:188-193 | the count the loop makes over bits 3..19 of the masked word is the count over bits 7..19 of the word |
| DateUtils.MaskedMonthBits | src/main/java/com/demo/playful/toy/utils/DateUtils.java:188 | masking with `0x0FFF80` keeps bits 7..19 only, so bits 3..6 add nothing |
| DateUtils.YearLengthByMonths | src/main/java/com/demo/playful/toy/utils/DateUtils.java:183-210 | with a leap month the year length is the sum of the 13 month lengths; without one it is the sum of the first 12 plus one if bit 7 is set; it is never more than the 13-month sum |
| DateUtils.MonthsTotal | src/main/java/com/demo/playful/toy/utils/DateUtils.java:154-158 | the first n months of a year last between 29n and 30n days |
| DateUtils.MonthsTotalStep | src/main/java/com/demo/playful/toy/utils/DateUtils.java:154-158 | each month the walk passes adds its own length |
| DateUtils.MonthsTotalIncreasing | src/main/java/com/demo/playful/toy/utils/DateUtils.java:154-158 | month starts grow by at least 29 days per month |
| DateUtils.LunarDaysBeforeStep | src/main/java/com/demo/playful/toy/utils/DateUtils.java:143-147 | each year the year walk passes subtracts that year's length |
| DateUtils.LunarDaysBeforeIncreasing | src/main/java/com/demo/playful/toy/utils/DateUtils.java:143-147 | year starts grow by at least 348 days per year |
| DateUtils.LunarDaysBeforeGrows | src/main/java/com/demo/playful/toy/utils/DateUtils.java:143-147 | the next year starts at least 348 days later |
| DateUtils.TableDays | src/main/java/com/demo/playful/toy/utils/DateUtils.java:143-147 | the table covers at least 69 600 days |
| DateUtils.YearFrom | src/main/java/com/demo/playful/toy/utils/DateUtils.java:143-151 | searching forward from a year whose start lies before the day ends at a table year no earlier |
| DateUtils.YearFromBrackets | src/main/java/com/demo/playful/toy/utils/DateUtils.java:143-151 | the year found starts on or before the day and the next year starts after it |
| DateUtils.YearOf | src/main/java/com/demo/playful/toy/utils/DateUtils.java:143-151 | every day of the table lies in one table year, between that year's start and the next |
| DateUtils.DayOfYear | src/main/java/com/demo/playful/toy/utils/DateUtils.java:143-151 | the day's place in its year is below the year's length |
| DateUtils.YearOfUnique | src/main/java/com/demo/playful/toy/utils/DateUtils.java:143-151 | a year whose span holds the day is the year found |
| DateUtils.SlotFrom | src/main/java/com/demo/playful/toy/utils/DateUtils.java:154-158 | searching forward over the months finds the slot whose span holds the day |
| DateUtils.SlotOf | src/main/java/com/demo/playful/toy/utils/DateUtils.java:154-158 | every day of a year lies in one month slot 1..13, between that slot's start and the next |
| DateUtils.SlotOfUnique | src/main/java/com/demo/playful/toy/utils/DateUtils.java:154-158 | a slot whose span holds the day is the slot found |
| DateUtils.SlotMonthOrder | src/main/java/com/demo/playful/toy/utils/DateUtils.java:160-162 | the leap-corrected month never decreases along the slots; it rises by one per slot, except that slot L + 1, the leap month L, repeats the month index of slot L, the ordinary month L; it is 0..11 |
| DateUtils.LunarOf | src/main/java/com/demo/playful/toy/utils/DateUtils.java:138-175 | conversion succeeds exactly on the days of the table; a day before the table fails on index -1 of the 200-word table and a day after it fails on index 200; otherwise the year is a table year and the hour is copied |
| DateUtils.DateInYear | src/main/java/com/demo/playful/toy/utils/DateUtils.java:152-172 | the date labelled inside a year keeps the year and copies the hour |
| DateUtils.LunarOfInTable | src/main/java/com/demo/playful/toy/utils/DateUtils.java:138-175 | inside the table the conversion labels the day's place in its year |
| DateUtils.DayInTable | src/main/java/com/demo/playful/toy/utils/DateUtils.java:143-151 | day `rest` of year y is a day of the table whose year is y and whose place is `rest` |
| DateUtils.LunarOfDayOfYear | src/main/java/com/demo/playful/toy/utils/DateUtils.java:138-175 | converting day `rest` of year y gives the date labelled at that place |
| DateUtils.SlotOfMonotone | src/main/java/com/demo/playful/toy/utils/DateUtils.java:154-158 | later days of a year lie in the same slot or a later one |
| DateUtils.DateInYearDay | src/main/java/com/demo/playful/toy/utils/DateUtils.java:164-172 | the day of the month runs from 1 to the slot's length (at most 30), and the corrected labelling gives the same day |
| DateUtils.LunarOfDayRange | src/main/java/com/demo/playful/toy/utils/DateUtils.java:164-172 | every converted day of the month is in 1..30 |
| DateUtils.LunarOfBaseDay | src/main/java/com/demo/playful/toy/utils/DateUtils.java:139-172 | offset 0 converts to year 1900, month index 0, day 1, in both labellings |
| DateUtils.FirstDayOfYear | src/main/java/com/demo/playful/toy/utils/DateUtils.java:148-172 | the first day of every table year is month index 0, day 1, in both labellings |
| DateUtils.LeapNumberedSlotFirstDay | src/main/java/com/demo/playful/toy/utils/DateUtils.java:160-167 | as written, in a year with leap month L (2..12), the first day of slot L, the ordinary month L, is labelled month index L - 1, day 1 |
| DateUtils.LeapNumberedSlotSecondDay | src/main/java/com/demo/playful/toy/utils/DateUtils.java:160-167 | as written, the next day is labelled month index L - 2, day 2: the month goes backwards |
| DateUtils.LeapNumberedSlotLength | src/main/java/com/demo/playful/toy/utils/DateUtils.java:154-158 | slot L, the ordinary month L of a year with leap month L, holds at least two days of the year |
| DateUtils.LeapNumberedSlotDays | src/main/java/com/demo/playful/toy/utils/DateUtils.java:154-158 | the first two days from the start of slot L, the ordinary month L, both lie in slot L |
| DateUtils.LeapNumberedSlotFirstInSlot | src/main/java/com/demo/playful/toy/utils/DateUtils.java:154-158 | the day slot L, the ordinary month L, starts on lies in slot L |
| DateUtils.LeapNumberedSlotSecondInSlot | src/main/java/com/demo/playful/toy/utils/DateUtils.java:154-158 | the day after slot L, the ordinary month L, starts lies in slot L |
| DateUtils.LeapNumberedSlotDates | src/main/java/com/demo/playful/toy/utils/DateUtils.java:160-172 | as written, the first two days of slot L, the ordinary month L, are labelled (L - 1, 1) then (L - 2, 2); the corrected labelling gives both month index L - 1 |
| DateUtils.CorrectedLunarOf | src/main/java/com/demo/playful/toy/utils/DateUtils.java:152-172 | corrected: every day of the table gets a table year and the copied hour, with the month its slot names |
| DateUtils.CorrectedDateInYear | src/main/java/com/demo/playful/toy/utils/DateUtils.java:152-172 | corrected: the date labelled inside a year keeps the year and copies the hour |
| DateUtils.CorrectedLunarOfInTable | src/main/java/com/demo/playful/toy/utils/DateUtils.java:152-172 | the corrected conversion labels the day's place in its year |
| DateUtils.CorrectedNextInSlot | src/main/java/com/demo/playful/toy/utils/DateUtils.java:154-172 | corrected: while a slot lasts, the next day has the same month and a day one higher |
| DateUtils.CorrectedNextSlot | src/main/java/com/demo/playful/toy/utils/DateUtils.java:154-172 | corrected: after a slot's last day the next day is day 1 of the next slot |
| DateUtils.SlotLastDay | src/main/java/com/demo/playful/toy/utils/DateUtils.java:154-158 | a day numbered with the slot's length is the slot's last day |
| DateUtils.SlotFirstDay | src/main/java/com/demo/playful/toy/utils/DateUtils.java:154-172 | the day after a slot ends is day 1 of the next slot |
| DateUtils.CorrectedDay | src/main/java/com/demo/playful/toy/utils/DateUtils.java:164-172 | the day of the month is the day's place after the slot's start, plus one |
| DateUtils.SlotStartsNext | src/main/java/com/demo/playful/toy/utils/DateUtils.java:154-158 | a day of the year at a slot's end lies in the next slot, so that slot is not the last |
| DateUtils.CorrectedMonthOrder | src/main/java/com/demo/playful/toy/utils/DateUtils.java:160-167 | corrected: the month never decreases through the year, and all days of one slot have the same month |
| DateUtils.CorrectedDayOffset | src/main/java/com/demo/playful/toy/utils/DateUtils.java:139-140 | corrected: the offset is the number of days since 1900-01-31 |
| DateUtils.DateInYearDeviation | src/main/java/com/demo/playful/toy/utils/DateUtils.java:160-167 | the program and the corrected labelling agree on year, day and hour; they differ in the month only on the days after the first of slot L, where the program gives one month less |
| DateUtils.LunarOfDeviation | src/main/java/com/demo/playful/toy/utils/DateUtils.java:160-167 | the same agreement and deviation for every day of the table |
| DateUtils.WalkYears | src/main/java/com/demo/playful/toy/utils/DateUtils.java:143-151 | the year loop and the rollback stop at 1899 before the table and at 2100 after it; inside the table they stop at the day's year, with the offset equal to the day's place in it |
| DateUtils.WalkYearsEnds | src/main/java/com/demo/playful/toy/utils/DateUtils.java:148-151 | where the year loop stops, one year of rollback gives the same three outcomes |
| DateUtils.WalkMonths | src/main/java/com/demo/playful/toy/utils/DateUtils.java:154-158 | the month loop stops in one of two ways: with offset 0 on the first day of the day's own slot; or with a negative offset one slot past it, where the offset plus the last month's length is the day's place in the slot |
| DateUtils.WalkMonthsEndsOnSlot | src/main/java/com/demo/playful/toy/utils/DateUtils.java:154-158 | a month loop ending with offset 0 ends on the day's own slot |
| DateUtils.WalkMonthsEndsPastSlot | src/main/java/com/demo/playful/toy/utils/DateUtils.java:154-158 | a month loop ending with a negative offset ends one slot past the day's own |
| DateUtils.WalkLabelsDate | src/main/java/com/demo/playful/toy/utils/DateUtils.java:160-172 | the two corrections, applied in the program's order, label the date as `LunarOf` does |
| DateUtils.SolarToLunar | src/main/java/com/demo/playful/toy/utils/DateUtils.java:138-175 | the converter returns the lunar date `LunarOf` gives for the day offset and the birth hour |
| DateUtils.DayOffset | src/main/java/com/demo/playful/toy/utils/DateUtils.java:139-140 | the offset is the number of days since 1900-01-31, except before that date at a nonzero hour, where truncation adds one |
| DateUtils.TruncatedDays | src/main/java/com/demo/playful/toy/utils/DateUtils.java:140 | Java's division of the millisecond difference truncates toward zero |
| DateUtils.DayBeforeBaseReadsAsBase | src/main/java/com/demo/playful/toy/utils/DateUtils.java:139-140 | 1900-01-30 05:00 gets offset 0 and converts to the first lunar day of 1900; the rounded-down offset is -1, before the table |
| DateUtils.CalendarView | src/main/java/com/demo/playful/toy/CalculationEightCharacters.java:63-65 | reading the lunar `Calendar` back gives a valid Gregorian month index and day; a date already valid reads back as itself |
| DateUtils.CalendarViewDayNumber | src/main/java/com/demo/playful/toy/CalculationEightCharacters.java:63-65 | the date read back lies `day - 1` days after the first of the Gregorian month that the lunar year and month index name |
| DateUtils.SecondMonthThirtieth | src/main/java/com/demo/playful/toy/utils/DateUtils.java:154-172 | in a year whose leap month is not 1 or 2, the 30th day of a long second month is labelled month index 1, day 30 |
| DateUtils.SecondMonthRollsOver | src/main/java/com/demo/playful/toy/utils/DateUtils.java:169-172 | 1900-03-30 converts to (1900, index 1, day 30), which the lenient calendar reads back as index 2, day 2 |
| DateUtils.MonthsOf1900 | src/main/java/com/demo/playful/toy/utils/DateUtils.java:89 | in 1900 the first lunar month has 29 days and the second has 30 |
| DateUtils.DayOffsetOf1900 | src/main/java/com/demo/playful/toy/utils/DateUtils.java:139-140 | 1900-03-30 is day 58 after the base date |
| DateUtils.MonthName | src/main/java/com/demo/playful/toy/utils/DateUtils.java:64-67 | every month index 0..11 has a one-character name; any other index, missing from the mapping, is appended as "null" |
| DateUtils.TenBit | src/main/java/com/demo/playful/toy/utils/DateUtils.java:236 | the day prefix is 初 up to day 10, 十 for 11..19, 廿 for 20..29, 三 from 30 |
| DateUtils.DayName | src/main/java/com/demo/playful/toy/utils/DateUtils.java:74-76 | every day 1..30 has a two-character name |
| DateUtils.MonthNameRoundTrip | src/main/java/com/demo/playful/toy/utils/DateUtils.java:64-67 | the twelve month names are distinct: a name reads back as its month index |
| DateUtils.DayNameRoundTrip | src/main/java/com/demo/playful/toy/utils/DateUtils.java:74-76 | every day name 1..30 reads back as its day; day 10 is 初十, day 20 is 廿十, day 30 is 三十 |
| DateUtils.LunarDateToString | src/main/java/com/demo/playful/toy/utils/DateUtils.java:228-240 | rendering fails exactly when the year branch or the hour branch lookup throws, with that exception; otherwise, for month 0..11 and day 1..30, it gives ten characters with 年, 月, the space and 时 at fixed places, and the month and day read back from their places |
| DateUtils.RenderingFields | src/main/java/com/demo/playful/toy/utils/DateUtils.java:233-238 | the appended text has the month name at index 3 and the day name at 5..6, and both read back |
| SolarCalendar.Lenient | src/main/java/com/demo/playful/toy/utils/DateUtils.java:169-172 | the fields set on a lenient `GregorianCalendar` read back as a valid date at the same hour |
| SolarCalendar.LenientDayNumber | src/main/java/com/demo/playful/toy/utils/DateUtils.java:169-172 | the date read back lies `day - 1` days after the first of the month the year and month fields name, once the month has carried into the year |
| SolarCalendar.LenientInRange | src/main/java/com/demo/playful/toy/utils/DateUtils.java:169-172 | a date already inside its month reads back unchanged |
| JavaInt.Div | src/main/java/com/demo/playful/toy/enums/HeavenlyStem.java:140 | Java's `/` truncates toward zero: for a non-negative dividend the quotient is rounded down, for a negative one rounded up, and it never takes the sign opposite to the dividend's |
| JavaInt.Rem | src/main/java/com/demo/playful/toy/enums/HeavenlyStem.java:141 | Java's `%` takes the sign of the dividend and completes the truncated quotient |
| Text.IntString | src/main/java/com/demo/playful/toy/domain/EightCharactersDto.java:82-85 | an `int` concatenated into a string is a string of decimal digits that reads back as the number, after a minus sign when the number is negative |
| Text.ParseDecimalOfDecimal | src/main/java/com/demo/playful/toy/domain/EightCharactersDto.java:82-85 | the decimal rendering of a number reads back as the number |
| HeavenlyStem.Stem.Ordinal | src/main/java/com/demo/playful/toy/enums/HeavenlyStem.java:20-56 | `ordinal()` is below 10 and `values()` lists the stem at it |
| HeavenlyStem.Stem.Code | src/main/java/com/demo/playful/toy/enums/HeavenlyStem.java:20-56 | the code is (ordinal + 4) mod 10 |
| HeavenlyStem.Stem.Name | src/main/java/com/demo/playful/toy/enums/HeavenlyStem.java:20-56 | every name is one character |
| HeavenlyStem.StemCodesBijective | src/main/java/com/demo/playful/toy/enums/HeavenlyStem.java:20-56 | no two stems share a code; code c belongs to ordinal (c + 6) mod 10 |
| HeavenlyStem.StemByOrdinal | src/main/java/com/demo/playful/toy/enums/HeavenlyStem.java:91-98 | 1..10 give the stem at ordinal k - 1; every other argument gives JIA, never null |
| HeavenlyStem.YearStem | src/main/java/com/demo/playful/toy/enums/HeavenlyStem.java:106-113 | for a year from 0 on, the stem is at ordinal (year - 4) mod 10 |
| HeavenlyStem.YearStemPeriod | src/main/java/com/demo/playful/toy/enums/HeavenlyStem.java:106-113 | the year stem has period 10, and a year that is 4 mod 10 is JIA |
| HeavenlyStem.MonthStemRowsJiaJi | src/main/java/com/demo/playful/toy/enums/HeavenlyStem.java:79-80 | the rows for codes 4 and 9 are the same and count up by one from 3, wrapping 10 to 1 |
| HeavenlyStem.MonthStemRowsYiGeng | src/main/java/com/demo/playful/toy/enums/HeavenlyStem.java:81-82 | the rows for codes 5 and 0 are the same and count up from 5, wrapping |
| HeavenlyStem.MonthStemRowsBingXin | src/main/java/com/demo/playful/toy/enums/HeavenlyStem.java:73-74 | the rows for codes 6 and 1 are the same and count up from 7, wrapping |
| HeavenlyStem.MonthStemRowsDingRen | src/main/java/com/demo/playful/toy/enums/HeavenlyStem.java:75-76 | the rows for codes 7 and 2 are the same and count up from 9, wrapping |
| HeavenlyStem.MonthStemRowsWuGui | src/main/java/com/demo/playful/toy/enums/HeavenlyStem.java:77-78 | the rows for codes 8 and 3 are the same and count up from 1, wrapping |
| HeavenlyStem.MonthStemRow | src/main/java/com/demo/playful/toy/enums/HeavenlyStem.java:72-83 | every year stem's code has a row, and the row counts up from the position 2 × ordinal + 2 |
| HeavenlyStem.MonthStem | src/main/java/com/demo/playful/toy/enums/HeavenlyStem.java:122-128 | a month index 0..11 gives the stem at ordinal (2 × year-stem ordinal + 2 + month) mod 10; any other index fails on the 12-element row |
| HeavenlyStem.DayStem | src/main/java/com/demo/playful/toy/enums/HeavenlyStem.java:138-149 | the stem at ordinal n mod 10 - 1 for the day congruence n; a remainder of 0 falls back to JIA, so GUI is never returned |
| HeavenlyStem.HourStem | src/main/java/com/demo/playful/toy/enums/HeavenlyStem.java:157-163 | codes 1..5 give the stem at ordinal 2 × code - 2, other codes JIA; the result is always JIA, BING, WU, GENG or REN |
| HeavenlyStem.CorrectedDayStem | src/main/java/com/demo/playful/toy/enums/HeavenlyStem.java:138-149 | corrected: the stem at (n - 1) mod 10 of the congruence on the 0-based month with the year taken back only for January and February (indices 0 and 1), so a remainder of 0 is GUI |
| HeavenlyStem.CorrectedDayStemAdvances | src/main/java/com/demo/playful/toy/enums/HeavenlyStem.java:138-149 | the corrected day stem moves on by exactly one stem from each day to the next, from year 1 on |
| HeavenlyStem.DayStemNumberAdvances | src/main/java/com/demo/playful/toy/enums/HeavenlyStem.java:143 | the corrected congruence rises by 1 mod 10 from each day to the next, across month, year and century ends |
| HeavenlyStem.DayStemWithinMonth | src/main/java/com/demo/playful/toy/enums/HeavenlyStem.java:143 | inside a month the congruence rises by one |
| HeavenlyStem.DayStemDecemberEnd | src/main/java/com/demo/playful/toy/enums/HeavenlyStem.java:139-143 | from 31 December to 1 January it rises by 1 mod 10 |
| HeavenlyStem.DayStemFebruaryEnd | src/main/java/com/demo/playful/toy/enums/HeavenlyStem.java:139-143 | from the end of February to 1 March it rises by 1 mod 10 |
| HeavenlyStem.DayStemMonthEnd | src/main/java/com/demo/playful/toy/enums/HeavenlyStem.java:142-143 | from the end of any other month to the next month it rises by 1 mod 10 |
| HeavenlyStem.DayStemYearStep | src/main/java/com/demo/playful/toy/enums/HeavenlyStem.java:140-143 | the year share of the congruence rises by 5 (or by -515 at a century), plus 1 in a leap year |
| HeavenlyStem.DayStemMonthTermStep | src/main/java/com/demo/playful/toy/enums/HeavenlyStem.java:142-143 | the month share rises by the month's length less 30 |
| HeavenlyStem.CorrectedDayStemOf2000 | src/main/java/com/demo/playful/toy/enums/HeavenlyStem.java:138-149 | 2000-01-01 is a WU day |
| HeavenlyStem.DayStemMarchShift | src/main/java/com/demo/playful/toy/enums/HeavenlyStem.java:139-142 | fed the 0-based month, 1 March 2001 is shifted to the year before, and its stem differs from the corrected one |
| HeavenlyStem.DayStemGuiFallsBackToJia | src/main/java/com/demo/playful/toy/enums/HeavenlyStem.java:143-144 | as written, 10 and 11 April 2001 are both JIA; corrected, they are GUI and JIA |
| HeavenlyStem.CorrectedHourStem | src/main/java/com/demo/playful/toy/enums/HeavenlyStem.java:157-163 | corrected: the hour stem's ordinal is 2 × (day-stem ordinal mod 5) plus the hour branch's ordinal, mod 10 |
| HeavenlyStem.HourStemIgnoresHour | src/main/java/com/demo/playful/toy/enums/HeavenlyStem.java:157-163 | on a JIA day the program gives GENG for every hour; the corrected stem is JIA at ZI and equals GENG only at WU |
| Earthly.Branch.Ordinal | src/main/java/com/demo/playful/toy/enums/Earthly.java:20-64 | `ordinal()` is below 12 |
| Earthly.Branch.Code | src/main/java/com/demo/playful/toy/enums/Earthly.java:20-64 | the code is ((ordinal + 3) mod 12) + 1 |
| Earthly.Branch.Name | src/main/java/com/demo/playful/toy/enums/Earthly.java:20-64 | every name is one character |
| Earthly.BranchCodesBijective | src/main/java/com/demo/playful/toy/enums/Earthly.java:20-64 | no two branches share a code; code c belongs to ordinal (c + 8) mod 12 |
| Earthly.ValueAtOrdinal | src/main/java/com/demo/playful/toy/enums/Earthly.java:20-64 | `values()` lists each branch at its ordinal |
| Earthly.BranchByOrdinal | src/main/java/com/demo/playful/toy/enums/Earthly.java:81-88 | 1..12 give the branch at ordinal k - 1; every other argument gives null |
| Earthly.YearBranch | src/main/java/com/demo/playful/toy/enums/Earthly.java:116-123 | from year 0 on, the branch at ordinal (year - 4) mod 12; it throws exactly for a negative year whose Java remainder by 12 is -9 or below |
| Earthly.YearBranchPeriod | src/main/java/com/demo/playful/toy/enums/Earthly.java:116-123 | the year branch has period 12, and a year that is 4 mod 12 is ZI |
| Earthly.MonthBranch | src/main/java/com/demo/playful/toy/enums/Earthly.java:131-137 | succeeds exactly for an index from -1 on that is not 10 mod 12; then the branch is at ordinal (m + 2) mod 12 - 1; otherwise it throws |
| Earthly.MonthBranchPeriod | src/main/java/com/demo/playful/toy/enums/Earthly.java:131-137 | the month branch has period 12 |
| Earthly.DayBranchCentury | src/main/java/com/demo/playful/toy/enums/Earthly.java:148-150 | the century is 19 or 20, 20 exactly after 2000; for the years 1900..2099 it and the year within the century rebuild the year for every year but 2000 |
| Earthly.DayBranch | src/main/java/com/demo/playful/toy/enums/Earthly.java:147-158 | the branch at ordinal n mod 12 - 1 of the day congruence n; a remainder of 0 throws, so HAI is never returned; the exception names the year after the shift for months below 3 |
| Earthly.TimeBranch | src/main/java/com/demo/playful/toy/enums/Earthly.java:166-172 | hours 0..23 succeed with the branch at ordinal ((h + 1) / 2) mod 12; any other hour throws |
| Earthly.HoursOf | src/main/java/com/demo/playful/toy/enums/Earthly.java:95-108 | every branch owns two clock hours |
| Earthly.TimeBranchPartition | src/main/java/com/demo/playful/toy/enums/Earthly.java:95-108 | an hour maps to a branch exactly when it is one of that branch's two hours: ZI holds 23 and 0 |
| Earthly.HourSlot | src/main/java/com/demo/playful/toy/enums/Earthly.java:95-108 | ((h + 1) / 2) mod 12 is o exactly for the hours 2o and (2o + 23) mod 24 |
| Earthly.CorrectedMonthBranch | src/main/java/com/demo/playful/toy/enums/Earthly.java:131-137 | corrected: month index m has the branch at ordinal (m + 2) mod 12 |
| Earthly.MonthBranchOffByOne | src/main/java/com/demo/playful/toy/enums/Earthly.java:131-137 | as written, the first month gets CHOU instead of YIN, the eleventh throws instead of giving ZI, and every other month gets the branch before its own |
| Earthly.CorrectedMonthBranchCycle | src/main/java/com/demo/playful/toy/enums/Earthly.java:131-137 | the corrected month branch repeats exactly every 12 months, with YIN for the first month and ZI for the eleventh |
| Earthly.CorrectedDayBranch | src/main/java/com/demo/playful/toy/enums/Earthly.java:147-158 | corrected: the branch at (n - 1) mod 12 of the congruence with the 1-based month and the true century |
| Earthly.CorrectedDayBranchAdvances | src/main/java/com/demo/playful/toy/enums/Earthly.java:147-158 | the corrected day branch moves on by exactly one branch from each day to the next, from year 1 on |
| Earthly.DayBranchNumberAdvances | src/main/java/com/demo/playful/toy/enums/Earthly.java:153 | the corrected congruence rises by 1 mod 12 from each day to the next |
| Earthly.DayBranchWithinMonth | src/main/java/com/demo/playful/toy/enums/Earthly.java:153 | inside a month the congruence rises by one |
| Earthly.DayBranchDecemberEnd | src/main/java/com/demo/playful/toy/enums/Earthly.java:148-153 | from 31 December to 1 January it rises by 1 mod 12 |
| Earthly.DayBranchFebruaryEnd | src/main/java/com/demo/playful/toy/enums/Earthly.java:148-153 | from the end of February to 1 March it rises by 1 mod 12 |
| Earthly.DayBranchMonthEnd | src/main/java/com/demo/playful/toy/enums/Earthly.java:151-153 | from the end of any other month to the next it rises by 1 mod 12 |
| Earthly.DayBranchYearStep | src/main/java/com/demo/playful/toy/enums/Earthly.java:148-153 | with the true century, the year share rises by the year's days, mod 12 |
| Earthly.DayBranchMonthTermStep | src/main/java/com/demo/playful/toy/enums/Earthly.java:151-153 | the month share, with the 6 added on even months, steps so that month ends rise by 1 mod 12 |
| Earthly.MonthTermValues | src/main/java/com/demo/playful/toy/enums/Earthly.java:151-153 | the month shares of months 3..14 |
| Earthly.CorrectedDayBranchOf2000 | src/main/java/com/demo/playful/toy/enums/Earthly.java:147-158 | 2000-01-01 is a WU day |
| Earthly.DayBranchOfCalendarMonth | src/main/java/com/demo/playful/toy/enums/Earthly.java:147-158 | fed the 0-based month, 31 May and 1 June 2001 are both ZI; the corrected branches differ |
| Earthly.DayBranchFailsOnHai | src/main/java/com/demo/playful/toy/enums/Earthly.java:153-157 | as written, 5 May 2001 (`Calendar.MONTH` 4) is XU and 6 May throws; corrected, 5 and 6 April 2001 are XU and HAI |
| Earthly.CorrectedDayBranchCentury | src/main/java/com/demo/playful/toy/enums/Earthly.java:148-150 | corrected: the century and the year within it make up the year |
| Earthly.DayBranchCenturyOf2000 | src/main/java/com/demo/playful/toy/enums/Earthly.java:148-150 | as written, the year 2000 is read as 1900; corrected, as 2000 |
| FiveElements.Element.Ordinal | src/main/java/com/demo/playful/toy/enums/FiveElements.java:19-35 | `ordinal()` is below 5 and `values()` lists the element at it |
| FiveElements.Element.Code | src/main/java/com/demo/playful/toy/enums/FiveElements.java:19-35 | codes are 1..5, in declaration order |
| FiveElements.Element.Name | src/main/java/com/demo/playful/toy/enums/FiveElements.java:19-35 | every name is one character |
| FiveElements.OfStem | src/main/java/com/demo/playful/toy/enums/FiveElements.java:52-63 | stems pair off in declaration order: MU, HUO, TU, JIN, SHUI |
| FiveElements.OfStemPairs | src/main/java/com/demo/playful/toy/enums/FiveElements.java:52-63 | two stems share an element exactly when they are in the same adjacent pair |
| FiveElements.StemPairOf | src/main/java/com/demo/playful/toy/enums/FiveElements.java:52-63 | every element belongs to some adjacent pair of stems |
| FiveElements.StemCycleDistinct | src/main/java/com/demo/playful/toy/enums/FiveElements.java:52-63 | the five stem pairs have five different elements |
| FiveElements.OfBranch | src/main/java/com/demo/playful/toy/enums/FiveElements.java:71-84 | CHOU, CHEN, WEI and XU are TU; the other branches follow SHUI, MU, HUO, JIN in pairs around the year |
| FiveElements.BranchElements | src/main/java/com/demo/playful/toy/enums/FiveElements.java:71-84 | the elements of the twelve branches, in declaration order |
| FiveElements.BranchElementCounts | src/main/java/com/demo/playful/toy/enums/FiveElements.java:71-84 | TU has four branches and every other element two |
| FiveElements.BranchElementsInOrder | src/main/java/com/demo/playful/toy/enums/FiveElements.java:71-84 | the branch elements are SHUI TU MU MU TU HUO HUO TU JIN JIN TU SHUI |
| EightCharactersDto.EightCharacters.Pillars | src/main/java/com/demo/playful/toy/domain/EightCharactersDto.java:32-44 | a result holds four pillars: year, month, day, hour |
| EightCharactersDto.EightCharacters.NameToString | src/main/java/com/demo/playful/toy/domain/EightCharactersDto.java:68-73 | the name rendering has 11 characters with spaces at 2, 5 and 8, and reads back into the four pillars in order |
| EightCharactersDto.EightCharacters.CodeToString | src/main/java/com/demo/playful/toy/domain/EightCharactersDto.java:81-86 | the code rendering has 15..19 characters, ends in a digit rather than a space, and reads back into the four pillars in order |
| EightCharactersDto.EightCharacters.CountsToString | src/main/java/com/demo/playful/toy/domain/EightCharactersDto.java:94-100 | the StringBuilder loop appends name, count and a space for each map entry, in the TreeMap's element order |
| EightCharactersDto.CountsTextStep | src/main/java/com/demo/playful/toy/domain/EightCharactersDto.java:94-100 | one more element of the order appends exactly that element's entry (name, count, space) when the map holds it, and nothing otherwise |
| EightCharactersDto.PillarName | src/main/java/com/demo/playful/toy/domain/EightCharactersDto.java:69-72 | a pillar's names take two characters |
| EightCharactersDto.PillarNameRoundTrip | src/main/java/com/demo/playful/toy/domain/EightCharactersDto.java:69-72 | a pillar's two names read back as the pillar |
| EightCharactersDto.PillarCode | src/main/java/com/demo/playful/toy/domain/EightCharactersDto.java:82-85 | `stemCode|branchCode` takes 3 or 4 characters, ends in a digit and holds no space |
| EightCharactersDto.PillarCodeRoundTrip | src/main/java/com/demo/playful/toy/domain/EightCharactersDto.java:82-85 | a pillar's codes read back as the pillar |
| EightCharactersDto.JoinCodes | src/main/java/com/demo/playful/toy/domain/EightCharactersDto.java:82-85 | four pillars' codes joined by spaces take 15..19 characters and end in a digit |
| EightCharactersDto.CodesRoundTrip | src/main/java/com/demo/playful/toy/domain/EightCharactersDto.java:82-85 | the joined codes split back into the four pillars |
| EightCharactersDto.SplitCountsText | src/main/java/com/demo/playful/toy/domain/EightCharactersDto.java:96-98 | splitting the counts text at spaces gives one piece per entry |
| EightCharactersDto.PieceHasNoSpace | src/main/java/com/demo/playful/toy/domain/EightCharactersDto.java:97 | an element name followed by a count holds no space |
| EightCharactersDto.ElementNameNotSpace | src/main/java/com/demo/playful/toy/domain/EightCharactersDto.java:97 | an element's name is not a space and reads back as the element |
| EightCharactersDto.PiecesOfCounts | src/main/java/com/demo/playful/toy/domain/EightCharactersDto.java:96-98 | the pieces of the listed elements read back into their counts |
| EightCharactersDto.CountsRoundTrip | src/main/java/com/demo/playful/toy/domain/EightCharactersDto.java:94-100 | a map of non-negative counts renders into text that reads back into the same map; an empty map renders as the empty string |
| EightCharactersDto.EmptyCountsText | src/main/java/com/demo/playful/toy/domain/EightCharactersDto.java:94-100 | an empty map renders as the empty string |
| CalculationEightCharacters.CyclePillar | src/main/java/com/demo/playful/toy/CalculationEightCharacters.java:66-77 | pillar i of the sixty-pillar cycle has stem ordinal i mod 10 and branch ordinal i mod 12 |
| CalculationEightCharacters.SexagenaryParity | src/main/java/com/demo/playful/toy/CalculationEightCharacters.java:66-77 | a pillar is in the cycle exactly when its stem and branch ordinals have the same parity |
| CalculationEightCharacters.SexagenaryHasParity | src/main/java/com/demo/playful/toy/CalculationEightCharacters.java:66-77 | a cycle pillar's stem and branch have the same parity |
| CalculationEightCharacters.ParityIsSexagenary | src/main/java/com/demo/playful/toy/CalculationEightCharacters.java:66-77 | a pillar whose stem and branch have the same parity is in the cycle |
| CalculationEightCharacters.CycleWitness | src/main/java/com/demo/playful/toy/CalculationEightCharacters.java:66-77 | a stem and a branch of the same parity meet at one place 0..59 of the cycle |
| CalculationEightCharacters.YearPillar | src/main/java/com/demo/playful/toy/CalculationEightCharacters.java:63-68 | from year 0 on, the year pillar is the stem and branch at (year - 4) mod 10 and mod 12 |
| CalculationEightCharacters.MonthPillar | src/main/java/com/demo/playful/toy/CalculationEightCharacters.java:65-71 | the month pillar succeeds exactly for a month index 0..11 other than 10; outside 0..11 the row index fails; at 10 the branch lookup throws; a pillar has the stem at (2 * year stem + 2 + month) mod 10 and the branch at ((month + 2) mod 12) - 1 |
| CalculationEightCharacters.DayPillar | src/main/java/com/demo/playful/toy/CalculationEightCharacters.java:72-74 | the day pillar, from the solar year, 0-based month and day, succeeds exactly when the day branch does; it is the day stem of the same date and the branch at n mod 12 - 1 of the day congruence n, never GUI and never HAI |
| CalculationEightCharacters.HourPillar | src/main/java/com/demo/playful/toy/CalculationEightCharacters.java:75-77 | the hour pillar succeeds exactly for hours 0..23, with the hour's branch and the hour stem of the day stem, one of JIA, BING, WU, GENG, REN |
| CalculationEightCharacters.PillarsOf | src/main/java/com/demo/playful/toy/CalculationEightCharacters.java:63-79 | the four pillars succeed exactly when the month index is 0..11 but not 10, the hour is 0..23 and the day branch is found; otherwise the first failure in the program's order is raised; a success is the year, month (with the year stem), day and hour (with the day stem) pillars in that order |
| CalculationEightCharacters.YearPillarInCycle | src/main/java/com/demo/playful/toy/CalculationEightCharacters.java:66-68 | the year pillar is in the cycle |
| CalculationEightCharacters.SameParity | src/main/java/com/demo/playful/toy/CalculationEightCharacters.java:66-68 | a number's remainders by 10 and by 12 have the same parity |
| CalculationEightCharacters.MonthPillarOffCycle | src/main/java/com/demo/playful/toy/CalculationEightCharacters.java:69-71 | as written, the month pillar is never in the cycle |
| CalculationEightCharacters.MonthParities | src/main/java/com/demo/playful/toy/CalculationEightCharacters.java:69-71 | the month stem has the parity of the index and the program's month branch the other one |
| CalculationEightCharacters.HourPillarCycle | src/main/java/com/demo/playful/toy/CalculationEightCharacters.java:75-77 | as written, the hour pillar is in the cycle exactly when its branch ordinal is even |
| CalculationEightCharacters.HourPillarIgnoresHour | src/main/java/com/demo/playful/toy/CalculationEightCharacters.java:75-77 | as written, every hour of a day gets the same hour stem |
| CalculationEightCharacters.PillarsOfCycle | src/main/java/com/demo/playful/toy/CalculationEightCharacters.java:66-79 | as written, the year pillar is in the cycle, the month pillar never is, and the hour pillar only at even branches |
| CalculationEightCharacters.Symbols | src/main/java/com/demo/playful/toy/CalculationEightCharacters.java:81-85 | pillars give twice as many elements, stem first |
| CalculationEightCharacters.TallyAppend | src/main/java/com/demo/playful/toy/CalculationEightCharacters.java:84-85 | tallying one more element is one more `put` |
| CalculationEightCharacters.TallyFiveElements | src/main/java/com/demo/playful/toy/CalculationEightCharacters.java:80-86 | the loop puts each pillar's stem element and then its branch element, in order |
| CalculationEightCharacters.TallyPillar | src/main/java/com/demo/playful/toy/CalculationEightCharacters.java:81-85 | one pass of the loop body adds the pillar's stem element, then its branch element |
| CalculationEightCharacters.TallyCounts | src/main/java/com/demo/playful/toy/CalculationEightCharacters.java:80-86 | the tally has a key exactly for the elements that occur; each count is that element's number of occurrences; the counts sum to the number of elements |
| CalculationEightCharacters.TallyOccurrences | src/main/java/com/demo/playful/toy/CalculationEightCharacters.java:84-85 | the keys are the elements that occur, each counted as often as it occurs |
| CalculationEightCharacters.TallyTotal | src/main/java/com/demo/playful/toy/CalculationEightCharacters.java:84-85 | the counts sum to the number of elements tallied |
| CalculationEightCharacters.CountTotalOfEmpty | src/main/java/com/demo/playful/toy/CalculationEightCharacters.java:80 | the empty map sums to 0 |
| CalculationEightCharacters.ElementOnce | src/main/java/com/demo/playful/toy/enums/FiveElements.java:19-35 | `values()` lists each element once |
| CalculationEightCharacters.CountTotalBump | src/main/java/com/demo/playful/toy/CalculationEightCharacters.java:84-85 | one `put` adds one to the sum |
| CalculationEightCharacters.Assemble | src/main/java/com/demo/playful/toy/CalculationEightCharacters.java:87-95 | the result carries the input date, the lunar date, the four pillars in order and their tally |
| CalculationEightCharacters.EightCharactersOf | src/main/java/com/demo/playful/toy/CalculationEightCharacters.java:52-96 | the calculation succeeds exactly when the day offset lies in the table and the four pillars of the lunar year and month read back through the calendar succeed; before the table it fails on index -1; it fails on every day the calendar reads as the eleventh lunar month; a result carries the birth date, the lunar date of the day offset, the four pillars of the lunar year and month read back through the calendar, and the tally of those pillars |
| CalculationEightCharacters.FromLunar | src/main/java/com/demo/playful/toy/CalculationEightCharacters.java:63-95 | once the lunar date is set, the calculation succeeds exactly when the four pillars of the lunar year and month read back succeed, so it fails whenever the month index read back is 10; a result carries both dates, the four pillars of the lunar year and month read back, and their tally |
| CalculationEightCharacters.CalculationEightCharacters | src/main/java/com/demo/playful/toy/CalculationEightCharacters.java:52-96 | the calculation, with its tally loop, returns `EightCharactersOf` of the birth date, so it fails and succeeds on the same days and fills in the same dates, pillars and counts |
| CalculationEightCharacters.TalliedCounts | src/main/java/com/demo/playful/toy/CalculationEightCharacters.java:80-86 | a result's counts are the occurrences among its eight characters and sum to 8, and the counts rendering reads back into the map |
| CalculationEightCharacters.CorrectedMonthPillar | src/main/java/com/demo/playful/toy/CalculationEightCharacters.java:69-71 | corrected: the month pillar succeeds for every index 0..11, with the stem at (2 * year stem + 2 + month) mod 10 and the month's own branch at (month + 2) mod 12 |
| CalculationEightCharacters.CorrectedDayPillar | src/main/java/com/demo/playful/toy/CalculationEightCharacters.java:72-74 | corrected: the day pillar is the corrected day stem and day branch, and never fails |
| CalculationEightCharacters.CorrectedHourPillar | src/main/java/com/demo/playful/toy/CalculationEightCharacters.java:75-77 | corrected: the hour pillar succeeds for hours 0..23 with the hour's branch and the stem at (2 * (day stem mod 5) + branch) mod 10 |
| CalculationEightCharacters.CorrectedPillarsOf | src/main/java/com/demo/playful/toy/CalculationEightCharacters.java:63-79 | corrected: the four pillars succeed exactly for a month index 0..11 and an hour 0..23, and are then the year, corrected month, corrected day and corrected hour pillars in that order |
| CalculationEightCharacters.CorrectedMonthPillarInCycle | src/main/java/com/demo/playful/toy/CalculationEightCharacters.java:69-71 | the corrected month pillar is in the cycle |
| CalculationEightCharacters.CorrectedMonthParities | src/main/java/com/demo/playful/toy/CalculationEightCharacters.java:69-71 | the month stem and the month's own branch both have the parity of the index |
| CalculationEightCharacters.CorrectedDayPillarInCycle | src/main/java/com/demo/playful/toy/CalculationEightCharacters.java:72-74 | the corrected day pillar is in the cycle for every date |
| CalculationEightCharacters.DayParities | src/main/java/com/demo/playful/toy/CalculationEightCharacters.java:72-74 | the two day congruences differ by an even number, so their remainders have the same parity |
| CalculationEightCharacters.CorrectedHourPillarInCycle | src/main/java/com/demo/playful/toy/CalculationEightCharacters.java:75-77 | the corrected hour pillar is in the cycle at every hour |
| CalculationEightCharacters.CorrectedPillarsInCycle | src/main/java/com/demo/playful/toy/CalculationEightCharacters.java:66-79 | all four corrected pillars are in the cycle |
| CalculationEightCharacters.CorrectedEightCharacters | src/main/java/com/demo/playful/toy/CalculationEightCharacters.java:52-96 | corrected: the calculation succeeds exactly on the days of the table whose slot month is 0..11; then it carries the lunar date of the rounded-down offset and the corrected pillars of that date, all four in the cycle, and the counts tally them |
| CalculationEightCharacters.CorrectedFromLunar | src/main/java/com/demo/playful/toy/CalculationEightCharacters.java:63-95 | corrected, once the lunar date is known: success exactly for a month index 0..11, carrying that date and its corrected pillars, all four in the cycle, and their tally |

## Left out

- `DateUtils.parseCalendar`, `main`, the log output, `DateFormatUtils` and fastjson: these are input parsing and presentation.
- `EightCharacters.java` is not part of this model. It is a second driver that parses, logs and repeats the pillar assembly with 1-based months. It calls methods that do not exist.
- `DateEnum.java` holds four constant labels and no behaviour.
- Time zones, daylight saving and the `(int)` cast of the day offset. The day offset assumes a zone with a fixed offset. The cast cannot overflow for dates the table covers. For day offsets beyond the `int` range (birth years about 11.7 million after 1900) Java's cast wraps around and can land back inside the table; the model keeps the unbounded offset and fails there.
- The low 7 bits of each table word: no code reads them.
- The lenient `HOUR_OF_DAY` field: hours are taken to lie in 0..23 wherever a `Calendar` supplies them. `birth.Valid()` requires this of the birth date.
- The result record's setters: the record is a datatype built once, because the calculation fills a fresh object and returns it.
- Facts about all 200 table words, such as which leap months occur, are not proved. The lemmas hold for any table, and `LunarInfo` is checked only at the years named above.
- The lunar year read back through the lenient calendar is not bounded. `CalendarView` can move a date from the last lunar month into the next Gregorian year.
- CalculationEightCharacters.YearPillar: nothing is stated for negative years. The converter never produces one, because a day before the table fails first.
- DateUtils.LunarDateToString: the layout is stated only for month indices 0..11 and days 1..30, the values the converter produces. For other values the rendering contains "null".

## Findings

| source | as written | input that shows it | evidently intended | confidence | as-written member | corrected member |
|---|---|---|---|---|---|---|
| src/main/java/com/demo/playful/toy/utils/DateUtils.java:160-167 | the leap correction is applied before the negative-offset correction, so in the slot numbered by the leap month (the ordinary month of that number) the month steps back twice | 2014-09-25 (second day of the ordinary ninth month of lunar 2014, whose leap month is the ninth) is labelled index 7, day 2, after index 8, day 1 the day before | every day of a slot has the slot's month, and months never go backwards within a year | not executed | DateUtils.LeapNumberedSlotDates | DateUtils.CorrectedMonthOrder |
| src/main/java/com/demo/playful/toy/enums/HeavenlyStem.java:143-144 | a congruence remainder of 0 is looked up as ordinal 0, which falls back to JIA | 2001-04-10 gives JIA, and so does 2001-04-11 | remainder 0 is the tenth stem, GUI | not executed | HeavenlyStem.DayStemGuiFallsBackToJia | HeavenlyStem.CorrectedDayStemAdvances |
| src/main/java/com/demo/playful/toy/enums/Earthly.java:153-157 | a congruence remainder of 0 is looked up as ordinal 0, finds no branch and throws | 2001-05-05 (`Calendar.MONTH` 4) gives XU, and 2001-05-06 throws | remainder 0 is the twelfth branch, HAI | not executed | Earthly.DayBranchFailsOnHai | Earthly.CorrectedDayBranchAdvances |
| src/main/java/com/demo/playful/toy/enums/Earthly.java:131-137 | the month branch is at ordinal (m + 2) mod 12 - 1: one before the month's own, and index 10 throws | month index 0 gets CHOU; every birth whose lunar month reads as index 10 fails | the first month is YIN and the branch runs on from it with period 12 | not executed | Earthly.MonthBranchOffByOne | Earthly.CorrectedMonthBranchCycle |
| src/main/java/com/demo/playful/toy/CalculationEightCharacters.java:69-71 | the month pillar pairs the month stem with a branch of the other parity | any month index 0..11 other than 10 | the month pillar is one of the sixty | not executed | CalculationEightCharacters.MonthPillarOffCycle | CalculationEightCharacters.CorrectedMonthPillarInCycle |
| src/main/java/com/demo/playful/toy/enums/HeavenlyStem.java:157-163 | the hour stem depends only on the day stem's code, not on the hour | on a JIA day every hour gets GENG | the hour stem runs on with the hour's branch from the day stem's starting stem | not executed | HeavenlyStem.HourStemIgnoresHour | CalculationEightCharacters.CorrectedHourPillarInCycle |
| src/main/java/com/demo/playful/toy/enums/Earthly.java:148-150 | the century is hard-coded as 19 or 20 | the year 2000 (shifted year 2000) is read as 1900 | the century of the shifted year | not executed | Earthly.DayBranchCenturyOf2000 | Earthly.CorrectedDayBranchCentury |
| src/main/java/com/demo/playful/toy/CalculationEightCharacters.java:72-73 | the day stem formula takes the year back when the 0-based `Calendar.MONTH` is below 3, although its month term already counts only indices 0 and 1 (January and February) as months 13 and 14, so March is also shifted into the year before | 2001-03-01 (month index 2) | the year taken back only when the 0-based month is below 2, matching the month term | not executed | HeavenlyStem.DayStemMarchShift | HeavenlyStem.CorrectedDayStem |
| src/main/java/com/demo/playful/toy/CalculationEightCharacters.java:72-74 | the same 0-based month is passed to the day branch formula | 2001-05-31 and 2001-06-01 both give ZI | consecutive days get consecutive branches | not executed | Earthly.DayBranchOfCalendarMonth | Earthly.CorrectedDayBranch |
| src/main/java/com/demo/playful/toy/utils/DateUtils.java:169-172 | the lunar date is stored in a lenient `GregorianCalendar`, so a lunar day past the end of the Gregorian month rolls over | 1900-03-30 converts to index 1, day 30, read back as index 2, day 2 | the month and day as the converter labelled them | not executed | DateUtils.SecondMonthRollsOver | CalculationEightCharacters.CorrectedEightCharacters |
| src/main/java/com/demo/playful/toy/utils/DateUtils.java:140 | the millisecond difference is divided with truncation, so hours before the base date round up to the base date | 1900-01-30 05:00 converts to the first lunar day of 1900 | the day before the table fails like every earlier day | not executed | DateUtils.DayBeforeBaseReadsAsBase | DateUtils.CorrectedDayOffset |
