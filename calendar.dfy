/**
 * The calendar month of an instant, as the database's `YEAR(...)` and
 * `MONTH(...)` read a stored UTC date-time. Instants are milliseconds since
 * 1970-01-01T00:00:00Z; the conversion is the proleptic Gregorian one over
 * 400-year eras of 146097 days.
 */
module Calendar {

  const MillisPerDay := 86400000

  datatype YearMonth = YearMonth(year: int, month: int)

  /** The UTC calendar year and month (1 to 12) of an instant. */
  function YearMonthOf(ms: int): (r: YearMonth)
    ensures 1 <= r.month <= 12
  {
    var days := ms / MillisPerDay;           // floor division: Dafny's `/` rounds down for a positive divisor
    var z := days + 719468;                  // days since 0000-03-01
    var era := z / 146097;
    var doe := z - era * 146097;             // day of the era, 0 ..= 146096
    var yoe := YearOfEra(doe);
    var mp := MonthFromMarch(DayOfYear(doe, yoe));
    FromMarchDate(era, yoe, mp)
  }

  /** The year of the era (0 ..= 399) holding day `doe` of the era. */
  function YearOfEra(doe: int): int
  {
    (doe - doe / 1460 + doe / 36524 - doe / 146096) / 365
  }

  /** The day of the year, counted from March 1 (0 ..= 365). */
  function DayOfYear(doe: int, yoe: int): int
  {
    doe - (365 * yoe + yoe / 4 - yoe / 100)
  }

  /** The month of a day of the year counted from March 1: 0 is March, 11 is February. */
  function MonthFromMarch(doy: int): int
  {
    (5 * doy + 2) / 153
  }

  /** The calendar year and month of month `mp` (0 is March) of year `yoe` of era `era`. */
  function FromMarchDate(era: int, yoe: int, mp: int): YearMonth
  {
    var month := if mp < 10 then mp + 3 else mp - 9;
    YearMonth(yoe + era * 400 + (if month <= 2 then 1 else 0), month)
  }

  /** `YearMonthOf` once each intermediate quantity of the conversion is known. */
  lemma ConversionSteps(ms: int, days: int, era: int, doe: int, yoe: int, doy: int, mp: int)
    requires days == ms / MillisPerDay && era == (days + 719468) / 146097 && doe == days + 719468 - era * 146097
    requires yoe == YearOfEra(doe) && doy == DayOfYear(doe, yoe) && mp == MonthFromMarch(doy)
    ensures YearMonthOf(ms) == FromMarchDate(era, yoe, mp)
  {
  }

  /** February 2024 ends on its 29th. */
  lemma LeapYearFebruary()
    ensures YearMonthOf(1709251199999) == YearMonth(2024, 2)  // 2024-02-29T23:59:59.999Z
    ensures YearMonthOf(1709251200000) == YearMonth(2024, 3)  // 2024-03-01T00:00:00.000Z
  {
    ConversionSteps(1709251199999, 19782, 5, 8765, 23, 365, 11);
    ConversionSteps(1709251200000, 19783, 5, 8766, 24, 0, 0);
  }

  /** February 2023 ends on its 28th. */
  lemma CommonYearFebruary()
    ensures YearMonthOf(1677628799999) == YearMonth(2023, 2)  // 2023-02-28T23:59:59.999Z
    ensures YearMonthOf(1677628800000) == YearMonth(2023, 3)  // 2023-03-01T00:00:00.000Z
  {
    ConversionSteps(1677628799999, 19416, 5, 8399, 22, 364, 11);
    ConversionSteps(1677628800000, 19417, 5, 8400, 23, 0, 0);
  }

  /** February 1900 ends on its 28th: a century year not divisible by 400 is a common year. */
  lemma CenturyYearFebruary()
    ensures YearMonthOf(-2203891200001) == YearMonth(1900, 2)  // 1900-02-28T23:59:59.999Z
    ensures YearMonthOf(-2203891200000) == YearMonth(1900, 3)  // 1900-03-01T00:00:00.000Z
  {
    ConversionSteps(-2203891200001, -25509, 4, 109571, 299, 364, 11);
    ConversionSteps(-2203891200000, -25508, 4, 109572, 300, 0, 0);
  }

  /** The instant before the epoch falls in December 1969; the epoch starts January 1970. */
  lemma EpochMonths()
    ensures YearMonthOf(-1) == YearMonth(1969, 12)  // 1969-12-31T23:59:59.999Z
    ensures YearMonthOf(0) == YearMonth(1970, 1)  // 1970-01-01T00:00:00.000Z
  {
    ConversionSteps(-1, -1, 4, 135079, 369, 305, 9);
    ConversionSteps(0, 0, 4, 135080, 369, 306, 10);
  }

  /** The last instant of 2023 is in its December; the next instant starts January 2024. */
  lemma YearEnd()
    ensures YearMonthOf(1704067199999) == YearMonth(2023, 12)  // 2023-12-31T23:59:59.999Z
    ensures YearMonthOf(1704067200000) == YearMonth(2024, 1)  // 2024-01-01T00:00:00.000Z
  {
    ConversionSteps(1704067199999, 19722, 5, 8705, 23, 305, 9);
    ConversionSteps(1704067200000, 19723, 5, 8706, 23, 306, 10);
  }
}
