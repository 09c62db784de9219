/**
 * Calendar-to-epoch arithmetic of the kernel clock: the cumulative month
 * table, the day of the year and `mktime`, which turns a broken-down CMOS
 * time into seconds since 1970-01-01 00:00:00.
 *
 * Years are counted from 1970 as `tm_year - 70` when `tm_year >= 70` and as
 * `tm_year + 30` otherwise (two-digit CMOS years 00..69 mean 2000..2069).
 * A year counted that way is a leap year when `(year + 2) % 4 == 0`, which is
 * the Gregorian rule for every year from 1901 to 2099.
 */
module Time {
  import opened Base
  import StdLib

  const MINUTE: int := 60
  const HOUR: int := 3600
  const DAY: int := 86400
  /** A year of 365 days. */
  const YEAR: int := 31536000

  /** `month[m]`: days before month `m` (1..12) with February counted as 29 days; slot 0 is unused. */
  const MonthTable: seq<int> :=
    [0, 0, 31, 60, 91, 121, 152, 182, 213, 244, 274, 305, 335]

  /** The fields of `tm` that `get_day` and `mktime` read. */
  datatype Tm = Tm(sec: int, min: int, hour: int, mday: int, mon: int, year: int)

  /** Years since 1970 for a two-digit (or 1900-based) `tm_year`. */
  function YearsSince1970(tmYear: int): int
  {
    if tmYear >= 70 then tmYear - 70 else tmYear - 70 + 100
  }

  /** The leap rule the code uses, on years counted from 1970. */
  predicate LeapSince1970(year: int)
  {
    (year + 2) % 4 == 0
  }

  /** The Gregorian leap rule on calendar years. */
  predicate GregorianLeap(y: int)
  {
    y % 4 == 0 && (y % 100 != 0 || y % 400 == 0)
  }

  /** Within 1970..2099 the code's rule is the Gregorian one. */
  lemma LeapRuleIsGregorian(year: int)
    requires 0 <= year < 130
    ensures LeapSince1970(year) <==> GregorianLeap(1970 + year)
  {
  }

  /** Length of month `m` in a year that is or is not a leap year. */
  function MonthLength(m: int, leap: bool): int
    requires 1 <= m <= 12
  {
    if m == 2 then (if leap then 29 else 28)
    else if m == 4 || m == 6 || m == 9 || m == 11 then 30
    else 31
  }

  /** Days of the months before `m`, summed month by month. */
  function DaysBeforeMonth(m: int, leap: bool): int
    requires 1 <= m <= 13
    decreases m
  {
    if m == 1 then 0 else DaysBeforeMonth(m - 1, leap) + MonthLength(m - 1, leap)
  }

  /** The table holds the cumulative month lengths of a leap year, and a common year has one day fewer after February. */
  lemma MonthTableIsCumulative(m: int)
    requires 0 <= m <= 12
    ensures 0 <= MonthTable[m] <= 335
    ensures 1 <= m ==> MonthTable[m] == DaysBeforeMonth(m, true)
    ensures 1 <= m ==> DaysBeforeMonth(m, false) == MonthTable[m] - (if m > 2 then 1 else 0)
  {
  }

  /** `get_day`: the day of the year, 1 for January 1st. */
  function GetDay(t: Tm): (d: int)
    requires 0 <= t.mon <= 12
    ensures 1 <= t.mon ==> d == DaysBeforeMonth(t.mon, LeapSince1970(YearsSince1970(t.year))) + t.mday
    ensures t.mon == 0 ==> d == t.mday
  {
    MonthTableIsCumulative(t.mon);
    var res := MonthTable[t.mon] + t.mday;
    var year := YearsSince1970(t.year);
    if (year + 2) % 4 != 0 && t.mon > 2 then res - 1 else res
  }

  /** A calendar-valid broken-down time with a two-digit year. */
  predicate ValidTm(t: Tm)
  {
    && 0 <= t.sec < 60 && 0 <= t.min < 60 && 0 <= t.hour < 24
    && 1 <= t.mon <= 12 && 0 <= t.year < 100
    && 1 <= t.mday <= MonthLength(t.mon, LeapSince1970(YearsSince1970(t.year)))
  }

  /**
   * The sum `mktime` accumulates, before it is stored in the 32-bit `time_t`.
   * `(year + 1) / 4` is C's division, which truncates toward zero: a year
   * before 1970 (a CMOS year byte that decodes negative) counts its leap
   * days toward zero.
   */
  function MkTimeSum(t: Tm): (r: int)
    requires 0 <= t.mon <= 12
    ensures var year := YearsSince1970(t.year);
      r == YEAR * year + DAY + StdLib.CDiv(year + 1, 4) + DAY * (GetDay(t) - 1) + HOUR * t.hour + MINUTE * t.min + t.sec
  {
    var year := YearsSince1970(t.year);
    YEAR * year + DAY + StdLib.CDiv(year + 1, 4) + MonthTable[t.mon] * DAY
    - (if t.mon > 2 && (year + 2) % 4 != 0 then DAY else 0)
    + DAY * (t.mday - 1) + HOUR * t.hour + MINUTE * t.min + t.sec
  }

  /** `mktime` as written: the sum above reduced to `time_t` (uint32). */
  function MkTime(t: Tm): (r: int)
    requires 0 <= t.mon <= 12
    ensures 0 <= r < U32_LIMIT
    ensures 0 <= MkTimeSum(t) < U32_LIMIT ==> r == MkTimeSum(t)
  {
    MkTimeSum(t) % U32_LIMIT
  }

  /** For every valid time the sum fits in `time_t`, so no wrap-around happens. */
  lemma MkTimeFits(t: Tm)
    requires ValidTm(t)
    ensures 0 <= MkTimeSum(t) < U32_LIMIT && MkTime(t) == MkTimeSum(t)
  {
    MonthTableIsCumulative(t.mon);
    var year := YearsSince1970(t.year);
    assert 0 <= year <= 129;
    assert 0 <= YEAR * year <= YEAR * 129;
    assert 0 <= (year + 1) / 4 <= 32;
    assert 0 <= MonthTable[t.mon] * DAY <= 335 * DAY;
    assert 0 <= SecondsIntoMonth(t) <= DAY * 31;
  }

  /** Seconds into the month: day, hour, minute and second in that order of significance. */
  function SecondsIntoMonth(t: Tm): int
  {
    DAY * (t.mday - 1) + HOUR * t.hour + MINUTE * t.min + t.sec
  }

  /** Within one year and month, later valid times give strictly larger `mktime` values. */
  lemma MkTimeStrictlyIncreasing(t1: Tm, t2: Tm)
    requires ValidTm(t1) && ValidTm(t2)
    requires t1.year == t2.year && t1.mon == t2.mon
    requires (t1.mday, t1.hour, t1.min, t1.sec) != (t2.mday, t2.hour, t2.min, t2.sec)
    requires t1.mday < t2.mday
          || (t1.mday == t2.mday && t1.hour < t2.hour)
          || (t1.mday == t2.mday && t1.hour == t2.hour && t1.min < t2.min)
          || (t1.mday == t2.mday && t1.hour == t2.hour && t1.min == t2.min && t1.sec < t2.sec)
    ensures MkTime(t1) < MkTime(t2)
  {
    MkTimeFits(t1);
    MkTimeFits(t2);
    assert MkTimeSum(t2) - MkTimeSum(t1) == SecondsIntoMonth(t2) - SecondsIntoMonth(t1);
  }

  /** Days from 1970-01-01 to January 1st of `year` (counted from 1970), year by year. */
  function DaysBeforeYear(year: nat): nat
  {
    if year == 0 then 0 else DaysBeforeYear(year - 1) + (if LeapSince1970(year - 1) then 366 else 365)
  }

  /** Every fourth year from 1972 on is a leap year, so `(year + 1) / 4` leap days precede `year`. */
  lemma {:induction false} DaysBeforeYearClosedForm(year: nat)
    ensures DaysBeforeYear(year) == 365 * year + (year + 1) / 4
  {
    if year > 0 {
      DaysBeforeYearClosedForm(year - 1);
    }
  }

  /**
   * `mktime` as evidently intended: one day per preceding leap year,
   * `DAY * ((year + 1) / 4)`, instead of the `DAY + (year + 1) / 4` seconds
   * the code adds.
   */
  function MkTimeIntended(t: Tm): int
    requires 0 <= t.mon <= 12
  {
    var year := YearsSince1970(t.year);
    YEAR * year + DAY * StdLib.CDiv(year + 1, 4) + MonthTable[t.mon] * DAY
    - (if t.mon > 2 && (year + 2) % 4 != 0 then DAY else 0)
    + DAY * (t.mday - 1) + HOUR * t.hour + MINUTE * t.min + t.sec
  }

  /** The intended `mktime` counts the seconds elapsed since 1970-01-01 00:00:00. */
  lemma MkTimeIntendedIsEpochSeconds(t: Tm)
    requires ValidTm(t)
    ensures MkTimeIntended(t)
         == DAY * (DaysBeforeYear(YearsSince1970(t.year))
                   + DaysBeforeMonth(t.mon, LeapSince1970(YearsSince1970(t.year)))
                   + t.mday - 1)
            + HOUR * t.hour + MINUTE * t.min + t.sec
  {
    var year := YearsSince1970(t.year);
    DaysBeforeYearClosedForm(year);
    MonthTableIsCumulative(t.mon);
    var leap := LeapSince1970(year);
    var before := MonthTable[t.mon] - (if t.mon > 2 && !leap then 1 else 0);
    assert before == DaysBeforeMonth(t.mon, leap);
    assert YEAR * year + DAY * ((year + 1) / 4) == DAY * DaysBeforeYear(year);
  }

  /** As written, `mktime` exceeds the elapsed seconds by one day plus one second per leap year, less the leap days. */
  lemma MkTimeAsWrittenDiscrepancy(t: Tm)
    requires ValidTm(t)
    ensures MkTime(t) - MkTimeIntended(t)
         == DAY + (YearsSince1970(t.year) + 1) / 4 - DAY * ((YearsSince1970(t.year) + 1) / 4)
  {
    MkTimeFits(t);
  }

  /** The epoch itself: 1970-01-01 00:00:00 comes out as 86400 instead of 0. */
  lemma MkTimeOfEpoch()
    ensures MkTime(Tm(0, 0, 0, 1, 1, 70)) == 86400
    ensures MkTimeIntended(Tm(0, 0, 0, 1, 1, 70)) == 0
  {
  }
}
