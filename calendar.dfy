/** The proleptic Gregorian calendar that boost::gregorian::date implements, reduced to
    what the publisher needs: validity of a day, and the count of days since the
    publisher's epoch 1970-01-01. */
module Calendar {

  datatype Date = Date(year: int, month: int, day: int)

  const EPOCH_YEAR: int := 1970

  predicate IsLeapYear(y: int)
  {
    (y % 4 == 0 && y % 100 != 0) || y % 400 == 0
  }

  function DaysInMonth(y: int, m: int): (n: int)
    requires 1 <= m <= 12
    ensures 28 <= n <= 31
  {
    if m == 2 then (if IsLeapYear(y) then 29 else 28)
    else if m == 4 || m == 6 || m == 9 || m == 11 then 30
    else 31
  }

  /** boost::gregorian::date accepts years 1400 to 9999 and rejects a day that does
      not exist in its month. */
  predicate ValidDate(d: Date)
  {
    1400 <= d.year <= 9999 && 1 <= d.month <= 12 && 1 <= d.day <= DaysInMonth(d.year, d.month)
  }

  type CalendarDate = d: Date | ValidDate(d) witness Date(1970, 1, 1)

  function YearLength(y: int): (n: int)
    ensures n == 365 || n == 366
  {
    if IsLeapYear(y) then 366 else 365
  }

  /** Days from 1 January of the epoch year to 1 January of `y` (negative before it). */
  function DaysBeforeYear(y: int): (n: int)
    decreases if y >= EPOCH_YEAR then y - EPOCH_YEAR else EPOCH_YEAR - y
  {
    if y == EPOCH_YEAR then 0
    else if y > EPOCH_YEAR then DaysBeforeYear(y - 1) + YearLength(y - 1)
    else DaysBeforeYear(y + 1) - YearLength(y)
  }

  /** Days from 1 January to the first of month `m` of year `y`. */
  function DaysBeforeMonth(y: int, m: int): (n: int)
    requires 1 <= m <= 12
    ensures 28 * (m - 1) <= n <= 31 * (m - 1)
  {
    if m == 1 then 0 else DaysBeforeMonth(y, m - 1) + DaysInMonth(y, m - 1)
  }

  /** (date - epoch).days() for the epoch 1970-01-01. */
  function DaysSinceEpoch(d: CalendarDate): (n: int)
  {
    DaysBeforeYear(d.year) + DaysBeforeMonth(d.year, d.month) + d.day - 1
  }

  /** The day after a valid date, within the calendar's range. */
  function NextDay(d: CalendarDate): (r: Date)
    ensures d.year < 9999 || d.month < 12 || d.day < 31 ==> ValidDate(r)
  {
    if d.day < DaysInMonth(d.year, d.month) then Date(d.year, d.month, d.day + 1)
    else if d.month < 12 then Date(d.year, d.month + 1, 1)
    else Date(d.year + 1, 1, 1)
  }

  lemma DaysBeforeYearStep(y: int)
    ensures DaysBeforeYear(y + 1) == DaysBeforeYear(y) + YearLength(y)
  {
  }

  lemma DaysBeforeYearDecember(y: int)
    ensures DaysBeforeMonth(y, 12) + DaysInMonth(y, 12) == YearLength(y)
  {
    var leap := if IsLeapYear(y) then 1 else 0;
    assert DaysBeforeMonth(y, 3) == 59 + leap;
    assert DaysBeforeMonth(y, 4) == 90 + leap;
    assert DaysBeforeMonth(y, 5) == 120 + leap;
    assert DaysBeforeMonth(y, 6) == 151 + leap;
    assert DaysBeforeMonth(y, 7) == 181 + leap;
    assert DaysBeforeMonth(y, 8) == 212 + leap;
    assert DaysBeforeMonth(y, 9) == 243 + leap;
    assert DaysBeforeMonth(y, 10) == 273 + leap;
    assert DaysBeforeMonth(y, 11) == 304 + leap;
    assert DaysBeforeMonth(y, 12) == 334 + leap;
  }

  /** The day count is consecutive: the next day is one more day after the epoch,
      across month and year ends and 29 February. */
  lemma {:induction false} DaysSinceEpochNextDay(d: CalendarDate)
    requires d.year < 9999 || d.month < 12 || d.day < 31
    ensures DaysSinceEpoch(NextDay(d)) == DaysSinceEpoch(d) + 1
  {
    var n := NextDay(d);
    if d.day < DaysInMonth(d.year, d.month) {
      assert n == Date(d.year, d.month, d.day + 1);
    } else if d.month < 12 {
      assert n == Date(d.year, d.month + 1, 1);
      assert DaysBeforeMonth(d.year, d.month + 1) == DaysBeforeMonth(d.year, d.month) + DaysInMonth(d.year, d.month);
    } else {
      assert n == Date(d.year + 1, 1, 1);
      DaysBeforeYearStep(d.year);
      DaysBeforeYearDecember(d.year);
    }
  }

  /** The epoch itself is day 0. */
  lemma DaysSinceEpochEpoch()
    ensures DaysSinceEpoch(Date(1970, 1, 1)) == 0
  {
  }

  /** The date the RMC test sentence carries, 2002-11-10, is day 12001 after the epoch:
      32 years of which 8 are leap years, then 304 days to 1 November, then 9. */
  lemma DaysSinceEpochExample()
    ensures DaysSinceEpoch(Date(2002, 11, 10)) == 12001
  {
    DaysBeforeYearCount(8);
    DaysBeforeNovember2002();
  }

  lemma DaysBeforeNovember2002()
    ensures DaysBeforeMonth(2002, 11) == 304
  {
  }

  lemma FourYears(y: int)
    requires 1900 < y < 2096 && y % 4 == 2
    ensures YearLength(y) + YearLength(y + 1) + YearLength(y + 2) + YearLength(y + 3) == 4 * 365 + 1
  {
    assert IsLeapYear(y + 2);
  }

  /** Days before year 1970 + 4k, counted in four-year blocks from the epoch. */
  lemma {:induction false} DaysBeforeYearCount(k: nat)
    requires k <= 8
    ensures DaysBeforeYear(EPOCH_YEAR + 4 * k) == 1461 * k
  {
    if k > 0 {
      DaysBeforeYearCount(k - 1);
      var y := EPOCH_YEAR + 4 * (k - 1);
      DaysBeforeYearStep(y);
      DaysBeforeYearStep(y + 1);
      DaysBeforeYearStep(y + 2);
      DaysBeforeYearStep(y + 3);
      FourYears(y);
    }
  }
}
