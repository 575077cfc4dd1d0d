/** The proleptic Gregorian calendar as Go's `time` package sees it, with the hour dropped.

    A date is a (year, month, day) triple. Months are counted from month 1 of year 0, days from
    1 January of year 1; both counts run through all integers. Go's `time.Date` accepts months and
    days out of range and normalises them: `Normalize` does the same. */
module Calendar {

  datatype Date = Date(year: int, month: int, day: int)

  predicate IsLeap(y: int) {
    y % 4 == 0 && (y % 100 != 0 || y % 400 == 0)
  }

  function DaysIn(y: int, m: int): int {
    if m == 2 then if IsLeap(y) then 29 else 28
    else if m == 4 || m == 6 || m == 9 || m == 11 then 30
    else 31
  }

  function MonthNumber(x: Date): int {
    12 * x.year + x.month - 1
  }

  function MonthLength(k: int): (days: int)
    ensures 28 <= days <= 31
  {
    DaysIn(k / 12, k % 12 + 1)
  }

  predicate Valid(x: Date) {
    1 <= x.month <= 12 && 1 <= x.day <= MonthLength(MonthNumber(x))
  }

  /** The day number of the first of month `k`: the lengths of the months between it and January of year 1. */
  function MonthStart(k: int): int
    decreases if k < 12 then 12 - k else k - 12
  {
    if k == 12 then 0
    else if k > 12 then MonthStart(k - 1) + MonthLength(k - 1)
    else MonthStart(k + 1) - MonthLength(k)
  }

  function DayNumber(x: Date): int {
    MonthStart(MonthNumber(x)) + x.day - 1
  }

  /** Day `d` (from 0) of month `k`, carried month by month until it is in range. */
  function Carry(k: int, d: int): (x: Date)
    ensures Valid(x) && DayNumber(x) == MonthStart(k) + d
    decreases if d < 0 then -d else if d < MonthLength(k) then 0 else d
  {
    if d < 0 then NextMonthStart(k - 1); Carry(k - 1, d + MonthLength(k - 1))
    else if d < MonthLength(k) then InMonth(k, d)
    else NextMonthStart(k); Carry(k + 1, d - MonthLength(k))
  }

  function InMonth(k: int, d: int): (x: Date)
    requires 0 <= d < MonthLength(k)
    ensures Valid(x) && MonthNumber(x) == k && x.day == d + 1
  {
    Date(k / 12, k % 12 + 1, d + 1)
  }

  /** `time.Date(y, m, d, 0, 0, 0, 0, time.UTC)` with month and day possibly out of range. */
  function Normalize(y: int, m: int, d: int): Date {
    Carry(12 * y + m - 1, d - 1)
  }

  // ---------- months ----------

  lemma NextMonthStart(k: int)
    ensures MonthStart(k + 1) == MonthStart(k) + MonthLength(k)
  {
  }

  lemma {:induction false} MonthStartGrows(j: int, k: int)
    requires j < k
    ensures MonthStart(j) + MonthLength(j) <= MonthStart(k)
    decreases k - j
  {
    NextMonthStart(k - 1);
    if j < k - 1 {
      MonthStartGrows(j, k - 1);
    }
  }

  lemma MonthNumberSplits(y: int, m: int)
    requires 1 <= m <= 12
    ensures (12 * y + m - 1) / 12 == y && (12 * y + m - 1) % 12 == m - 1
    ensures MonthLength(12 * y + m - 1) == DaysIn(y, m)
  {
  }

  lemma SameMonthSameDate(a: Date, b: Date)
    requires 1 <= a.month <= 12 && 1 <= b.month <= 12
    requires MonthNumber(a) == MonthNumber(b) && a.day == b.day
    ensures a == b
  {
  }

  // ---------- days ----------

  /** Day order is the lexicographic order on (year, month, day). */
  ghost predicate Before(a: Date, b: Date) {
    a.year < b.year || (a.year == b.year && (a.month < b.month || (a.month == b.month && a.day < b.day)))
  }

  lemma EarlierMonth(a: Date, b: Date)
    requires Valid(a) && Valid(b) && MonthNumber(a) < MonthNumber(b)
    ensures DayNumber(a) < DayNumber(b)
  {
    MonthStartGrows(MonthNumber(a), MonthNumber(b));
  }

  lemma DayOrderIsLexicographic(a: Date, b: Date)
    requires Valid(a) && Valid(b)
    ensures DayNumber(a) < DayNumber(b) <==> Before(a, b)
    ensures DayNumber(a) == DayNumber(b) <==> a == b
  {
    if MonthNumber(a) < MonthNumber(b) {
      EarlierMonth(a, b);
    } else if MonthNumber(b) < MonthNumber(a) {
      EarlierMonth(b, a);
    }
  }

  // ---------- the calendar in closed form ----------

  /** The leap years among the years 1 to `y`, as inclusion and exclusion counts them; negative for years before. */
  function LeapYears(y: int): int {
    y / 4 - y / 100 + y / 400
  }

  /** The days between 1 January of year 1 and that of year `y`. */
  function YearStart(y: int): int {
    365 * (y - 1) + LeapYears(y - 1)
  }

  lemma QuotientGrows(y: int)
    ensures y / 4 - (y - 1) / 4 == if y % 4 == 0 then 1 else 0
    ensures y / 100 - (y - 1) / 100 == if y % 100 == 0 then 1 else 0
    ensures y / 400 - (y - 1) / 400 == if y % 400 == 0 then 1 else 0
  {
  }

  lemma HundredDivides(q: int)
    ensures 100 * q % 100 == 0 && 4 * q % 4 == 0
  {
  }

  lemma DivisorsNest(y: int)
    ensures y % 400 == 0 ==> y % 100 == 0
    ensures y % 100 == 0 ==> y % 4 == 0
  {
    HundredDivides(4 * (y / 400));
    HundredDivides(25 * (y / 100));
  }

  lemma LeapYearsGrow(y: int)
    ensures LeapYears(y) - LeapYears(y - 1) == if IsLeap(y) then 1 else 0
  {
    QuotientGrows(y);
    DivisorsNest(y);
  }

  lemma MonthStartsInYear(y: int, m: int)
    requires 1 <= m <= 12
    ensures MonthStart(12 * y + m) == MonthStart(12 * y + m - 1) + DaysIn(y, m)
  {
    NextMonthStart(12 * y + m - 1);
    MonthNumberSplits(y, m);
  }

  lemma FirstHalf(y: int)
    ensures MonthStart(12 * y + 1) == MonthStart(12 * y) + 31
    ensures MonthStart(12 * y + 2) == MonthStart(12 * y) + 31 + DaysIn(y, 2)
    ensures MonthStart(12 * y + 3) == MonthStart(12 * y + 2) + 31 && MonthStart(12 * y + 4) == MonthStart(12 * y + 2) + 61
    ensures MonthStart(12 * y + 5) == MonthStart(12 * y + 2) + 92 && MonthStart(12 * y + 6) == MonthStart(12 * y + 2) + 122
  {
    hide MonthStart;
    MonthStartsInYear(y, 1);
    MonthStartsInYear(y, 2);
    MonthStartsInYear(y, 3);
    MonthStartsInYear(y, 4);
    MonthStartsInYear(y, 5);
    MonthStartsInYear(y, 6);
  }

  lemma SecondHalf(y: int)
    ensures MonthStart(12 * y + 7) == MonthStart(12 * y + 6) + 31 && MonthStart(12 * y + 8) == MonthStart(12 * y + 6) + 62
    ensures MonthStart(12 * y + 9) == MonthStart(12 * y + 6) + 92 && MonthStart(12 * y + 10) == MonthStart(12 * y + 6) + 123
    ensures MonthStart(12 * y + 11) == MonthStart(12 * y + 6) + 153 && MonthStart(12 * y + 12) == MonthStart(12 * y + 6) + 184
  {
    hide MonthStart;
    MonthStartsInYear(y, 7);
    MonthStartsInYear(y, 8);
    MonthStartsInYear(y, 9);
    MonthStartsInYear(y, 10);
    MonthStartsInYear(y, 11);
    MonthStartsInYear(y, 12);
  }

  lemma YearHasItsDays(y: int)
    ensures MonthStart(12 * (y + 1)) - MonthStart(12 * y) == YearStart(y + 1) - YearStart(y)
    ensures forall m :: 1 <= m <= 12 ==>
              MonthStart(12 * y + m - 1) == MonthStart(12 * y) + (367 * m - 362) / 12
                                            + if m <= 2 then 0 else LeapYears(y) - LeapYears(y - 1) - 2
  {
    hide MonthStart, LeapYears;
    FirstHalf(y);
    SecondHalf(y);
    LeapYearsGrow(y);
    assert DaysIn(y, 2) == 28 + LeapYears(y) - LeapYears(y - 1);
  }

  lemma {:induction false} YearsStartAt(y: int)
    ensures MonthStart(12 * y) == YearStart(y)
    decreases if y < 1 then 1 - y else y - 1
  {
    if y > 1 {
      YearsStartAt(y - 1);
      YearHasItsDays(y - 1);
    } else if y < 1 {
      YearsStartAt(y + 1);
      YearHasItsDays(y);
    }
  }

  /** The day number of a date in closed form, with no month table and no test for leap years. */
  lemma DayNumberIs(x: Date)
    requires 1 <= x.month <= 12
    ensures DayNumber(x) == 365 * (x.year - 1) + (x.year - 1) / 4 - (x.year - 1) / 100 + (x.year - 1) / 400
                            + (367 * x.month - 362) / 12 + x.day - 1
                            + if x.month <= 2 then 0 else LeapYears(x.year) - LeapYears(x.year - 1) - 2
  {
    YearsStartAt(x.year);
    YearHasItsDays(x.year);
    hide MonthStart;
  }

  /** Which dates exist. */
  lemma ValidIs(x: Date)
    ensures Valid(x) <==>
            && 1 <= x.month <= 12 && 1 <= x.day
            && x.day <= (if x.month in {4, 6, 9, 11} then 30
                         else if x.month != 2 then 31
                         else 28 + LeapYears(x.year) - LeapYears(x.year - 1))
  {
    LeapYearsGrow(x.year);
    hide LeapYears;
    if 1 <= x.month <= 12 {
      MonthNumberSplits(x.year, x.month);
    }
  }

  // ---------- normalisation ----------

  /** Every integer is the number of exactly one valid date. */
  lemma DaysAreDates(n: int)
    ensures exists x :: Valid(x) && DayNumber(x) == n
    ensures forall a, b :: Valid(a) && Valid(b) && DayNumber(a) == n == DayNumber(b) ==> a == b
  {
    var x := Carry(12, n);
    forall a, b | Valid(a) && Valid(b) && DayNumber(a) == n == DayNumber(b) ensures a == b {
      DayOrderIsLexicographic(a, b);
    }
  }

  /** A day that exists is kept. */
  lemma NormalizeInRange(y: int, m: int, d: int)
    requires 1 <= m <= 12 && 1 <= d <= DaysIn(y, m)
    ensures Normalize(y, m, d) == Date(y, m, d)
  {
    MonthNumberSplits(y, m);
  }

  /** Day 0 of the next month is the last day of this one. */
  lemma NormalizeDayZero(y: int, m: int)
    requires 1 <= m <= 12
    ensures Normalize(y, m + 1, 0) == Date(y, m, DaysIn(y, m))
  {
    MonthNumberSplits(y, m);
    var k := 12 * y + m - 1;
    assert Carry(k + 1, -1) == Carry(k, MonthLength(k) - 1);
  }
}
