/** Billing periods counted from a start date (internal/shared/pricing/period.go). */
module Period {
  import opened Calendar

  /** The six billing frequencies; `Unlisted` is any other string, which the source's month table maps to 0. */
  datatype Frequency = Daily | Weekly | Monthly | Quarterly | Semiannual | Annual | Unlisted

  function Months(f: Frequency): nat {
    match f
    case Monthly => 1
    case Quarterly => 3
    case Semiannual => 6
    case Annual => 12
    case _ => 0
  }

  /** Go's `a / 12` and `a % 12`: truncated toward zero. */
  function Quo12(a: int): int {
    if a >= 0 then a / 12 else -((-a) / 12)
  }

  function Rem12(a: int): int {
    a - 12 * Quo12(a)
  }

  /** The year and month `total` months after January of year `y`. */
  function TargetMonth(y: int, total: int): (int, int) {
    if total < 0 && Rem12(total) != 0
    then (y + Quo12(total) - 1, Rem12(total) + 13)
    else (y + Quo12(total), Rem12(total) + 1)
  }

  function AddDays(start: Date, n: int): Date {
    Normalize(start.year, start.month, start.day + n)
  }

  function AddMonths(start: Date, n: int): Date {
    var (ty, tm) := TargetMonth(start.year, start.month - 1 + n);
    var last := Normalize(ty, tm + 1, 0).day;
    Normalize(ty, tm, if start.day < last then start.day else last)
  }

  function AddPeriod(start: Date, f: Frequency, n: int): Date {
    if f == Daily then AddDays(start, n)
    else if f == Weekly then AddDays(start, 7 * n)
    else AddMonths(start, Months(f) * n)
  }

  function PeriodRange(start: Date, f: Frequency, n: int): (Date, Date) {
    (AddPeriod(start, f, n), AddDays(AddPeriod(start, f, n + 1), -1))
  }

  // ---------- what one step does ----------

  function Clamp(day: int, k: int): int {
    if day < MonthLength(k) then day else MonthLength(k)
  }

  /** The sign test around Go's truncated division makes it floor division. */
  lemma TargetMonthFloors(y: int, total: int)
    ensures TargetMonth(y, total) == (y + total / 12, total % 12 + 1)
  {
  }

  /** `AddMonths` lands in the month `n` later, on the start's day clamped to that month's end. */
  lemma AddMonthsLands(start: Date, n: int)
    requires Valid(start)
    ensures var r := AddMonths(start, n);
            Valid(r) && MonthNumber(r) == MonthNumber(start) + n && r.day == Clamp(start.day, MonthNumber(start) + n)
  {
    hide TargetMonth, Normalize;
    var total := start.month - 1 + n;
    TargetMonthFloors(start.year, total);
    var ty, tm := start.year + total / 12, total % 12 + 1;
    MonthNumberSplits(ty, tm);
    NormalizeDayZero(ty, tm);
    NormalizeInRange(ty, tm, Clamp(start.day, 12 * ty + tm - 1));
  }

  lemma AddDaysLands(start: Date, n: int)
    ensures Valid(AddDays(start, n)) && DayNumber(AddDays(start, n)) == DayNumber(start) + n
  {
  }

  lemma AddPeriodValid(start: Date, f: Frequency, n: int)
    requires Valid(start)
    ensures Valid(AddPeriod(start, f, n))
  {
    AddDaysLands(start, n);
    AddDaysLands(start, 7 * n);
    AddMonthsLands(start, Months(f) * n);
  }

  /** How far `n` periods reach: days and weeks on the calendar, the others by whole months, on the start's day or the last day
      of the month if that is earlier. */
  lemma AddPeriodLands(start: Date, f: Frequency, n: int)
    requires Valid(start)
    ensures var r := AddPeriod(start, f, n);
            && (f == Daily ==> DayNumber(r) == DayNumber(start) + n)
            && (f == Weekly ==> DayNumber(r) == DayNumber(start) + 7 * n)
            && (f == Monthly ==> MonthsLater(start, r, n))
            && (f == Quarterly ==> MonthsLater(start, r, 3 * n))
            && (f == Semiannual ==> MonthsLater(start, r, 6 * n))
            && (f == Annual ==> MonthsLater(start, r, 12 * n))
            && (f == Unlisted ==> r == start)
  {
    hide AddMonths, DayNumber, MonthLength;
    AddDaysLands(start, n);
    AddDaysLands(start, 7 * n);
    AddMonthsLands(start, Months(f) * n);
    if f == Unlisted {
      AddMonthsZero(start);
    } else if f != Daily && f != Weekly {
      ClampedMonthsLater(start, AddPeriod(start, f, n), Months(f) * n);
    }
  }

  lemma ClampedMonthsLater(start: Date, r: Date, m: int)
    requires Valid(start) && Valid(r) && MonthNumber(r) == MonthNumber(start) + m
    requires r.day == Clamp(start.day, MonthNumber(start) + m)
    ensures MonthsLater(start, r, m)
  {
  }

  /** `r` lies `m` months after `start`, on its day or, if there is no such day, on the month's last. */
  ghost predicate MonthsLater(start: Date, r: Date, m: int) {
    && Valid(r) && 12 * r.year + r.month == 12 * start.year + start.month + m
    && (r.day == start.day || (r.day < start.day && !Valid(r.(day := r.day + 1))))
  }

  lemma AddMonthsZero(start: Date)
    requires Valid(start)
    ensures AddMonths(start, 0) == start
  {
    AddMonthsLands(start, 0);
    SameMonthSameDate(AddMonths(start, 0), start);
  }

  /** Zero periods is the start itself, for every frequency. */
  lemma AddZeroPeriods(start: Date, f: Frequency)
    requires Valid(start)
    ensures AddPeriod(start, f, 0) == start
  {
    hide AddMonths, AddDays;
    AddDaysLands(start, 0);
    DayOrderIsLexicographic(AddDays(start, 0), start);
    AddMonthsZero(start);
  }

  // ---------- the periods partition the calendar ----------

  lemma AddMonthsIncreases(start: Date, m: int, n: int)
    requires Valid(start) && m < n
    ensures DayNumber(AddMonths(start, m)) < DayNumber(AddMonths(start, n))
  {
    hide AddMonths;
    AddMonthsLands(start, m);
    AddMonthsLands(start, n);
    EarlierMonth(AddMonths(start, m), AddMonths(start, n));
  }

  /** A later period starts strictly later, for negative counts too. */
  lemma AddPeriodIncreases(start: Date, f: Frequency, m: int, n: int)
    requires Valid(start) && f != Unlisted && m < n
    ensures DayNumber(AddPeriod(start, f, m)) < DayNumber(AddPeriod(start, f, n))
  {
    hide AddMonths, AddDays;
    if f == Daily {
      AddDaysLands(start, m);
      AddDaysLands(start, n);
    } else if f == Weekly {
      AddDaysLands(start, 7 * m);
      AddDaysLands(start, 7 * n);
    } else {
      AddMonthsIncreases(start, Months(f) * m, Months(f) * n);
    }
  }

  ghost predicate StrictlyIncreasing(at: int -> int) {
    forall m, n :: m < n ==> at(m) < at(n)
  }

  /** The half-open intervals between consecutive values of a strictly increasing function cover the integers. */
  lemma {:induction false} SomeIntervalHolds(at: int -> int, x: int, from: int) returns (n: int)
    requires StrictlyIncreasing(at)
    ensures at(n) <= x < at(n + 1)
    decreases if x < at(from) then at(from) - x else 0, if at(from + 1) <= x then x - at(from) else 0
  {
    if x < at(from) {
      n := SomeIntervalHolds(at, x, from - 1);
    } else if at(from + 1) <= x {
      n := SomeIntervalHolds(at, x, from + 1);
    } else {
      n := from;
    }
  }

  lemma OnlyOneInterval(at: int -> int, x: int, m: int, n: int)
    requires StrictlyIncreasing(at)
    requires at(m) <= x < at(m + 1) && at(n) <= x < at(n + 1)
    ensures m == n
  {
    assert m + 1 < n ==> at(m + 1) < at(n);
    assert n + 1 < m ==> at(n + 1) < at(m);
  }

  function DayOfPeriod(start: Date, f: Frequency): int -> int {
    n => DayNumber(AddPeriod(start, f, n))
  }

  lemma DayOfPeriodIncreases(start: Date, f: Frequency)
    requires Valid(start) && f != Unlisted
    ensures StrictlyIncreasing(DayOfPeriod(start, f))
  {
    forall m, n | m < n ensures DayOfPeriod(start, f)(m) < DayOfPeriod(start, f)(n) {
      AddPeriodIncreases(start, f, m, n);
    }
  }

  ghost predicate InPeriod(start: Date, f: Frequency, n: int, x: Date) {
    var (from, to) := PeriodRange(start, f, n);
    DayNumber(from) <= DayNumber(x) <= DayNumber(to)
  }

  /** `x` lies in the n-th range iff it is not before the n-th start and is before the next one. */
  lemma InPeriodByStarts(start: Date, f: Frequency, n: int, x: Date)
    ensures InPeriod(start, f, n, x) <==>
              DayOfPeriod(start, f)(n) <= DayNumber(x) < DayOfPeriod(start, f)(n + 1)
  {
    AddDaysLands(AddPeriod(start, f, n + 1), -1);
  }

  /** Consecutive ranges abut, and each holds at least one day. */
  lemma RangesAbut(start: Date, f: Frequency, n: int)
    requires Valid(start) && f != Unlisted
    ensures var (from, to) := PeriodRange(start, f, n);
            Valid(from) && Valid(to) && DayNumber(from) <= DayNumber(to)
            && DayNumber(PeriodRange(start, f, n + 1).0) == DayNumber(to) + 1
  {
    AddPeriodValid(start, f, n);
    AddDaysLands(AddPeriod(start, f, n + 1), -1);
    AddPeriodIncreases(start, f, n, n + 1);
  }

  lemma CountSignIsSideOfStart(start: Date, f: Frequency, n: int, x: Date)
    requires Valid(start) && f != Unlisted && InPeriod(start, f, n, x)
    ensures n >= 0 <==> DayNumber(start) <= DayNumber(x)
  {
    hide AddMonths, AddDays;
    InPeriodByStarts(start, f, n, x);
    AddZeroPeriods(start, f);
    if n > 0 {
      AddPeriodIncreases(start, f, 0, n);
    } else if n + 1 < 0 {
      AddPeriodIncreases(start, f, n + 1, 0);
    }
  }

  /** The ranges of all integer counts partition the calendar, split at the start date. */
  lemma PeriodsPartitionCalendar(start: Date, f: Frequency, x: Date)
    requires Valid(start) && Valid(x) && f != Unlisted
    ensures exists n :: InPeriod(start, f, n, x)
    ensures forall m, n :: InPeriod(start, f, m, x) && InPeriod(start, f, n, x) ==> m == n
    ensures forall n :: InPeriod(start, f, n, x) ==> (n >= 0 <==> DayNumber(start) <= DayNumber(x))
  {
    DayOfPeriodIncreases(start, f);
    var k := SomeIntervalHolds(DayOfPeriod(start, f), DayNumber(x), 0);
    InPeriodByStarts(start, f, k, x);
    forall m, n | InPeriod(start, f, m, x) && InPeriod(start, f, n, x) ensures m == n {
      InPeriodByStarts(start, f, m, x);
      InPeriodByStarts(start, f, n, x);
      OnlyOneInterval(DayOfPeriod(start, f), DayNumber(x), m, n);
    }
    forall n | InPeriod(start, f, n, x) ensures n >= 0 <==> DayNumber(start) <= DayNumber(x) {
      CountSignIsSideOfStart(start, f, n, x);
    }
  }

  /** A frequency outside the table never moves: its ranges are empty, so no date has a period. */
  lemma PeriodsExistOnlyForListed(start: Date, f: Frequency, x: Date)
    requires Valid(start) && Valid(x)
    ensures (exists n :: InPeriod(start, f, n, x)) <==> f != Unlisted
  {
    if f == Unlisted {
      forall n ensures !InPeriod(start, f, n, x) {
        InPeriodByStarts(start, f, n, x);
        assert AddPeriod(start, f, n) == AddMonths(start, 0) == AddPeriod(start, f, n + 1);
      }
    } else {
      PeriodsPartitionCalendar(start, f, x);
    }
  }

  // ---------- counting does not drift ----------

  /** n quarters, semesters and years are 3n, 6n and 12n months; n weeks are 7n days. */
  lemma LongPeriodsAreShortOnes(start: Date, n: int)
    ensures AddPeriod(start, Quarterly, n) == AddPeriod(start, Monthly, 3 * n)
    ensures AddPeriod(start, Semiannual, n) == AddPeriod(start, Monthly, 6 * n)
    ensures AddPeriod(start, Annual, n) == AddPeriod(start, Monthly, 12 * n)
    ensures AddPeriod(start, Weekly, n) == AddPeriod(start, Daily, 7 * n)
  {
    hide AddMonths, AddDays;
  }

  lemma ClampedTwice(day: int, j: int, k: int)
    requires 1 <= day <= 31
    ensures Clamp(day, k) - 3 <= Clamp(Clamp(day, j), k) <= Clamp(day, k)
    ensures Clamp(Clamp(day, j), k) == Clamp(day, k) <==> Clamp(day, k) <= Clamp(day, j)
  {
  }

  /** Months chained a then b land in the month of a + b, never later and at most 3 days earlier;
      the two agree iff the intermediate day is no smaller than the direct one. */
  lemma ChainedMonths(start: Date, a: int, b: int)
    requires Valid(start)
    ensures var mid := AddMonths(start, a);
            var chained, direct := AddMonths(mid, b), AddMonths(start, a + b);
            && MonthNumber(chained) == MonthNumber(direct)
            && direct.day - 3 <= chained.day <= direct.day
            && (chained == direct <==> direct.day <= mid.day)
  {
    hide AddMonths;
    var mid := AddMonths(start, a);
    var chained, direct := AddMonths(mid, b), AddMonths(start, a + b);
    AddMonthsLands(start, a);
    AddMonthsLands(mid, b);
    AddMonthsLands(start, a + b);
    ClampedTwice(start.day, MonthNumber(mid), MonthNumber(direct));
    if chained.day == direct.day {
      SameMonthSameDate(chained, direct);
    }
  }

  lemma ChainedDays(start: Date, a: int, b: int)
    requires Valid(start)
    ensures AddDays(AddDays(start, a), b) == AddDays(start, a + b)
  {
    AddDaysLands(start, a);
    AddDaysLands(AddDays(start, a), b);
    AddDaysLands(start, a + b);
    DayOrderIsLexicographic(AddDays(AddDays(start, a), b), AddDays(start, a + b));
  }

  /** The same for every frequency: exact by days, and by months iff the intermediate day is no smaller. */
  lemma ChainedPeriods(start: Date, f: Frequency, a: int, b: int)
    requires Valid(start)
    ensures var mid := AddPeriod(start, f, a);
            var chained, direct := AddPeriod(mid, f, b), AddPeriod(start, f, a + b);
            if f == Daily || f == Weekly then chained == direct
            else MonthNumber(chained) == MonthNumber(direct) && direct.day - 3 <= chained.day <= direct.day
                 && (chained == direct <==> direct.day <= mid.day)
  {
    hide AddMonths, AddDays;
    if f == Daily {
      ChainedDays(start, a, b);
    } else if f == Weekly {
      ChainedDays(start, 7 * a, 7 * b);
    } else {
      assert Months(f) * (a + b) == Months(f) * a + Months(f) * b;
      ChainedMonths(start, Months(f) * a, Months(f) * b);
    }
  }

  /** Stepping n and then back -n returns to the start iff the first step did not clamp the day. */
  lemma StepBackReturns(start: Date, f: Frequency, n: int)
    requires Valid(start)
    ensures var there := AddPeriod(start, f, n);
            AddPeriod(there, f, -n) == start <==> f == Daily || f == Weekly || there.day == start.day
  {
    hide AddMonths, AddDays;
    AddZeroPeriods(start, f);
    ChainedPeriods(start, f, n, -n);
    if f != Daily && f != Weekly {
      AddMonthsLands(start, Months(f) * n);
    }
  }

  /** The clamp is real: from 31 January, two chained months end days before two months counted from the start. */
  lemma ChainingDrifts(start: Date)
    requires Valid(start) && start.month == 1 && start.day == 31
    ensures AddMonths(AddMonths(start, 1), 1).day < AddMonths(start, 2).day
  {
    hide AddMonths;
    ChainedMonths(start, 1, 1);
    AddMonthsLands(start, 1);
    AddMonthsLands(AddMonths(start, 1), 1);
    AddMonthsLands(start, 2);
    MonthNumberSplits(start.year, 2);
    MonthNumberSplits(start.year, 3);
  }
}
