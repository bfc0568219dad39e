/** Dates of the proleptic Gregorian calendar (section 3.2.1 of ISO 8601:2004), their day numbers,
    and month arithmetic (src/temporal.rs:2350-2390). */
module Calendar {

  // ---------------------------------------------------------------- dates

  datatype Date = Date(y: int, m: int, d: int)

  predicate IsLeap(y: int) {
    y % 4 == 0 && (y % 100 != 0 || y % 400 == 0)
  }

  /** Days of a month, as the calendar has them. */
  function MonthLength(y: int, m: int): (n: int)
    requires 1 <= m <= 12
    ensures 28 <= n <= 31
  {
    if m == 2 then (if IsLeap(y) then 29 else 28)
    else if m == 4 || m == 6 || m == 9 || m == 11 then 30
    else 31
  }

  predicate ValidDate(d: Date) {
    1 <= d.m <= 12 && 1 <= d.d <= MonthLength(d.y, d.m)
  }

  /** Days from 0001-01-01 to the first day of the year. */
  function DaysBeforeYear(y: int): int {
    var n := y - 1;
    365 * n + n / 4 - n / 100 + n / 400
  }

  function DaysBeforeMonth(y: int, m: int): int
    requires 1 <= m <= 12
  {
    if m == 1 then 0 else DaysBeforeMonth(y, m - 1) + MonthLength(y, m - 1)
  }

  /** Days from 0001-01-01; `signed_duration_since` is the difference of two of these. */
  function DayNumber(d: Date): int
    requires ValidDate(d)
  {
    DaysBeforeYear(d.y) + DaysBeforeMonth(d.y, d.m) + d.d - 1
  }

  function NextYear(y: int, m: int): int {
    if m == 12 then y + 1 else y
  }

  function NextMonth(m: int): int {
    if m == 12 then 1 else m + 1
  }

  lemma YearLength(y: int)
    ensures DaysBeforeYear(y + 1) == DaysBeforeYear(y) + (if IsLeap(y) then 366 else 365)
  {
    QuotientStep(y, 4);
    QuotientStep(y, 100);
    QuotientStep(y, 400);
    MultipleOfMultiple(y);
  }

  /** A century is a multiple of four years, and a 400-year cycle of a century. */
  lemma MultipleOfMultiple(y: int)
    ensures y % 100 == 0 ==> y % 4 == 0
    ensures y % 400 == 0 ==> y % 100 == 0
  {
    var q, r := y / 100, y % 100;
    assert y == 4 * (25 * q) + r;
    var p, t := y / 400, y % 400;
    assert y == 100 * (4 * p) + t;
    if t == 0 {
      assert y == 100 * (4 * p);
    }
  }

  lemma QuotientStep(y: int, k: int)
    requires k == 4 || k == 100 || k == 400
    ensures y / k == (y - 1) / k + (if y % k == 0 then 1 else 0)
  {
  }

  /** A month begins where the month before it ends. */
  lemma MonthAfterMonth(y: int, m: int)
    requires 1 <= m <= 12
    ensures DayNumber(Date(NextYear(y, m), NextMonth(m), 1)) == DayNumber(Date(y, m, 1)) + MonthLength(y, m)
  {
    if m == 12 {
      YearLength(y);
      MonthsOfYear(y);
    }
  }

  lemma MonthsOfYear(y: int)
    ensures DaysBeforeMonth(y, 12) == if IsLeap(y) then 335 else 334
  {
    hide IsLeap;
    assert DaysBeforeMonth(y, 2) == 31;
    assert DaysBeforeMonth(y, 3) == if IsLeap(y) then 60 else 59;
    assert DaysBeforeMonth(y, 5) == if IsLeap(y) then 121 else 120;
    assert DaysBeforeMonth(y, 7) == if IsLeap(y) then 182 else 181;
    assert DaysBeforeMonth(y, 9) == if IsLeap(y) then 244 else 243;
    assert DaysBeforeMonth(y, 11) == if IsLeap(y) then 305 else 304;
  }

  /** The lengths of the months, January first. */
  lemma MonthLengths(y: int, m: int)
    requires 1 <= m <= 12
    ensures m != 2 ==> MonthLength(y, m) == [31, 28, 31, 30, 31, 30, 31, 31, 30, 31, 30, 31][m - 1]
    ensures MonthLength(y, 2) == 28 || MonthLength(y, 2) == 29
  {
  }

  /** The calendar repeats every 400 years, 97 of them leap years. */
  lemma GregorianCycle(y: int)
    ensures DaysBeforeYear(y + 400) == DaysBeforeYear(y) + 146_097
  {
    CycleQuotients(y - 1);
  }

  lemma CycleQuotients(n: int)
    ensures (n + 400) / 4 == n / 4 + 100 && (n + 400) / 100 == n / 100 + 4 && (n + 400) / 400 == n / 400 + 1
  {
  }

  /** Every fourth year is a leap year, but of the years that end a century only every fourth. */
  lemma LeapYears(c: int, n: int)
    requires 0 <= n < 100
    ensures n == 0 ==> (IsLeap(100 * c + n) <==> c % 4 == 0)
    ensures n > 0 ==> (IsLeap(100 * c + n) <==> n % 4 == 0)
  {
    CenturyRemainders(c, n);
    if n == 0 {
      CenturyInCycle(c);
    }
  }

  lemma CenturyRemainders(c: int, n: int)
    requires 0 <= n < 100
    ensures (100 * c + n) % 100 == n && (100 * c + n) % 4 == n % 4
  {
    assert 100 * c + n == 4 * (25 * c + n / 4) + n % 4;
  }

  lemma CenturyInCycle(c: int)
    ensures (100 * c) % 400 == 0 <==> c % 4 == 0
  {
    var q, r := c / 4, c % 4;
    assert 100 * c == 400 * q + 100 * r;
  }

  /** Day 719162 is the first of January 1970. */
  lemma DayOfEpoch()
    ensures DayNumber(Date(1970, 1, 1)) == 719_162
  {
  }

  // ---------------------------------------------------------------- order

  /** `NaiveDate`'s order. */
  predicate Before(a: Date, b: Date) {
    a.y < b.y || (a.y == b.y && (a.m < b.m || (a.m == b.m && a.d < b.d)))
  }

  /** Months counted from year 0. */
  function MonthIndex(y: int, m: int): int {
    12 * y + m - 1
  }

  function MonthStart(i: int): Date {
    Date(i / 12, i % 12 + 1, 1)
  }

  lemma MonthStartOf(y: int, m: int)
    requires 1 <= m <= 12
    ensures MonthStart(MonthIndex(y, m)) == Date(y, m, 1)
  {
  }

  lemma {:induction false} LaterMonthStart(i: int, j: int)
    requires i <= j
    ensures DayNumber(MonthStart(i)) <= DayNumber(MonthStart(j))
    ensures i < j ==> DayNumber(MonthStart(i)) + MonthLength(i / 12, i % 12 + 1) <= DayNumber(MonthStart(j))
    decreases j - i
  {
    hide DayNumber, MonthLength;
    if i < j {
      var s := MonthStart(i);
      MonthAfterMonth(s.y, s.m);
      assert MonthStart(i + 1) == Date(NextYear(s.y, s.m), NextMonth(s.m), 1);
      LaterMonthStart(i + 1, j);
    }
  }

  /** A date in an earlier month is an earlier date. */
  lemma EarlierMonth(a: Date, b: Date)
    requires ValidDate(a) && ValidDate(b) && MonthIndex(a.y, a.m) < MonthIndex(b.y, b.m)
    ensures DayNumber(a) < DayNumber(b) && Before(a, b)
  {
    LaterMonthStart(MonthIndex(a.y, a.m), MonthIndex(b.y, b.m));
    MonthStartOf(a.y, a.m);
    MonthStartOf(b.y, b.m);
  }

  /** Day numbers order dates as the calendar does, so no two dates share one. */
  lemma DayNumberOrder(a: Date, b: Date)
    requires ValidDate(a) && ValidDate(b)
    ensures DayNumber(a) < DayNumber(b) <==> Before(a, b)
    ensures DayNumber(a) == DayNumber(b) <==> a == b
  {
    var i, j := MonthIndex(a.y, a.m), MonthIndex(b.y, b.m);
    if i < j {
      EarlierMonth(a, b);
    } else if j < i {
      EarlierMonth(b, a);
    } else {
      assert a.y == b.y && a.m == b.m;
    }
  }

  ghost predicate IsDate(d: Date, n: int) {
    ValidDate(d) && DayNumber(d) == n
  }

  /** Every number is the day number of a date. */
  lemma DateExists(n: int)
    ensures exists d :: IsDate(d, n)
  {
    var d := FindDate(n);
  }

  lemma {:induction false} FindDate(n: int) returns (d: Date)
    ensures IsDate(d, n)
    decreases if n < 0 then -n else n
  {
    if n == 0 {
      d := Date(1, 1, 1);
    } else if n > 0 {
      var p := FindDate(n - 1);
      if p.d < MonthLength(p.y, p.m) {
        d := p.(d := p.d + 1);
      } else {
        MonthAfterMonth(p.y, p.m);
        d := Date(NextYear(p.y, p.m), NextMonth(p.m), 1);
      }
    } else {
      var p := FindDate(n + 1);
      if p.d > 1 {
        d := p.(d := p.d - 1);
      } else {
        var y, m := if p.m == 1 then p.y - 1 else p.y, if p.m == 1 then 12 else p.m - 1;
        MonthAfterMonth(y, m);
        d := Date(y, m, MonthLength(y, m));
      }
    }
  }

  /** The date with a day number: day arithmetic on dates. */
  ghost function DateOf(n: int): (d: Date)
    ensures IsDate(d, n)
  {
    DateExists(n);
    var d :| IsDate(d, n);
    d
  }

  lemma DateOfDayNumber(d: Date)
    requires ValidDate(d)
    ensures DateOf(DayNumber(d)) == d
  {
    DayNumberOrder(d, DateOf(DayNumber(d)));
  }

  // ---------------------------------------------------------------- the code's month arithmetic

  /** `NaiveDate::MIN` and `MAX` of chrono 0.4.44 begin and end these years. */
  const MIN_YEAR := -262143
  const MAX_YEAR := 262142

  predicate InYears(y: int) {
    MIN_YEAR <= y <= MAX_YEAR
  }

  /** The month and the first day of the next are dates the library has; `days_in_month` panics
      otherwise. */
  predicate HasNextMonth(y: int, m: int) {
    1 <= m <= 12 && InYears(y) && InYears(NextYear(y, m))
  }

  /** `days_in_month`: from the first of this month to the first of the next. */
  function DaysInMonth(y: int, m: int): int
    requires HasNextMonth(y, m)
  {
    var next := if m == 12 then Date(y + 1, 1, 1) else Date(y, m + 1, 1);
    DayNumber(next) - DayNumber(Date(y, m, 1))
  }

  /** The difference of firsts is the calendar's month length, leap years included. */
  lemma DaysInMonthIsMonthLength(y: int, m: int)
    requires HasNextMonth(y, m)
    ensures DaysInMonth(y, m) == MonthLength(y, m)
  {
    hide DayNumber;
    MonthAfterMonth(y, m);
  }

  function Min(a: int, b: int): int {
    if a < b then a else b
  }

  /** The date `k` months on: the same day of the month, or the last one there is. */
  function Shift(d: Date, k: int): (r: Date)
    requires ValidDate(d)
    ensures ValidDate(r) && MonthIndex(r.y, r.m) == MonthIndex(d.y, d.m) + k
  {
    var i := MonthIndex(d.y, d.m) + k;
    Date(i / 12, i % 12 + 1, Min(d.d, MonthLength(i / 12, i % 12 + 1)))
  }

  /** It is the latest date of the target month whose day of the month is not past that of `d`. */
  lemma ShiftIsLatest(d: Date, k: int, e: Date)
    requires ValidDate(d) && ValidDate(e) && MonthIndex(e.y, e.m) == MonthIndex(d.y, d.m) + k && e.d <= d.d
    ensures Shift(d, k).d <= d.d && !Before(Shift(d, k), e)
  {
    var r := Shift(d, k);
    assert r.y == e.y && r.m == e.m;
  }

  /** The target month of `add_months_to_date` is one `days_in_month` can measure. */
  predicate CanShift(d: Date, k: int) {
    HasNextMonth((MonthIndex(d.y, d.m) + k) / 12, (MonthIndex(d.y, d.m) + k) % 12 + 1)
  }

  /** `add_months_to_date`. */
  function AddMonths(d: Date, k: int): (r: Date)
    requires ValidDate(d) && CanShift(d, k)
    ensures ValidDate(r)
  {
    var total := d.y * 12 + (d.m - 1) + k;
    var y, m := total / 12, total % 12 + 1;
    DaysInMonthIsMonthLength(y, m);
    Date(y, m, Min(d.d, DaysInMonth(y, m)))
  }

  lemma AddMonthsIsShift(d: Date, k: int)
    requires ValidDate(d) && CanShift(d, k)
    ensures AddMonths(d, k) == Shift(d, k)
  {
    hide MonthLength, DaysInMonth;
    var i := MonthIndex(d.y, d.m) + k;
    DaysInMonthIsMonthLength(i / 12, i % 12 + 1);
  }

  /** Clamped or not, more months lead to a later date. */
  lemma ShiftMonotone(d: Date, j: int, k: int)
    requires ValidDate(d) && j < k
    ensures DayNumber(Shift(d, j)) < DayNumber(Shift(d, k))
  {
    hide DayNumber;
    EarlierMonth(Shift(d, j), Shift(d, k));
  }

  lemma ShiftZero(d: Date)
    requires ValidDate(d)
    ensures Shift(d, 0) == d
  {
  }

  /** `month_diff`. */
  function MonthDiff(a: Date, b: Date): int
    requires ValidDate(a) && ValidDate(b) && HasNextMonth(b.y, b.m)
  {
    var months := (b.y - a.y) * 12 + b.m - a.m;
    ReachesMonth(a, b);
    var adjusted := AddMonths(a, months);
    if months > 0 && Before(b, adjusted) then months - 1
    else if months < 0 && Before(adjusted, b) then months + 1
    else months
  }

  lemma ReachesMonth(a: Date, b: Date)
    requires ValidDate(a) && ValidDate(b) && HasNextMonth(b.y, b.m)
    ensures CanShift(a, (b.y - a.y) * 12 + b.m - a.m)
  {
    var i := MonthIndex(a.y, a.m) + ((b.y - a.y) * 12 + b.m - a.m);
    assert i == MonthIndex(b.y, b.m);
    MonthStartOf(b.y, b.m);
  }

  /** `month_diff` is the most months that do not overshoot: going forward the largest count that
      stays at or before the target, going back the smallest that stays at or after it. */
  lemma MonthDiffExtremal(a: Date, b: Date)
    requires ValidDate(a) && ValidDate(b) && HasNextMonth(b.y, b.m)
    ensures var k := MonthDiff(a, b);
            if DayNumber(a) <= DayNumber(b) then
              0 <= k && DayNumber(Shift(a, k)) <= DayNumber(b) && forall j :: j > k ==>
                  DayNumber(Shift(a, j)) > DayNumber(b)
            else
              k <= 0 && DayNumber(Shift(a, k)) >= DayNumber(b) && forall j :: j < k ==>
                  DayNumber(Shift(a, j)) < DayNumber(b)
  {
    hide DayNumber, MonthLength, DaysInMonth, IsLeap;
    var months := (b.y - a.y) * 12 + b.m - a.m;
    var k := MonthDiff(a, b);
    ReachesMonth(a, b);
    AddMonthsIsShift(a, months);
    DayNumberOrder(b, Shift(a, months));
    ShiftZero(a);
    forall j | j != months ensures j < months ==> DayNumber(Shift(a, j)) < DayNumber(b)
      ensures j > months ==> DayNumber(Shift(a, j)) > DayNumber(b)
    {
      if j < months {
        EarlierMonth(Shift(a, j), b);
      } else {
        EarlierMonth(b, Shift(a, j));
      }
    }
  }

  /** No other count is extremal in that sense, so the condition defines `month_diff`. */
  lemma MonthDiffUnique(a: Date, b: Date, k: int)
    requires ValidDate(a) && ValidDate(b) && HasNextMonth(b.y, b.m)
    ensures k == MonthDiff(a, b) <==>
            if DayNumber(a) <= DayNumber(b) then DayNumber(Shift(a, k)) <= DayNumber(b) < DayNumber(Shift(a, k + 1))
            else DayNumber(Shift(a, k - 1)) < DayNumber(b) <= DayNumber(Shift(a, k))
  {
    hide DayNumber, MonthLength, MonthDiff, Shift;
    MonthDiffExtremal(a, b);
    var m := MonthDiff(a, b);
    if k + 1 < m {
      ShiftMonotone(a, k + 1, m);
    }
    if m < k - 1 {
      ShiftMonotone(a, m, k - 1);
    }
  }
}
