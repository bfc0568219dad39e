/** Differences of temporal values (src/temporal.rs:2241-2617) and the addition that undoes them
    (src/cypher/eval/temporal_ops.rs:61-155). */
module Durations {
  import opened Prelude
  import opened Calendar

  const BILLION := 1_000_000_000
  const DAY_NANOS := 86_400_000_000_000

  /** A time of day. Nanoseconds from one billion on stand for a leap second. */
  datatype Time = Time(secs: int, nanos: int)

  predicate ValidTime(t: Time) {
    0 <= t.secs < 86_400 && 0 <= t.nanos < 2 * BILLION
  }

  /** Values with fixed offsets, in seconds east of UTC. */
  datatype Temporal =
    | DateValue(date: Date)
    | LocalTimeValue(time: Time)
    | TimeValue(time: Time, offset: int)
    | LocalDateTimeValue(date: Date, time: Time)
    | DateTimeValue(date: Date, time: Time, offset: int)
    | NotTemporal

  datatype Duration = Duration(months: int, days: int, seconds: int, nanos: int)

  const ZERO := Duration(0, 0, 0, 0)

  predicate HasDate(v: Temporal) {
    v.DateValue? || v.LocalDateTimeValue? || v.DateTimeValue?
  }

  predicate TimeOnly(v: Temporal) {
    v.LocalTimeValue? || v.TimeValue?
  }

  predicate OffsetAware(v: Temporal) {
    v.TimeValue? || v.DateTimeValue?
  }

  predicate ValidTemporal(v: Temporal) {
    (HasDate(v) ==> ValidDate(v.date) && InYears(v.date.y)) &&
    (TimeOnly(v) || v.LocalDateTimeValue? || v.DateTimeValue? ==> ValidTime(v.time)) &&
    (OffsetAware(v) ==> -86_400 < v.offset < 86_400)
  }

  /** `time_to_nanos` of `extract_time`; dates count as midnight. */
  function TimeNanos(v: Temporal): int {
    match v
    case LocalTimeValue(t) => t.secs * BILLION + t.nanos
    case TimeValue(t, _) => t.secs * BILLION + t.nanos
    case LocalDateTimeValue(_, t) => t.secs * BILLION + t.nanos
    case DateTimeValue(_, t, _) => t.secs * BILLION + t.nanos
    case _ => 0
  }

  /** `effective_offset_dst` without named zones: offsets count only when both values have one. */
  function OffsetFor(v: Temporal, other: Temporal): int {
    if OffsetAware(v) && OffsetAware(other) then v.offset else 0
  }

  /** The time of day in UTC if both values have offsets, else as written. */
  function Clock(v: Temporal, other: Temporal): int {
    TimeNanos(v) - OffsetFor(v, other) * BILLION
  }

  /** Where a value lies on the common time line of the pair. */
  function Instant(v: Temporal, other: Temporal): int
    requires HasDate(v) && ValidDate(v.date)
  {
    DayNumber(v.date) * DAY_NANOS + Clock(v, other)
  }

  function ClockDuration(months: int, days: int, nanos: int): (d: Duration)
    ensures d.months == months && d.days == days && d.seconds * BILLION + d.nanos == nanos && 0 <= d.nanos < BILLION
  {
    Duration(months, days, nanos / BILLION, nanos % BILLION)
  }

  function ClockPart(d: Duration): int {
    d.seconds * BILLION + d.nanos
  }

  predicate Dated(l: Temporal, r: Temporal) {
    ValidTemporal(l) && ValidTemporal(r) && HasDate(l) && HasDate(r)
  }

  /** Both calls of `add_months_to_date` behind a difference stay among the library's dates. */
  predicate MonthsReach(l: Temporal, r: Temporal) {
    HasDate(l) && HasDate(r) && ValidDate(l.date) && ValidDate(r.date) ==>
      HasNextMonth(r.date.y, r.date.m) && CanShift(l.date, MonthDiff(l.date, r.date))
  }

  /** The calls stay there for all dates but those in the last month of all. */
  lemma MonthsReachBeforeEnd(l: Temporal, r: Temporal)
    requires Dated(l, r) && HasNextMonth(l.date.y, l.date.m) && HasNextMonth(r.date.y, r.date.m)
    ensures MonthsReach(l, r)
  {
    hide DayNumber, AddMonths;
    var i, j := MonthIndex(l.date.y, l.date.m), MonthIndex(r.date.y, r.date.m);
    var k := i + MonthDiff(l.date, r.date);
    assert i <= k <= j || j <= k <= i;
    MonthsBetween(i, j, k);
  }

  lemma MonthsBetween(i: int, j: int, k: int)
    requires HasNextMonth(i / 12, i % 12 + 1) && HasNextMonth(j / 12, j % 12 + 1) && (i <= k <= j || j <= k <= i)
    ensures HasNextMonth(k / 12, k % 12 + 1)
  {
    assert forall m: int :: HasNextMonth(m / 12, m % 12 + 1) <==> MIN_YEAR * 12 <= m < MAX_YEAR * 12 + 11;
  }

  // ---------------------------------------------------------------- duration.between

  /** Days and clock of opposite signs: one day is borrowed. */
  function Borrow(days: int, clock: int): (int, int) {
    if days > 0 && clock < 0 then (days - 1, clock + DAY_NANOS)
    else if days < 0 && clock > 0 then (days + 1, clock - DAY_NANOS)
    else (days, clock)
  }

  /** `duration_between`. */
  function DurationBetween(l: Temporal, r: Temporal): Duration
    requires ValidTemporal(l) && ValidTemporal(r) && MonthsReach(l, r)
  {
    if (TimeOnly(l) || TimeOnly(r)) && !(HasDate(l) && HasDate(r)) then
      ClockDuration(0, 0, Clock(r, l) - Clock(l, r))
    else if HasDate(l) && HasDate(r) then
      var months := MonthDiff(l.date, r.date);
      var days := DayNumber(r.date) - DayNumber(AddMonths(l.date, months));
      var (d, clock) := Borrow(days, Clock(r, l) - Clock(l, r));
      ClockDuration(months, d, clock)
    else ZERO
  }

  /** Nothing is lost: from the left value, the months (clamped), then the days, then the clock part
      lead exactly to the right value, in UTC when both have offsets. */
  lemma BetweenConserves(l: Temporal, r: Temporal)
    requires Dated(l, r) && MonthsReach(l, r)
    ensures var d := DurationBetween(l, r);
            && 0 <= d.nanos < BILLION
            && DayNumber(Shift(l.date, d.months)) * DAY_NANOS + Clock(l, r) + d.days * DAY_NANOS + ClockPart(d) ==
                Instant(r, l)
  {
    hide DayNumber, MonthDiff, Clock, Shift, AddMonths;
    AddMonthsIsShift(l.date, MonthDiff(l.date, r.date));
  }

  predicate SameSign(a: int, b: int) {
    !(a > 0 && b < 0) && !(a < 0 && b > 0)
  }

  /** Clocks less than a day apart: no offsets, or equal ones, and no leap second. */
  predicate ClocksWithinDay(l: Temporal, r: Temporal) {
    -DAY_NANOS < Clock(r, l) - Clock(l, r) < DAY_NANOS
  }

  lemma LocalClocksWithinDay(l: Temporal, r: Temporal)
    requires Dated(l, r) && OffsetFor(l, r) == OffsetFor(r, l)
    requires TimeNanos(l) < DAY_NANOS && TimeNanos(r) < DAY_NANOS
    ensures ClocksWithinDay(l, r)
  {
  }

  /** Signs, for all pairs of dates. Months agree with days. One borrowed day makes days agree with the
      clock unless the clocks, offsets applied, are more than a day apart the other way. Months agree with
      the clock unless it runs the other way and no day is left to borrow from, or one is not enough. */
  lemma BetweenSigns(l: Temporal, r: Temporal)
    requires Dated(l, r) && MonthsReach(l, r)
    ensures var d, m := DurationBetween(l, r), MonthDiff(l.date, r.date);
            var days, clock := DayNumber(r.date) - DayNumber(Shift(l.date, m)), Clock(r, l) - Clock(l, r);
            && SameSign(d.months, d.days)
            && (SameSign(d.days, ClockPart(d)) <==>
                !(days > 1 && clock < -DAY_NANOS) && !(days < -1 && clock > DAY_NANOS))
            && (SameSign(d.months, ClockPart(d)) <==>
                !(m > 0 && (if days > 0 then clock < -DAY_NANOS else clock < 0)) &&
                !(m < 0 && (if days < 0 then clock > DAY_NANOS else clock > 0)))
  {
    hide DayNumber, MonthDiff, Clock, Shift, AddMonths;
    AddMonthsIsShift(l.date, MonthDiff(l.date, r.date));
    MonthDiffExtremal(l.date, r.date);
  }

  /** So for values without offsets, or with equal ones, days and clock always agree, and months too unless
      whole months lead to the very date. */
  lemma LocalSigns(l: Temporal, r: Temporal)
    requires Dated(l, r) && MonthsReach(l, r) && OffsetFor(l, r) == OffsetFor(r, l)
    requires TimeNanos(l) < DAY_NANOS && TimeNanos(r) < DAY_NANOS
    ensures var d, m := DurationBetween(l, r), MonthDiff(l.date, r.date);
            && SameSign(d.days, ClockPart(d))
            && (SameSign(d.months, ClockPart(d)) <==>
                !(Shift(l.date, m) == r.date && !SameSign(m, TimeNanos(r) - TimeNanos(l))))
  {
    hide DayNumber, MonthDiff, Shift, AddMonths, DurationBetween, TimeNanos;
    LocalClocksWithinDay(l, r);
    BetweenSigns(l, r);
    MonthDiffExtremal(l.date, r.date);
    DayNumberOrder(Shift(l.date, MonthDiff(l.date, r.date)), r.date);
    DayNumberOrder(l.date, r.date);
    ShiftZero(l.date);
  }

  /** The case: from 2023-01-15T12:00 to 2023-02-15T11:00 is one month less an hour. */
  lemma MixedSigns()
    ensures var l, r := LocalDateTimeValue(Date(2023, 1, 15), Time(43_200, 0)),
            LocalDateTimeValue(Date(2023, 2, 15), Time(39_600, 0));
            && MonthsReach(l, r) && ValidTemporal(l) && ValidTemporal(r)
            && DurationBetween(l, r) == Duration(1, 0, -3_600, 0)
  {
    hide DayNumber, MonthDiff, AddMonths;
    SampleMonths();
  }

  lemma SampleMonths()
    ensures CanShift(Date(2023, 1, 15), 1) && AddMonths(Date(2023, 1, 15), 1) == Date(2023, 2, 15)
    ensures CanShift(Date(2023, 1, 15), 0) && Shift(Date(2023, 1, 15), 1) == Date(2023, 2, 15)
    ensures MonthDiff(Date(2023, 1, 15), Date(2023, 2, 15)) == 1
    ensures MonthDiff(Date(2023, 1, 15), Date(2023, 2, 14)) == 0
  {
    hide DayNumber, DaysInMonth;
    AddMonthsIsShift(Date(2023, 1, 15), 1);
  }

  /** Between values without dates on both sides only the clocks count. */
  lemma BetweenTimes(l: Temporal, r: Temporal)
    requires ValidTemporal(l) && ValidTemporal(r) && (TimeOnly(l) || TimeOnly(r)) && MonthsReach(l, r)
    ensures var d := DurationBetween(l, r);
            d.months == 0 && d.days == 0 && 0 <= d.nanos < BILLION && ClockPart(d) == Clock(r, l) - Clock(l, r)
    ensures MonthsReach(r, l) && ClockPart(DurationBetween(r, l)) == -ClockPart(DurationBetween(l, r))
  {
    hide Clock;
  }

  // ---------------------------------------------------------------- adding a duration

  /** A local date and time plus a duration: months, then days, then the clock part. */
  ghost function AddDuration(date: Date, timeNanos: int, d: Duration): (Date, int)
    requires ValidDate(date)
  {
    var shifted := if d.months != 0 then Shift(date, d.months) else date;
    var total := (DayNumber(shifted) + d.days) * DAY_NANOS + timeNanos + d.seconds * BILLION + d.nanos;
    (DateOf(total / DAY_NANOS), total % DAY_NANOS)
  }

  /** Any duration: its months move the date, its days and its clock part the time line. */
  lemma AddWritten(date: Date, timeNanos: int, d: Duration)
    requires ValidDate(date)
    ensures var (day, clock) := AddDuration(date, timeNanos, d);
            && ValidDate(day) && 0 <= clock < DAY_NANOS
            && DayNumber(day) * DAY_NANOS + clock ==
               (DayNumber(Shift(date, d.months)) + d.days) * DAY_NANOS + timeNanos + ClockPart(d)
  {
    hide DayNumber;
    ShiftZero(date);
  }

  /** Adding `duration.between(l, r)` to the date and time `l` gives `r`, for values without offsets. */
  lemma BetweenThenAdd(l: Temporal, r: Temporal)
    requires Dated(l, r) && MonthsReach(l, r) && !l.DateValue? && !(OffsetAware(l) && OffsetAware(r))
    requires TimeNanos(r) < DAY_NANOS
    ensures AddDuration(l.date, TimeNanos(l), DurationBetween(l, r)) == (r.date, TimeNanos(r))
  {
    hide DayNumber, MonthDiff, Shift, AddMonths, TimeNanos, DurationBetween;
    var d := DurationBetween(l, r);
    BetweenConserves(l, r);
    ShiftZero(l.date);
    assert 0 <= TimeNanos(r) by { TimeNanosNatural(r); }
    SplitNanos(DayNumber(r.date), TimeNanos(r));
    DateOfDayNumber(r.date);
  }

  /** A date plus a duration: of the seconds and of the nanoseconds only whole days count. */
  ghost function AddToDate(date: Date, d: Duration): Date
    requires ValidDate(date)
  {
    var shifted := if d.months != 0 then Shift(date, d.months) else date;
    DateOf(DayNumber(shifted) + d.days + TruncDiv(d.seconds, 86_400) + TruncDiv(d.nanos, DAY_NANOS))
  }

  /** The months move the date first, clamped to the month; then come the days, and from seconds and from
      nanoseconds as many whole days as there are in each, `p` and `q`, either way from zero. */
  lemma DateAddWritten(date: Date, d: Duration, p: int, q: int)
    requires ValidDate(date)
    requires if d.seconds >= 0 then 86_400 * p <= d.seconds < 86_400 * (p + 1)
             else 86_400 * (p - 1) < d.seconds <= 86_400 * p
    requires if d.nanos >= 0 then DAY_NANOS * q <= d.nanos < DAY_NANOS * (q + 1)
             else DAY_NANOS * (q - 1) < d.nanos <= DAY_NANOS * q
    ensures DayNumber(AddToDate(date, d)) == DayNumber(Shift(date, d.months)) + d.days + p + q
  {
    hide DayNumber, Shift, TruncDiv;
    TruncIs(d.seconds, 86_400, p);
    TruncIs(d.nanos, DAY_NANOS, q);
    ShiftZero(date);
  }

  /** Rust's `/` cuts toward zero. */
  lemma TruncIs(a: int, b: int, q: int)
    requires b > 0 && if a >= 0 then b * q <= a < b * (q + 1) else b * (q - 1) < a <= b * q
    ensures TruncDiv(a, b) == q
  {
    var n, k := if a >= 0 then a else -a, if a >= 0 then q else -q;
    assert b * k <= n < b * k + b;
    QuotientIs(n, b, k);
  }

  /** Adding `duration.between(l, r)` to the date `l` gives the date of `r` exactly when no day was borrowed,
      or the time of `r` is less than a second past midnight. A borrowed day is lost with the clock part. */
  lemma BetweenThenAddDate(l: Temporal, r: Temporal)
    requires Dated(l, r) && MonthsReach(l, r) && l.DateValue? && TimeNanos(r) < DAY_NANOS
    ensures AddToDate(l.date, DurationBetween(l, r)) == r.date <==>
            !(DayNumber(Shift(l.date, MonthDiff(l.date, r.date))) > DayNumber(r.date) && TimeNanos(r) >= BILLION)
  {
    hide DayNumber, MonthDiff, Shift, AddMonths, TimeNanos;
    var d, m := DurationBetween(l, r), MonthDiff(l.date, r.date);
    AddMonthsIsShift(l.date, m);
    ShiftZero(l.date);
    TimeNanosNatural(r);
    assert Clock(l, r) == 0 && Clock(r, l) == TimeNanos(r) by { DateClock(l, r); }
    var n := DayNumber(Shift(l.date, m)) + d.days + TruncDiv(d.seconds, 86_400) + TruncDiv(d.nanos, DAY_NANOS);
    assert TruncDiv(d.nanos, DAY_NANOS) == 0;
    DayNumberOrder(DateOf(n), r.date);
  }

  lemma DateClock(l: Temporal, r: Temporal)
    requires l.DateValue?
    ensures Clock(l, r) == 0 && Clock(r, l) == TimeNanos(r)
  {
  }

  /** The case: from the date 2023-01-02 to 2023-01-01T12:00 is half a day back, which a date does not go. */
  lemma BorrowedDayLost()
    ensures var l, r := DateValue(Date(2023, 1, 2)), LocalDateTimeValue(Date(2023, 1, 1), Time(43_200, 0));
            && Dated(l, r) && MonthsReach(l, r)
            && DurationBetween(l, r) == Duration(0, 0, -43_200, 0)
            && AddToDate(l.date, DurationBetween(l, r)) != r.date
  {
    var l, r := DateValue(Date(2023, 1, 2)), LocalDateTimeValue(Date(2023, 1, 1), Time(43_200, 0));
    hide DayNumber, MonthDiff, AddMonths, Shift, AddToDate;
    SameMonth(l.date, r.date);
    DayAfter();
    BetweenThenAddDate(l, r);
  }

  lemma SameMonth(a: Date, b: Date)
    requires ValidDate(a) && ValidDate(b) && a.y == b.y && a.m == b.m && HasNextMonth(a.y, a.m)
    ensures CanShift(a, 0) && MonthDiff(a, b) == 0 && AddMonths(a, 0) == a && Shift(a, 0) == a
  {
    hide DayNumber, DaysInMonth;
    AddMonthsIsShift(a, 0);
    ShiftZero(a);
  }

  lemma DayAfter()
    ensures DayNumber(Date(2023, 1, 2)) == DayNumber(Date(2023, 1, 1)) + 1
  {
  }

  lemma TimeNanosNatural(v: Temporal)
    requires ValidTemporal(v)
    ensures 0 <= TimeNanos(v)
  {
  }

  lemma SplitNanos(day: int, nanos: int)
    requires 0 <= nanos < DAY_NANOS
    ensures (day * DAY_NANOS + nanos) / DAY_NANOS == day && (day * DAY_NANOS + nanos) % DAY_NANOS == nanos
  {
  }

  /** With offsets on both sides the sum is the same instant, written with the left offset. */
  lemma BetweenThenAddInstant(l: Temporal, r: Temporal)
    requires Dated(l, r) && MonthsReach(l, r) && OffsetAware(l) && OffsetAware(r)
    ensures var (date, nanos) := AddDuration(l.date, TimeNanos(l), DurationBetween(l, r));
            DayNumber(date) * DAY_NANOS + nanos - l.offset * BILLION == Instant(r, l)
  {
    hide DayNumber, MonthDiff, Shift, AddMonths, TimeNanos, DurationBetween;
    BetweenConserves(l, r);
    ShiftZero(l.date);
  }

  // ---------------------------------------------------------------- duration.inSeconds and inDays

  const I64_MAX := 0x7FFF_FFFF_FFFF_FFFF

  predicate FitsI64(n: int) {
    -I64_MAX - 1 <= n <= I64_MAX
  }

  /** The product and the sum that both functions form in 64 bits; none where one of them overflows, which
      ends a build with overflow checks (for one without, see `WrappedNanos`). */
  function ElapsedNanos(l: Temporal, r: Temporal): Option<int>
    requires Dated(l, r)
  {
    var dayNanos := (DayNumber(r.date) - DayNumber(l.date)) * 86_400 * BILLION;
    if !FitsI64(dayNanos) then None
    else
      var total := dayNanos + (Clock(r, l) - Clock(l, r));
      if !FitsI64(total) then None else Some(total)
  }

  /** `duration_in_seconds`. */
  function DurationInSeconds(l: Temporal, r: Temporal): Option<Duration>
    requires ValidTemporal(l) && ValidTemporal(r)
  {
    if (TimeOnly(l) || TimeOnly(r)) && !(HasDate(l) && HasDate(r)) then
      Some(ClockDuration(0, 0, Clock(r, l) - Clock(l, r)))
    else if HasDate(l) && HasDate(r) then
      match ElapsedNanos(l, r)
      case None => None
      case Some(total) => Some(ClockDuration(0, 0, total))
    else Some(ZERO)
  }

  /** Rust's `/`. */
  function TruncDiv(a: int, b: int): int
    requires b > 0
  {
    if a >= 0 then a / b else -((-a) / b)
  }

  /** `duration_in_days`. */
  function DurationInDays(l: Temporal, r: Temporal): Option<Duration>
    requires ValidTemporal(l) && ValidTemporal(r)
  {
    if TimeOnly(l) || TimeOnly(r) then Some(ZERO)
    else if HasDate(l) && HasDate(r) then
      match ElapsedNanos(l, r)
      case None => None
      case Some(total) => Some(Duration(0, TruncDiv(total, DAY_NANOS), 0, 0))
    else Some(ZERO)
  }

  lemma ClockBounds(l: Temporal, r: Temporal)
    requires Dated(l, r)
    ensures -3 * DAY_NANOS < Clock(r, l) - Clock(l, r) < 3 * DAY_NANOS
  {
  }

  /** In a build with overflow checks `inSeconds` is the whole elapsed time, the one `between` conserves,
      exactly where the days and the total, in nanoseconds, are 64-bit numbers: always for dates up to 106748
      days apart, never from 106752 days on. */
  lemma InSecondsExact(l: Temporal, r: Temporal)
    requires Dated(l, r)
    ensures var days := DayNumber(r.date) - DayNumber(l.date);
            && (DurationInSeconds(l, r).Some? <==>
                FitsI64(days * DAY_NANOS) && FitsI64(days * DAY_NANOS + (Clock(r, l) - Clock(l, r))))
            && (-106_748 <= days <= 106_748 ==> DurationInSeconds(l, r).Some?)
            && (days <= -106_752 || 106_752 <= days ==> DurationInSeconds(l, r).None?)
    ensures DurationInSeconds(l, r).Some? ==>
              var d := DurationInSeconds(l, r).value;
              d.months == 0 && d.days == 0 && 0 <= d.nanos < BILLION && ClockPart(d) == Instant(r, l) - Instant(l, r)
  {
    hide DayNumber, Clock;
    ClockBounds(l, r);
  }

  /** 64-bit arithmetic that wraps around. */
  function Wrap(n: int): (r: int) {
    (n + I64_MAX + 1) % U64_LIMIT - I64_MAX - 1
  }

  lemma WrapExact(n: int, k: int)
    ensures FitsI64(Wrap(n)) && (Wrap(n) == n <==> FitsI64(n)) && Wrap(n + k * U64_LIMIT) == Wrap(n)
  {
    ModPlus(n + I64_MAX + 1, k);
  }

  lemma {:induction false} ModPlus(n: int, k: int)
    ensures (n + k * U64_LIMIT) % U64_LIMIT == n % U64_LIMIT
    decreases if k < 0 then -k else k
  {
    if k > 0 {
      ModPlus(n + U64_LIMIT, k - 1);
    } else if k < 0 {
      ModPlus(n - U64_LIMIT, k + 1);
    }
  }

  lemma WrapDistance(n: int) returns (k: int)
    ensures Wrap(n) == n + k * U64_LIMIT
  {
    k := -((n + I64_MAX + 1) / U64_LIMIT);
  }

  /** The same product and sum in a build without overflow checks. */
  function WrappedNanos(l: Temporal, r: Temporal): int
    requires Dated(l, r)
  {
    Wrap(Wrap((DayNumber(r.date) - DayNumber(l.date)) * 86_400 * BILLION) + (Clock(r, l) - Clock(l, r)))
  }

  /** There a product out of range does no harm: the elapsed time is right exactly where it is a 64-bit
      number itself, and the same as with checks where those pass. */
  lemma WrappedInSecondsExact(l: Temporal, r: Temporal)
    requires Dated(l, r)
    ensures WrappedNanos(l, r) == Instant(r, l) - Instant(l, r) <==> FitsI64(Instant(r, l) - Instant(l, r))
    ensures ElapsedNanos(l, r).Some? ==> ElapsedNanos(l, r).value == WrappedNanos(l, r)
  {
    hide DayNumber, Clock, Wrap;
    var product, clock := (DayNumber(r.date) - DayNumber(l.date)) * 86_400 * BILLION, Clock(r, l) - Clock(l, r);
    var k := WrapDistance(product);
    WrapExact(product, 0);
    WrapExact(product + clock, k);
    assert Wrap(product) + clock == product + clock + k * U64_LIMIT;
  }

  /** The time of day in nanoseconds, 0 for a date. */
  function DayTime(v: Temporal): int {
    if v.DateValue? || v.NotTemporal? then 0 else v.time.secs * 1_000_000_000 + v.time.nanos
  }

  /** How many nanoseconds the clocks are apart: offsets count only where both values have one. */
  lemma ClockWritten(l: Temporal, r: Temporal)
    ensures Clock(r, l) - Clock(l, r) ==
            DayTime(r) - DayTime(l) -
            (if (l.TimeValue? || l.DateTimeValue?) && (r.TimeValue? || r.DateTimeValue?)
             then (r.offset - l.offset) * 1_000_000_000 else 0)
  {
  }

  /** With a time on one side, and not two dates, `inSeconds` is what the clocks are apart, and `between` the
      same. */
  lemma TimesInSeconds(l: Temporal, r: Temporal)
    requires ValidTemporal(l) && ValidTemporal(r)
    requires l.LocalTimeValue? || l.TimeValue? || r.LocalTimeValue? || r.TimeValue?
    ensures DurationInSeconds(l, r).Some?
    ensures var d := DurationInSeconds(l, r).value;
            && d.months == 0 && d.days == 0 && 0 <= d.nanos < 1_000_000_000
            && d.seconds * 1_000_000_000 + d.nanos ==
               DayTime(r) - DayTime(l) -
               (if (l.TimeValue? || l.DateTimeValue?) && (r.TimeValue? || r.DateTimeValue?)
                then (r.offset - l.offset) * 1_000_000_000 else 0)
            && MonthsReach(l, r) && DurationBetween(l, r) == d
  {
    ClockWritten(l, r);
  }

  /** From 12:00 to 13:00 it is an hour. */
  lemma NoonToOne()
    ensures DurationInSeconds(LocalTimeValue(Time(43_200, 0)), LocalTimeValue(Time(46_800, 0))) ==
            Some(Duration(0, 0, 3_600, 0))
  {
  }

  /** Where there is nothing to compare the answer is zero: months and days need two dates, the others two dates
      or a time. */
  lemma NothingToCompare(l: Temporal, r: Temporal)
    requires ValidTemporal(l) && ValidTemporal(r) && !(HasDate(l) && HasDate(r))
    ensures MonthsReach(l, r) && DurationInMonths(l, r) == ZERO && DurationInDays(l, r) == Some(ZERO)
    ensures !TimeOnly(l) && !TimeOnly(r) ==>
              DurationInSeconds(l, r) == Some(ZERO) && DurationBetween(l, r) == ZERO
  {
  }

  /** Between two dates, the days and what the clocks are apart. */
  lemma ElapsedWritten(l: Temporal, r: Temporal)
    requires Dated(l, r)
    ensures Instant(r, l) - Instant(l, r) ==
            (DayNumber(r.date) - DayNumber(l.date)) * 86_400 * 1_000_000_000 + DayTime(r) - DayTime(l) -
            (if l.DateTimeValue? && r.DateTimeValue? then (r.offset - l.offset) * 1_000_000_000 else 0)
  {
    hide DayNumber;
    ClockWritten(l, r);
  }

  /** Months and days included, `between` spans the same time as `inSeconds`. */
  lemma BetweenSpansInSeconds(l: Temporal, r: Temporal)
    requires Dated(l, r) && MonthsReach(l, r) && DurationInSeconds(l, r).Some?
    ensures var d := DurationBetween(l, r);
            (DayNumber(Shift(l.date, d.months)) - DayNumber(l.date) + d.days) * DAY_NANOS + ClockPart(d) ==
            ClockPart(DurationInSeconds(l, r).value)
  {
    hide DayNumber, Clock, DurationBetween, DurationInSeconds, Shift;
    BetweenConserves(l, r);
    InSecondsExact(l, r);
  }

  /** Swapping the values negates the elapsed time. One direction alone overflows only for the one
      number whose negation 64 bits do not hold. */
  lemma InSecondsAntisymmetric(l: Temporal, r: Temporal)
    requires Dated(l, r) && DurationInSeconds(l, r).Some?
    ensures DurationInSeconds(r, l).None? <==> Instant(r, l) - Instant(l, r) == -I64_MAX - 1
    ensures DurationInSeconds(r, l).Some? ==>
              ClockPart(DurationInSeconds(r, l).value) == -ClockPart(DurationInSeconds(l, r).value)
  {
    hide DayNumber, Clock;
    ClockBounds(l, r);
    DayProduct(DayNumber(r.date) - DayNumber(l.date));
  }

  /** No whole number of days is the least 64-bit number. */
  lemma DayProduct(days: int)
    ensures days * 86_400 * BILLION != -I64_MAX - 1
  {
  }

  /** `inDays` is the elapsed time of `inSeconds` in days, cut toward zero. */
  lemma InDaysTruncates(l: Temporal, r: Temporal)
    requires Dated(l, r)
    ensures DurationInDays(l, r).Some? <==> DurationInSeconds(l, r).Some?
    ensures DurationInDays(l, r).Some? ==>
              var d, total := DurationInDays(l, r).value, ClockPart(DurationInSeconds(l, r).value);
              && d == Duration(0, d.days, 0, 0)
              && SameSign(d.days, total)
              && (if total >= 0 then d.days * DAY_NANOS <= total < (d.days + 1) * DAY_NANOS
                  else (d.days - 1) * DAY_NANOS < total <= d.days * DAY_NANOS)
  {
    hide DayNumber, Clock;
  }

  // ---------------------------------------------------------------- duration.inMonths

  /** `duration_in_months`. */
  function DurationInMonths(l: Temporal, r: Temporal): Duration
    requires ValidTemporal(l) && ValidTemporal(r) && MonthsReach(l, r)
  {
    if TimeOnly(l) || TimeOnly(r) || !HasDate(l) || !HasDate(r) then ZERO
    else
      var months := MonthDiff(l.date, r.date);
      if AddMonths(l.date, months) == r.date && months > 0 && Clock(r, l) < Clock(l, r) then
        Duration(months - 1, 0, 0, 0)
      else if AddMonths(l.date, months) == r.date && months < 0 && Clock(r, l) > Clock(l, r) then
        Duration(months + 1, 0, 0, 0)
      else Duration(months, 0, 0, 0)
  }

  /** The left value `k` months on is not after the right one: by date, then by clock. */
  predicate Reached(l: Temporal, r: Temporal, k: int)
    requires Dated(l, r)
  {
    var a, b := DayNumber(Shift(l.date, k)), DayNumber(r.date);
    a < b || (a == b && Clock(l, r) <= Clock(r, l))
  }

  /** Likewise, not before it. */
  predicate NotPassed(l: Temporal, r: Temporal, k: int)
    requires Dated(l, r)
  {
    var a, b := DayNumber(Shift(l.date, k)), DayNumber(r.date);
    a > b || (a == b && Clock(l, r) >= Clock(r, l))
  }

  /** `inMonths` is the most months that do not overshoot, dates compared first and clocks second. */
  lemma InMonthsExtremal(l: Temporal, r: Temporal)
    requires Dated(l, r) && MonthsReach(l, r)
    ensures var k := DurationInMonths(l, r).months;
            && DurationInMonths(l, r) == Duration(k, 0, 0, 0)
            && (if Reached(l, r, 0) then k >= 0 && Reached(l, r, k) && forall j :: j > k ==> !Reached(l, r, j)
                else k <= 0 && NotPassed(l, r, k) && forall j :: j < k ==> !NotPassed(l, r, j))
  {
    hide DayNumber, Clock, Shift, MonthDiff, AddMonths, MonthLength;
    var a, b := l.date, r.date;
    var months, k := MonthDiff(a, b), DurationInMonths(l, r).months;
    AddMonthsIsShift(a, months);
    MonthDiffExtremal(a, b);
    ShiftZero(a);
    DayNumberOrder(Shift(a, months), b);
    DayNumberOrder(a, b);
    forall j, i | j < i ensures DayNumber(Shift(a, j)) < DayNumber(Shift(a, i)) {
      ShiftMonotone(a, j, i);
    }
  }

  /** The left value `k` months on, as an instant. */
  function Advanced(l: Temporal, r: Temporal, k: int): int
    requires Dated(l, r)
  {
    DayNumber(Shift(l.date, k)) * DAY_NANOS + Clock(l, r)
  }

  /** Comparing dates first agrees with comparing instants when the clocks are within a day. */
  lemma ReachedIsElapsed(l: Temporal, r: Temporal, k: int)
    requires Dated(l, r) && ClocksWithinDay(l, r)
    ensures Reached(l, r, k) <==> Advanced(l, r, k) <= Instant(r, l)
    ensures NotPassed(l, r, k) <==> Advanced(l, r, k) >= Instant(r, l)
  {
    hide DayNumber, Clock, Shift;
  }

  /** The nanoseconds from a date to the `k`-th month step of another. */
  function Ahead(l: Temporal, r: Temporal, k: int): int
    requires Dated(l, r)
  {
    (DayNumber(Shift(l.date, k)) - DayNumber(r.date)) * DAY_NANOS
  }

  /** Measured in instants the count is right exactly when the clocks, offsets applied, are not so far apart
      that they make up for the days from the month step taken or to the next one. The step is known from
      the dates, and from which clock is earlier if it falls on the right date. */
  lemma InMonthsByInstant(l: Temporal, r: Temporal)
    requires Dated(l, r) && MonthsReach(l, r)
    ensures var m, k, clock := MonthDiff(l.date, r.date), DurationInMonths(l, r).months, Clock(r, l) - Clock(l, r);
            if DayNumber(l.date) < DayNumber(r.date) || (l.date == r.date && clock >= 0) then
              var n := if m > 0 && Shift(l.date, m) == r.date && clock < 0 then m - 1 else m;
              Advanced(l, r, k) <= Instant(r, l) < Advanced(l, r, k + 1) <==>
                       Ahead(l, r, n) <= clock < Ahead(l, r, n + 1)
            else
              var n := if m < 0 && Shift(l.date, m) == r.date && clock > 0 then m + 1 else m;
              Advanced(l, r, k - 1) < Instant(r, l) <= Advanced(l, r, k) <==>
                       Ahead(l, r, n - 1) < clock <= Ahead(l, r, n)
  {
    hide DayNumber, Clock, Shift, MonthDiff, DurationInMonths;
    InMonthsStep(l, r);
  }

  lemma InMonthsStep(l: Temporal, r: Temporal)
    requires Dated(l, r) && MonthsReach(l, r)
    ensures var m, k, clock := MonthDiff(l.date, r.date), DurationInMonths(l, r).months, Clock(r, l) - Clock(l, r);
            if DayNumber(l.date) < DayNumber(r.date) || (l.date == r.date && clock >= 0) then
              k == if m > 0 && Shift(l.date, m) == r.date && clock < 0 then m - 1 else m
            else
              k == if m < 0 && Shift(l.date, m) == r.date && clock > 0 then m + 1 else m
  {
    hide DayNumber, Clock, Shift, MonthDiff, AddMonths;
    AddMonthsIsShift(l.date, MonthDiff(l.date, r.date));
    MonthDiffExtremal(l.date, r.date);
    ShiftZero(l.date);
    DayNumberOrder(l.date, r.date);
  }

  /** With offsets apart it need not: 2023-01-15T00:00+14:00 and 2023-02-14T23:00-12:00 are more than
      a month apart, the count is 0. */
  lemma OffsetsCanMislead()
    ensures var l, r := DateTimeValue(Date(2023, 1, 15), Time(0, 0), 50_400),
            DateTimeValue(Date(2023, 2, 14), Time(82_800, 0), -43_200);
            && Dated(l, r) && MonthsReach(l, r)
            && DurationInMonths(l, r).months == 0 && Advanced(l, r, 1) <= Instant(r, l)
  {
    hide MonthDiff, AddMonths, Shift;
    SampleMonths();
    OneDayApart();
  }

  lemma OneDayApart()
    ensures DayNumber(Date(2023, 2, 15)) == DayNumber(Date(2023, 2, 14)) + 1
  {
  }
}
