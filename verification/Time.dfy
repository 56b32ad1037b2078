/** The calendar of src/std/rtl.cpp: times in units of 100 ns since 1601 and their fields. */
module Time {
  const EPOCH_YEAR: int := 1601
  const TICKS_IN_MS: int := 10_000
  const TICKS_IN_SECOND: int := 10_000_000
  const TICKS_IN_MINUTE: int := 600_000_000
  const TICKS_IN_HOUR: int := 36_000_000_000
  const TICKS_IN_DAY: int := 864_000_000_000
  const I64_LIMIT: int := 0x8000_0000_0000_0000

  datatype Fields = Fields(year: int, month: int, day: int, hour: int, minute: int, second: int, ms: int, weekday: int)

  // ----- the calendar -----

  predicate IsLeap(year: int) {
    year % 400 == 0 || (year % 4 == 0 && year % 100 != 0)
  }

  function DaysPerYear(year: int): int {
    if IsLeap(year) then 366 else 365
  }

  const DAYS_IN_MONTHS_NOLEAP: seq<int> := [31, 28, 31, 30, 31, 30, 31, 31, 30, 31, 30, 31]
  const DAYS_IN_MONTHS_LEAP: seq<int> := [31, 29, 31, 30, 31, 30, 31, 31, 30, 31, 30, 31]

  /** The length of the month after the first i. */
  function MonthTable(year: int, i: int): (days: int)
    requires 0 <= i < 12
    ensures 28 <= days <= 31
  {
    if IsLeap(year) then DAYS_IN_MONTHS_LEAP[i] else DAYS_IN_MONTHS_NOLEAP[i]
  }

  /** Days from the epoch to the start of a year. */
  function DaysBeforeYear(year: int): int
    decreases year
  {
    if year <= EPOCH_YEAR then 0 else DaysBeforeYear(year - 1) + DaysPerYear(year - 1)
  }

  /** Days from the start of a year to the end of its first n months. */
  function DaysInMonths(year: int, n: int): int
    requires 0 <= n <= 12
    decreases n
  {
    if n == 0 then 0 else DaysInMonths(year, n - 1) + MonthTable(year, n - 1)
  }

  lemma {:induction false} DaysBeforeYearClosed(year: int)
    requires year >= EPOCH_YEAR
    ensures var n := year - EPOCH_YEAR; DaysBeforeYear(year) == 365 * n + n / 4 - n / 100 + n / 400
    decreases year
  {
    if year > EPOCH_YEAR {
      DaysBeforeYearClosed(year - 1);
      By4(year - 1);
      By100(year - 1);
      By400(year - 1);
    }
  }

  lemma By4(year: int)
    requires year >= EPOCH_YEAR
    ensures var n := year - EPOCH_YEAR; (n + 1) / 4 == n / 4 + if year % 4 == 0 then 1 else 0
  {
  }

  lemma By100(year: int)
    requires year >= EPOCH_YEAR
    ensures var n := year - EPOCH_YEAR; (n + 1) / 100 == n / 100 + if year % 100 == 0 then 1 else 0
    ensures year % 100 == 0 ==> year % 4 == 0
  {
  }

  lemma By400(year: int)
    requires year >= EPOCH_YEAR
    ensures var n := year - EPOCH_YEAR; (n + 1) / 400 == n / 400 + if year % 400 == 0 then 1 else 0
    ensures year % 400 == 0 ==> year % 100 == 0
  {
  }

  lemma MonthsFillYear(year: int)
    ensures DaysInMonths(year, 12) == DaysPerYear(year)
  {
    assert DaysInMonths(year, 1) == 31;
    assert DaysInMonths(year, 3) == 31 + MonthTable(year, 1) + 31;
    assert DaysInMonths(year, 6) == DaysInMonths(year, 3) + 30 + 31 + 30;
    assert DaysInMonths(year, 9) == DaysInMonths(year, 6) + 31 + 31 + 30;
  }

  ghost predicate ValidFields(f: Fields) {
    && f.year >= EPOCH_YEAR && 1 <= f.month <= 12 && 1 <= f.day <= MonthTable(f.year, f.month - 1)
    && 0 <= f.hour < 24 && 0 <= f.minute < 60 && 0 <= f.second < 60 && 0 <= f.ms < 1000
  }

  ghost function DayNumber(f: Fields): int
    requires 1 <= f.month <= 12
  {
    DaysBeforeYear(f.year) + DaysInMonths(f.year, f.month - 1) + f.day - 1
  }

  /** The time that the fields stand for. */
  ghost function Value(f: Fields): int
    requires 1 <= f.month <= 12
  {
    DayNumber(f) * TICKS_IN_DAY + f.hour * TICKS_IN_HOUR + f.minute * TICKS_IN_MINUTE + f.second * TICKS_IN_SECOND
        + f.ms * TICKS_IN_MS
  }

  // ----- from times to fields -----

  /** Division and remainder as in C, which truncate towards zero. */
  function TruncDiv(a: int, b: int): int
    requires b > 0
  {
    if a >= 0 then a / b else -(-a / b)
  }

  function TruncMod(a: int, b: int): int
    requires b > 0
  {
    a - TruncDiv(a, b) * b
  }

  /** Conversion to a signed 16-bit number. */
  function Short(x: int): (r: int)
    ensures -0x8000 <= r < 0x8000 && (-0x8000 <= x < 0x8000 ==> r == x)
  {
    (x + 0x8000) % 0x1_0000 - 0x8000
  }

  const MAX_DAYS: int := 10_675_199

  /** No 64-bit time is later than the year 30828, so a year fits into 16 bits. */
  lemma LastYear(year: int)
    requires year >= EPOCH_YEAR && DaysBeforeYear(year) <= MAX_DAYS
    ensures year <= 30828
  {
    DaysBeforeYearClosed(year);
  }

  method FindYear(days: int) returns (year: int, rest: int)
    requires days <= MAX_DAYS
    ensures EPOCH_YEAR <= year <= 30828 && rest == days - DaysBeforeYear(year)
    ensures days >= 0 ==> 0 <= rest < DaysPerYear(year)
    ensures days <= 0 ==> year == EPOCH_YEAR
  {
    year, rest := EPOCH_YEAR, days;
    while rest >= DaysPerYear(year)
      invariant EPOCH_YEAR <= year <= 30828 && rest == days - DaysBeforeYear(year)
      invariant days >= 0 ==> rest >= 0
      invariant days <= 0 ==> year == EPOCH_YEAR
      decreases rest
    {
      rest := rest - DaysPerYear(year);
      year := year + 1;
      LastYear(year);
    }
  }

  method FindMonth(year: int, days: int) returns (month: int, rest: int)
    requires days < DaysPerYear(year)
    ensures 1 <= month <= 12 && rest == days - DaysInMonths(year, month - 1)
    ensures days >= 0 ==> 0 <= rest < MonthTable(year, month - 1)
    ensures days <= 0 ==> month == 1
  {
    month, rest := 1, days;
    var i := 0;
    MonthsFillYear(year);
    while i < 12 && rest >= MonthTable(year, i)
      invariant 0 <= i <= 12 && month == i + 1 && rest == days - DaysInMonths(year, i)
      invariant days >= 0 ==> rest >= 0
      invariant days <= 0 ==> i == 0
    {
      rest := rest - MonthTable(year, i);
      month := month + 1;
      i := i + 1;
    }
  }

  /** Days, hours, minutes and seconds. */
  lemma Clock(seconds: int)
    requires seconds >= 0
    ensures seconds == seconds / 86400 * 86400 + seconds / 60 / 60 % 24 * 3600 + seconds / 60 % 60 * 60 + seconds % 60
  {
    var minutes := seconds / 60;
    assert minutes == minutes / 60 * 60 + minutes % 60;
    assert minutes / 60 == seconds / 3600 && minutes / 60 / 24 == seconds / 86400;
  }

  lemma Milliseconds(time: int)
    requires time >= 0
    ensures time - time % TICKS_IN_MS
            == time / TICKS_IN_SECOND * TICKS_IN_SECOND + time % TICKS_IN_SECOND / TICKS_IN_MS * TICKS_IN_MS
  {
    var second, within := time / TICKS_IN_SECOND, time % TICKS_IN_SECOND;
    assert time == second * TICKS_IN_SECOND + within;
    assert time % TICKS_IN_MS == within % TICKS_IN_MS;
  }

  lemma TruncNegative(a: int, b: int)
    requires a >= 0 && b > 0
    ensures TruncDiv(-a, b) == -(a / b) && TruncMod(-a, b) == -(a % b)
  {
    assert a == a / b * b + a % b;
  }

  function HourOf(seconds: int): int {
    Short(TruncMod(TruncDiv(TruncDiv(seconds, 60), 60), 24))
  }

  function MinuteOf(seconds: int): int {
    Short(TruncMod(TruncDiv(seconds, 60), 60))
  }

  function SecondOf(seconds: int): int {
    Short(TruncMod(seconds, 60))
  }

  function MillisecondOf(time: int): int {
    Short(TruncDiv(TruncMod(time, TICKS_IN_SECOND), TICKS_IN_MS))
  }

  function WeekdayOf(seconds: int): int {
    Short(TruncMod(TruncDiv(seconds, 86400) + 1, 7))
  }

  /** The fields that the source computes, with `year`, `month` and `rest` from its two loops. */
  function FieldsOf(time: int, year: int, month: int, rest: int): Fields {
    var seconds := TruncDiv(time, TICKS_IN_SECOND);
    Fields(year, month, Short(rest + 1), HourOf(seconds), MinuteOf(seconds), SecondOf(seconds),
           MillisecondOf(time), WeekdayOf(seconds))
  }

  lemma ClockFields(a: int)
    requires a >= 0
    ensures HourOf(a) == a / 60 / 60 % 24 && HourOf(-a) == -(a / 60 / 60 % 24)
    ensures MinuteOf(a) == a / 60 % 60 && MinuteOf(-a) == -(a / 60 % 60)
    ensures SecondOf(a) == a % 60 && SecondOf(-a) == -(a % 60)
  {
    TruncNegative(a, 60);
    TruncNegative(a / 60, 60);
    TruncNegative(a / 60 / 60, 24);
    TruncPositive(a, 60);
    TruncPositive(a / 60, 60);
    TruncPositive(a / 60 / 60, 24);
  }

  lemma MillisecondFields(t: int)
    requires t >= 0
    ensures MillisecondOf(t) == t % TICKS_IN_SECOND / TICKS_IN_MS
            && MillisecondOf(-t) == -(t % TICKS_IN_SECOND / TICKS_IN_MS)
  {
    TruncNegative(t, TICKS_IN_SECOND);
    TruncNegative(t % TICKS_IN_SECOND, TICKS_IN_MS);
    TruncPositive(t, TICKS_IN_SECOND);
  }

  /** Before the epoch all fields below the month count backwards from its first day. */
  lemma NegativeFields(t: int)
    requires t > 0
    ensures var f, seconds := FieldsOf(-t, EPOCH_YEAR, 1, -(t / TICKS_IN_SECOND / 86400)), t / TICKS_IN_SECOND;
            && f.hour == -(seconds / 60 / 60 % 24) && f.minute == -(seconds / 60 % 60) && f.second == -(seconds % 60)
            && f.ms == -(t % TICKS_IN_SECOND / TICKS_IN_MS) && f.day == Short(1 - seconds / 86400)
  {
    TruncNegative(t, TICKS_IN_SECOND);
    ClockFields(t / TICKS_IN_SECOND);
    MillisecondFields(t);
  }

  /** ... so they stand for the time exactly while that day still fits into 16 bits. */
  lemma NegativeValue(t: int)
    requires t > 0
    ensures var days := t / TICKS_IN_SECOND / 86400;
            var f := FieldsOf(-t, EPOCH_YEAR, 1, -days);
            Value(f) == -(t - t % TICKS_IN_MS) <==> days <= 0x8001
  {
    var seconds := t / TICKS_IN_SECOND;
    var days := seconds / 86400;
    NegativeFields(t);
    Clock(seconds);
    Milliseconds(t);
    assert Short(1 - days) == 1 - days <==> days <= 0x8001;
  }

  /**
   The fields stand for the time, cut to milliseconds towards zero, except before the year 1511, where
   the day does not fit into 16 bits.  They are a valid date of it, in a year that fits, exactly if the
   time is less than a millisecond before the epoch, or later.
   */
  method RtlTimeToTimeFields(time: int) returns (f: Fields)
    requires -I64_LIMIT <= time < I64_LIMIT
    ensures 1 <= f.month <= 12 && f.year <= 30828
    ensures Value(f) == time - TruncMod(time, TICKS_IN_MS) <==>
            TruncDiv(TruncDiv(time, TICKS_IN_SECOND), 86400) >= -0x8001
    ensures ValidFields(f) && Value(f) == time - TruncMod(time, TICKS_IN_MS) <==> time > -TICKS_IN_MS
    ensures time >= 0 ==> f.weekday == (DayNumber(f) + 1) % 7
  {
    var days := TruncDiv(TruncDiv(time, TICKS_IN_SECOND), 86400);
    DayRange(time, days);
    var year, month, rest;
    year, rest := FindYear(days);
    month, rest := FindMonth(year, rest);
    f := FieldsOf(time, year, month, rest);
    if time >= 0 {
      AfterEpoch(time, year, month, rest);
    } else {
      BeforeEpoch(-time, f);
    }
  }

  lemma DayRange(time: int, days: int)
    requires -I64_LIMIT <= time < I64_LIMIT && days == TruncDiv(TruncDiv(time, TICKS_IN_SECOND), 86400)
    ensures days <= MAX_DAYS && (time >= 0 ==> 0 <= days == time / TICKS_IN_SECOND / 86400) && (time < 0 ==> days <= 0)
  {
  }

  lemma PositiveFields(time: int, year: int, month: int, rest: int)
    requires 0 <= time && 0 <= rest < 31
    ensures var f, seconds := FieldsOf(time, year, month, rest), time / TICKS_IN_SECOND;
            && f.day == rest + 1 && f.hour == seconds / 60 / 60 % 24 && f.minute == seconds / 60 % 60
               && f.second == seconds % 60
            && f.ms == time % TICKS_IN_SECOND / TICKS_IN_MS && f.weekday == (seconds / 86400 + 1) % 7
  {
    TruncPositive(time, TICKS_IN_SECOND);
    ClockFields(time / TICKS_IN_SECOND);
    MillisecondFields(time);
    WeekdayField(time / TICKS_IN_SECOND);
  }

  lemma WeekdayField(seconds: int)
    requires seconds >= 0
    ensures WeekdayOf(seconds) == (seconds / 86400 + 1) % 7
  {
    TruncPositive(seconds / 86400 + 1, 7);
  }

  lemma TruncPositive(a: int, b: int)
    requires a >= 0 && b > 0
    ensures TruncDiv(a, b) == a / b && TruncMod(a, b) == a % b
  {
  }

  lemma AfterEpoch(time: int, year: int, month: int, rest: int)
    requires 0 <= time && year >= EPOCH_YEAR && 1 <= month <= 12 && 0 <= rest < MonthTable(year, month - 1)
    requires DaysBeforeYear(year) + DaysInMonths(year, month - 1) + rest == time / TICKS_IN_SECOND / 86400
    ensures var f := FieldsOf(time, year, month, rest);
            && ValidFields(f) && Value(f) == time - TruncMod(time, TICKS_IN_MS) && f.weekday == (DayNumber(f) + 1) % 7
  {
    PositiveFields(time, year, month, rest);
    Clock(time / TICKS_IN_SECOND);
    Milliseconds(time);
    TruncPositive(time, TICKS_IN_MS);
  }

  lemma BeforeEpoch(t: int, f: Fields)
    requires t > 0 && f == FieldsOf(-t, EPOCH_YEAR, 1, TruncDiv(TruncDiv(-t, TICKS_IN_SECOND), 86400))
    ensures Value(f) == -t - TruncMod(-t, TICKS_IN_MS) <==> TruncDiv(TruncDiv(-t, TICKS_IN_SECOND), 86400) >= -0x8001
    ensures ValidFields(f) && Value(f) == -t - TruncMod(-t, TICKS_IN_MS) <==> t < TICKS_IN_MS
  {
    TruncNegative(t, TICKS_IN_SECOND);
    TruncNegative(t / TICKS_IN_SECOND, 86400);
    TruncNegative(t, TICKS_IN_MS);
    NegativeFields(t);
    NegativeValue(t);
  }

  // ----- the fields of a time are unique -----

  lemma {:induction false} YearsGrow(year: int, later: int)
    requires EPOCH_YEAR <= year < later
    ensures DaysBeforeYear(year) + DaysPerYear(year) <= DaysBeforeYear(later)
    decreases later
  {
    if year < later - 1 {
      YearsGrow(year, later - 1);
    }
  }

  lemma {:induction false} MonthsGrow(year: int, m: int, n: int)
    requires 0 <= m < n <= 12
    ensures DaysInMonths(year, m) + MonthTable(year, m) <= DaysInMonths(year, n)
    decreases n
  {
    if m < n - 1 {
      MonthsGrow(year, m, n - 1);
    }
  }

  /** The day of the year is within the year. */
  lemma DayOfYear(f: Fields)
    requires ValidFields(f)
    ensures 0 <= DayNumber(f) - DaysBeforeYear(f.year) < DaysPerYear(f.year)
  {
    MonthsFillYear(f.year);
    if f.month > 1 {
      MonthsGrow(f.year, 0, f.month - 1);
    }
    MonthsGrow(f.year, f.month - 1, 12);
  }

  /** Two valid dates with the same day number are the same date. */
  lemma DatesUnique(f: Fields, g: Fields)
    requires ValidFields(f) && ValidFields(g) && DayNumber(f) == DayNumber(g)
    ensures f.year == g.year && f.month == g.month && f.day == g.day
  {
    DayOfYear(f);
    DayOfYear(g);
    if f.year < g.year {
      YearsGrow(f.year, g.year);
    } else if g.year < f.year {
      YearsGrow(g.year, f.year);
    } else if f.month < g.month {
      MonthsGrow(f.year, f.month - 1, g.month - 1);
    } else if g.month < f.month {
      MonthsGrow(f.year, g.month - 1, f.month - 1);
    }
  }

  /** Valid fields of the same time differ at most in the weekday, so the conversion above is the only one. */
  lemma FieldsUnique(f: Fields, g: Fields)
    requires ValidFields(f) && ValidFields(g) && Value(f) == Value(g)
    ensures f.(weekday := 0) == g.(weekday := 0)
  {
    var (a, b) := (DayTicks(f), DayTicks(g));
    Leading(DayNumber(f), DayNumber(g), a, b, TICKS_IN_DAY);
    var (c, d) := (a - f.hour * TICKS_IN_HOUR, b - g.hour * TICKS_IN_HOUR);
    Leading(f.hour, g.hour, c, d, TICKS_IN_HOUR);
    var (x, y) := (c - f.minute * TICKS_IN_MINUTE, d - g.minute * TICKS_IN_MINUTE);
    Leading(f.minute, g.minute, x, y, TICKS_IN_MINUTE);
    Leading(f.second, g.second, f.ms * TICKS_IN_MS, g.ms * TICKS_IN_MS, TICKS_IN_SECOND);
    DatesUnique(f, g);
  }

  ghost function DayTicks(f: Fields): int {
    f.hour * TICKS_IN_HOUR + f.minute * TICKS_IN_MINUTE + f.second * TICKS_IN_SECOND + f.ms * TICKS_IN_MS
  }

  /** The leading digit of a number is unique. */
  lemma Leading(a: int, b: int, x: int, y: int, k: int)
    requires k > 0 && 0 <= x < k && 0 <= y < k && a * k + x == b * k + y
    ensures a == b && x == y
  {
    if a > b {
      AtLeast(a, b, k);
    } else if b > a {
      AtLeast(b, a, k);
    }
  }

  lemma AtLeast(a: int, b: int, k: int)
    requires a > b && k > 0
    ensures a * k >= b * k + k
  {
    var d := a - b - 1;
    assert a * k == (b + 1 + d) * k == b * k + k + d * k;
  }

  // ----- from fields to times -----

  /**
   The time of the fields, but for the month: the loop starts at the second month of the table, so it
   adds the month itself instead of the first one.  The result is right exactly if the month has 31
   days.  `ok` is false where the 64-bit sum overflows.
   */
  method RtlTimeFieldsToTime(f: Fields) returns (ok: bool, time: int)
    requires f.year >= EPOCH_YEAR && f.month <= 12
    ensures f.month >= 1 ==> time == Value(f) - Early(f)
    ensures f.month >= 1 ==> (time == Value(f) <==> MonthTable(f.year, f.month - 1) == 31)
    ensures ValidFields(f) ==> (ok <==> Value(f) - Early(f) < I64_LIMIT)
  {
    time := f.ms * TICKS_IN_MS;
    time := time + f.second * TICKS_IN_SECOND;
    time := time + f.minute * TICKS_IN_MINUTE;
    time := time + f.hour * TICKS_IN_HOUR;
    time := time + (f.day - 1) * TICKS_IN_DAY;
    ok := -I64_LIMIT <= time < I64_LIMIT;
    ghost var start, days := time, 0;
    assert DaysInMonths(f.year, 1) == MonthTable(f.year, 0) == 31;
    var i := 1;
    while i < f.month
      invariant 1 <= i <= 12 && (f.month >= 1 ==> i <= f.month)
      invariant days == DaysInMonths(f.year, i) - 31 && time == start + days * TICKS_IN_DAY
      invariant ValidFields(f) ==> 0 <= time && (ok <==> time < I64_LIMIT)
    {
      time := time + MonthTable(f.year, i) * TICKS_IN_DAY;
      days := days + MonthTable(f.year, i);
      ok := ok && time < I64_LIMIT;
      i := i + 1;
    }
    i := EPOCH_YEAR;
    ghost var mid := time;
    while i < f.year
      invariant EPOCH_YEAR <= i <= f.year && time == mid + DaysBeforeYear(i) * TICKS_IN_DAY
      invariant ValidFields(f) ==> 0 <= time && (ok <==> time < I64_LIMIT)
    {
      time := time + DaysPerYear(i) * TICKS_IN_DAY;
      ok := ok && time < I64_LIMIT;
      i := i + 1;
    }
  }

  /** How much too early the result is. */
  ghost function Early(f: Fields): int
    requires 1 <= f.month <= 12
  {
    (31 - MonthTable(f.year, f.month - 1)) * TICKS_IN_DAY
  }

  /** Converting a time to fields and back gives it back, cut to milliseconds, exactly in months of 31
      days; the sum never overflows. */
  method RoundTrip(time: int) returns (back: int, f: Fields)
    requires 0 <= time < I64_LIMIT
    ensures ValidFields(f) && Value(f) == time - time % TICKS_IN_MS
    ensures back == time - time % TICKS_IN_MS <==> MonthTable(f.year, f.month - 1) == 31
  {
    f := RtlTimeToTimeFields(time);
    var ok;
    ok, back := RtlTimeFieldsToTime(f);
    assert ok;
  }
}
