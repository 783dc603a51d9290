/**
 The conversion of calendar dates to ticks in src/dos.c: 100-nanosecond units since the year 1601,
 from 16-bit fields to a signed 64-bit number.
 */
module Calendar {
  import opened Common

  const EPOCH_YEAR := 1601
  const SECS_PER_DAY := 86400
  const TICKS_PER_SEC := 10_000_000
  const TICKS_PER_MSEC := 10_000
  const TICKS_PER_DAY := 864_000_000_000

  /** A C `short`. */
  type Short = x: int | -0x8000 <= x < 0x8000

  datatype TimeFields = TimeFields(year: Short, month: Short, day: Short,
                                   hour: Short, minute: Short, second: Short, msec: Short)

  predicate IsLeapYear(year: int) {
    year % 4 == 0 && (year % 100 != 0 || year % 400 == 0)
  }

  function MonthLength(leap: bool, month: int): (n: nat)
    requires 1 <= month <= 12
    ensures 28 <= n <= 31
  {
    if month == 2 then (if leap then 29 else 28)
    else if month == 4 || month == 6 || month == 9 || month == 11 then 30 else 31
  }

  function DaysSinceEpoch(year: nat): int
    requires year >= 1
  {
    var y := year - 1;
    var e := EPOCH_YEAR - 1;
    y * 365 + y / 4 - y / 100 + y / 400 - (e * 365 + e / 4 - e / 100 + e / 400)
  }

  // ---------------------------------------------------------------- counting days one by one

  function YearLength(year: int): nat {
    if IsLeapYear(year) then 366 else 365
  }

  /** The days of all years from 1601 up to a year. */
  function YearsBefore(year: nat): nat
    decreases year
  {
    if year <= EPOCH_YEAR then 0 else YearsBefore(year - 1) + YearLength(year - 1)
  }

  /** The days of a year's months before a month. */
  function MonthsBefore(leap: bool, month: int): nat
    requires 1 <= month <= 13
    decreases month
  {
    if month == 1 then 0 else MonthsBefore(leap, month - 1) + MonthLength(leap, month - 1)
  }

  lemma {:induction false} QuotientStep(y: nat, k: nat)
    requires y >= 1 && k > 0
    ensures y / k == (y - 1) / k + if y % k == 0 then 1 else 0
  {
    var q, r := (y - 1) / k, (y - 1) % k;
    assert y - 1 == q * k + r;
    if r == k - 1 {
      DivUnique(y, k, q + 1, 0);
    } else {
      DivUnique(y, k, q, r + 1);
    }
  }

  lemma {:induction false} LeapDay(y: nat)
    ensures (if y % 4 == 0 then 1 else 0) - (if y % 100 == 0 then 1 else 0) + (if y % 400 == 0 then 1 else 0)
         == YearLength(y) - 365
  {
    if y % 400 == 0 {
      DivUnique(y, 100, 4 * (y / 400), 0);
    }
    if y % 100 == 0 {
      DivUnique(y, 4, 25 * (y / 100), 0);
    }
  }

  lemma {:induction false} FormulaStep(year: nat)
    requires year >= 1
    ensures DaysSinceEpoch(year + 1) == DaysSinceEpoch(year) + YearLength(year)
  {
    QuotientStep(year, 4);
    QuotientStep(year, 100);
    QuotientStep(year, 400);
    LeapDay(year);
  }

  /** The closed formula counts the days of all years since 1601. */
  lemma {:induction false} EpochDays(year: nat)
    requires year >= EPOCH_YEAR
    ensures DaysSinceEpoch(year) == YearsBefore(year)
  {
    if year > EPOCH_YEAR {
      EpochDays(year - 1);
      FormulaStep(year - 1);
    }
  }

  lemma {:induction false} MonthsOfYear(leap: bool)
    ensures MonthsBefore(leap, 13) == if leap then 366 else 365
  {
    var d := if leap then 1 else 0;
    assert MonthsBefore(leap, 4) == 90 + d;
    assert MonthsBefore(leap, 7) == 181 + d;
    assert MonthsBefore(leap, 10) == 273 + d;
  }

  lemma {:induction false} MonthsInOrder(leap: bool, a: int, b: int)
    requires 1 <= a < b <= 13
    ensures MonthsBefore(leap, a) + MonthLength(leap, a) <= MonthsBefore(leap, b)
    decreases b - a
  {
    if a < b - 1 {
      MonthsInOrder(leap, a, b - 1);
    }
  }

  lemma {:induction false} YearsInOrder(a: nat, b: nat)
    requires EPOCH_YEAR <= a < b
    ensures YearsBefore(a) + YearLength(a) <= YearsBefore(b)
    decreases b - a
  {
    if a < b - 1 {
      YearsInOrder(a, b - 1);
    }
  }

  // ---------------------------------------------------------------- ticks

  /** The fields that are converted. */
  predicate ValidFields(f: TimeFields) {
    0 <= f.msec <= 999 && 0 <= f.second <= 59 && 0 <= f.minute <= 59 && 0 <= f.hour <= 23 &&
    1 <= f.month <= 12 && 1 <= f.day <= MonthLength(IsLeapYear(f.year), f.month) && f.year >= EPOCH_YEAR
  }

  /** The number of whole days since 1 January 1601. */
  function DayNumber(f: TimeFields): int
    requires ValidFields(f)
  {
    DaysSinceEpoch(f.year) + MonthsBefore(IsLeapYear(f.year), f.month) + f.day - 1
  }

  /** The milliseconds since midnight. */
  function MsecOfDay(f: TimeFields): int {
    ((f.hour * 60 + f.minute) * 60 + f.second) * 1000 + f.msec
  }

  /** The ticks of a time: so many days, and so many milliseconds. */
  function Ticks(f: TimeFields): int
    requires ValidFields(f)
  {
    DayNumber(f) * TICKS_PER_DAY + MsecOfDay(f) * TICKS_PER_MSEC
  }

  /** The loop over the months. */
  method AddMonths(days: int, leap: bool, month: int) returns (time: int)
    requires 1 <= month <= 12
    ensures time == days + MonthsBefore(leap, month)
  {
    time := days;
    var m := 1;
    while m < month
      invariant 1 <= m <= month && time == days + MonthsBefore(leap, m)
    {
      time := time + MonthLength(leap, m);
      m := m + 1;
    }
  }

  // ---------------------------------------------------------------- 64 bits

  const U64 := 0x1_0000_0000_0000_0000
  const MAX_TIME := 0x7FFF_FFFF_FFFF_FFFF

  /** What a signed 64-bit variable holds of a number. */
  function Wrap(x: int): int {
    (x + MAX_TIME + 1) % U64 - MAX_TIME - 1
  }

  lemma {:induction false} WrapSmall(x: int)
    requires -MAX_TIME - 1 <= x <= MAX_TIME
    ensures Wrap(x) == x
  {
  }

  lemma {:induction false} WrapOnce(x: int)
    requires MAX_TIME < x < U64
    ensures Wrap(x) == x - U64
  {
    DivUnique(x + MAX_TIME + 1, U64, 1, x + MAX_TIME + 1 - U64);
  }

  /** Adding to a wrapped number wraps no differently. */
  lemma {:induction false} WrapAdd(x: nat, y: nat)
    requires x + y < U64 && y <= MAX_TIME
    ensures Wrap(Wrap(x) + y) == Wrap(x + y)
  {
    if x <= MAX_TIME {
      WrapSmall(x);
    } else {
      WrapOnce(x);
      WrapOnce(x + y);
      WrapSmall(x - U64 + y);
    }
  }

  /** The result: the ticks, as far as 64 bits hold them. */
  function Time(f: TimeFields): int
    requires ValidFields(f)
  {
    Wrap(Ticks(f))
  }

  /** No year a `short` can hold comes near 2^64 ticks. */
  lemma {:induction false} TicksBound(f: TimeFields)
    requires ValidFields(f)
    ensures 0 <= DayNumber(f) < 12_000_000 && 0 <= Ticks(f) < U64
  {
    EpochDays(f.year);
    YearsBound(f.year);
    MonthsInOrder(IsLeapYear(f.year), f.month, 13);
    MonthsOfYear(IsLeapYear(f.year));
    WithinDay(f);
  }

  lemma {:induction false} YearsBound(year: nat)
    requires 1 <= year < 0x8000
    ensures DaysSinceEpoch(year) < 11_999_000
  {
  }

  /** The seconds since midnight. */
  function SecondOfDay(f: TimeFields): int {
    f.hour * 3600 + f.minute * 60 + f.second
  }

  lemma {:induction false} SecondsAndTicks(days: int, f: TimeFields)
    ensures (days * SECS_PER_DAY + SecondOfDay(f)) * TICKS_PER_SEC + f.msec * TICKS_PER_MSEC
         == days * TICKS_PER_DAY + MsecOfDay(f) * TICKS_PER_MSEC
  {
  }

  /** The four steps from days to ticks, each kept to 64 bits. */
  method ScaleDays(days: nat, seconds: nat, msec: nat) returns (time: int)
    requires days < 12_000_000 && seconds < SECS_PER_DAY && msec < 1000
    ensures time == Wrap((days * SECS_PER_DAY + seconds) * TICKS_PER_SEC + msec * TICKS_PER_MSEC)
  {
    ghost var total := days * SECS_PER_DAY + seconds;
    WrapSmall(days * SECS_PER_DAY);
    WrapSmall(total);
    WrapAdd(total * TICKS_PER_SEC, msec * TICKS_PER_MSEC);
    time := Wrap(days * SECS_PER_DAY);
    time := Wrap(time + seconds);
    time := Wrap(time * TICKS_PER_SEC);
    time := Wrap(time + msec * TICKS_PER_MSEC);
  }

  /** RtlTimeFieldsToTime. */
  method TimeFieldsToTime(f: TimeFields) returns (t: Option<int>)
    ensures t == if ValidFields(f) then Some(Time(f)) else None
  {
    if f.msec < 0 || f.msec > 999 || f.second < 0 || f.second > 59 || f.minute < 0 || f.minute > 59 ||
       f.hour < 0 || f.hour > 23 || f.month < 1 || f.month > 12 || f.day < 1 ||
       f.day > MonthLength(IsLeapYear(f.year), f.month) || f.year < EPOCH_YEAR {
      return None;
    }
    var days := AddMonths(DaysSinceEpoch(f.year), IsLeapYear(f.year), f.month);
    var time := Convert(days + f.day - 1, f);
    return Some(time);
  }

  /** The result for valid fields, from the number of days. */
  method Convert(days: int, f: TimeFields) returns (time: int)
    requires ValidFields(f) && days == DayNumber(f)
    ensures time == Time(f)
  {
    TicksBound(f);
    SecondsBound(f);
    SecondsAndTicks(days, f);
    time := ScaleDays(days, SecondOfDay(f), f.msec);
  }

  lemma {:induction false} SecondsBound(f: TimeFields)
    requires ValidFields(f)
    ensures 0 <= SecondOfDay(f) < SECS_PER_DAY && 0 <= f.msec < 1000
  {
  }

  // ---------------------------------------------------------------- order

  predicate DayBefore(f: TimeFields, g: TimeFields) {
    f.year < g.year || (f.year == g.year && (f.month < g.month || (f.month == g.month && f.day < g.day)))
  }

  predicate SameDay(f: TimeFields, g: TimeFields) {
    f.year == g.year && f.month == g.month && f.day == g.day
  }

  predicate ClockBefore(f: TimeFields, g: TimeFields) {
    || f.hour < g.hour
    || (f.hour == g.hour && f.minute < g.minute)
    || (f.hour == g.hour && f.minute == g.minute && f.second < g.second)
    || (f.hour == g.hour && f.minute == g.minute && f.second == g.second && f.msec < g.msec)
  }

  /** Calendar order: by year, month, day and time of day. */
  predicate Before(f: TimeFields, g: TimeFields) {
    DayBefore(f, g) || (SameDay(f, g) && ClockBefore(f, g))
  }

  lemma {:induction false} EarlierDay(f: TimeFields, g: TimeFields)
    requires ValidFields(f) && ValidFields(g) && DayBefore(f, g)
    ensures DayNumber(f) < DayNumber(g)
  {
    EpochDays(f.year);
    EpochDays(g.year);
    if f.year < g.year {
      YearsInOrder(f.year, g.year);
      MonthsInOrder(IsLeapYear(f.year), f.month, 13);
      MonthsOfYear(IsLeapYear(f.year));
    } else if f.month < g.month {
      MonthsInOrder(IsLeapYear(f.year), f.month, g.month);
    }
  }

  lemma {:induction false} WithinDay(f: TimeFields)
    requires ValidFields(f)
    ensures 0 <= MsecOfDay(f) * TICKS_PER_MSEC < TICKS_PER_DAY
  {
  }

  lemma {:induction false} TimeOfDay(f: TimeFields, g: TimeFields)
    requires ValidFields(f) && ValidFields(g) && ClockBefore(f, g)
    ensures MsecOfDay(f) < MsecOfDay(g)
  {
  }

  /** Earlier times have fewer ticks, by at least one millisecond's. */
  lemma {:induction false} TicksIncrease(f: TimeFields, g: TimeFields)
    requires ValidFields(f) && ValidFields(g) && Before(f, g)
    ensures Ticks(f) + TICKS_PER_MSEC <= Ticks(g)
  {
    WithinDay(f);
    WithinDay(g);
    if DayBefore(f, g) {
      EarlierDay(f, g);
    } else {
      TimeOfDay(f, g);
    }
  }

  /** The last millisecond whose ticks fit: 14 September 30828, 02:48:05.477. */
  const LastTime := TimeFields(30828, 9, 14, 2, 48, 5, 477)

  /** The result does not overflow: a date not after the last one that fits. */
  predicate Representable(f: TimeFields) {
    !Before(LastTime, f)
  }

  lemma {:induction false} LastTimeTicks()
    ensures ValidFields(LastTime) && MAX_TIME - TICKS_PER_MSEC < Ticks(LastTime) <= MAX_TIME
  {
    assert MonthsBefore(true, 5) == 121;
    assert MonthsBefore(true, 9) == 244;
    assert MsecOfDay(LastTime) == 10_085_477;
  }

  /** The conversion is exact if and only if the date is representable; any other date comes out negative. */
  lemma {:induction false} ExactIff(f: TimeFields)
    requires ValidFields(f)
    ensures Time(f) == if Representable(f) then Ticks(f) else Ticks(f) - U64
    ensures Representable(f) <==> Time(f) == Ticks(f)
    ensures Representable(f) <==> Time(f) >= 0
  {
    TicksBound(f);
    LastTimeTicks();
    if Before(LastTime, f) {
      TicksIncrease(LastTime, f);
      WrapOnce(Ticks(f));
    } else {
      if f != LastTime {
        TicksIncrease(f, LastTime);
      }
      WrapSmall(Ticks(f));
    }
  }

  /** A date that the guard accepts and that overflows: the start of the last year. */
  lemma {:induction false} LastYearOverflows()
    ensures var f := TimeFields(32767, 1, 1, 0, 0, 0, 0);
            ValidFields(f) && Ticks(f) == 9_835_039_008_000_000_000 && Time(f) == 9_835_039_008_000_000_000 - U64
  {
    ExactIff(TimeFields(32767, 1, 1, 0, 0, 0, 0));
  }

  /**
   Of two dates the earlier one has the smaller result, unless the later one alone overflows;
   and no two dates have the same result.
   */
  lemma {:induction false} TimeOrder(f: TimeFields, g: TimeFields)
    requires ValidFields(f) && ValidFields(g)
    ensures Before(f, g) ==> (Time(f) < Time(g) <==> (Representable(f) ==> Representable(g)))
    ensures Representable(f) && Representable(g) ==> (Before(f, g) <==> Time(f) < Time(g))
    ensures f == g <==> Time(f) == Time(g)
  {
    TicksBound(f);
    TicksBound(g);
    ExactIff(f);
    ExactIff(g);
    if Before(f, g) {
      TicksIncrease(f, g);
    } else if Before(g, f) {
      TicksIncrease(g, f);
    }
  }

  // ---------------------------------------------------------------- one day later

  /** The last day a `short` year allows. */
  predicate LastDay(f: TimeFields) {
    f.year == 32767 && f.month == 12 && f.day == 31
  }

  /** The same time on the next day of the calendar. */
  function NextDay(f: TimeFields): TimeFields
    requires ValidFields(f) && !LastDay(f)
  {
    if f.day < MonthLength(IsLeapYear(f.year), f.month) then f.(day := f.day + 1)
    else if f.month < 12 then f.(day := 1, month := f.month + 1)
    else f.(day := 1, month := 1, year := f.year + 1)
  }

  /** Consecutive days are exactly one day of ticks apart, unless the later one alone overflows. */
  lemma {:induction false} OneDayLater(f: TimeFields)
    requires ValidFields(f) && !LastDay(f)
    ensures ValidFields(NextDay(f)) && Ticks(NextDay(f)) == Ticks(f) + TICKS_PER_DAY
    ensures Time(NextDay(f)) == Time(f) + TICKS_PER_DAY <==> (Representable(f) ==> Representable(NextDay(f)))
  {
    if f.day < MonthLength(IsLeapYear(f.year), f.month) {
    } else if f.month < 12 {
      FirstOfMonth(f);
    } else {
      FirstOfYear(f);
    }
    assert DayNumber(NextDay(f)) == DayNumber(f) + 1;
    assert MsecOfDay(NextDay(f)) == MsecOfDay(f);
    ExactIff(f);
    ExactIff(NextDay(f));
    TicksBound(f);
    TicksBound(NextDay(f));
  }

  lemma {:induction false} FirstOfMonth(f: TimeFields)
    requires ValidFields(f) && f.month < 12 && f.day == MonthLength(IsLeapYear(f.year), f.month)
    ensures DayNumber(f.(day := 1, month := f.month + 1)) == DayNumber(f) + 1
  {
    var leap := IsLeapYear(f.year);
    assert MonthsBefore(leap, f.month + 1) == MonthsBefore(leap, f.month) + MonthLength(leap, f.month);
  }

  lemma {:induction false} FirstOfYear(f: TimeFields)
    requires ValidFields(f) && f.month == 12 && f.day == 31 && f.year < 32767
    ensures DayNumber(f.(day := 1, month := 1, year := f.year + 1)) == DayNumber(f) + 1
  {
    var leap := IsLeapYear(f.year);
    FormulaStep(f.year);
    MonthsOfYear(leap);
    assert MonthsBefore(leap, 13) == MonthsBefore(leap, 12) + MonthLength(leap, 12);
  }
}
