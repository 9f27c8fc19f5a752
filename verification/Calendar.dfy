/** The calendar of fd_calendar.c: seconds since 1970 and dates, each the inverse of the other. */
module Calendar {
  import opened Arithmetic

  datatype Date = Date(year: int, month: int, mday: int, hour: int, min: int, sec: int, wday: int)

  const DAY := 86400
  /** Day numbers are kept in 32 bits, with a sign. */
  const DAYS := 0x8000_0000

  /** A sum that leaves the range wraps around; the C language leaves it undefined. */
  function Wrap(n: int): (r: int)
    ensures -DAYS <= r < DAYS
    ensures r == n <==> -DAYS <= n < DAYS
  {
    (n + DAYS) % (2 * DAYS) - DAYS
  }

  /** The C operator: the remainder has the sign of the dividend. */
  function Remainder(n: int, m: nat): int
    requires m > 0
  {
    if n >= 0 then n % m else -(-n % m)
  }

  /** The week day that `fd_calendar_from_time` works out; day 0 was a Thursday. */
  function WeekDay(day: nat): int {
    Remainder(Wrap(day + 4), 7)
  }

  /** It is wrong on the last four days of the range, and on no others. */
  lemma WeekDayExactly(day: nat)
    requires day < DAYS
    ensures WeekDay(day) == (day + 4) % 7 <==> day + 4 < DAYS
  {
    if day + 4 >= DAYS {
      assert Wrap(day + 4) == day + 4 - 2 * DAYS;
      assert day == DAYS - 4 || day == DAYS - 3 || day == DAYS - 2 || day == DAYS - 1;
    }
  }

  /** On those four days it is this. */
  lemma LastWeekDays()
    ensures [WeekDay(DAYS - 4), WeekDay(DAYS - 3), WeekDay(DAYS - 2), WeekDay(DAYS - 1)] == [-2, -1, 0, -6]
  {
    assert Wrap(DAYS) == -DAYS && Wrap(DAYS + 1) == 1 - DAYS;
    assert Wrap(DAYS + 2) == 2 - DAYS && Wrap(DAYS + 3) == 3 - DAYS;
  }

  predicate IsLeap(y: int) {
    (y % 4 == 0 && y % 100 != 0) || y % 400 == 0
  }

  /** `nleap`. */
  function NLeap(y: int): int {
    (y - 1969) / 4 - (y - 1901) / 100 + (y - 1601) / 400
  }

  /** `ydays`. */
  function YDays(m: int): int {
    match m
    case 1 => 31
    case 2 => 59
    case 3 => 90
    case 4 => 120
    case 5 => 151
    case 6 => 181
    case 7 => 212
    case 8 => 243
    case 9 => 273
    case 10 => 304
    case 11 => 334
    case 12 => 365
    case _ => 0
  }

  /** `ymdays`; leap years are rows 12 to 23. */
  function YMDays(ym: int): int {
    match ym
    case 1 => 28
    case 3 => 30
    case 5 => 30
    case 8 => 30
    case 10 => 30
    case 13 => 29
    case 15 => 30
    case 17 => 30
    case 20 => 30
    case 22 => 30
    case _ => 31
  }

  /** `yearsize`. */
  function YearSize(y: int): int {
    if IsLeap(y) then 366 else 365
  }

  /** `fd_calendar_to_time`. */
  function ToTime(d: Date): int {
    var years := d.year + 1900;
    var days := d.mday - 1 + YDays(d.month) + if d.month > 1 && IsLeap(years) then 1 else 0;
    DAY * Wrap(days + 365 * (years - 1970) + NLeap(years)) + 3600 * d.hour + 60 * d.min + d.sec
  }

  // ---------------------------------------------------------------- counting days

  function LeapYearsBefore(y: int): (n: int)
    requires y >= 1970
    decreases y
  {
    if y == 1970 then 0 else LeapYearsBefore(y - 1) + if IsLeap(y - 1) then 1 else 0
  }

  lemma QuotientStep(y: int, n: int)
    requires n > 0
    ensures (y + 1) / n == y / n + if (y + 1) % n == 0 then 1 else 0
  {
    assert y == n * (y / n) + y % n;
    if y % n == n - 1 {
      assert y + 1 == (y / n + 1) * n + 0 by { assert (y / n + 1) * n == n * (y / n) + n; }
      SignedDivisionIs(y + 1, n, y / n + 1, 0);
    } else {
      assert y + 1 == (y / n) * n + (y % n + 1) by { assert (y / n) * n == n * (y / n); }
      SignedDivisionIs(y + 1, n, y / n, y % n + 1);
    }
  }

  lemma SignedDivisionIs(v: int, n: nat, q: int, r: nat)
    requires v == q * n + r && r < n
    ensures v / n == q && v % n == r
  {
    assert v == (v / n) * n + v % n by { assert (v / n) * n == n * (v / n); }
    QuotientIsUnique(v / n, v % n, q, r, n);
  }

  /** `nleap` counts the leap years from 1970 up to but not including its argument. */
  lemma {:induction false} NLeapCounts(y: int)
    requires y >= 1970
    ensures NLeap(y) == LeapYearsBefore(y)
    decreases y
  {
    if y == 1970 {
    } else {
      NLeapCounts(y - 1);
      NLeapStep(y - 1);
    }
  }

  lemma NLeapStep(y: int)
    ensures NLeap(y + 1) == NLeap(y) + if IsLeap(y) then 1 else 0
  {
    QuotientStep(y - 1969, 4);
    QuotientStep(y - 1901, 100);
    QuotientStep(y - 1601, 400);
    Phases(y);
  }

  lemma Phases(y: int)
    ensures (y - 1968) % 4 == 0 <==> y % 4 == 0
    ensures (y - 1900) % 100 == 0 <==> y % 100 == 0
    ensures (y - 1600) % 400 == 0 <==> y % 400 == 0
    ensures y % 400 == 0 ==> y % 100 == 0
    ensures y % 100 == 0 ==> y % 4 == 0
  {
    SamePhase(y, 4, 492);
    SamePhase(y, 100, 19);
    SamePhase(y, 400, 4);
    if y % 400 == 0 {
      SignedDivisionIs(y, 100, 4 * (y / 400), 0);
    }
    if y % 100 == 0 {
      SignedDivisionIs(y, 4, 25 * (y / 100), 0);
    }
  }

  lemma SamePhase(y: int, n: nat, k: nat)
    requires n > 0
    ensures (y - n * k) % n == y % n
  {
    assert y == (y / n) * n + y % n by { assert (y / n) * n == n * (y / n); }
    assert y - n * k == (y / n - k) * n + y % n by { assert (y / n - k) * n == (y / n) * n - k * n; }
    SignedDivisionIs(y - n * k, n, y / n - k, y % n);
  }

  /** The number of the first day of a year. */
  function FirstDay(y: int): int
    requires y >= 1970
  {
    365 * (y - 1970) + LeapYearsBefore(y)
  }

  lemma NextYear(y: int)
    requires y >= 1970
    ensures FirstDay(y + 1) == FirstDay(y) + YearSize(y)
  {
  }

  lemma {:induction false} LaterYears(y: int, z: int)
    requires 1970 <= y < z
    ensures FirstDay(y) + YearSize(y) <= FirstDay(z)
    decreases z
  {
    NextYear(z - 1);
    if y == z - 1 {
    } else {
      LaterYears(y, z - 1);
    }
  }

  /** The number of the first day of a month within its year. */
  function FirstOfMonth(leap: bool, m: int): int {
    YDays(m) + if m > 1 && leap then 1 else 0
  }

  function MonthLength(leap: bool, m: int): int {
    YMDays((if leap then 12 else 0) + m)
  }

  /** The two tables agree, and the months fill the year. */
  lemma MonthsAddUp(y: int, m: int)
    requires 0 <= m <= 11
    ensures FirstOfMonth(IsLeap(y), 0) == 0
    ensures FirstOfMonth(IsLeap(y), m) + MonthLength(IsLeap(y), m) ==
            if m < 11 then FirstOfMonth(IsLeap(y), m + 1) else YearSize(y)
  {
    hide IsLeap;
  }

  lemma {:induction false} LaterMonths(y: int, m: int, k: int)
    requires 0 <= m < k <= 11
    ensures FirstOfMonth(IsLeap(y), m) + MonthLength(IsLeap(y), m) <= FirstOfMonth(IsLeap(y), k)
    decreases k
  {
    hide IsLeap, FirstOfMonth, MonthLength;
    MonthsAddUp(y, k - 1);
    if m == k - 1 {
    } else {
      LaterMonths(y, m, k - 1);
      MonthIsPositive(IsLeap(y), k - 1);
    }
  }

  lemma MonthIsPositive(leap: bool, m: int)
    ensures MonthLength(leap, m) >= 28
  {
  }

  // ---------------------------------------------------------------- dates

  /** Dates from 1970 on; the week day is what the day makes it. */
  predicate IsDate(d: Date) {
    && d.year >= 70 && 0 <= d.month <= 11 && 1 <= d.mday <= MonthLength(IsLeap(d.year + 1900), d.month)
    && 0 <= d.hour < 24 && 0 <= d.min < 60 && 0 <= d.sec < 60 && d.wday == (DayOf(d) + 4) % 7
  }

  function DayOf(d: Date): int
    requires d.year >= 70
  {
    FirstDay(d.year + 1900) + FirstOfMonth(IsLeap(d.year + 1900), d.month) + d.mday - 1
  }

  function SecondsOf(d: Date): int {
    3600 * d.hour + 60 * d.min + d.sec
  }

  /** The time counts the days and seconds of the date, exactly if the day number is one of 32 bits. */
  lemma TimeOfDate(d: Date)
    requires d.year >= 70 && DayOf(d) >= 0
    ensures ToTime(d) == DAY * DayOf(d) + SecondsOf(d) <==> DayOf(d) < DAYS
  {
    hide NLeap, LeapYearsBefore, IsLeap, Wrap;
    NLeapCounts(d.year + 1900);
  }

  lemma DayWithinYear(d: Date)
    requires IsDate(d)
    ensures FirstDay(d.year + 1900) <= DayOf(d) < FirstDay(d.year + 1900) + YearSize(d.year + 1900)
    ensures 0 <= SecondsOf(d) < DAY
  {
    hide LeapYearsBefore, IsLeap, FirstOfMonth, MonthLength;
    var y := d.year + 1900;
    MonthsAddUp(y, d.month);
    MonthsAddUp(y, 11);
    MonthIsPositive(IsLeap(y), 11);
    if d.month < 11 {
      LaterMonths(y, d.month, 11);
    }
    if d.month > 0 {
      LaterMonths(y, 0, d.month);
      MonthsAddUp(y, 0);
      MonthIsPositive(IsLeap(y), 0);
    }
  }

  /** A date whose day number is one of 32 bits. */
  predicate InRange(d: Date) {
    IsDate(d) && DayOf(d) < DAYS
  }

  /** No two dates in range have the same time. */
  lemma ToTimeIsInjective(a: Date, b: Date)
    requires InRange(a) && InRange(b) && ToTime(a) == ToTime(b)
    ensures a == b
  {
    hide ToTime, FirstDay, IsLeap, FirstOfMonth, MonthLength;
    FirstDayIsNatural(a.year + 1900);
    FirstDayIsNatural(b.year + 1900);
    DayWithinYear(a);
    DayWithinYear(b);
    TimeOfDate(a);
    TimeOfDate(b);
    assert DayOf(a) == DayOf(b);
    if a.year < b.year {
      LaterYears(a.year + 1900, b.year + 1900);
    } else if b.year < a.year {
      LaterYears(b.year + 1900, a.year + 1900);
    }
    if a.month < b.month {
      LaterMonths(a.year + 1900, a.month, b.month);
    } else if b.month < a.month {
      LaterMonths(a.year + 1900, b.month, a.month);
    }
  }

  // ---------------------------------------------------------------- the loops

  /** The years loop. */
  method FindYear(day: nat) returns (year: int, dayNumber: nat)
    ensures year >= 1970 && dayNumber < YearSize(year) && day == FirstDay(year) + dayNumber
  {
    hide IsLeap;
    year, dayNumber := 1970, day;
    while dayNumber >= YearSize(year)
      invariant year >= 1970 && day == FirstDay(year) + dayNumber
      decreases dayNumber
    {
      NextYear(year);
      dayNumber := dayNumber - YearSize(year);
      year := year + 1;
    }
  }

  /** The months loop; the month never passes December. */
  method FindMonth(year: int, dayOfYear: nat) returns (month: int, dayNumber: nat)
    requires dayOfYear < YearSize(year)
    ensures 0 <= month <= 11 && dayNumber < MonthLength(IsLeap(year), month)
    ensures dayOfYear == FirstOfMonth(IsLeap(year), month) + dayNumber
  {
    hide IsLeap, YDays, YMDays;
    var offset := if IsLeap(year) then 12 else 0;
    month, dayNumber := 0, dayOfYear;
    MonthsAddUp(year, 0);
    while dayNumber >= YMDays(offset + month)
      invariant 0 <= month <= 11 && dayOfYear == FirstOfMonth(IsLeap(year), month) + dayNumber
      decreases 11 - month
    {
      MonthsAddUp(year, month);
      dayNumber := dayNumber - YMDays(offset + month);
      month := month + 1;
    }
  }

  /** `fd_calendar_from_time`: the one date in range with that time, up to the last four days. */
  method FromTime(time: nat) returns (date: Date)
    requires time < DAY * (DAYS - 4)
    ensures InRange(date) && ToTime(date) == time
    ensures forall d :: InRange(d) && ToTime(d) == time ==> d == date
  {
    hide IsLeap, FirstDay, FirstOfMonth, MonthLength, ToTime, WeekDay;
    var dayclock, dayno := time % DAY, time / DAY;
    var wday := WeekDay(dayno);
    WeekDayExactly(dayno);
    var year, dayOfYear := FindYear(dayno);
    var month, dayNumber := FindMonth(year, dayOfYear);
    date := Date(year - 1900, month, dayNumber + 1, dayclock / 3600, dayclock % 3600 / 60, dayclock % 60, wday);
    ClockAddsUp(dayclock);
    TimeOfDate(date);
    forall d | InRange(d) && ToTime(d) == time ensures d == date {
      ToTimeIsInjective(d, date);
    }
  }

  lemma ClockAddsUp(s: nat)
    requires s < DAY
    ensures 3600 * (s / 3600) + 60 * (s % 3600 / 60) + s % 60 == s && s / 3600 < 24 && s % 3600 / 60 < 60
  {
  }

  /** And back: converting a date to a time and again gives the date. */
  method ThereAndBack(date: Date) returns (result: Date)
    requires IsDate(date) && DayOf(date) < DAYS - 4
    ensures result == date
  {
    hide IsLeap, FirstDay, FirstOfMonth, MonthLength, ToTime;
    DayWithinYear(date);
    FirstDayIsNatural(date.year + 1900);
    TimeOfDate(date);
    result := FromTime(ToTime(date));
  }

  lemma {:induction false} FirstDayIsNatural(y: int)
    requires y >= 1970
    ensures FirstDay(y) >= 0
    decreases y
  {
    if y == 1970 {
    } else {
      FirstDayIsNatural(y - 1);
      NextYear(y - 1);
    }
  }

  // ---------------------------------------------------------------- a date one can look up

  lemma FirstDays()
    ensures FirstDay(1970) == 0 && FirstDay(2000) == 10957
  {
    NLeapCounts(1970);
    NLeapCounts(2000);
    hide LeapYearsBefore;
    assert NLeap(1970) == 0 && NLeap(2000) == 7;
  }

  lemma DayOfKnown(d: Date, first: nat)
    requires d.year >= 70 && FirstDay(d.year + 1900) == first
    ensures DayOf(d) == first + FirstOfMonth(IsLeap(d.year + 1900), d.month) + d.mday - 1
  {
    hide FirstDay, FirstOfMonth, IsLeap;
  }

  /** The leap day of 2000 was a Tuesday, and 951827696 is 12:34:56 on it. */
  lemma LeapDayOf2000(d: Date)
    requires d == Date(100, 1, 29, 12, 34, 56, 2)
    ensures IsDate(d) && ToTime(d) == 951827696
  {
    hide FirstDay, DayOf, ToTime;
    FirstDays();
    DayOfKnown(d, 10957);
    TimeOfDate(d);
  }
}
