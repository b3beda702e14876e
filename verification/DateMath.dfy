/**
 * Calendar arithmetic of the planner on a local timeline without
 * daylight-saving shifts: an instant is an integer number of milliseconds,
 * day `d` starts at `d * DAY_MS`, and day 0 is 1970-01-01, a Thursday.
 */
module DateMath {
  import opened Wrappers
  import Text

  const SECOND_MS := 1000
  const MINUTE_MS := 60 * SECOND_MS
  const HOUR_MS := 60 * MINUTE_MS
  const DAY_MS := 24 * HOUR_MS

  /** Midday, the time of day `parseDateInput` gives every date. */
  const NOON_MS := 12 * HOUR_MS

  // ----- Civil calendar (proleptic Gregorian) -----

  predicate IsLeapYear(y: int) {
    y % 4 == 0 && (y % 100 != 0 || y % 400 == 0)
  }

  /** Length of month `m` (1 = January) of year `y`. */
  function DaysInMonth(y: int, m: int): int
    requires 1 <= m <= 12
  {
    if m == 2 then (if IsLeapYear(y) then 29 else 28)
    else if m == 4 || m == 6 || m == 9 || m == 11 then 30
    else 31
  }

  /**
   * Days from 0000-03-01 to March 1 of year `y`, counted in 400-year eras
   * of 146097 days.
   */
  function MarchYearStart(y: int): int {
    (y / 400) * 146097 + YearsOfEraDays(y % 400)
  }

  /** Days in the first `k` March-based years of an era. */
  function YearsOfEraDays(k: int): int {
    k * 365 + k / 4 - k / 100
  }

  /** Days from March 1 to the first day of month `m` (1 = January) of a March-based year. */
  function DayOfMarchYear(m: int): int
    requires 1 <= m <= 12
  {
    (153 * (if m > 2 then m - 3 else m + 9) + 2) / 5
  }

  /**
   * Day number of the civil date y-m-d (m = 1 for January), counting
   * 1970-01-01 as day 0. January and February belong to the March-based
   * year that started in y - 1.
   */
  function DaysFromCivil(y: int, m: int, d: int): int
    requires 1 <= m <= 12
  {
    MarchYearStart(if m <= 2 then y - 1 else y) + DayOfMarchYear(m) + d - 1 - 719468
  }

  lemma YearOfEraLength(k: int)
    requires 0 <= k < 399
    ensures YearsOfEraDays(k + 1) - YearsOfEraDays(k)
         == if (k + 1) % 4 == 0 && (k + 1) % 100 != 0 then 366 else 365
  {
    var a := (k + 1) / 4 - k / 4;
    var b := (k + 1) / 100 - k / 100;
    assert a == if (k + 1) % 4 == 0 then 1 else 0;
    assert b == if (k + 1) % 100 == 0 then 1 else 0;
    assert (k + 1) % 100 == 0 ==> (k + 1) % 4 == 0;
  }

  /** Leap years repeat with period 400. */
  lemma LeapYearOfEra(y: int)
    ensures IsLeapYear(y) <==> IsLeapYear(y % 400)
  {
    var q := y / 400;
    var r := y % 400;
    assert y == 4 * (100 * q) + r;
    assert y % 4 == r % 4;
    assert y == 100 * (4 * q) + r;
    assert y % 100 == r % 100;
  }

  /** The March-based year that starts in `y` has 366 days exactly when `y + 1` is a leap year. */
  lemma MarchYearLength(y: int)
    ensures MarchYearStart(y + 1) - MarchYearStart(y) == if IsLeapYear(y + 1) then 366 else 365
  {
    LeapYearOfEra(y + 1);
    if y % 400 == 399 {
      assert (y + 1) / 400 == y / 400 + 1 && (y + 1) % 400 == 0;
    } else {
      assert (y + 1) / 400 == y / 400 && (y + 1) % 400 == y % 400 + 1;
      YearOfEraLength(y % 400);
    }
  }

  /**
   * Year of a 400-year era (0 to 399, years counted from March) in which
   * day `doe` of the era falls: whole centuries of 36524 days (the fourth
   * absorbs day 146096), then whole four-year cycles of 1461 days, then
   * whole years of 365 days (the fourth absorbs a cycle's last day).
   */
  function YearOfEra(doe: int): int {
    var c := if doe / 36524 < 3 then doe / 36524 else 3;
    var r := doe - 36524 * c;
    var g := r / 1461;
    var q := r - 1461 * g;
    var k := if q / 365 < 3 then q / 365 else 3;
    100 * c + 4 * g + k
  }

  /** Day `doe` of an era falls in its year YearOfEra(doe), at most 365 days after that year's start. */
  lemma YearOfEraBounds(doe: int)
    requires 0 <= doe < 146097
    ensures 0 <= YearOfEra(doe) < 400
    ensures 0 <= doe - YearsOfEraDays(YearOfEra(doe)) <= 365
  {
    var c := if doe / 36524 < 3 then doe / 36524 else 3;
    var r := doe - 36524 * c;
    assert 0 <= r <= 36524;
    var g := r / 1461;
    var q := r - 1461 * g;
    assert 0 <= g <= 24 && 0 <= q < 1461;
    var k := if q / 365 < 3 then q / 365 else 3;
    assert 0 <= k <= 3 && 0 <= q - 365 * k <= 365;
    var y := 100 * c + 4 * g + k;
    assert y / 4 == 25 * c + g;
    assert y / 100 == c;
    assert YearsOfEraDays(y) == 36524 * c + 1461 * g + 365 * k;
  }

  /** The civil date of a day number. */
  datatype Civil = Civil(year: int, month: int, date: int)

  /**
   * The date of day `doe` of a 400-year era that starts on 1 March: its
   * year within the era (counted from March), its month (1 = January) and
   * its day of month.
   */
  function CivilOfEra(doe: int): (c: Civil)
    requires 0 <= doe < 146097
    ensures 0 <= c.year < 400 && 1 <= c.month <= 12
  {
    YearOfEraBounds(doe);
    var yoe := YearOfEra(doe);
    var doy := doe - YearsOfEraDays(yoe);
    var mp := (5 * doy + 2) / 153;
    var d := doy - (153 * mp + 2) / 5 + 1;
    Civil(yoe, if mp < 10 then mp + 3 else mp - 9, d)
  }

  /** Day `doe` of an era is the day of its own date within the era, a day 1 to 31. */
  lemma EraRoundTrip(doe: int)
    requires 0 <= doe < 146097
    ensures var c := CivilOfEra(doe);
      YearsOfEraDays(c.year) + DayOfMarchYear(c.month) + c.date - 1 == doe && 1 <= c.date <= 31
  {
    YearOfEraBounds(doe);
    var yoe := YearOfEra(doe);
    var doy := doe - YearsOfEraDays(yoe);
    var mp := (5 * doy + 2) / 153;
    assert 0 <= mp <= 11;
    var m := if mp < 10 then mp + 3 else mp - 9;
    assert DayOfMarchYear(m) == (153 * mp + 2) / 5;
  }

  /** Inverse of DaysFromCivil: the civil date (month 1 = January) of day `z`. */
  function CivilFromDays(z: int): (c: Civil)
    ensures 1 <= c.month <= 12
  {
    var era := (z + 719468) / 146097;
    var e := CivilOfEra((z + 719468) % 146097);
    Civil(e.year + era * 400 + (if e.month <= 2 then 1 else 0), e.month, e.date)
  }

  /** DaysFromCivil, for a date in the March-based year `y`. */
  lemma DaysFromMarchYear(y: int, m: int, d: int)
    requires 1 <= m <= 12
    ensures DaysFromCivil(y + (if m <= 2 then 1 else 0), m, d)
         == MarchYearStart(y) + DayOfMarchYear(m) + d - 1 - 719468
  {
  }

  /** Year `k` of era `era` starts `YearsOfEraDays(k)` days into the era. */
  lemma MarchYearOfEra(k: int, era: int)
    requires 0 <= k < 400
    ensures MarchYearStart(k + era * 400) == era * 146097 + YearsOfEraDays(k)
  {
    var y := k + era * 400;
    assert y / 400 == era && y % 400 == k;
  }

  /** Every day number is the day of its own civil date, and that date is a day 1 to 31. */
  lemma CivilRoundTrip(z: int)
    ensures var c := CivilFromDays(z); DaysFromCivil(c.year, c.month, c.date) == z
    ensures 1 <= CivilFromDays(z).date <= 31
  {
    var era := (z + 719468) / 146097;
    var doe := (z + 719468) % 146097;
    var e := CivilOfEra(doe);
    EraRoundTrip(doe);
    MarchYearOfEra(e.year, era);
    DaysFromMarchYear(e.year + era * 400, e.month, e.date);
  }

  /** Each month's first day is followed, DaysInMonth days later, by the next month's first day. */
  lemma MonthLength(y: int, m: int)
    requires 1 <= m <= 12
    ensures m < 12 ==> DaysFromCivil(y, m + 1, 1) - DaysFromCivil(y, m, 1) == DaysInMonth(y, m)
    ensures m == 12 ==> DaysFromCivil(y + 1, 1, 1) - DaysFromCivil(y, 12, 1) == DaysInMonth(y, 12)
  {
    if m == 2 {
      MarchYearLength(y - 1);
    }
  }

  // ----- The JavaScript Date operations the planner uses -----

  /**
   * `MakeDay` of the Date constructor: the month index (0 = January) and
   * the day of month may overflow; month 12 is January of the next year and
   * day 32 of a 31-day month is the first of the next month.
   */
  function MakeDay(year: int, monthIndex: int, date: int): int {
    DaysFromCivil(year + monthIndex / 12, monthIndex % 12 + 1, 1) + date - 1
  }

  /** Month index 12 and beyond of MakeDay roll into the next year. */
  lemma MakeDayMonthOverflow(y: int, mi: int, d: int)
    requires 0 <= mi < 12
    ensures MakeDay(y, mi + 12, d) == MakeDay(y + 1, mi, d)
  {
    assert (mi + 12) / 12 == 1 && (mi + 12) % 12 == mi;
    assert mi / 12 == 0 && mi % 12 == mi;
  }

  /** The day after the last of a month, in MakeDay, is the first of the next month. */
  lemma MakeDayDateOverflow(y: int, mi: int)
    requires 0 <= mi < 12
    ensures MakeDay(y, mi, DaysInMonth(y, mi + 1) + 1)
         == (if mi < 11 then MakeDay(y, mi + 1, 1) else MakeDay(y + 1, 0, 1))
  {
    MakeDayInYear(y, mi + 1, DaysInMonth(y, mi + 1) + 1);
    MonthLength(y, mi + 1);
    if mi < 11 {
      MakeDayInYear(y, mi + 2, 1);
    } else {
      MakeDayInYear(y + 1, 1, 1);
    }
  }

  /** The Date constructor maps a year argument from 0 to 99 to 1900 to 1999. */
  function ConstructorYear(y: int): (r: int)
    ensures r < 0 || r >= 100
    ensures r == y || r == 1900 + y
    ensures !(0 <= y <= 99) ==> r == y
  {
    if 0 <= y <= 99 then 1900 + y else y
  }

  /** `new Date(y, monthIndex, date, h, mi, s, ms)` on the local timeline. */
  function LocalDateTime(y: int, monthIndex: int, date: int, h: int, mi: int, s: int, ms: int): int {
    MakeDay(ConstructorYear(y), monthIndex, date) * DAY_MS + h * HOUR_MS + mi * MINUTE_MS + s * SECOND_MS + ms
  }

  /** Day number of the day an instant falls on. */
  function DayOf(t: int): int {
    t / DAY_MS
  }

  /** `getDay()`: 0 for Sunday through 6 for Saturday; day 0 was a Thursday. */
  function GetDay(t: int): (wd: int)
    ensures 0 <= wd < 7
  {
    (DayOf(t) + 4) % 7
  }

  /** `getFullYear()`. */
  function GetFullYear(t: int): int {
    CivilFromDays(DayOf(t)).year
  }

  /** `getMonth()`: 0 for January. */
  function GetMonth(t: int): (m: int)
    ensures 0 <= m < 12
  {
    CivilFromDays(DayOf(t)).month - 1
  }

  /** `getDate()`: the day of the month. */
  function GetDate(t: int): (d: int)
    ensures 1 <= d <= 31
  {
    CivilRoundTrip(DayOf(t));
    CivilFromDays(DayOf(t)).date
  }

  /** `setHours(h, mi, s, ms)`: same day, new time of day. */
  function SetHours(t: int, h: int, mi: int, s: int, ms: int): (r: int)
    ensures var tod := h * HOUR_MS + mi * MINUTE_MS + s * SECOND_MS + ms;
      0 <= tod < DAY_MS ==> DayOf(r) == DayOf(t) && r % DAY_MS == tod
  {
    DayOf(t) * DAY_MS + h * HOUR_MS + mi * MINUTE_MS + s * SECOND_MS + ms
  }

  /**
   * `setDate(date)`: same year, month and time of day, new day of month;
   * a day outside the month rolls into a neighbouring month.
   */
  function SetDate(t: int, date: int): (r: int)
    ensures r % DAY_MS == t % DAY_MS
  {
    var day := MakeDay(GetFullYear(t), GetMonth(t), date);
    TimeOfDayOnDay(day, t);
    day * DAY_MS + t % DAY_MS
  }

  /** Day `day`'s midnight plus the time of day of `t` has that time of day. */
  lemma TimeOfDayOnDay(day: int, t: int)
    ensures (day * DAY_MS + t % DAY_MS) % DAY_MS == t % DAY_MS
  {
  }

  /** MakeDay of a day's own year `y`, month `m` (1-based) and day of month `dt` plus `k` is `k` days later. */
  lemma MakeDayOfCivil(z: int, k: int, y: int, m: int, dt: int)
    requires CivilFromDays(z) == Civil(y, m, dt)
    ensures MakeDay(y, m - 1, dt + k) == z + k
  {
    CivilRoundTrip(z);
    assert 1 <= m <= 12;
    assert (m - 1) / 12 == 0 && (m - 1) % 12 + 1 == m;
  }

  /** An instant is its day's midnight plus its time of day. */
  lemma ShiftWithinDay(t: int, day: int, k: int)
    requires day == DayOf(t) + k
    ensures day * DAY_MS + t % DAY_MS == t + k * DAY_MS
  {
  }

  /** Moving the day of month by `k` moves the instant by exactly `k` days, across month and year ends. */
  lemma SetDateShift(t: int, k: int)
    ensures SetDate(t, GetDate(t) + k) == t + k * DAY_MS
  {
    var y, mi, dt := GetFullYear(t), GetMonth(t), GetDate(t);
    MakeDayOfCivil(DayOf(t), k, y, mi + 1, dt);
    ShiftWithinDay(t, MakeDay(y, mi, dt + k), k);
  }

  /** `setHours` on an instant `k` whole days after `t` gives that time on the day `k` days after t's. */
  lemma SetHoursDaysLater(u: int, t: int, k: int, h: int, mi: int, s: int, ms: int)
    requires u == t + k * DAY_MS
    ensures SetHours(u, h, mi, s, ms) == (DayOf(t) + k) * DAY_MS + h * HOUR_MS + mi * MINUTE_MS + s * SECOND_MS + ms
  {
    assert DayOf(t + k * DAY_MS) == DayOf(t) + k;
  }

  /** `setDate` by `k` days followed by `setHours` lands on the given time of the day `k` days later. */
  lemma SetDateThenHours(t: int, k: int, h: int, mi: int, s: int, ms: int)
    ensures SetHours(SetDate(t, GetDate(t) + k), h, mi, s, ms)
         == (DayOf(t) + k) * DAY_MS + h * HOUR_MS + mi * MINUTE_MS + s * SECOND_MS + ms
  {
    SetDateShift(t, k);
    SetHoursDaysLater(SetDate(t, GetDate(t) + k), t, k, h, mi, s, ms);
  }

  /**
   * `parseDateInput`: a non-empty string that splits on '-' into exactly
   * three segments, each empty or all digits, denotes noon of that
   * year, month (1-based) and day; anything else is rejected.
   */
  function ParseDateInput(s: string): (r: Option<int>)
    ensures r.Some? <==>
      && s != []
      && |Text.Split(s, '-')| == 3
      && (forall k :: 0 <= k < 3 ==> Text.SegmentNumber(Text.Split(s, '-')[k]).Some?)
  {
    if s == [] then None
    else
      var parts := Text.Split(s, '-');
      if |parts| != 3 then None
      else
        var yy, mm, dd := Text.SegmentNumber(parts[0]), Text.SegmentNumber(parts[1]), Text.SegmentNumber(parts[2]);
        if yy.None? || mm.None? || dd.None? then None
        else Some(LocalDateTime(yy.value, mm.value - 1, dd.value, 12, 0, 0, 0))
  }

  /** `daysDiff(a, b)`: whole days from `a` to `b`, rounded down. */
  function DaysDiff(a: int, b: int): (r: int)
    ensures r * DAY_MS <= b - a < (r + 1) * DAY_MS
  {
    (b - a) / DAY_MS
  }

  /** `clamp(n, lo, hi)`, that is `Math.max(lo, Math.min(hi, n))`. */
  function Clamp(n: int, lo: int, hi: int): (r: int)
    ensures lo <= hi ==> lo <= r <= hi
    ensures lo <= n <= hi ==> r == n
    ensures lo <= hi && n < lo ==> r == lo
    ensures lo <= hi && hi < n ==> r == hi
  {
    var m := if hi < n then hi else n;
    if lo < m then m else lo
  }

  // ----- Week boundaries -----

  /** Position of day `d` in a Monday-first week: 0 for Monday through 6 for Sunday. */
  function DaysSinceMonday(d: int): int {
    (d + 3) % 7
  }

  /** Midnight of the Monday of the week holding instant `x`. */
  function WeekStartOf(x: int): (m: int)
    ensures m % DAY_MS == 0 && GetDay(m) == 1
    ensures m <= x < m + 7 * DAY_MS
  {
    var d := DayOf(x);
    (d - DaysSinceMonday(d)) * DAY_MS
  }

  /** The last millisecond before the next Monday. */
  function WeekEndOf(x: int): (e: int)
    ensures WeekStartOf(x) + 6 * DAY_MS < e && GetDay(e) == 0
    ensures x <= e && DaysDiff(WeekStartOf(x), e) == 6
  {
    WeekEndFacts(WeekStartOf(x));
    WeekStartOf(x) + 7 * DAY_MS - 1
  }

  lemma WeekEndFacts(m: int)
    requires m % DAY_MS == 0 && GetDay(m) == 1
    ensures GetDay(m + 7 * DAY_MS - 1) == 0
    ensures DaysDiff(m, m + 7 * DAY_MS - 1) == 6
  {
    var d := m / DAY_MS;
    assert m == d * DAY_MS;
    assert m + 7 * DAY_MS - 1 == (d + 6) * DAY_MS + (DAY_MS - 1);
    DayOfTime(d + 6, DAY_MS - 1);
    DayOfTime(d, 0);
    assert (d + 4) % 7 == 1;
    assert (d + 6 + 4) % 7 == 0;
  }

  /** A Monday midnight at most six days before `x` is the start of x's week. */
  lemma {:induction false} WeekStartUnique(x: int, m: int)
    requires m % DAY_MS == 0 && GetDay(m) == 1 && m <= x < m + 7 * DAY_MS
    ensures WeekStartOf(x) == m
  {
    var w := WeekStartOf(x);
    var dm := DayOf(m);
    var dw := DayOf(w);
    assert m == dm * DAY_MS && w == dw * DAY_MS;
    assert (dm + 4) % 7 == 1 && (dw + 4) % 7 == 1;
    assert -7 < dm - dw < 7;
    assert (dm - dw) % 7 == 0;
  }

  /** Any instant of a Monday `d` has that Monday's midnight as its week start. */
  lemma MondayWeekStart(d: int, ms: int)
    requires (d + 4) % 7 == 1 && 0 <= ms < DAY_MS
    ensures WeekStartOf(d * DAY_MS + ms) == d * DAY_MS
  {
    DayOfTime(d, 0);
    WeekStartUnique(d * DAY_MS + ms, d * DAY_MS);
  }

  /** From the midnight of day `d1` to an instant of day `d2` is `d2 - d1` whole days. */
  lemma DaysDiffOfDays(d1: int, d2: int, ms: int)
    requires 0 <= ms < DAY_MS
    ensures DaysDiff(d1 * DAY_MS, d2 * DAY_MS + ms) == d2 - d1
  {
    var r := DaysDiff(d1 * DAY_MS, d2 * DAY_MS + ms);
    assert r * DAY_MS <= (d2 - d1) * DAY_MS + ms < (r + 1) * DAY_MS;
  }

  /** Taking the start of the week twice changes nothing. */
  lemma WeekStartIdempotent(x: int)
    ensures WeekStartOf(WeekStartOf(x)) == WeekStartOf(x)
  {
    var m := WeekStartOf(x);
    WeekStartUnique(m, m);
  }

  /** The source's step back to Monday from weekday `(z + 4) % 7` is DaysSinceMonday(z) days. */
  lemma MondayOffset(z: int)
    ensures (if (z + 4) % 7 == 0 then -6 else 1 - (z + 4) % 7) == -DaysSinceMonday(z)
  {
  }

  /** `startOfWeek(date)` as the source computes it, step by step on a copy of `date`. */
  method StartOfWeek(date: int) returns (d: int)
    ensures d == WeekStartOf(date)
  {
    d := date;
    var day := GetDay(d);
    var diff := if day == 0 then -6 else 1 - day;
    d := SetDate(d, GetDate(d) + diff);
    d := SetHours(d, 0, 0, 0, 0);
    SetDateThenHours(date, diff, 0, 0, 0, 0);
    MondayOffset(DayOf(date));
  }

  /** `endOfWeek(date)`: six days after the start of the week, at 23:59:59.999. */
  method EndOfWeek(date: int) returns (e: int)
    ensures e == WeekEndOf(date)
  {
    var s := StartOfWeek(date);
    e := s;
    e := SetDate(e, GetDate(s) + 6);
    e := SetHours(e, 23, 59, 59, 999);
    SetDateThenHours(s, 6, 23, 59, 59, 999);
  }

  // ----- Parsing, by cases -----

  lemma NoSeparatorInDigits(a: string)
    requires Text.AllDigits(a)
    ensures '-' !in a
  {
  }

  /** A non-empty input whose three segments are the numbers `y`, `m` and `dd` parses to noon of that date. */
  lemma ParseOfSegments(s: string, a: string, b: string, c: string, y: nat, m: nat, dd: nat)
    requires s != [] && Text.Split(s, '-') == [a, b, c]
    requires Text.SegmentNumber(a) == Some(y) && Text.SegmentNumber(b) == Some(m) && Text.SegmentNumber(c) == Some(dd)
    ensures ParseDateInput(s) == Some(LocalDateTime(y, m - 1, dd, 12, 0, 0, 0))
  {
  }

  lemma DigitSegment(a: string)
    requires Text.AllDigits(a)
    ensures Text.SegmentNumber(a) == Some(Text.DecimalValue(a))
  {
  }

  /** Three digit segments joined by '-' split back into those segments. */
  lemma SplitDigitSegments(a: string, b: string, c: string)
    requires Text.AllDigits(a) && Text.AllDigits(b) && Text.AllDigits(c)
    ensures Text.Split(a + "-" + b + "-" + c, '-') == [a, b, c]
  {
    NoSeparatorInDigits(a);
    NoSeparatorInDigits(b);
    NoSeparatorInDigits(c);
    Text.SplitThree(a, '-', b, c);
    assert a + "-" + b + "-" + c == a + ['-'] + b + ['-'] + c;
  }

  /** A non-empty input that splits into three digit segments parses to noon of the date they spell. */
  lemma ParseOfDigitSegments(s: string, a: string, b: string, c: string, y: nat, m: nat, dd: nat)
    requires Text.AllDigits(a) && Text.AllDigits(b) && Text.AllDigits(c)
    requires s != [] && Text.Split(s, '-') == [a, b, c]
    requires y == Text.DecimalValue(a) && m == Text.DecimalValue(b) && dd == Text.DecimalValue(c)
    ensures ParseDateInput(s) == Some(LocalDateTime(y, m - 1, dd, 12, 0, 0, 0))
  {
    DigitSegment(a);
    DigitSegment(b);
    DigitSegment(c);
    ParseOfSegments(s, a, b, c, y, m, dd);
  }

  /**
   * Three digit segments joined by '-', spelling the numbers `y`, `m` and
   * `dd`, parse to noon of day `dd` of month `m` (1-based) of year `y`.
   */
  lemma ParseThreeSegments(a: string, b: string, c: string, y: nat, m: nat, dd: nat)
    requires Text.AllDigits(a) && Text.AllDigits(b) && Text.AllDigits(c)
    requires y == Text.DecimalValue(a) && m == Text.DecimalValue(b) && dd == Text.DecimalValue(c)
    ensures ParseDateInput(a + "-" + b + "-" + c) == Some(LocalDateTime(y, m - 1, dd, 12, 0, 0, 0))
  {
    var input := a + "-" + b + "-" + c;
    SplitDigitSegments(a, b, c);
    assert input != [] by { assert |input| >= 2; }
    ParseOfDigitSegments(input, a, b, c, y, m, dd);
  }

  /** A constructed date at 12:00 is noon of its MakeDay. */
  lemma NoonOfDay(y: int, mi: int, d: int)
    ensures LocalDateTime(y, mi, d, 12, 0, 0, 0) == MakeDay(ConstructorYear(y), mi, d) * DAY_MS + NOON_MS
    ensures LocalDateTime(y, mi, d, 12, 0, 0, 0) % DAY_MS == NOON_MS
  {
    var k := MakeDay(ConstructorYear(y), mi, d);
    assert (k * DAY_MS + NOON_MS) % DAY_MS == NOON_MS;
  }

  /** Within a year, MakeDay of month `m` (1-based) is that month's first day plus the day number less one. */
  lemma MakeDayInYear(y: int, m: int, d: int)
    requires 1 <= m <= 12
    ensures MakeDay(y, m - 1, d) == DaysFromCivil(y, m, 1) + d - 1
  {
    assert (m - 1) / 12 == 0 && (m - 1) % 12 == m - 1;
  }

  /** Whatever date an input denotes, the parsed instant is noon of that day. */
  lemma ParseIsNoon(s: string)
    ensures ParseDateInput(s).Some? ==> ParseDateInput(s).value % DAY_MS == NOON_MS
  {
    if ParseDateInput(s).Some? {
      var parts := Text.Split(s, '-');
      var yy, mm, dd := Text.SegmentNumber(parts[0]), Text.SegmentNumber(parts[1]), Text.SegmentNumber(parts[2]);
      NoonOfDay(yy.value, mm.value - 1, dd.value);
    }
  }

  /**
   * With a month from 1 to 12, a parsed date is the first of that month of
   * the constructor's year, plus the day number less one, at noon; the day
   * number may run past the month's end.
   */
  lemma ParseMeetsCalendar(a: string, b: string, c: string, y: nat, m: nat, dd: nat)
    requires Text.AllDigits(a) && Text.AllDigits(b) && Text.AllDigits(c)
    requires y == Text.DecimalValue(a) && m == Text.DecimalValue(b) && dd == Text.DecimalValue(c)
    requires 1 <= m <= 12
    ensures ParseDateInput(a + "-" + b + "-" + c)
         == Some((DaysFromCivil(ConstructorYear(y), m, 1) + dd - 1) * DAY_MS + NOON_MS)
  {
    ParseThreeSegments(a, b, c, y, m, dd);
    NoonOfDay(y, m - 1, dd);
    MakeDayInYear(ConstructorYear(y), m, dd);
  }

  /** Empty input and input with other than three segments are rejected. */
  lemma ParseRejectsShape()
    ensures ParseDateInput("") == None
    ensures ParseDateInput("bad") == None
    ensures ParseDateInput("2025-08") == None
  {
    Text.SplitNoSeparator("bad", '-');
    Text.SplitNoSeparator("08", '-');
    Text.SplitAtSeparator("2025", '-', "08");
  }

  /** A fourth segment is rejected too. */
  lemma ParseRejectsFourSegments()
    ensures ParseDateInput("2025-08-22-01") == None
  {
    Text.SplitThree("08", '-', "22", "01");
    assert "2025-08-22-01" == "2025" + ['-'] + "08-22-01";
    Text.SplitAtSeparator("2025", '-', "08-22-01");
  }

  /** A segment that is not a number is rejected. */
  lemma ParseRejectsNonNumber()
    ensures ParseDateInput("2025-Aug-22") == None
  {
    assert "2025-Aug-22" == "2025" + "-" + "Aug" + "-" + "22";
    assert !Text.IsDigit("Aug"[0]);
    ParseRejectsMiddleSegment("2025", "Aug", "22");
  }

  /** Three segments whose middle one is not a number are rejected. */
  lemma ParseRejectsMiddleSegment(a: string, b: string, c: string)
    requires '-' !in a && '-' !in b && '-' !in c
    requires !Text.AllDigits(b)
    ensures ParseDateInput(a + "-" + b + "-" + c) == None
  {
    Text.SplitThree(a, '-', b, c);
    assert a + "-" + b + "-" + c == a + ['-'] + b + ['-'] + c;
  }

  /**
   * Empty segments count as 0, so "--" is accepted: day 0 of month index -1
   * of year 0, read as 1900, which is 1899-11-30.
   */
  lemma ParseAcceptsEmptySegments()
    ensures ParseDateInput("--") == Some(MakeDay(1899, 10, 30) * DAY_MS + NOON_MS)
  {
    assert "" + "-" + "" + "-" + "" == "--";
    ParseThreeSegments("", "", "", 0, 0, 0);
    assert ParseDateInput("--") == Some(LocalDateTime(0, -1, 0, 12, 0, 0, 0));
    DayBeforeDecember1899();
  }

  lemma DayBeforeDecember1899()
    ensures MakeDay(1900, -1, 0) == MakeDay(1899, 10, 30)
  {
    assert -1 / 12 == -1 && -1 % 12 == 11;
    assert 10 / 12 == 0 && 10 % 12 == 10;
    assert MakeDay(1900, -1, 0) == DaysFromCivil(1899, 12, 1) - 1;
    assert MakeDay(1899, 10, 30) == DaysFromCivil(1899, 11, 1) + 29;
    MonthLength(1899, 11);
  }

  lemma SampleSegments()
    ensures Text.DecimalValue("2025") == 2025
    ensures Text.DecimalValue("08") == 8
    ensures Text.DecimalValue("22") == 22
    ensures Text.DecimalValue("27") == 27
  {
    assert "2025"[..3] == "202" && "202"[..2] == "20" && "20"[..1] == "2" && "2"[..0] == "";
    assert "08"[..1] == "0" && "0"[..0] == "";
    assert "22"[..1] == "2" && "27"[..1] == "2";
  }

  /** The two dates of the sample task parse to noon of 22 and 27 August 2025. */
  lemma ParseSampleStart()
    ensures ParseDateInput("2025-08-22") == Some(LocalDateTime(2025, 7, 22, 12, 0, 0, 0))
  {
    SampleSegments();
    assert "2025-08-22" == "2025" + "-" + "08" + "-" + "22";
    ParseThreeSegments("2025", "08", "22", 2025, 8, 22);
  }

  lemma ParseSampleEnd()
    ensures ParseDateInput("2025-08-27") == Some(LocalDateTime(2025, 7, 27, 12, 0, 0, 0))
  {
    SampleSegments();
    assert "2025-08-27" == "2025" + "-" + "08" + "-" + "27";
    ParseThreeSegments("2025", "08", "27", 2025, 8, 27);
  }

  /** The day an instant falls on, for an instant given as day and time of day. */
  lemma DayOfTime(d: int, ms: int)
    requires 0 <= ms < DAY_MS
    ensures DayOf(d * DAY_MS + ms) == d
  {
  }

  /** August 2025 on the day-number line: the 1st is day 20301. */
  lemma August2025(d: int)
    ensures LocalDateTime(2025, 7, d, 12, 0, 0, 0) == (20300 + d) * DAY_MS + NOON_MS
    ensures LocalDateTime(2025, 7, d, 0, 0, 0, 0) == (20300 + d) * DAY_MS
  {
    assert MarchYearStart(2025) == 739616;
    assert DaysFromCivil(2025, 8, 1) == 20301;
  }

  /** `parseDateInput("2025-08-22")` is noon of day 20322 ... */
  lemma ParseSampleDate()
    ensures ParseDateInput("2025-08-22") == Some(20322 * DAY_MS + NOON_MS)
  {
    ParseSampleStart();
    August2025(22);
  }

  /** `parseDateInput("2025-08-27")` is noon of day 20327. */
  lemma ParseSampleEndDate()
    ensures ParseDateInput("2025-08-27") == Some(20327 * DAY_MS + NOON_MS)
  {
    ParseSampleEnd();
    August2025(27);
  }

  /** ... on which the getters give year 2025, month index 7 (August) and day 22. */
  lemma SampleDateGetters()
    ensures GetFullYear(20322 * DAY_MS + NOON_MS) == 2025
    ensures GetMonth(20322 * DAY_MS + NOON_MS) == 7
    ensures GetDate(20322 * DAY_MS + NOON_MS) == 22
  {
    DayOfTime(20322, NOON_MS);
    assert 739790 / 146097 == 5;
    assert 9305 / 36524 == 0 && 9305 / 1461 == 6 && 539 / 365 == 1;
    assert YearsOfEraDays(25) == 9131;
    assert 872 / 153 == 5;
    assert 767 / 5 == 153;
  }
}
