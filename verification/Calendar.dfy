/**
 Timestamps and calendar dates: the table-driven conversions in both directions, and the day of the week.
 */
module Calendar {
  // ---------------------------------------------------------------- the calendar

  /** Leap years of the Gregorian calendar. */
  predicate Gregorian(year: int) {
    (year % 4 == 0 && year % 100 != 0) || year % 400 == 0
  }

  function DaysIn(month: int, leap: bool): int {
    if month == 2 then if leap then 29 else 28
    else if month == 4 || month == 6 || month == 9 || month == 11 then 30 else 31
  }

  function DaysBeforeMonth(month: int, leap: bool): int {
    if month <= 1 then 0 else DaysBeforeMonth(month - 1, leap) + DaysIn(month - 1, leap)
  }

  function YearLength(year: int): int {
    if Gregorian(year) then 366 else 365
  }

  /** Days from 1 January 1970 to 1 January of the year. */
  function DaysBeforeYear(year: int): int
    decreases if year >= 1970 then year - 1970 else 1970 - year
  {
    if year == 1970 then 0
    else if year > 1970 then DaysBeforeYear(year - 1) + YearLength(year - 1)
    else DaysBeforeYear(year + 1) - YearLength(year)
  }

  /** A day and time of day, months counted from 1. */
  datatype Date = Date(year: int, month: int, day: int, hour: int, minute: int, second: int)
  {
    predicate Valid() {
      && 1 <= month <= 12 && 1 <= day <= DaysIn(month, Gregorian(year))
      && 0 <= hour < 24 && 0 <= minute < 60 && 0 <= second < 60
    }

    /** Days since 1 January 1970; for a date that does not exist, those counted on from the start of its month. */
    function DayNumber(): int {
      DaysBeforeYear(year) + DaysBeforeMonth(month, Gregorian(year)) + day - 1
    }

    function TimeOfDay(): int {
      3600 * hour + 60 * minute + second
    }

    /** Seconds since the start of 1970. */
    function Seconds(): int {
      86400 * DayNumber() + TimeOfDay()
    }
  }

  /** Sunday is 1; 1 January 1970 was a Thursday. */
  function Weekday(dayNumber: int): int {
    (dayNumber + 4) % 7 + 1
  }

  /** Thirty days hath September, ... */
  function LastDay(year: int, month: int): int {
    if month == 2 then if (year % 4 == 0 && year % 100 != 0) || year % 400 == 0 then 29 else 28
    else if month in [4, 6, 9, 11] then 30 else 31
  }

  /** One second later, as a clock and a calendar on the wall have it. */
  function Tick(d: Date): Date {
    if d.second < 59 then d.(second := d.second + 1)
    else if d.minute < 59 then d.(minute := d.minute + 1, second := 0)
    else if d.hour < 23 then d.(hour := d.hour + 1, minute := 0, second := 0)
    else if d.day < LastDay(d.year, d.month) then d.(day := d.day + 1, hour := 0, minute := 0, second := 0)
    else if d.month < 12 then Date(d.year, d.month + 1, 1, 0, 0, 0)
    else Date(d.year + 1, 1, 1, 0, 0, 0)
  }

  lemma LastDayIs(year: int, month: int)
    ensures LastDay(year, month) == DaysIn(month, Gregorian(year))
  {
  }

  lemma NextMonth(month: int, leap: bool)
    ensures month >= 1 ==> DaysBeforeMonth(month + 1, leap) == DaysBeforeMonth(month, leap) + DaysIn(month, leap)
    ensures DaysBeforeMonth(1, leap) == 0
  {
  }

  lemma NewYear(year: int)
    ensures DaysBeforeYear(year + 1) ==
            DaysBeforeYear(year) + DaysBeforeMonth(12, Gregorian(year)) + DaysIn(12, Gregorian(year))
  {
    hide DaysBeforeMonth;
    NextYear(year);
    WholeYear(Gregorian(year));
    NextMonth(12, Gregorian(year));
  }

  /** Seconds count the ticks since the start of 1970. */
  lemma TickCounts(d: Date)
    requires d.Valid()
    ensures Tick(d).Valid() && Tick(d).Seconds() == d.Seconds() + 1
  {
    hide DaysBeforeYear, DaysBeforeMonth, Gregorian, LastDay;
    LastDayIs(d.year, d.month);
    NextMonth(d.month, Gregorian(d.year));
    NextMonth(d.month, Gregorian(d.year + 1));
    NewYear(d.year);
  }

  /** The count starts with 1970. */
  lemma Epoch(d: Date)
    requires d == Date(1970, 1, 1, 0, 0, 0)
    ensures d.Valid() && d.Seconds() == 0
  {
    hide DaysBeforeYear, DaysBeforeMonth, Gregorian, Date.Seconds;
    StartOfCount(d.year);
    NextMonth(d.month, Gregorian(d.year));
    SecondsOfParts(d, DaysBeforeYear(d.year), DaysBeforeMonth(d.month, Gregorian(d.year)));
  }

  lemma SecondsOfParts(d: Date, years: int, months: int)
    requires years == DaysBeforeYear(d.year) && months == DaysBeforeMonth(d.month, Gregorian(d.year))
    ensures d.Seconds() == 86400 * (years + months + d.day - 1) + 3600 * d.hour + 60 * d.minute + d.second
  {
    hide DaysBeforeYear, DaysBeforeMonth, Gregorian;
  }

  lemma StartOfCount(year: int)
    requires year == 1970
    ensures DaysBeforeYear(year) == 0
  {
  }

  /** The days of the week follow one another, from a Thursday on 1 January 1970. */
  lemma WeekdaysFollow(dayNumber: int)
    ensures Weekday(0) == 5 && Weekday(dayNumber + 1) == Weekday(dayNumber) % 7 + 1
    ensures 1 <= Weekday(dayNumber) <= 7
  {
  }

  lemma {:induction false} MonthsAdd(m: int, n: int, leap: bool)
    requires 1 <= m < n <= 13
    ensures DaysBeforeMonth(m, leap) + DaysIn(m, leap) <= DaysBeforeMonth(n, leap)
  {
    if m < n - 1 {
      MonthsAdd(m, n - 1, leap);
    }
  }

  lemma {:induction false} YearsAdd(y: int, z: int)
    requires y < z
    ensures DaysBeforeYear(y) + YearLength(y) <= DaysBeforeYear(z)
    decreases z - y
  {
    NextYear(z - 1);
    if y < z - 1 {
      YearsAdd(y, z - 1);
    }
  }

  lemma NextYear(y: int)
    ensures DaysBeforeYear(y + 1) == DaysBeforeYear(y) + YearLength(y)
  {
  }

  lemma YearHoldsMonths(year: int, month: int)
    requires 1 <= month <= 12
    ensures DaysBeforeMonth(month, Gregorian(year)) + DaysIn(month, Gregorian(year)) <= YearLength(year)
    ensures DaysBeforeMonth(month, Gregorian(year)) >= 0
  {
    var leap := Gregorian(year);
    WholeYear(leap);
    if month < 12 {
      MonthsAdd(month, 13, leap);
    }
    if month > 1 {
      MonthsAdd(1, month, leap);
    }
  }

  lemma WholeYear(leap: bool)
    ensures DaysBeforeMonth(13, leap) == if leap then 366 else 365
  {
    var extra := if leap then 1 else 0;
    assert DaysBeforeMonth(1, leap) == 0 && DaysBeforeMonth(2, leap) == 31;
    assert DaysBeforeMonth(3, leap) == 59 + extra;
    assert DaysBeforeMonth(5, leap) == 120 + extra;
    assert DaysBeforeMonth(7, leap) == 181 + extra;
    assert DaysBeforeMonth(9, leap) == 243 + extra;
    assert DaysBeforeMonth(11, leap) == 304 + extra;
  }

  /** Two dates never share a second: the fields are determined by the timestamp. */
  lemma DateUnique(a: Date, b: Date)
    requires a.Valid() && b.Valid() && a.Seconds() == b.Seconds()
    ensures a == b
  {
    assert a.DayNumber() == b.DayNumber() && a.TimeOfDay() == b.TimeOfDay();
    YearHoldsMonths(a.year, a.month);
    YearHoldsMonths(b.year, b.month);
    if a.year < b.year {
      YearsAdd(a.year, b.year);
    } else if b.year < a.year {
      YearsAdd(b.year, a.year);
    } else if a.month < b.month {
      MonthsAdd(a.month, b.month, Gregorian(a.year));
    } else if b.month < a.month {
      MonthsAdd(b.month, a.month, Gregorian(a.year));
    }
  }

  // ---------------------------------------------------------------- the tables

  /** First seconds of the years from 1901, the first entry cut off at the least 32-bit timestamp. */
  const YEARS_1901: seq<int> := [
    -2147483648, -2145916800, -2114380800, -2082844800, -2051222400, -2019686400, -1988150400, -1956614400,
    -1924992000, -1893456000, -1861920000, -1830384000, -1798761600, -1767225600, -1735689600, -1704153600,
    -1672531200, -1640995200, -1609459200, -1577923200, -1546300800, -1514764800, -1483228800, -1451692800,
    -1420070400, -1388534400, -1356998400, -1325462400, -1293840000, -1262304000, -1230768000, -1199232000,
    -1167609600, -1136073600, -1104537600
  ]
  const YEARS_1936: seq<int> := [
    -1073001600, -1041379200, -1009843200, -978307200, -946771200, -915148800, -883612800, -852076800,
    -820540800, -788918400, -757382400, -725846400, -694310400, -662688000, -631152000, -599616000,
    -568080000, -536457600, -504921600, -473385600, -441849600, -410227200, -378691200, -347155200,
    -315619200, -283996800, -252460800, -220924800, -189388800, -157766400, -126230400, -94694400,
    -63158400, -31536000, 0
  ]
  const YEARS_1971: seq<int> := [
    31536000, 63072000, 94694400, 126230400, 157766400, 189302400, 220924800, 252460800,
    283996800, 315532800, 347155200, 378691200, 410227200, 441763200, 473385600, 504921600,
    536457600, 567993600, 599616000, 631152000, 662688000, 694224000, 725846400, 757382400,
    788918400, 820454400, 852076800, 883612800, 915148800, 946684800, 978307200, 1009843200,
    1041379200, 1072915200, 1104537600
  ]
  const YEARS_2006: seq<int> := [
    1136073600, 1167609600, 1199145600, 1230768000, 1262304000, 1293840000, 1325376000, 1356998400,
    1388534400, 1420070400, 1451606400, 1483228800, 1514764800, 1546300800, 1577836800, 1609459200,
    1640995200, 1672531200, 1704067200, 1735689600, 1767225600, 1798761600, 1830297600, 1861920000,
    1893456000, 1924992000, 1956528000, 1988150400, 2019686400, 2051222400, 2082758400, 2114380800,
    2145916800
  ]

  const YEARS: seq<int> := YEARS_1901 + YEARS_1936 + YEARS_1971 + YEARS_2006

  const S32_MAX: int := 0x7fff_ffff

  /** What the first table entry lies after the start of 1901. */
  const CUT_OFF: int := 29969152

  const MONTHS_COMMON: seq<int> := [
    2678400, 5097600, 7776000, 10368000, 13046400, 15638400,
    18316800, 20995200, 23587200, 26265600, 28857600, S32_MAX
  ]
  const MONTHS_LEAP: seq<int> := [
    2678400, 5184000, 7862400, 10454400, 13132800, 15724800,
    18403200, 21081600, 23673600, 26352000, 28944000, S32_MAX
  ]

  const DOW_ROW_0: seq<int> := [0, 1, 2, 3, 5, 6, 0]
  const DOW_ROW_1: seq<int> := [1, 3, 4, 5, 6, 1, 2]
  const DOW_ROW_2: seq<int> := [3, 4, 6, 0, 1, 2, 4]
  const DOW_ROW_3: seq<int> := [5, 6, 0, 2, 3, 4, 5]
  const DOW_COMMON: seq<int> := DOW_ROW_0 + DOW_ROW_1 + DOW_ROW_2 + DOW_ROW_3

  const DOW_LEAP: seq<int> := [6, 4, 2, 0, 5, 3, 1]
  const DOW_MONTH: seq<int> := [0, 3, 3, 6, 1, 4, 6, 2, 5, 0, 3, 5]
  const DAYS_LEAP: seq<int> := [31, 29, 31, 30, 31, 30, 31, 31, 30, 31, 30, 31]

  /** Days before a year between 1901 and 2100 in closed form: every fourth year is a leap year. */
  function Linear(year: int): int {
    365 * (year - 1970) + (year - 1969) / 4
  }

  /** Of the century years only 2000 comes up, and it is a leap year. */
  lemma EveryFourth(year: int)
    requires 1901 <= year <= 2099
    ensures Gregorian(year) <==> year % 4 == 0
  {
    if year % 100 == 0 {
      assert year / 100 == 20;
    }
  }

  lemma LinearStep(year: int)
    requires 1901 <= year <= 2099
    ensures Linear(year + 1) == Linear(year) + YearLength(year)
  {
    EveryFourth(year);
    FourthStep(year - 1969);
  }

  lemma FourthStep(x: int)
    ensures (x + 1) / 4 == x / 4 + if x % 4 == 3 then 1 else 0
  {
  }

  lemma {:induction false} LinearYears(year: int)
    requires 1901 <= year <= 2100
    ensures DaysBeforeYear(year) == Linear(year)
    decreases if year >= 1970 then year - 1970 else 1970 - year
  {
    hide Linear, YearLength;
    LinearAt1970();
    if year > 1970 {
      LinearYears(year - 1);
      LinearStep(year - 1);
    } else if year < 1970 {
      LinearYears(year + 1);
      LinearStep(year);
    }
  }

  lemma LinearAt1970()
    ensures Linear(1970) == 0
  {
  }

  lemma FirstYears(i: nat)
    requires 1 <= i < 35
    ensures YEARS_1901[i] == 86400 * Linear(1901 + i)
  {
  }

  lemma SecondYears(i: nat)
    requires i < 35
    ensures YEARS_1936[i] == 86400 * Linear(1936 + i)
  {
  }

  lemma ThirdYears(i: nat)
    requires i < 35
    ensures YEARS_1971[i] == 86400 * Linear(1971 + i)
  {
  }

  lemma LastYears(i: nat)
    requires i < 33
    ensures YEARS_2006[i] == 86400 * Linear(2006 + i)
  {
  }

  lemma TableSizes()
    ensures |YEARS_1901| == |YEARS_1936| == |YEARS_1971| == 35 && |YEARS_2006| == 33 && |YEARS| == 138
    ensures YEARS[0] == -0x8000_0000
  {
  }

  /** Every entry of the year table but the first is the first second of its year. */
  lemma YearTable(i: nat)
    requires 1 <= i < 138
    ensures |YEARS| == 138 && YEARS[i] == 86400 * DaysBeforeYear(1901 + i)
  {
    hide YEARS_1901, YEARS_1936, YEARS_1971, YEARS_2006, DaysBeforeYear, Linear;
    TableSizes();
    LinearYears(1901 + i);
    if i < 35 {
      FirstYears(i);
    } else if i < 70 {
      SecondYears(i - 35);
    } else if i < 105 {
      ThirdYears(i - 70);
    } else {
      LastYears(i - 105);
    }
  }

  function Months(leap: bool): seq<int> {
    if leap then MONTHS_LEAP else MONTHS_COMMON
  }

  /** The month tables hold the first seconds of February to December. */
  lemma {:induction false} MonthTable(k: nat, leap: bool)
    requires k < 11
    ensures |Months(leap)| == 12 && Months(leap)[k] == 86400 * DaysBeforeMonth(k + 2, leap)
  {
    if k == 0 {
      assert DaysBeforeMonth(1, leap) == 0;
    } else {
      MonthTable(k - 1, leap);
    }
  }

  // ---------------------------------------------------------------- the conversions

  predicate Timestamp(t: int) {
    -0x8000_0000 <= t <= S32_MAX
  }

  /** The bits of a signed 32-bit result. */
  function Wrap32(x: int): int {
    (x + 0x8000_0000) % 0x1_0000_0000 - 0x8000_0000
  }

  /** is_leap_year */
  predicate IsLeapYear(year: int)
    ensures IsLeapYear(year) <==> (year % 4 == 0 && year % 100 != 0) || year % 400 == 0
    ensures IsLeapYear(year) <==> Gregorian(year)
  {
    FourHundredth(year);
    !(year % 4 != 0 || (year % 100 == 0 && year % 400 != 0))
  }

  lemma FourHundredth(year: int)
    ensures year % 400 == 0 ==> year % 4 == 0 && year % 100 == 0
  {
    if year % 400 == 0 {
      var q := year / 400;
      assert year == 4 * (100 * q) && year == 100 * (4 * q);
    }
  }

  function Pow2(k: nat): (p: nat)
    ensures p >= 1
  {
    if k == 0 then 1 else 2 * Pow2(k - 1)
  }

  /** Division by subtracting a unit shifted left by `top`, `top` - 1, ... and 0 places. */
  method Peel(t: nat, unit: nat, top: nat) returns (count: nat, rest: nat)
    requires unit > 0 && t < unit * Pow2(top + 1)
    ensures t == unit * count + rest && rest < unit
  {
    var step: int := top;
    count, rest := 0, t;
    while step >= 0
      invariant -1 <= step <= top
      invariant t == unit * count + rest && rest < unit * Pow2(step + 1)
    {
      ghost var half := unit * Pow2(step);
      Halves(unit, Pow2(step), count);
      if rest >= unit * Pow2(step) {
        rest := rest - unit * Pow2(step);
        count := count + Pow2(step);
      }
      step := step - 1;
    }
  }

  lemma Halves(unit: nat, p: nat, count: nat)
    ensures unit * (2 * p) == 2 * (unit * p)
    ensures unit * (count + p) == unit * count + unit * p
  {
  }

  /** day_of_week_unchecked: Sunday is 1. */
  method DayOfWeekUnchecked(year: int, month: int, day: int) returns (dow: int)
    requires 1900 <= year <= 2099 && 1 <= month <= 12 && 1 <= day <= DaysIn(month, Gregorian(year))
    ensures dow == Weekday(DaysBeforeYear(year) + DaysBeforeMonth(month, Gregorian(year)) + day - 1)
  {
    hide Gregorian, Drift, DaysBeforeYear, DaysBeforeMonth, DaysIn, DOW_COMMON, DOW_LEAP, DOW_MONTH, Weekday;
    var a := if year >= 2000 then 6 else 0;
    var b := if year >= 2000 then year - 2000 else year - 1900;
    if b >= 56 {
      b := b - 56;
    }
    if b >= 28 {
      b := b - 28;
    }
    ghost var base := a;
    Reduced(year, b);
    LeapAt1900(year);
    CommonEntry(b);
    MonthEntry(month, Gregorian(year));
    ShortMonth(month, Gregorian(year));
    if year != 1900 && year % 4 == 0 && month < 3 {
      LeapEntry(b);
      a := a + DOW_LEAP[b / 4];
    } else {
      a := a + DOW_COMMON[b];
    }
    a := a + DOW_MONTH[month - 1] + day;
    WeekdaySum(year, month, day, base, b + b / 4, a);
    WeekdayIs(DaysBeforeYear(year) + DaysBeforeMonth(month, Gregorian(year)) + day - 1);
    dow := LessSevens(a) + 1;
  }

  lemma ShortMonth(month: int, leap: bool)
    ensures DaysIn(month, leap) <= 31
  {
  }

  lemma WeekdayIs(n: int)
    ensures Weekday(n) == (n + 4) % 7 + 1
  {
  }

  /** The last three subtractions. */
  function LessSevens(a: int): (r: int)
    requires 0 <= a < 56
    ensures r == a % 7
  {
    var x := if a >= 28 then a - 28 else a;
    var y := if x >= 14 then x - 14 else x;
    if y >= 7 then y - 7 else y
  }

  /** How far the years since 1900 have moved the weekday on. */
  function Drift(year: int): int {
    year - 1900 + (year - 1900) / 4
  }

  /** Weekdays repeat after 28 years, and from 1900 to 2000 they move on by six. */
  lemma Reduced(year: int, b: int)
    requires 1900 <= year <= 2099
    requires var c := if year >= 2000 then year - 2000 else year - 1900;
             var d := if c >= 56 then c - 56 else c;
             b == if d >= 28 then d - 28 else d
    ensures 0 <= b < 28 && b % 4 == year % 4
    ensures (Drift(year) - (if year >= 2000 then 6 else 0) - (b + b / 4)) % 7 == 0
  {
    var c := if year >= 2000 then year - 2000 else year - 1900;
    var j := if c >= 84 then 3 else if c >= 56 then 2 else if c >= 28 then 1 else 0;
    assert c == b + 28 * j;
    Quarter(b, 7 * j);
    Quarter(c, 25);
    Sevens(5 * j);
    Sevens(5 * j + 17);
  }

  lemma Quarter(x: int, k: int)
    ensures (x + 4 * k) / 4 == x / 4 + k
  {
  }

  lemma LeapAt1900(year: int)
    requires 1900 <= year <= 2099
    ensures Gregorian(year) <==> year != 1900 && year % 4 == 0
  {
    if year > 1900 {
      EveryFourth(year);
    }
  }

  /** Seven years on in the table of common years. */
  lemma RowEntry(row: seq<int>, q: int, r: nat)
    requires r < 7
    requires (q == 0 && row == DOW_ROW_0) || (q == 1 && row == DOW_ROW_1) || (q == 2 && row == DOW_ROW_2)
             || (q == 3 && row == DOW_ROW_3)
    ensures |row| == 7 && row[r] == (7 * q + r + (7 * q + r) / 4) % 7
  {
  }

  lemma RowLengths()
    ensures |DOW_ROW_0| == |DOW_ROW_1| == |DOW_ROW_2| == |DOW_ROW_3| == 7
  {
  }

  lemma CommonEntry(b: nat)
    requires b < 28
    ensures |DOW_COMMON| == 28 && DOW_COMMON[b] == (b + b / 4) % 7
  {
    hide DOW_ROW_0, DOW_ROW_1, DOW_ROW_2, DOW_ROW_3;
    RowLengths();
    if b < 7 {
      RowEntry(DOW_ROW_0, 0, b);
    } else if b < 14 {
      RowEntry(DOW_ROW_1, 1, b - 7);
    } else if b < 21 {
      RowEntry(DOW_ROW_2, 2, b - 14);
    } else {
      RowEntry(DOW_ROW_3, 3, b - 21);
    }
  }

  lemma LeapEntry(b: nat)
    requires b < 28 && b % 4 == 0
    ensures |DOW_LEAP| == 7 && DOW_LEAP[b / 4] == (b + b / 4 + 6) % 7
  {
  }

  lemma MonthEntry(month: int, leap: bool)
    requires 1 <= month <= 12
    ensures |DOW_MONTH| == 12 && 0 <= DOW_MONTH[month - 1] < 7
    ensures (DOW_MONTH[month - 1] - DaysBeforeMonth(month, leap) + if leap && month >= 3 then 1 else 0) % 7 == 0
  {
    if month >= 2 {
      MonthTable(month - 2, leap);
    }
  }

  /** Days before a year against the weekday drift: whole weeks apart from leap years, which add their day later. */
  lemma YearDrift(year: int)
    requires 1900 <= year <= 2099
    ensures DaysBeforeYear(year) - Drift(year) - 3 - (if Gregorian(year) then 0 else 1)
            == 7 * (52 * (year - 1900) - 3653)
  {
    hide DaysBeforeYear, Gregorian;
    LeapAt1900(year);
    Quarters(year - 1900);
    if year == 1900 {
      LinearYears(1901);
      NextYear(1900);
    } else {
      LinearYears(year);
    }
  }

  lemma Quarters(e: int)
    ensures (e - 69) / 4 == e / 4 - 18 + if e % 4 == 0 then 0 else 1
  {
  }

  /** The sum of the three table entries and the day, against the number of days since 1970. */
  lemma WeekdaySum(year: int, month: int, day: int, base: int, x: int, a: int)
    requires 1900 <= year <= 2099 && 1 <= month <= 12 && |DOW_MONTH| == 12
    requires (Drift(year) - base - x) % 7 == 0
    requires a == base + (x + if Gregorian(year) && month < 3 then 6 else 0) % 7 + DOW_MONTH[month - 1] + day
    ensures a % 7 == (DaysBeforeYear(year) + DaysBeforeMonth(month, Gregorian(year)) + day - 1 + 4) % 7
  {
    hide DaysBeforeYear, DaysBeforeMonth, Drift, Gregorian, DOW_MONTH;
    YearDrift(year);
    MonthEntry(month, Gregorian(year));
    Sevens(52 * (year - 1900) - 3653);
    var leap, before := Gregorian(year), DaysBeforeMonth(month, Gregorian(year));
    Sum7(Drift(year), base, x, DOW_MONTH[month - 1], before, DaysBeforeYear(year), day,
         if leap && month < 3 then 6 else 0, if leap && month >= 3 then 1 else 0, if leap then 0 else 1);
  }

  lemma Sevens(k: int)
    ensures 7 * k % 7 == 0
  {
  }

  lemma Sum7(drift: int, base: int, x: int, entry: int, before: int, days: int, day: int,
             early: int, late: int, plain: int)
    requires (drift - base - x) % 7 == 0 && (entry - before + late) % 7 == 0 && (days - drift - 3 - plain) % 7 == 0
    requires early == 6 * (1 - late - plain)
    ensures (base + (x + early) % 7 + entry + day) % 7 == (days + before + day + 3) % 7
  {
    var i, j, k := (drift - base - x) / 7, (entry - before + late) / 7, (days - drift - 3 - plain) / 7;
    var q := (x + early) / 7;
    Multiple7(days + before + day + 3, i + k - j + q + late + plain, base + (x + early) % 7 + entry + day);
  }

  lemma Multiple7(u: int, k: int, v: int)
    requires u == v + 7 * k
    ensures u % 7 == v % 7
  {
  }

  lemma LeapDays(month: int)
    requires 1 <= month <= 12
    ensures |DAYS_LEAP| == 12 && DAYS_LEAP[month - 1] == DaysIn(month, true)
  {
  }

  /** day_of_week: -1 exactly for what is no date of the years 1900 to 2099. */
  method DayOfWeek(year: int, month: int, day: int) returns (dow: int)
    ensures dow == -1 <==> !(1900 <= year <= 2099 && Date(year, month, day, 0, 0, 0).Valid())
    ensures dow != -1 ==> Date(year, month, day, 0, 0, 0).Valid()
                          && dow == Weekday(Date(year, month, day, 0, 0, 0).DayNumber())
  {
    hide Gregorian, DAYS_LEAP, DaysBeforeYear, DaysBeforeMonth, Weekday, IsLeapYear;
    if year < 1900 || year > 2099 || month < 1 || month > 12 || day < 1 {
      return -1;
    }
    LeapDays(month);
    WeekdayIs(Date(year, month, day, 0, 0, 0).DayNumber());
    if day > DAYS_LEAP[month - 1] || (month == 2 && day == 29 && !IsLeapYear(year)) {
      return -1;
    }
    dow := DayOfWeekUnchecked(year, month, day);
  }

  /** A read of the year table; just behind its end lies whatever the linker put there. */
  function YearAt(i: nat, beyond: int): int
    requires i <= |YEARS|
  {
    if i == |YEARS| then beyond else YEARS[i]
  }

  /**
   The index of the year: binary search from 1970 with a first step of 32 years, finished off linearly. In 2038 the
   last loop reads behind the table, but what it finds there does not matter.
   */
  method FindYear(t: int, beyond: int) returns (i: nat)
    requires Timestamp(t)
    ensures i < |YEARS| == 138 && YEARS[i] <= t && (i < 137 ==> t < YEARS[i + 1])
  {
    hide YEARS;
    TableSizes();
    var step: nat;
    i, step := 69, 32;
    while step != 0
      invariant step == 32 || step == 16 || step == 8 || step == 4 || step == 2 || step == 1 || step == 0
      invariant 69 - 64 <= i - 2 * step && i + 2 * step <= 69 + 64
    {
      if YEARS[i] > t {
        i := i - step;
      } else if YEARS[i + 1] <= t {
        i := i + step;
      } else {
        break;
      }
      step := step / 2;
    }
    while YEARS[i] > t && i != 0
      invariant i < 138
      decreases i
    {
      i := i - 1;
    }
    while t >= YearAt(i + 1, beyond) && i < 137
      invariant i < 138 && YEARS[i] <= t
      decreases 138 - i
    {
      i := i + 1;
    }
  }

  /** The month of a second of the year, and what is left of it. */
  method FindMonth(t0: int, leap: bool) returns (month: nat, t: int)
    requires 0 <= t0 < 86400 * if leap then 366 else 365
    ensures month < 12 && t0 == 86400 * DaysBeforeMonth(month + 1, leap) + t
    ensures 0 <= t < 86400 * DaysIn(month + 1, leap)
  {
    hide DaysBeforeMonth, MONTHS_COMMON, MONTHS_LEAP;
    LastMonth(leap);
    month, t := 0, t0;
    while Months(leap)[month] <= t
      invariant month < 12 && (month > 0 ==> Months(leap)[month - 1] <= t)
      decreases 12 - month
    {
      month := month + 1;
    }
    if month != 0 {
      t := t - Months(leap)[month - 1];
      MonthTable(month - 1, leap);
    }
    if month < 11 {
      MonthTable(month, leap);
    } else {
      WholeYear(leap);
    }
    MonthStep(month + 1, leap);
  }

  lemma LastMonth(leap: bool)
    ensures |Months(leap)| == 12 && Months(leap)[11] == S32_MAX && DaysBeforeMonth(1, leap) == 0
  {
  }

  lemma NoMonth(month: int, leap: bool)
    ensures month <= 1 ==> DaysBeforeMonth(month, leap) == 0
  {
  }

  lemma MonthStep(month: nat, leap: bool)
    requires month >= 1
    ensures DaysBeforeMonth(month + 1, leap) == DaysBeforeMonth(month, leap) + DaysIn(month, leap)
  {
  }

  /** Day of the month and time of day of a second of the month. */
  method SplitDay(t: nat, days: nat) returns (day: int, hour: int, minute: int, second: int)
    requires t < 86400 * days && days <= 31
    ensures t == 86400 * (day - 1) + 3600 * hour + 60 * minute + second
    ensures 1 <= day <= days && 0 <= hour < 24 && 0 <= minute < 60 && 0 <= second < 60
  {
    assert Pow2(5) == 32 && Pow2(6) == 64;
    var count, rest := Peel(t, 86400, 4);
    day := 1 + count;
    hour, rest := Peel(rest, 3600, 4);
    minute, rest := Peel(rest, 60, 5);
    second := rest;
  }

  /** A broken-down time in memory; the month is stored from 0 by one conversion and read from 1 by the other. */
  class RtcTime {
    var year: int
    var month: int
    var day: int
    var hour: int
    var minute: int
    var second: int
    var dayOfWeek: int

    /** The date meant when months are counted from `first`. */
    function At(first: int): Date
      reads this
    {
      Date(year, month - first + 1, day, hour, minute, second)
    }

    /** timestamp_to_rtc_time */
    method FromTimestamp(t0: int, beyond: int)
      requires Timestamp(t0)
      modifies this
      ensures var d := Date(year, month + 1, day, hour, minute, second); d.Valid() && d.Seconds() == t0
      ensures dayOfWeek == Weekday(t0 / 86400)
      ensures 1901 <= year <= 2038 && (year == 1901 <==> t0 < -2145916800)
    {
      hide Date.Seconds, Date.DayNumber, Gregorian, DaysBeforeYear, DaysBeforeMonth, YEARS, Weekday;
      SecondYear();
      var i := FindYear(t0, beyond);
      year := i + 1901;
      var t := t0 - YEARS[i];
      if i == 0 {
        t := t + 29969152;
      }
      InYear(t0, i, t);
      var leap := (i + 1) % 4 == 0;
      month, t := FindMonth(t, leap);
      day, hour, minute, second := SplitDay(t, DaysIn(month + 1, leap));
      dayOfWeek := DayOfWeekUnchecked(year, month + 1, day);
      Assembled(At(0), t0);
    }

    /** rtc_time_to_timestamp, which reads the month as counted from 1. */
    method ToTimestamp() returns (ok: bool, ts: int)
      requires 1901 <= year <= 2038 && month <= 12
      ensures ok <==>
              && !(year <= 1901 && month <= 12 && day <= 13 && hour <= 20 && minute <= 45 && second <= 52)
              && !(year >= 2038 && month >= 1 && day >= 19 && hour >= 3 && minute >= 14 && second >= 7)
      ensures var d := Date(year, month, day, hour, minute, second); ok <==> !Early(d) && !Late(d)
      ensures ok ==> ts == Wrap32(Date(year, month, day, hour, minute, second).Seconds()
                                  + if year == 1901 then 29969152 else 0)
    {
      hide Date.Seconds, DaysBeforeYear, DaysBeforeMonth, YEARS, Gregorian, Wrap32;
      ok, ts := false, 0;
      if year <= 1901 && month <= 12 && day <= 13 && hour <= 20 && minute <= 45 && second <= 52 {
        return;
      }
      if year >= 2038 && month >= 1 && day >= 19 && hour >= 3 && minute >= 14 && second >= 7 {
        return;
      }
      ts := TableSeconds(At(1));
      ok, ts := true, Wrap32(ts);
    }
  }

  /** The sum over the tables, before it is cut to 32 bits. */
  method TableSeconds(d: Date) returns (ts: int)
    requires 1901 <= d.year <= 2038 && d.month <= 12
    ensures ts == d.Seconds() + if d.year == 1901 then CUT_OFF else 0
  {
    hide DaysBeforeYear, DaysBeforeMonth, YEARS, Months, Gregorian, IsLeapYear;
    YearEntry(d.year);
    ts := YEARS[d.year - 1901];
    LastMonth(Gregorian(d.year));
    NoMonth(d.month, Gregorian(d.year));
    if d.month > 1 {
      MonthTable(d.month - 2, Gregorian(d.year));
      ts := ts + Months(IsLeapYear(d.year))[d.month - 2];
    }
    ts := ts + 86400 * (d.day - 1) + 3600 * d.hour + 60 * d.minute + d.second;
  }

  /** The dates that rtc_time_to_timestamp refuses at either end. */
  predicate Early(d: Date) {
    d.year <= 1901 && d.month <= 12 && d.day <= 13 && d.hour <= 20 && d.minute <= 45 && d.second <= 52
  }

  predicate Late(d: Date) {
    d.year >= 2038 && d.month >= 1 && d.day >= 19 && d.hour >= 3 && d.minute >= 14 && d.second >= 7
  }

  lemma YearEntry(year: int)
    requires 1901 <= year <= 2038
    ensures |YEARS| == 138
    ensures YEARS[year - 1901] == 86400 * DaysBeforeYear(year) + if year == 1901 then CUT_OFF else 0
  {
    TableSizes();
    if year == 1901 {
      LinearYears(1901);
    } else {
      YearTable(year - 1901);
    }
  }

  lemma SecondYear()
    ensures |YEARS| == 138 && YEARS[1] == -2145916800
    ensures forall i :: 1 < i < 138 ==> YEARS[i] > YEARS[1]
  {
    YearTable(1);
    LinearYears(1902);
    forall i | 1 < i < 138 ensures YEARS[i] > YEARS[1] {
      YearTable(i);
      LinearYears(1901 + i);
    }
  }

  /**
   The timestamp of a date of 1901 to 2038 comes out right if and only if the year is after 1901 and the second is
   before the last one that 32 bits hold. In 1901 the cut-off first entry of the table shifts the result; the very
   last second is refused; and of what lies beyond it only some dates are refused, the others wrap around.
   */
  lemma ToTimestampExact(d: Date)
    requires d.Valid() && 1901 <= d.year <= 2038
    ensures !Early(d) && !Late(d) && Wrap32(d.Seconds() + if d.year == 1901 then CUT_OFF else 0) == d.Seconds() <==>
            d.year >= 1902 && d.Seconds() < S32_MAX
  {
    hide DaysBeforeYear, DaysBeforeMonth, Gregorian, Date.Seconds, Linear, Late, Wrap32, YearLength;
    YearLengthIs(d.year);
    SecondsInYear(d);
    YearBounds(d.year);
    Wraps(d.Seconds() + if d.year == 1901 then CUT_OFF else 0);
    if d.year == 2038 {
      LateIn2038(d);
    } else {
      OnlyLate(d);
    }
  }

  lemma YearLengthIs(year: int)
    ensures 365 <= YearLength(year) <= 366
  {
  }

  /** Where the seconds of a year lie against the ends of 32 bits. */
  lemma YearBounds(year: int)
    requires 1901 <= year <= 2038
    ensures var start := 86400 * DaysBeforeYear(year);
            && (year == 1901 ==> start == -2177452800)
            && (year >= 1902 ==> start >= -2145916800)
            && (year <= 2037 ==> start + 86400 * 366 < 0x7fff_ffff)
            && (year == 2038 ==> start == 2145916800)
  {
    hide DaysBeforeYear;
    LinearYears(year);
  }

  lemma Wraps(x: int)
    ensures -0x8000_0000 <= x <= S32_MAX ==> Wrap32(x) == x
    ensures -0x8000_0000 <= Wrap32(x) <= S32_MAX && (Wrap32(x) - x) % 0x1_0000_0000 == 0
  {
  }

  lemma OnlyLate(d: Date)
    ensures d.year < 2038 ==> !Late(d)
  {
  }

  /** The last day of 1901 comes back shifted. */
  lemma Shifted1901()
    ensures var d := Date(1901, 12, 31, 0, 0, 0);
            d.Valid() && !Early(d) && !Late(d) && Wrap32(d.Seconds() + CUT_OFF) != d.Seconds()
  {
    hide DaysBeforeYear, DaysBeforeMonth, Wrap32, Date.Seconds;
    ToTimestampExact(Date(1901, 12, 31, 0, 0, 0));
  }

  lemma January2038(d: Date)
    requires d.year == 2038 && d.month == 1
    ensures d.Seconds() == 2145916800 + 86400 * (d.day - 1) + 3600 * d.hour + 60 * d.minute + d.second
  {
    hide DaysBeforeYear, Gregorian;
    YearBounds(2038);
  }

  /** The last second that 32 bits hold is refused. */
  lemma LastSecondRefused()
    ensures var d := Date(2038, 1, 19, 3, 14, 7); d.Valid() && d.Seconds() == S32_MAX && Late(d)
  {
    hide DaysBeforeYear, DaysBeforeMonth, Gregorian, Date.Seconds;
    January2038(Date(2038, 1, 19, 3, 14, 7));
  }

  /** The next day is accepted and comes back negative. */
  lemma NextDayWraps()
    ensures var d := Date(2038, 1, 20, 0, 0, 0); d.Valid() && !Early(d) && !Late(d) && Wrap32(d.Seconds()) < 0
  {
    hide DaysBeforeYear, DaysBeforeMonth, Gregorian, Date.Seconds, Date.DayNumber, Wrap32, YearLength;
    January2038(Date(2038, 1, 20, 0, 0, 0));
    Beyond(Date(2038, 1, 20, 0, 0, 0).Seconds());
  }

  lemma Beyond(x: int)
    ensures S32_MAX < x < 0x1_0000_0000 ==> Wrap32(x) < 0
  {
  }

  /** Any date that denotes a second from 1902 to 2037 converts back to that second. */
  lemma RoundTrip(t: int, d: Date)
    requires -2145916800 <= t < 2145916800 && d.Valid() && d.Seconds() == t
    ensures 1902 <= d.year <= 2037 && !Early(d) && !Late(d) && Wrap32(d.Seconds()) == t
  {
    hide DaysBeforeYear, DaysBeforeMonth, Gregorian, Date.Seconds;
    SecondsInYear(d);
    LinearYears(1902);
    LinearYears(2038);
    if d.year < 1902 {
      YearsAdd(d.year, 1902);
    }
    if d.year > 2038 {
      YearsAdd(2038, d.year);
    }
    ToTimestampExact(d);
  }

  lemma SecondsInYear(d: Date)
    requires d.Valid()
    ensures var start := 86400 * DaysBeforeYear(d.year); start <= d.Seconds() < start + 86400 * YearLength(d.year)
    ensures d.month >= 2 ==> d.Seconds() >= 86400 * DaysBeforeYear(d.year) + 2678400
    ensures d.month == 1 ==> d.Seconds() == 86400 * (DaysBeforeYear(d.year) + d.day - 1) + d.TimeOfDay()
  {
    YearHoldsMonths(d.year, d.month);
    if d.month >= 2 {
      MonthsAdd(1, d.month, Gregorian(d.year));
    }
  }

  /** Within 2038 the last representable second is the first one refused. */
  lemma LateIn2038(d: Date)
    requires d.Valid() && d.year == 2038
    ensures d.Seconds() < S32_MAX ==> !Late(d)
    ensures d.Seconds() == S32_MAX ==> Late(d)
  {
    hide DaysBeforeYear, DaysBeforeMonth, Gregorian, Date.Seconds;
    SecondsInYear(d);
    YearBounds(2038);
  }

  /** The second of the year found from the table. */
  lemma InYear(t0: int, i: nat, t: int)
    requires Timestamp(t0) && i < |YEARS| == 138 && YEARS[i] <= t0 && (i < 137 ==> t0 < YEARS[i + 1])
    requires t == t0 - YEARS[i] + if i == 0 then 29969152 else 0
    ensures t0 == 86400 * DaysBeforeYear(1901 + i) + t && 0 <= t < 86400 * YearLength(1901 + i)
    ensures Gregorian(1901 + i) <==> (i + 1) % 4 == 0
  {
    hide YEARS, Gregorian, DaysBeforeYear;
    TableSizes();
    if i < 137 {
      YearTable(i + 1);
    } else {
      LinearYears(2039);
    }
    if i > 0 {
      YearTable(i);
    } else {
      LinearYears(1901);
    }
    EveryFourth(1901 + i);
    NextYear(1901 + i);
  }

  lemma Assembled(d: Date, t: int)
    requires d.Valid()
    requires t == 86400 * (DaysBeforeYear(d.year) + DaysBeforeMonth(d.month, Gregorian(d.year)) + d.day - 1)
                  + d.TimeOfDay()
    ensures d.Seconds() == t
    ensures Weekday(t / 86400) ==
            Weekday(DaysBeforeYear(d.year) + DaysBeforeMonth(d.month, Gregorian(d.year)) + d.day - 1)
  {
    hide DaysBeforeYear, DaysBeforeMonth, Gregorian, Weekday, DaysIn;
    WholeDays(DaysBeforeYear(d.year) + DaysBeforeMonth(d.month, Gregorian(d.year)) + d.day - 1, d.TimeOfDay());
  }

  lemma WholeDays(n: int, rest: int)
    requires 0 <= rest < 86400
    ensures (86400 * n + rest) / 86400 == n
  {
  }
}
