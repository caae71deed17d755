/** The day count of date.hpp: civil dates to days and back, with the integer conversions of the source. */
module Civil {

  // ----- C++ integers

  const UINT_RANGE := 0x1_0000_0000
  const INT_MAX := 0x7fff_ffff
  const INT_MIN := -0x8000_0000

  /** Conversion to `unsigned`. */
  function Unsigned(x: int): (u: int)
    ensures 0 <= u < UINT_RANGE && (0 <= x < UINT_RANGE ==> u == x)
  {
    if 0 <= x < UINT_RANGE then x else x % UINT_RANGE
  }

  /** Conversion to `int`. */
  function Signed(x: int): (i: int)
    ensures INT_MIN <= i <= INT_MAX && (INT_MIN <= x <= INT_MAX ==> i == x)
  {
    if INT_MIN <= x <= INT_MAX then x else (x - INT_MIN) % UINT_RANGE + INT_MIN
  }

  /** Conversion to `short`. */
  function Short(x: int): (i: int)
    ensures -0x8000 <= i <= 0x7fff && (-0x8000 <= x <= 0x7fff ==> i == x)
  {
    if -0x8000 <= x <= 0x7fff then x else (x + 0x8000) % 0x1_0000 - 0x8000
  }

  /** A conversion keeps the value modulo the size of the type. */
  lemma Conversions(x: int)
    ensures Unsigned(x) % UINT_RANGE == x % UINT_RANGE
    ensures Signed(x) % UINT_RANGE == x % UINT_RANGE
    ensures Short(x) % 0x1_0000 == x % 0x1_0000
  {
    SameRemainder(x, x / UINT_RANGE, UINT_RANGE);
    SameRemainder(x, (x - INT_MIN) / UINT_RANGE, UINT_RANGE);
    SameRemainder(x, (x + 0x8000) / 0x1_0000, 0x1_0000);
  }

  lemma SameRemainder(x: int, q: int, m: int)
    requires m > 0
    ensures (x - q * m) % m == x % m
  {
    var y, r := x - q * m, x / m;
    assert m * (r - q) == m * r - q * m;
    DivUnique(y, m, r - q);
  }

  /** Signed division truncates toward zero. */
  function Div(a: int, b: int): int
    requires b > 0
  {
    if a >= 0 then a / b else -((-a) / b)
  }

  // ----- Dates

  datatype Date = Date(year: int, month: int, day: int)

  predicate IsLeap(y: int) {
    y % 4 == 0 && (y % 100 != 0 || y % 400 == 0)
  }

  const MONTH_DAYS := [31, 28, 31, 30, 31, 30, 31, 31, 30, 31, 30, 31]

  /** year_month_day_last::day, for a valid month. */
  function LastDay(y: int, m: int): (d: int)
    requires 1 <= m <= 12
    ensures 28 <= d <= 31
  {
    if m != 2 || !IsLeap(y) then MONTH_DAYS[m - 1] else 29
  }

  /** Every value a `year` can hold; year::min() excludes the smallest. */
  predicate YearHeld(y: int) {
    -0x8000 <= y <= 0x7fff
  }

  predicate Fits(d: Date) {
    YearHeld(d.year) && 1 <= d.month <= 12 && 1 <= d.day <= LastDay(d.year, d.month)
  }

  /** year_month_day::ok */
  predicate Ok(d: Date) {
    Fits(d) && d.year != -0x8000
  }

  /** operator< */
  predicate Before(a: Date, b: Date) {
    if a.year < b.year then true
    else if a.year > b.year then false
    else if a.month < b.month then true
    else if a.month > b.month then false
    else a.day < b.day
  }

  // ----- to_days and from_days, as computed

  datatype ToParts = ToParts(era: int, yoe: int, doy: int, doe: int, days: int)

  function ToDaysParts(d: Date): ToParts {
    var y := Signed(d.year - if d.month <= 2 then 1 else 0);
    var m, day := Unsigned(d.month), Unsigned(d.day);
    var era := Div(if y >= 0 then y else y - 399, 400);
    var yoe := Unsigned(y - era * 400);
    var doy := Unsigned(Unsigned(153 * Unsigned(if m > 2 then m - 3 else m + 9) + 2) / 5 + day - 1);
    var doe := Unsigned(yoe * 365 + yoe / 4 - yoe / 100 + doy);
    ToParts(era, yoe, doy, doe, Signed(era * 146097 + Signed(doe) - 719468))
  }

  function ToDays(d: Date): int {
    ToDaysParts(d).days
  }

  datatype FromParts = FromParts(z: int, era: int, doe: int, yoe: int, y: int, doy: int, mp: int, d: int, m: int)

  function FromDaysParts(dp: int): FromParts {
    var z := Signed(dp + 719468);
    var era := Div(if z >= 0 then z else z - 146096, 146097);
    var doe := Unsigned(z - era * 146097);
    var yoe := Unsigned(doe - doe / 1460 + doe / 36524 - doe / 146096) / 365;
    var y := Signed(yoe) + era * 400;
    var doy := Unsigned(doe - Unsigned(365 * yoe + yoe / 4 - yoe / 100));
    var mp := Unsigned(5 * doy + 2) / 153;
    var d := Unsigned(doy - (153 * mp + 2) / 5 + 1);
    FromParts(z, era, doe, yoe, y, doy, mp, d, Unsigned(if mp < 10 then mp + 3 else mp - 9))
  }

  function FromDays(dp: int): Date {
    DateOfParts(FromDaysParts(dp))
  }

  function DateOfParts(p: FromParts): Date {
    Date(Short(p.y + if p.m <= 2 then 1 else 0), p.m % 256, p.d % 256)
  }

  // ----- The arithmetic behind them

  /** Days before the March year y, counted from the March year 0. */
  function YearStart(y: int): int {
    365 * y + y / 4 - y / 100 + y / 400
  }

  /** Days before the month mp of a March year. */
  function MonthStart(mp: int): int {
    (153 * mp + 2) / 5
  }

  function MarchYear(y: int, m: int): int {
    if m <= 2 then y - 1 else y
  }

  function MarchMonth(m: int): int {
    if m > 2 then m - 3 else m + 9
  }

  /** The day number of a date, in one formula without conversions. */
  function Serial(d: Date): int {
    YearStart(MarchYear(d.year, d.month)) + MonthStart(MarchMonth(d.month)) + d.day - 1 - 719468
  }

  lemma DivFloors(y: int, b: int)
    requires b > 0
    ensures Div(if y >= 0 then y else y - (b - 1), b) == y / b
  {
    if y < 0 {
      var q := y / b;
      assert b * q <= y < b * q + b;
      assert (-(y - (b - 1))) / b == -q by {
        DivUnique(-(y - (b - 1)), b, -q);
      }
    }
  }

  lemma DivUnique(a: int, b: int, q: int)
    requires b > 0 && b * q <= a < b * q + b
    ensures a / b == q
  {
    var r := a / b;
    assert r < q ==> b * (r + 1) <= b * q;
    assert r > q ==> b * r >= b * (q + 1);
  }

  lemma YearStartSplit(e: int, n: int)
    requires 0 <= n < 400
    ensures YearStart(400 * e + n) == 146097 * e + (365 * n + n / 4 - n / 100)
  {
    DivUnique(400 * e + n, 4, 100 * e + n / 4);
    DivUnique(400 * e + n, 100, 4 * e + n / 100);
    DivUnique(400 * e + n, 400, e);
  }

  lemma {:induction false} YearStartGrows(a: int, b: int)
    requires a <= b
    ensures YearStart(b) - YearStart(a) >= 365 * (b - a)
    decreases b - a
  {
    if a < b {
      YearLength(b - 1);
      YearStartGrows(a, b - 1);
    }
  }

  lemma YearLength(y: int)
    ensures YearStart(y + 1) == YearStart(y) + if IsLeap(y + 1) then 366 else 365
  {
    var q4, q100, q400 := y / 4, y / 100, y / 400;
    assert (y + 1) / 4 == if (y + 1) % 4 == 0 then q4 + 1 else q4;
    assert (y + 1) / 100 == if (y + 1) % 100 == 0 then q100 + 1 else q100;
    assert (y + 1) / 400 == if (y + 1) % 400 == 0 then q400 + 1 else q400;
  }

  /**
   to_days computes the day number of every date a `year` can hold; the intermediates are in the
   ranges that the source notes, and no conversion loses information.
   */
  lemma ToDaysIsSerial(d: Date)
    requires Fits(d)
    ensures ToDays(d) == Serial(d)
    ensures var p := ToDaysParts(d);
            && 0 <= p.yoe <= 399 && 0 <= p.doy <= 365 && 0 <= p.doe <= 146096
            && p.era * 400 + p.yoe == MarchYear(d.year, d.month)
            && p.doy == MonthStart(MarchMonth(d.month)) + d.day - 1
            && p.doe == YearStart(p.yoe) + p.doy
            && p.days == p.era * 146097 + p.doe - 719468
  {
    var y := MarchYear(d.year, d.month);
    CycleOfYear(d);
    DayOfYear(d);
    YearStartSplit(y / 400, y % 400);
    YearStartSplit(0, y % 400);
    DaysOfParts(d, ToDaysParts(d));
  }

  lemma CycleOfYear(d: Date)
    requires Fits(d)
    ensures var p, y := ToDaysParts(d), MarchYear(d.year, d.month);
            p.era == y / 400 && p.yoe == y % 400 && -83 <= p.era <= 81
  {
    DivFloors(MarchYear(d.year, d.month), 400);
  }

  lemma DaysOfParts(d: Date, p: ToParts)
    requires p == ToDaysParts(d) && -83 <= p.era <= 81 && 0 <= p.yoe <= 399 && 0 <= p.doy <= 365
    ensures p.doe == p.yoe * 365 + p.yoe / 4 - p.yoe / 100 + p.doy && p.days == p.era * 146097 + p.doe - 719468
    ensures 0 <= p.doe <= 146096
  {
  }

  lemma DayOfYear(d: Date)
    requires Fits(d)
    ensures ToDaysParts(d).doy == MonthStart(MarchMonth(d.month)) + d.day - 1
    ensures 0 <= ToDaysParts(d).doy <= 365
  {
  }

  // ----- from_days

  /** A position in the 400-year cycle as centuries, four-year blocks, years and days. */
  ghost predicate Position(doe: int, c: int, q: int, r: int, t: int) {
    && 0 <= c <= 3 && 0 <= q <= 24 && 0 <= r <= 3 && 0 <= t <= 365
    && doe == 36524 * c + 1461 * q + 365 * r + t
    && (t == 365 ==> r == 3 && (q < 24 || c == 3))
  }

  lemma PositionExists(doe: int) returns (c: int, q: int, r: int, t: int)
    requires 0 <= doe <= 146096
    ensures Position(doe, c, q, r, t)
  {
    c := if doe / 36524 < 3 then doe / 36524 else 3;
    var inCentury := doe - 36524 * c;
    q := inCentury / 1461;
    var inBlock := inCentury - 1461 * q;
    r := if inBlock / 365 < 3 then inBlock / 365 else 3;
    t := inBlock - 365 * r;
  }

  /** The year-of-era formula of from_days finds the year of the cycle. */
  lemma YearOfEra(doe: int, c: int, q: int, r: int, t: int)
    requires Position(doe, c, q, r, t)
    ensures (doe - doe / 1460 + doe / 36524 - doe / 146096) / 365 == 100 * c + 4 * q + r
    ensures 0 <= doe - doe / 1460 + doe / 36524 - doe / 146096
    ensures YearStart(100 * c + 4 * q + r) + t == doe
  {
    var extra := if 24 * c + q + 365 * r + t >= 1460 then 1 else 0;
    assert doe == 1460 * (25 * c + q) + (24 * c + q + 365 * r + t);
    assert doe / 1460 == 25 * c + q + extra;
    if 1461 * q + 365 * r + t == 36524 {
      assert doe == 146096;
    } else {
      DivUnique(doe, 36524, c);
      DivUnique(doe, 146096, 0);
    }
    assert (extra == 1 ==> t >= 1) && (t == 365 ==> extra == 1);
    var y := 100 * c + 4 * q + r;
    DivUnique(y, 4, 25 * c + q);
    DivUnique(y, 100, c);
    DivUnique(y, 400, 0);
  }

  /** A day of a March year has the month and day that the month formula gives. */
  lemma MonthOfYear(doy: int)
    requires 0 <= doy <= 365
    ensures var mp := (5 * doy + 2) / 153;
            0 <= mp <= 11 && MonthStart(mp) <= doy < MonthStart(mp + 1)
  {
  }

  const MIN_DAY := -12687428
  const MAX_DAY := 11248737

  /** The first day of the smallest year and the last day of the largest, year::min() and year::max(). */
  lemma DayRange()
    ensures Serial(Date(-32767, 1, 1)) == MIN_DAY && Serial(Date(32767, 12, 31)) == MAX_DAY
  {
  }

  /** A month and day of a March year, of a given length, are a month and day of the calendar. */
  lemma MonthDayValid(y: int, t: int, mp: int)
    requires 0 <= t < (if IsLeap(y + 1) then 366 else 365)
    requires 0 <= mp <= 11 && MonthStart(mp) <= t < MonthStart(mp + 1)
    ensures var m := if mp < 10 then mp + 3 else mp - 9;
            var year := y + if m <= 2 then 1 else 0;
            && 1 <= m <= 12 && 1 <= t - MonthStart(mp) + 1 <= LastDay(year, m)
            && MarchYear(year, m) == y && MarchMonth(m) == mp
  {
  }

  /** The March year of a day, by the year-of-era formula, and its place in that year. */
  lemma YearAndDay(z: int) returns (y: int, t: int)
    ensures CycleSplit(z, y, t) && 0 <= t < if IsLeap(y + 1) then 366 else 365
  {
    var e, doe := (z + 719468) / 146097, (z + 719468) % 146097;
    var c, q, r;
    c, q, r, t := PositionExists(doe);
    YearOfEra(doe, c, q, r, t);
    var yoe := 100 * c + 4 * q + r;
    YearStartSplit(0, yoe);
    LastDayOfYear(e, yoe, c, q, r, t);
    y := 400 * e + yoe;
  }

  lemma SplitIsSerial(z: int, y: int, t: int)
    requires CycleSplit(z, y, t)
    ensures z + 719468 == YearStart(y) + t
  {
    var e := (z + 719468) / 146097;
    YearStartSplit(e, y - 400 * e);
  }

  /** y and t are what the year-of-era formula makes of z. */
  predicate CycleSplit(z: int, y: int, t: int) {
    var e, doe := (z + 719468) / 146097, (z + 719468) % 146097;
    var yoe := (doe - doe / 1460 + doe / 36524 - doe / 146096) / 365;
    && 0 <= doe - doe / 1460 + doe / 36524 - doe / 146096
    && 0 <= yoe <= 399 && y == 400 * e + yoe
    && doe == 365 * yoe + yoe / 4 - yoe / 100 + t
  }

  /** Without conversions: the date whose day number is z. */
  lemma DateOfSerial(z: int) returns (d: Date, y: int, t: int)
    ensures 0 <= t <= 365 && CycleSplit(z, y, t)
    ensures var mp := (5 * t + 2) / 153;
            var m := if mp < 10 then mp + 3 else mp - 9;
            d == Date(y + (if m <= 2 then 1 else 0), m, t - MonthStart(mp) + 1)
    ensures 1 <= d.month <= 12 && 1 <= d.day <= LastDay(d.year, d.month) && Serial(d) == z
  {
    y, t := YearAndDay(z);
    SplitIsSerial(z, y, t);
    MonthOfYear(t);
    var mp := (5 * t + 2) / 153;
    MonthDayValid(y, t, mp);
    var m := if mp < 10 then mp + 3 else mp - 9;
    d := Date(y + (if m <= 2 then 1 else 0), m, t - MonthStart(mp) + 1);
  }

  /** A 366th day occurs in leap years only. */
  lemma LastDayOfYear(e: int, yoe: int, c: int, q: int, r: int, t: int)
    requires 0 <= c <= 3 && 0 <= q <= 24 && 0 <= r <= 3 && 0 <= t <= 365 && yoe == 100 * c + 4 * q + r
    requires t == 365 ==> r == 3 && (q < 24 || c == 3)
    ensures t < if IsLeap(400 * e + yoe + 1) then 366 else 365
  {
    if t == 365 {
      var n := 400 * e + yoe + 1;
      DivUnique(n, 4, 100 * e + 25 * c + q + 1);
      if q == 24 {
        DivUnique(n, 400, e + 1);
      } else {
        DivUnique(n, 100, 4 * e + c);
      }
    }
  }

  lemma SerialWithinYear(d: Date)
    requires 1 <= d.month <= 12 && 1 <= d.day <= LastDay(d.year, d.month)
    ensures Serial(Date(d.year, 1, 1)) <= Serial(d) <= Serial(Date(d.year, 12, 31))
    ensures Serial(Date(d.year + 1, 1, 1)) == Serial(Date(d.year, 12, 31)) + 1
  {
    YearLength(d.year - 1);
  }

  lemma YearInRange(d: Date)
    requires 1 <= d.month <= 12 && 1 <= d.day <= LastDay(d.year, d.month) && MIN_DAY <= Serial(d) <= MAX_DAY
    ensures -32767 <= d.year <= 32767
  {
    DayRange();
    SerialWithinYear(d);
    if d.year < -32767 {
      YearStartGrows(d.year, -32768);
    } else if d.year > 32767 {
      YearStartGrows(32767, d.year - 1);
    }
  }

  /**
   from_days inverts to_days on every day of the years the library allows, and gives a valid date;
   the intermediates are in the ranges the source notes, and no conversion loses information.
   */
  lemma ToDaysOfFromDays(z: int)
    requires MIN_DAY <= z <= MAX_DAY
    ensures Ok(FromDays(z)) && ToDays(FromDays(z)) == z == Serial(FromDays(z))
    ensures var p := FromDaysParts(z);
            && 0 <= p.doe <= 146096 && 0 <= p.yoe <= 399 && 0 <= p.doy <= 365
            && 0 <= p.mp <= 11 && 1 <= p.d <= 31 && 1 <= p.m <= 12
            && FromDays(z) == Date(p.y + (if p.m <= 2 then 1 else 0), p.m, p.d)
  {
    var d, y, t := DateOfSerial(z);
    YearInRange(d);
    FromDaysPartsAre(z, y, t);
    PartsGiveDate(FromDaysParts(z), d, y, t);
    ToDaysIsSerial(d);
  }

  lemma PartsGiveDate(p: FromParts, d: Date, y: int, t: int)
    requires -32767 <= d.year <= 32767 && 1 <= d.month <= 12 && 1 <= d.day <= 31
    requires p.y == y && p.mp == (5 * t + 2) / 153
    requires p.d == t - MonthStart(p.mp) + 1 && p.m == if p.mp < 10 then p.mp + 3 else p.mp - 9
    requires d == Date(y + (if p.m <= 2 then 1 else 0), p.m, p.d)
    ensures DateOfParts(p) == d
  {
  }

  lemma FromDaysPartsAre(z: int, y: int, t: int)
    requires MIN_DAY <= z <= MAX_DAY && 0 <= t <= 365
    requires CycleSplit(z, y, t)
    ensures var p := FromDaysParts(z);
            && 0 <= p.doe <= 146096 && 0 <= p.yoe <= 399
            && p.y == y && p.doy == t && p.mp == (5 * t + 2) / 153
            && p.d == t - MonthStart(p.mp) + 1 && p.m == if p.mp < 10 then p.mp + 3 else p.mp - 9
  {
    var p := FromDaysParts(z);
    DivFloors(z + 719468, 146097);
    assert p.era == (z + 719468) / 146097 && p.doe == (z + 719468) % 146097;
    assert p.doy == t;
    MonthOfYear(t);
  }
}
