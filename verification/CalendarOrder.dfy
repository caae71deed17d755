/** Weekday arithmetic. */
module CivilWeekday {
  import opened Civil

  /** weekday::weekday_from_days, with its unsigned arithmetic. */
  function WeekdayFromDays(z: int): int {
    var u := Unsigned(z);
    if z >= -4 then Unsigned(u + 4) % 7 else u % 7
  }

  /** For every 32-bit day count, despite the wraparound, the weekday is (z + 4) mod 7. */
  lemma WeekdayIsModulo(z: int)
    requires INT_MIN <= z <= INT_MAX
    ensures WeekdayFromDays(z) == (z + 4) % 7
  {
    if z < -4 {
      DivUnique(z, UINT_RANGE, -1);
      DivUnique(z + UINT_RANGE, 7, 613566756 + (z + 4) / 7);
    }
  }

  /** weekday - weekday, a number of days. */
  function WeekdayMinus(x: int, y: int): int {
    var wdu := x - y;
    var wk := Div(if wdu >= 0 then wdu else wdu - 6, 7);
    wdu - wk * 7
  }

  /** weekday + days */
  function WeekdayPlus(x: int, d: int): int {
    var wdu := x + d;
    var wk := Div(if wdu >= 0 then wdu else wdu - 6, 7);
    var w := Unsigned(wdu - wk * 7);
    if w == 7 then 0 else w
  }

  lemma WeekdayArithmetic(x: int, y: int, d: int)
    requires 0 <= x <= 6 && 0 <= y <= 6
    ensures WeekdayMinus(x, y) == (x - y) % 7
    ensures WeekdayPlus(x, d) == (x + d) % 7
    ensures WeekdayPlus(y, WeekdayMinus(x, y)) == x
  {
    DivFloors(x - y, 7);
    DivFloors(x + d, 7);
    DivFloors(y + (x - y) % 7, 7);
  }
}

/** Order, uniqueness and succession of civil dates; month arithmetic. */
module CivilOrder {
  import opened Civil
  import opened CivilWeekday

  lemma NextMonth(y: int, m: int)
    requires 1 <= m <= 11
    ensures Serial(Date(y, m, LastDay(y, m))) + 1 == Serial(Date(y, m + 1, 1))
  {
    YearLength(y - 1);
  }

  lemma {:induction false} MonthsOrdered(y: int, a: int, b: int)
    requires 1 <= a < b <= 12
    ensures Serial(Date(y, a, LastDay(y, a))) < Serial(Date(y, b, 1))
    decreases b
  {
    NextMonth(y, b - 1);
    if a < b - 1 {
      MonthsOrdered(y, a, b - 1);
    }
  }

  lemma YearsOrdered(a: int, b: int)
    requires a < b
    ensures Serial(Date(a, 12, 31)) < Serial(Date(b, 1, 1))
  {
    YearStartGrows(a, b - 1);
  }

  lemma SerialOrdered(a: Date, b: Date)
    requires 1 <= a.month <= 12 && 1 <= a.day <= LastDay(a.year, a.month)
    requires 1 <= b.month <= 12 && 1 <= b.day <= LastDay(b.year, b.month)
    requires Before(a, b)
    ensures Serial(a) < Serial(b)
  {
    if a.year < b.year {
      SerialWithinYear(a);
      SerialWithinYear(b);
      YearsOrdered(a.year, b.year);
    } else if a.month < b.month {
      MonthsOrdered(a.year, a.month, b.month);
    }
  }

  /** operator< on valid dates is the order of their day numbers, and equality their equality. */
  lemma OrderIsDayOrder(a: Date, b: Date)
    requires Fits(a) && Fits(b)
    ensures Before(a, b) <==> Serial(a) < Serial(b)
    ensures a == b <==> Serial(a) == Serial(b)
  {
    if Before(a, b) {
      SerialOrdered(a, b);
    } else if Before(b, a) {
      SerialOrdered(b, a);
    } else {
      assert a == b;
    }
  }

  lemma SerialInRange(d: Date)
    requires Ok(d)
    ensures MIN_DAY <= Serial(d) <= MAX_DAY
  {
    DayRange();
    OrderIsDayOrder(d, Date(-32767, 1, 1));
    OrderIsDayOrder(Date(32767, 12, 31), d);
  }

  // ----- The conversions and weekday operations together

  /** What the other calendar types are built from. */
  datatype Calendar = Calendar(
    toDays: Date -> int, fromDays: int -> Date, weekday: int -> int, weekdayMinus: (int, int) -> int)
  {
    /**
     toDays is the day number of every date a `year` can hold, fromDays its inverse on every day of the
     valid years, whose first three days after the last give a wrapped year; weekdays are days modulo 7,
     for every 32-bit day count.
     */
    ghost predicate Exact() {
      && (forall d: Date | Fits(d) :: toDays(d) == Serial(d))
      && (forall z: int | MIN_DAY <= z <= MAX_DAY :: Ok(fromDays(z)) && Serial(fromDays(z)) == z)
      && (forall z: int | MAX_DAY < z <= MAX_DAY + 3 :: fromDays(z).year == -0x8000)
      && (forall z: int | INT_MIN <= z <= INT_MAX :: weekday(z) == (z + 4) % 7)
      && (forall x: int, y: int | 0 <= x <= 6 && 0 <= y <= 6 :: weekdayMinus(x, y) == (x - y) % 7)
    }
  }

  const LIBRARY := Calendar(ToDays, FromDays, WeekdayFromDays, WeekdayMinus)

  lemma YearWraps(z: int)
    requires MAX_DAY < z <= MAX_DAY + 3
    ensures FromDays(z).year == -0x8000
  {
    var p := FromDaysParts(z);
    assert p.era == 81 && p.doe == z - 11114389;
    assert p.yoe == 367 && p.doy == z - MAX_DAY + 305;
    assert p.mp == 10;
  }

  lemma LibraryIsExact()
    ensures LIBRARY.Exact()
  {
    forall d: Date | Fits(d)
      ensures LIBRARY.toDays(d) == Serial(d)
    {
      ToDaysIsSerial(d);
    }
    forall z: int | MIN_DAY <= z <= MAX_DAY
      ensures Ok(LIBRARY.fromDays(z)) && Serial(LIBRARY.fromDays(z)) == z
    {
      ToDaysOfFromDays(z);
    }
    forall z: int | MAX_DAY < z <= MAX_DAY + 3
      ensures LIBRARY.fromDays(z).year == -0x8000
    {
      YearWraps(z);
    }
    forall z: int | INT_MIN <= z <= INT_MAX
      ensures LIBRARY.weekday(z) == (z + 4) % 7
    {
      WeekdayIsModulo(z);
    }
    forall x: int, y: int | 0 <= x <= 6 && 0 <= y <= 6
      ensures LIBRARY.weekdayMinus(x, y) == (x - y) % 7
    {
      WeekdayArithmetic(x, y, 0);
    }
  }

  /** Of exact conversions, from_days inverts to_days on every valid date. */
  lemma FromDaysOfToDays(c: Calendar, d: Date)
    requires c.Exact() && Ok(d)
    ensures MIN_DAY <= c.toDays(d) <= MAX_DAY && c.fromDays(c.toDays(d)) == d
  {
    SerialInRange(d);
    OrderIsDayOrder(c.fromDays(c.toDays(d)), d);
  }

  /** The round trip of the library's own conversions. */
  lemma LibraryFromDaysOfToDays(d: Date)
    requires Ok(d)
    ensures FromDays(ToDays(d)) == d
  {
    LibraryIsExact();
    FromDaysOfToDays(LIBRARY, d);
  }

  /** Day 0 is January 1st, 1970, a Thursday; the day before is day -1, and the next leap day is day 789. */
  lemma Epoch(d: Date, z: int)
    requires (d == Date(1970, 1, 1) && z == 0) || (d == Date(1969, 12, 31) && z == -1) || (d == Date(1972, 2, 29) && z == 789)
    ensures ToDays(d) == z && FromDays(z) == d && WeekdayFromDays(z) == (z + 4) % 7
  {
    EpochSerial(d, z);
    ToDaysIsSerial(d);
    LibraryFromDaysOfToDays(d);
    WeekdayIsModulo(z);
  }

  lemma EpochSerial(d: Date, z: int)
    requires (d == Date(1970, 1, 1) && z == 0) || (d == Date(1969, 12, 31) && z == -1) || (d == Date(1972, 2, 29) && z == 789)
    ensures Ok(d) && Serial(d) == z
  {
  }

  // ----- Months

  datatype YearMonth = YearMonth(year: int, month: int)

  /** year_month + months */
  function AddMonths(ym: YearMonth, dm: int): YearMonth {
    var dmi := ym.month - 1 + dm;
    var dy := Div(if dmi >= 0 then dmi else dmi - 11, 12);
    YearMonth(Short(ym.year + dy), Unsigned(dmi - dy * 12 + 1) % 256)
  }

  predicate MonthOk(ym: YearMonth) {
    YearHeld(ym.year) && 1 <= ym.month <= 12
  }

  function MonthCount(ym: YearMonth): int {
    12 * ym.year + ym.month - 1
  }

  /** As long as the year stays representable, adding months adds to the month count and keeps the month valid. */
  lemma AddMonthsCounts(ym: YearMonth, dm: int)
    requires MonthOk(ym) && YearHeld((MonthCount(ym) + dm) / 12)
    ensures MonthOk(AddMonths(ym, dm)) && MonthCount(AddMonths(ym, dm)) == MonthCount(ym) + dm
  {
    var dmi := ym.month - 1 + dm;
    DivFloors(dmi, 12);
    DivUnique(MonthCount(ym) + dm, 12, ym.year + dmi / 12);
  }

  /** Adding months in two parts is adding them at once. */
  lemma AddMonthsComposes(ym: YearMonth, a: int, b: int)
    requires MonthOk(ym) && YearHeld((MonthCount(ym) + a) / 12) && YearHeld((MonthCount(ym) + a + b) / 12)
    ensures AddMonths(AddMonths(ym, a), b) == AddMonths(ym, a + b)
  {
    AddMonthsCounts(ym, a);
    AddMonthsCounts(AddMonths(ym, a), b);
    AddMonthsCounts(ym, a + b);
  }

  // ----- Succession

  /** The next calendar day, by last-day-of-month and `year_month + months{1}`. */
  function Next(d: Date): Date
    requires 1 <= d.month <= 12
  {
    if d.day < LastDay(d.year, d.month) then d.(day := d.day + 1)
    else
      var ym := AddMonths(YearMonth(d.year, d.month), 1);
      Date(ym.year, ym.month, 1)
  }

  lemma NextDay(d: Date)
    requires Ok(d) && d != Date(32767, 12, 31)
    ensures Ok(Next(d)) && Serial(Next(d)) == Serial(d) + 1
  {
    if d.day == LastDay(d.year, d.month) {
      var ym := YearMonth(d.year, d.month);
      AddMonthsCounts(ym, 1);
      if d.month < 12 {
        assert AddMonths(ym, 1) == YearMonth(d.year, d.month + 1);
        NextMonth(d.year, d.month);
      } else {
        assert AddMonths(ym, 1) == YearMonth(d.year + 1, 1);
        SerialWithinYear(d);
      }
    }
  }

  /** The day after z is the next calendar day of the day z. */
  lemma Succession(c: Calendar, z: int)
    requires c.Exact() && MIN_DAY <= z < MAX_DAY
    ensures c.fromDays(z + 1) == Next(c.fromDays(z))
  {
    DayRange();
    NextDay(c.fromDays(z));
    OrderIsDayOrder(c.fromDays(z + 1), Next(c.fromDays(z)));
  }
}

/** Weekdays, indexed weekdays and ISO week dates. */
module CivilWeeks {
  import opened Civil
  import opened CivilWeekday
  import opened CivilOrder

  // ----- Indexed weekdays

  datatype IndexedWeekday = IndexedWeekday(year: int, month: int, weekday: int, index: int)

  function ToIndexed(c: Calendar, z: int): IndexedWeekday {
    var d := c.fromDays(z);
    IndexedWeekday(d.year, d.month, c.weekday(z), Unsigned(d.day - 1) / 7 + 1)
  }

  function IndexedToDays(c: Calendar, w: IndexedWeekday): int {
    var d := c.toDays(Date(w.year, w.month, 1));
    d + (c.weekdayMinus(w.weekday, c.weekday(d)) + (w.index - 1) * 7)
  }

  /** year_month_weekday::ok */
  predicate IndexedOk(c: Calendar, w: IndexedWeekday) {
    if !(YearHeld(w.year) && w.year != -0x8000 && 1 <= w.month <= 12 && 0 <= w.weekday <= 6 && w.index >= 1) then false
    else if w.index <= 4 then true
    else
      var d2 := c.weekdayMinus(w.weekday, c.weekday(c.toDays(Date(w.year, w.month, 1)))) + ((w.index - 1) * 7 + 1);
      Unsigned(d2) <= LastDay(w.year, w.month)
  }

  lemma SameMonth(d: Date)
    ensures Serial(d) == Serial(d.(day := 1)) + d.day - 1
  {
  }

  /** The first of a day's month, and the days between. */
  lemma FirstOfMonth(c: Calendar, d: Date) returns (z1: int)
    requires c.Exact() && Ok(d)
    ensures z1 == c.toDays(d.(day := 1)) && MIN_DAY <= z1 <= MAX_DAY
    ensures c.toDays(d) == z1 + d.day - 1 && c.fromDays(z1 + d.day - 1) == d
  {
    z1 := c.toDays(d.(day := 1));
    SameMonth(d);
    FromDaysOfToDays(c, d);
    SerialInRange(d.(day := 1));
  }

  lemma FromDaysKeeps(c: Calendar, z: int)
    requires c.Exact() && MIN_DAY <= z <= MAX_DAY
    ensures Ok(c.fromDays(z)) && c.toDays(c.fromDays(z)) == z
  {
  }

  /** The weekday gap from the first of a month, in days. */
  lemma GapFromFirst(c: Calendar, z1: int, n: int)
    requires c.Exact() && MIN_DAY <= z1 <= MAX_DAY && 0 <= n <= 30
    ensures c.weekdayMinus(c.weekday(z1 + n), c.weekday(z1)) == n % 7 && 0 <= c.weekday(z1 + n) <= 6
  {
    ModuloGap(z1 + 4, n);
  }

  lemma ModuloGap(a: int, n: int)
    ensures ((a + n) % 7 - a % 7) % 7 == n % 7
  {
    DivUnique((a + n) % 7 - a % 7, 7, n / 7 + a / 7 - (a + n) / 7);
  }

  lemma ModuloBack(a: int, w: int)
    requires 0 <= w <= 6
    ensures (a + (w - a % 7) % 7) % 7 == w
  {
    var k := (w - a % 7) / 7;
    DivUnique(a + (w - a % 7) % 7, 7, a / 7 - k);
  }

  /** Every day has an indexed weekday form, which is valid, has index 1 to 5, and converts back to the day. */
  lemma IndexedRoundTrip(c: Calendar, z: int)
    requires c.Exact() && MIN_DAY <= z <= MAX_DAY
    ensures var w := ToIndexed(c, z);
            1 <= w.index <= 5 && IndexedOk(c, w) && IndexedToDays(c, w) == z
  {
    var d := c.fromDays(z);
    FromDaysKeeps(c, z);
    var z1 := FirstOfMonth(c, d);
    GapFromFirst(c, z1, d.day - 1);
  }

  /** Conversely every valid indexed weekday is the form of the day it converts to; the index has four bits. */
  lemma IndexedRoundTripBack(c: Calendar, w: IndexedWeekday)
    requires c.Exact() && IndexedOk(c, w) && w.index <= 15
    ensures ToIndexed(c, IndexedToDays(c, w)) == w
  {
    var n, z := IndexedDay(c, w);
    assert Unsigned(n) / 7 + 1 == w.index;
  }

  /** The day of an indexed weekday lies n days into its month. */
  lemma IndexedDay(c: Calendar, w: IndexedWeekday) returns (n: int, z: int)
    requires c.Exact() && IndexedOk(c, w) && w.index <= 15
    ensures 0 <= n <= 30 && n / 7 == w.index - 1 && z == IndexedToDays(c, w)
    ensures c.fromDays(z) == Date(w.year, w.month, 1 + n) && c.weekday(z) == w.weekday
  {
    var z0 := FirstOfMonth(c, Date(w.year, w.month, 1));
    var gap := GapToWeekday(c, z0, w.weekday);
    IndexedFits(c, w, gap);
    n := gap + (w.index - 1) * 7;
    z := z0 + n;
    WeekLater(c, z0, gap, w.index - 1);
    DaysIntoMonth(c, w.year, w.month, z0, n);
  }

  lemma IndexedFits(c: Calendar, w: IndexedWeekday, gap: int)
    requires IndexedOk(c, w) && w.index <= 15 && 0 <= gap <= 6
    requires gap == c.weekdayMinus(w.weekday, c.weekday(c.toDays(Date(w.year, w.month, 1))))
    ensures 1 <= w.index <= 5 && Ok(Date(w.year, w.month, 1 + gap + (w.index - 1) * 7))
  {
  }

  lemma DaysIntoMonth(c: Calendar, y: int, m: int, z0: int, n: int)
    requires c.Exact() && Ok(Date(y, m, 1 + n)) && z0 == c.toDays(Date(y, m, 1))
    ensures c.fromDays(z0 + n) == Date(y, m, 1 + n)
  {
    var z1 := FirstOfMonth(c, Date(y, m, 1 + n));
  }

  lemma GapToWeekday(c: Calendar, z: int, wd: int) returns (gap: int)
    requires c.Exact() && MIN_DAY <= z <= MAX_DAY && 0 <= wd <= 6
    ensures gap == c.weekdayMinus(wd, c.weekday(z)) && 0 <= gap <= 6 && (z + gap + 4) % 7 == wd
  {
    gap := c.weekdayMinus(wd, c.weekday(z));
    ModuloBack(z + 4, wd);
  }

  lemma WeekLater(c: Calendar, z: int, gap: int, k: int)
    requires c.Exact() && MIN_DAY <= z <= MAX_DAY && 0 <= gap <= 6 && 0 <= k <= 4
    ensures c.weekday(z + gap + k * 7) == (z + gap + 4) % 7
  {
    DivUnique(z + gap + k * 7 + 4, 7, (z + gap + 4) / 7 + k);
  }

  // ----- ISO week dates

  const MONDAY := 1
  const THURSDAY := 4

  /** year_month_weekday_last::to_days */
  function LastWeekday(c: Calendar, y: int, m: int, wd: int): int
    requires 1 <= m <= 12
  {
    var d := c.toDays(Date(y, m, LastDay(y, m)));
    d - c.weekdayMinus(c.weekday(d), wd)
  }

  /** The Monday after the last Thursday of the December before the year y. */
  function IsoStart(c: Calendar, y: int): int {
    LastWeekday(c, Short(y - 1), 12, THURSDAY) + c.weekdayMinus(MONDAY, THURSDAY)
  }

  /** %G */
  function IsoYear(c: Calendar, ld: int): int {
    var y := c.fromDays(ld + 3).year;
    if ld < IsoStart(c, y) then Short(y - 1) else y
  }

  /** %V */
  function IsoWeek(c: Calendar, ld: int): int {
    var y := c.fromDays(ld + 3).year;
    var st := IsoStart(c, y);
    Div(ld - (if ld < st then IsoStart(c, Short(y - 1)) else st), 7) + 1
  }

  /** The day that the parser makes of a week year, a week number and a weekday. */
  function IsoParse(c: Calendar, g: int, v: int, wd: int): int {
    LastWeekday(c, Short(g - 1), 12, THURSDAY) + c.weekdayMinus(MONDAY, THURSDAY) + 7 * (v - 1) + c.weekdayMinus(wd, MONDAY)
  }

  function NewYear(y: int): int {
    Serial(Date(y, 1, 1))
  }

  lemma NewYears(y: int)
    ensures Serial(Date(y - 1, 12, 31)) == NewYear(y) - 1
    ensures NewYear(y) + 365 <= NewYear(y + 1) <= NewYear(y) + 366
  {
    SerialWithinYear(Date(y - 1, 12, 31));
    YearLength(y - 1);
  }

  /** The first week starts on a Monday, at most three days from New Year. */
  lemma IsoStartNearNewYear(c: Calendar, y: int)
    requires c.Exact() && -32767 <= y <= 32767
    ensures NewYear(y) - 3 <= IsoStart(c, y) <= NewYear(y) + 3 && (IsoStart(c, y) + 4) % 7 == MONDAY
  {
    var z := NewYearsEve(c, y);
    assert IsoStart(c, y) == z - c.weekdayMinus(c.weekday(z), THURSDAY) + c.weekdayMinus(MONDAY, THURSDAY);
    StartArithmetic(c, z);
  }

  lemma NewYearsEve(c: Calendar, y: int) returns (z: int)
    requires c.Exact() && -32767 <= y <= 32767
    ensures z == c.toDays(Date(Short(y - 1), 12, 31)) == NewYear(y) - 1 && MIN_DAY - 1 <= z < MAX_DAY
  {
    z := c.toDays(Date(y - 1, 12, 31));
    NewYears(y);
    SerialInRange(Date(y, 1, 1));
  }

  lemma StartArithmetic(c: Calendar, z: int)
    requires c.Exact() && MIN_DAY - 1 <= z <= MAX_DAY
    ensures var start := z - c.weekdayMinus(c.weekday(z), THURSDAY) + c.weekdayMinus(MONDAY, THURSDAY);
            z - 2 <= start <= z + 4 && (start + 4) % 7 == MONDAY
  {
    assert c.weekdayMinus(MONDAY, THURSDAY) == 4;
    LastThursday(z);
  }

  lemma LastThursday(z: int)
    ensures var back := ((z + 4) % 7 - 4) % 7;
            0 <= back <= 6 && (z - back + 8) % 7 == 1
  {
    var back := ((z + 4) % 7 - 4) % 7;
    var k := ((z + 4) % 7 - 4) / 7;
    DivUnique(z - back + 8, 7, (z + 4) / 7 + k + 1);
  }

  /** From the first Monday of the first year to the last day of the last. */
  predicate IsoDay(ld: int) {
    MIN_DAY + 2 <= ld <= MAX_DAY
  }

  /** The Thursday of the week of a day. */
  function ThursdayOf(ld: int): int {
    ld - (ld + 3) % 7 + 3
  }

  lemma YearContains(c: Calendar, z: int)
    requires c.Exact() && MIN_DAY <= z <= MAX_DAY
    ensures var y := c.fromDays(z).year; NewYear(y) <= z < NewYear(y + 1) && -32767 <= y <= 32767
  {
    SerialWithinYear(c.fromDays(z));
  }

  /** `start` begins the week year g that holds ld, and `next` is a later Monday, no later than the next week year. */
  ghost predicate WeekYear(ld: int, newYear: int, nextYear: int, start: int, next: int) {
    && newYear - 3 <= start <= newYear + 3 && (start + 4) % 7 == MONDAY
    && newYear + 365 <= nextYear <= newYear + 366
    && start <= ld < next <= nextYear + 3 && (next + 4) % 7 == MONDAY
  }

  lemma CurrentYear(c: Calendar, ld: int, y: int) returns (next: int)
    requires c.Exact() && -32767 <= y <= 32767 && NewYear(y) <= ld + 3 < NewYear(y + 1) && IsoStart(c, y) <= ld
    ensures WeekYear(ld, NewYear(y), NewYear(y + 1), IsoStart(c, y), next)
  {
    IsoStartNearNewYear(c, y);
    NewYears(y);
    next := NextMonday(ld);
  }

  lemma NextMonday(ld: int) returns (next: int)
    ensures ld < next <= ld + 7 && (next + 4) % 7 == MONDAY
  {
    next := ld + 7 - (ld + 3) % 7;
    DivUnique(next + 4, 7, (ld + 3) / 7 + 1);
  }

  lemma PreviousYear(c: Calendar, ld: int, g: int)
    requires c.Exact() && -32767 <= g < 32767 && NewYear(g + 1) <= ld + 3 && ld < IsoStart(c, g + 1)
    ensures WeekYear(ld, NewYear(g), NewYear(g + 1), IsoStart(c, g), IsoStart(c, g + 1))
  {
    IsoStartNearNewYear(c, g + 1);
    IsoStartNearNewYear(c, g);
    NewYears(g);
  }

  /** The year of %G is g, which holds the week, and %V counts from its start. */
  ghost predicate WeekHeld(c: Calendar, ld: int, g: int, next: int) {
    && IsoYear(c, ld) == g && -32767 <= g <= 32767
    && WeekYear(ld, NewYear(g), NewYear(g + 1), IsoStart(c, g), next)
    && IsoWeek(c, ld) == Div(ld - IsoStart(c, g), 7) + 1
  }

  lemma HoldingYear(c: Calendar, ld: int) returns (g: int, next: int)
    requires c.Exact() && IsoDay(ld)
    ensures WeekHeld(c, ld, g, next)
  {
    if ld + 3 > MAX_DAY {
      LastDays(c, ld);
      return 32767, MAX_DAY + 1;
    } else {
      YearContains(c, ld + 3);
      g, next := InnerDay(c, ld, c.fromDays(ld + 3).year);
    }
  }

  lemma InnerDay(c: Calendar, ld: int, y: int) returns (g: int, next: int)
    requires c.Exact() && IsoDay(ld) && y == c.fromDays(ld + 3).year
    requires -32767 <= y <= 32767 && NewYear(y) <= ld + 3 < NewYear(y + 1)
    ensures WeekHeld(c, ld, g, next)
  {
    if ld < IsoStart(c, y) {
      NotFirstYear(c, ld, y);
      EarlyDay(c, ld, y - 1);
      return y - 1, IsoStart(c, y);
    } else {
      next := LateDay(c, ld, y);
      return y, next;
    }
  }

  lemma EarlyDay(c: Calendar, ld: int, g: int)
    requires c.Exact() && -32767 <= g < 32767 && c.fromDays(ld + 3).year == g + 1
    requires NewYear(g + 1) <= ld + 3 && ld < IsoStart(c, g + 1)
    ensures WeekHeld(c, ld, g, IsoStart(c, g + 1))
  {
    PreviousYear(c, ld, g);
    WeekYearIs(c, ld, g + 1, g);
  }

  lemma LateDay(c: Calendar, ld: int, g: int) returns (next: int)
    requires c.Exact() && -32767 <= g <= 32767 && c.fromDays(ld + 3).year == g
    requires NewYear(g) <= ld + 3 < NewYear(g + 1) && IsoStart(c, g) <= ld
    ensures WeekHeld(c, ld, g, next)
  {
    next := CurrentYear(c, ld, g);
    WeekYearIs(c, ld, g, g);
  }

  lemma WeekYearIs(c: Calendar, ld: int, y: int, g: int)
    requires y == c.fromDays(ld + 3).year && YearHeld(y) && YearHeld(g)
    requires g == if ld < IsoStart(c, y) then y - 1 else y
    ensures IsoYear(c, ld) == g && IsoWeek(c, ld) == Div(ld - IsoStart(c, g), 7) + 1
  {
  }

  /** The first year starts its weeks on its third day. */
  lemma FirstStart(c: Calendar)
    requires c.Exact()
    ensures IsoStart(c, -32767) == MIN_DAY + 2
  {
    IsoStartNearNewYear(c, -32767);
    DayRange();
  }

  lemma NotFirstYear(c: Calendar, ld: int, y: int)
    requires c.Exact() && IsoDay(ld) && -32767 <= y <= 32767 && ld < IsoStart(c, y)
    ensures y > -32767
  {
    FirstStart(c);
  }

  /** The year after the last, which a `year` holds as its smallest value, still starts its weeks in the right place. */
  lemma WrappedStart(c: Calendar)
    requires c.Exact()
    ensures IsoStart(c, -0x8000) == MAX_DAY + 1
  {
    DayRange();
    var z := c.toDays(Date(32767, 12, 31));
    assert z == MAX_DAY;
    assert IsoStart(c, -0x8000) == z - c.weekdayMinus(c.weekday(z), THURSDAY) + c.weekdayMinus(MONDAY, THURSDAY);
    StartArithmetic(c, z);
  }

  /** The last three days: the year three days on wraps, and the step back to the year before wraps again. */
  lemma LastDays(c: Calendar, ld: int)
    requires c.Exact() && MAX_DAY - 3 < ld <= MAX_DAY
    ensures WeekHeld(c, ld, 32767, MAX_DAY + 1)
  {
    WrappedStart(c);
    assert IsoYear(c, ld) == 32767;
    IsoStartNearNewYear(c, 32767);
    DayRange();
    NewYears(32767);
    SerialWithinYear(Date(32767, 12, 31));
  }

  /** %G and %V name the week by its Thursday: the year it lies in, and its place among that year's Thursdays. */
  lemma IsoWeekByThursday(c: Calendar, ld: int)
    requires c.Exact() && IsoDay(ld)
    ensures var g, v, t := IsoYear(c, ld), IsoWeek(c, ld), ThursdayOf(ld);
            && -32767 <= g <= 32767
            && NewYear(g) <= t < NewYear(g + 1)
            && v == (t - NewYear(g)) / 7 + 1 && 1 <= v <= 53
            && ld == IsoStart(c, g) + 7 * (v - 1) + (ld + 3) % 7
  {
    var g, next := HoldingYear(c, ld);
    PlaceOfThursday(c, ld, g, next);
  }

  lemma PlaceOfThursday(c: Calendar, ld: int, g: int, next: int)
    requires WeekHeld(c, ld, g, next)
    ensures var v, t := IsoWeek(c, ld), ThursdayOf(ld);
            && NewYear(g) <= t < NewYear(g + 1)
            && v == (t - NewYear(g)) / 7 + 1 && 1 <= v <= 53
            && ld == IsoStart(c, g) + 7 * (v - 1) + (ld + 3) % 7
  {
    WeekInYear(ld, NewYear(g), NewYear(g + 1), IsoStart(c, g), next);
  }

  lemma WeekInYear(ld: int, newYear: int, nextYear: int, start: int, next: int)
    requires WeekYear(ld, newYear, nextYear, start, next)
    ensures var t := ThursdayOf(ld);
            && newYear <= t < nextYear
            && Div(ld - start, 7) + 1 == (t - newYear) / 7 + 1 <= 53
            && ld == start + 7 * Div(ld - start, 7) + (ld + 3) % 7
  {
    var firstWeek, k := (start + 3) / 7, (ld + 3) / 7 - (start + 3) / 7;
    assert start == 7 * firstWeek - 3 by {
      DivUnique(start + 4, 7, (start + 3) / 7);
    }
    DivUnique(ld - start, 7, k);
    DivUnique(ThursdayOf(ld) - newYear, 7, k);
    assert next >= start + 7 * (k + 1) by {
      MondaysApart(next, ld);
    }
  }

  /** A Monday after a day comes no earlier than the Monday that follows the day's week. */
  lemma MondaysApart(next: int, ld: int)
    requires ld < next && (next + 4) % 7 == MONDAY
    ensures next >= ld - (ld + 3) % 7 + 7
  {
    assert next + 3 == 7 * ((next + 4) / 7);
  }

  /**
   The parser's formula maps the week year, week and weekday of a day back to the day, with a week from 1
   to 53, on every day of the valid years but the first two, and on those never.
   */
  lemma IsoRoundTrip(c: Calendar, ld: int)
    requires c.Exact() && MIN_DAY <= ld <= MAX_DAY
    ensures (1 <= IsoWeek(c, ld) <= 53 && IsoParse(c, IsoYear(c, ld), IsoWeek(c, ld), c.weekday(ld)) == ld)
            <==> ld >= MIN_DAY + 2
  {
    if IsoDay(ld) {
      IsoWeekByThursday(c, ld);
      DaysFromMonday(c, ld);
    } else {
      FirstTwoDays(c, ld);
    }
  }

  lemma FirstTwoDays(c: Calendar, ld: int)
    requires c.Exact() && MIN_DAY <= ld < MIN_DAY + 2
    ensures IsoWeek(c, ld) < 1
  {
    YearContains(c, ld + 3);
    FirstYear(c.fromDays(ld + 3).year, ld + 3);
    FirstStart(c);
    WrappedStart(c);
  }

  lemma FirstYear(y: int, z: int)
    requires -32767 <= y && NewYear(y) <= z < MIN_DAY + 365
    ensures y == -32767
  {
    DayRange();
    if y > -32767 {
      YearStartGrows(-32768, y - 1);
    }
  }

  /** The library's own week dates. */
  lemma LibraryWeekDates(ld: int)
    requires MIN_DAY + 2 <= ld <= MAX_DAY
    ensures 1 <= IsoWeek(LIBRARY, ld) <= 53
    ensures IsoParse(LIBRARY, IsoYear(LIBRARY, ld), IsoWeek(LIBRARY, ld), WeekdayFromDays(ld)) == ld
  {
    LibraryIsExact();
    IsoRoundTrip(LIBRARY, ld);
  }

  lemma DaysFromMonday(c: Calendar, ld: int)
    requires c.Exact() && MIN_DAY <= ld <= MAX_DAY
    ensures c.weekdayMinus(c.weekday(ld), MONDAY) == (ld + 3) % 7
  {
    assert c.weekday(ld) == (ld + 4) % 7;
    DivUnique((ld + 4) % 7 - 1, 7, (ld + 3) / 7 - (ld + 4) / 7);
  }
}
