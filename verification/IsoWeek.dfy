/** The ISO 8601 week date, %G and %V: weeks start on Monday and belong to the year of their Thursday. */
module IsoWeek {
  import opened Basics
  import opened Division
  import opened Calendar
  import opened JulianDay
  import opened DateTime
  import opened DateTimeObject
  import opened Timediff
  import opened Operands
  import opened TimediffFailures

  predicate IsDayNumber(z: int) {
    0 <= z <= MAXDAY
  }

  /** The Monday of a day's week; day 0 is a Monday. */
  function Monday(z: int): int {
    z - z % 7
  }

  function YearStart(y: int): int
    requires y >= -4713
  {
    MonthStart(Index(y, 1))
  }

  datatype WeekDate = WeekDate(G: int, V: int)

  function WeekOfYear(g: int, thursday: int): WeekDate
    requires g >= -4713
  {
    WeekDate(g, (thursday - YearStart(g)) / 7 + 1)
  }

  lemma ThursdayInRange(z: int)
    requires IsDayNumber(z)
    ensures 3 <= Monday(z) + 3 < MAXDAY
  {
  }

  lemma YearLength(y: int)
    requires -4713 <= y
    ensures YearStart(y + 1) == YearStart(y) + if IsLeap(y) then 366 else 365
  {
    IndexInverse(y, 1);
    IndexInverse(y + 1, 1);
    DayNumberCounts(Index(y, 1), 1);
    DayNumberCounts(Index(y + 1, 1), 1);
    InParts(y, 1, 1);
    InParts(y + 1, 1, 1);
    YearStep(y - 1);
  }

  /** The year of a day starts on or before it, and the next one after it. */
  predicate InYear(z: int, y: int) {
    y >= -4713 && YearStart(y) <= z < YearStart(y + 1)
  }

  /** The year of a date is the year of its day. */
  lemma YearOfDay(z: int, y: int)
    requires IsDayNumber(z) && y == DateOf(z).y
    ensures InYear(z, y)
  {
    IsDateOf(DateOf(z), z);
    MonthInYear(y, DateOf(z).m, z);
  }

  lemma MonthInYear(y: int, m: int, z: int)
    requires 1 <= m <= 12 && y >= -4713
    requires MonthStart(Index(y, m)) <= z < MonthStart(Index(y, m)) + Length(Index(y, m))
    ensures InYear(z, y)
  {
    var i := Index(y, m);
    MonthStartMono(Index(y, 1), i);
    assert MonthStart(i + 1) == MonthStart(i) + Length(i);
    MonthStartMono(i + 1, Index(y + 1, 1));
  }

  lemma OneYear(y: int, x: int, z: int)
    requires InYear(z, x) && InYear(z, y)
    ensures x == y
  {
    if x < y { MonthStartMono(Index(x + 1, 1), Index(y, 1)); }
    if y < x { MonthStartMono(Index(y + 1, 1), Index(x, 1)); }
  }

  /**
   The week date of a day: the year of its Thursday, and one more than the whole weeks from the start of that year to
   it.
   */
  predicate HasWeek(z: int, w: WeekDate) {
    var thursday := Monday(z) + 3;
    InYear(thursday, w.G) && w == WeekOfYear(w.G, thursday)
  }

  /** Weeks are numbered from 1 to at most 53. */
  lemma WeekBounds(z: int, w: WeekDate)
    requires HasWeek(z, w)
    ensures 1 <= w.V <= 53
    ensures YearStart(w.G) + 7 * (w.V - 1) <= Monday(z) + 3 <= YearStart(w.G) + 7 * (w.V - 1) + 6
  {
    YearLength(w.G);
  }

  /** Two days have the same week date exactly if they are in the same week, from Monday to Sunday. */
  lemma SameWeek(z1: int, z2: int, w1: WeekDate, w2: WeekDate)
    requires HasWeek(z1, w1) && HasWeek(z2, w2)
    ensures w1 == w2 <==> Monday(z1) == Monday(z2)
  {
    WeekBounds(z1, w1);
    WeekBounds(z2, w2);
    if w1 == w2 { CloseMondays(z1, z2); } else if Monday(z1) == Monday(z2) { OneYear(w1.G, w2.G, Monday(z1) + 3); }
  }

  lemma CloseMondays(z1: int, z2: int)
    requires -6 <= Monday(z1) - Monday(z2) <= 6
    ensures Monday(z1) == Monday(z2)
  {
  }

  /** The week of 4 January is week 1 of its year. */
  lemma January4(y: int, w: WeekDate)
    requires -4713 <= y && HasWeek(YearStart(y) + 3, w)
    ensures w == WeekDate(y, 1)
  {
    YearLength(y);
    OneYear(y, w.G, Monday(YearStart(y) + 3) + 3);
  }

  // ---- The day of the week and of the year ----

  lemma DaysAfterMondayIs(x: Date, z: int)
    requires z == DayOf(x.iJD) >= 0
    ensures DaysAfterMonday(x) == z % 7 == z - Monday(z)
  {
    assert z == z / 7 * 7 + z % 7;
  }

  /**
   The days of the year before the date of x, less one for a time from 24:00 on that is counted in the date already.
   */
  function DaysBefore(x: Date): int
    requires IsOperand(x)
  {
    var n := MonthStart(Month(x)) + x.D - 1 - YearStart(x.Y) - Late(x);
    if n < 0 then 0 else n
  }

  lemma DaysAre(x: Date)
    requires IsOperand(x)
    ensures DaysAfterJan01(x) == DaysBefore(x)
  {
    var n := MonthStart(Month(x)) + x.D - 1 - YearStart(x.Y) - Late(x);
    MonthStartMono(Index(x.Y, 1), Month(x));
    Recomputed(x.(M := 1, D := 1, validJD := false));
    HalfDay(x.iJD - WithJD(x.(M := 1, D := 1, validJD := false)).iJD, n);
  }

  lemma HalfDay(ms: int, n: int)
    requires ms == n * DAY && n >= -1
    ensures CDiv(ms + HALFDAY, DAY) == if n < 0 then 0 else n
  {
    if n >= 0 { DivModUnique(ms + HALFDAY, DAY, n, HALFDAY); }
  }

  // ---- The Thursday ----

  /** The time of day of an operand is that of its instant, or a day more. */
  lemma OperandClock(x: Date)
    requires IsOperand(x)
    ensures 0 <= ClockOf(x.iJD) < DAY && 0 <= DayOf(x.iJD) <= MAXDAY
    ensures x.iJD == DayOf(x.iJD) * DAY + ClockOf(x.iJD) - HALFDAY
    ensures TimeOfDay(x) == ClockOf(x.iJD) || TimeOfDay(x) == ClockOf(x.iJD) + DAY
  {
    SplitInstant(x.iJD);
    ClockIs(x.iJD, MonthStart(Month(x)) + x.D - 1 - Late(x), TimeOfDay(x), DayOf(x.iJD), ClockOf(x.iJD));
  }

  /** The Thursday of the week of day z, at the time of x. */
  lemma ThursdayIs(x: Date, z: int)
    requires IsOperand(x) && z == DayOf(x.iJD)
    ensures var t := Thursday(x);
            && IsDayNumber(z) && IsDated(t, t.iJD) && DayOf(t.iJD) == Monday(z) + 3 && ClockOf(t.iJD) == ClockOf(x.iJD)
            && TimeOfDay(t) == TimeOfDay(x)
  {
    OperandClock(x);
    ThursdayInRange(z);
    DaysAfterMondayIs(x, z);
    var a := x.(iJD := x.iJD + (3 - z % 7) * DAY, validYMD := false);
    DayIs(a.iJD, Monday(z) + 3, ClockOf(x.iJD));
    ThursdayDate(x, a, z % 7);
  }

  lemma ThursdayDate(x: Date, a: Date, w: int)
    requires w == DaysAfterMonday(x) && a == x.(iJD := x.iJD + (3 - w) * DAY, validYMD := false)
    requires IsOperand(x) && ValidJulianDay(a.iJD)
    ensures IsDated(Thursday(x), a.iJD) && TimeOfDay(Thursday(x)) == TimeOfDay(x)
  {
    DateFromInstant(a);
  }

  /** The Thursday is an operand, with the date that it is. */
  lemma ThursdayOk(x: Date, z: int)
    requires IsOperand(x) && z == DayOf(x.iJD)
    ensures var t := Thursday(x);
            && IsOperand(t) && MonthStart(Month(t)) + t.D - 1 == Monday(z) + 3
            && InYear(Monday(z) + 3, t.Y) && (Late(t) == 0 <==> TimeOfDay(x) < DAY)
  {
    ThursdayIs(x, z);
    OperandClock(x);
    DatedOk(Thursday(x), Thursday(x).iJD);
    ThursdayInRange(z);
    YearOfDay(Monday(z) + 3, Thursday(x).Y);
  }

  // ---- The week that the code finds ----

  function WeekFrom(t: Date): WeekDate {
    WeekDate(t.Y, CDiv(DaysAfterJan01(t), 7) + 1)
  }

  /**
   The week is right unless the time is 24:00 or later, in a year that starts with a Thursday, after its first week.
   */
  ghost predicate TellsWeek(x: Date) {
    var thursday := Monday(DayOf(x.iJD)) + 3;
    TimeOfDay(x) < DAY || forall y :: InYear(thursday, y) ==> YearStart(y) % 7 != 3 || thursday == YearStart(y)
  }

  /** Of the days before a Thursday, one less makes a week less exactly if there are whole weeks of them. */
  lemma OneDayLess(thursday: int, start: int)
    requires thursday >= start && thursday % 7 == 3
    ensures var n, k := thursday - start, if thursday == start then 0 else thursday - start - 1;
            CDiv(k, 7) == if start % 7 == 3 && thursday != start then n / 7 - 1 else n / 7
  {
    var n := thursday - start;
    assert start % 7 == 3 <==> n % 7 == 0;
  }

  /** The week that is found for Thursday t, which is day n of its year. */
  lemma WeekFound(t: Date, thursday: int, start: int)
    requires IsOperand(t) && InYear(thursday, t.Y) && thursday % 7 == 3 && start == YearStart(t.Y)
    requires MonthStart(Month(t)) + t.D - 1 == thursday
    ensures var right := WeekOfYear(t.Y, thursday);
            WeekFrom(t)
            == if Late(t) == 0 || start % 7 != 3 || thursday == start then right else right.(V := right.V - 1)
  {
    DaysAre(t);
    DaysFound(t, thursday, start);
    OneDayLess(thursday, start);
  }

  lemma DaysFound(t: Date, thursday: int, start: int)
    requires IsOperand(t) && start == YearStart(t.Y) && MonthStart(Month(t)) + t.D - 1 == thursday >= start
    ensures DaysBefore(t)
         == if Late(t) == 0 then thursday - start else if thursday == start then 0 else thursday - start - 1
  {
  }

  lemma IsThursday(z: int)
    ensures (Monday(z) + 3) % 7 == 3
  {
  }

  /** %G and %V are the week date exactly if the object tells the week; otherwise it is the next one. */
  lemma WeekIs(x: Date, z: int, w: WeekDate)
    requires IsOperand(x) && z == DayOf(x.iJD) && w == WeekFrom(Thursday(x))
    ensures HasWeek(z, w) <==> TellsWeek(x)
    ensures TellsWeek(x) || HasWeek(z, WeekDate(w.G, w.V + 1))
  {
    var t, thursday := Thursday(x), Monday(z) + 3;
    ThursdayOk(x, z);
    IsThursday(z);
    WeekFound(t, thursday, YearStart(t.Y));
    Tells(x, thursday, t.Y);
  }

  lemma Tells(x: Date, thursday: int, g: int)
    requires InYear(thursday, g) && thursday == Monday(DayOf(x.iJD)) + 3
    ensures TellsWeek(x) <==> TimeOfDay(x) < DAY || YearStart(g) % 7 != 3 || thursday == YearStart(g)
  {
    forall y | InYear(thursday, y) ensures y == g { OneYear(y, g, thursday); }
  }

  // ---- The methods ----

  /** n days ago it was Monday. */
  method CountFromMonday(x: DateTimeObject) returns (n: int)
    ensures n == DaysAfterMonday(x.State())
    ensures DayOf(x.iJD) >= 0 ==> 0 <= n <= 6 && DayOf(x.iJD) - n == Monday(DayOf(x.iJD))
  {
    if DayOf(x.iJD) >= 0 { DaysAfterMondayIs(x.State(), DayOf(x.iJD)); }
    n := CMod(CDiv(x.iJD + HALFDAY, DAY), 7);
  }

  /** The object moved to the Thursday of its week. */
  method ThursdayOf(x: DateTimeObject) returns (y: DateTimeObject)
    ensures fresh(y) && y.State() == Thursday(x.State())
  {
    y := new DateTimeObject.Copy(x);
    var n := CountFromMonday(x);
    y.iJD := y.iJD + (3 - n) * DAY;
    y.validYMD := false;
    y.ComputeYMD();
  }

  /** The days from 1 January of its year to the date. */
  method CountFromJan01(x: DateTimeObject) returns (n: int)
    ensures n == DaysAfterJan01(x.State())
    ensures IsOperand(x.State()) ==> n == DaysBefore(x.State())
  {
    var jan01 := new DateTimeObject.Copy(x);
    jan01.validJD, jan01.M, jan01.D := false, 1, 1;
    jan01.ComputeJD();
    n := CDiv(x.iJD - jan01.iJD + HALFDAY, DAY);
    if IsOperand(x.State()) { DaysAre(x.State()); }
  }

  /** %G and %V. */
  method IsoWeek(x: DateTimeObject) returns (w: WeekDate)
    requires IsOperand(x.State())
    ensures HasWeek(DayOf(x.iJD), w) <==> TellsWeek(x.State())
    ensures TellsWeek(x.State()) || HasWeek(DayOf(x.iJD), WeekDate(w.G, w.V + 1))
  {
    var y := ThursdayOf(x);
    var n := CountFromJan01(y);
    w := WeekDate(y.Y, CDiv(n, 7) + 1);
    WeekIs(x.State(), DayOf(x.iJD), w);
  }

  // ---- A week that is not told ----

  /** In a year that starts with a Thursday, 4 January 24:00 is Monday of week 2, but %V is 1. */
  lemma WeekOneAgain(p: Date, y: int, i: int) returns (x: Date)
    requires 1 <= y <= 9999 && i == Index(y, 1) && YearStart(y) % 7 == 3 && 0 <= MonthStart(i) <= MAXDAY - 30
    requires Names(p, i, 4, DAY)
    ensures Argument(p).Some? && x == WithYMD_HMS(Argument(p).value) && IsOperand(x)
    ensures WeekFrom(Thursday(x)) == WeekDate(y, 1) && HasWeek(DayOf(x.iJD), WeekDate(y, 2))
  {
    var z := MonthStart(i) + 4;
    x := Early(p, i, 4, DAY);
    DayIs(x.iJD, z, 0);
    SecondWeek(y, z);
    Tells(x, z + 3, y);
    var w := WeekFrom(Thursday(x));
    WeekIs(x, z, w);
    OneWeek(z, WeekDate(y, 2), WeekDate(w.G, w.V + 1));
  }

  lemma OneWeek(z: int, w1: WeekDate, w2: WeekDate)
    requires HasWeek(z, w1) && HasWeek(z, w2)
    ensures w1 == w2
  {
    OneYear(w1.G, w2.G, Monday(z) + 3);
  }

  /** The first Monday of a year that starts with a Thursday is in week 2. */
  lemma SecondWeek(y: int, z: int)
    requires 1 <= y <= 9999 && YearStart(y) % 7 == 3 && z == YearStart(y) + 4
    ensures Monday(z) == z && InYear(z + 3, y) && HasWeek(z, WeekDate(y, 2))
  {
    YearLength(y);
    FirstMonday(YearStart(y));
  }

  lemma FirstMonday(start: int)
    requires start % 7 == 3
    ensures Monday(start + 4) == start + 4 && (start + 4 + 3 - start) / 7 == 1
  {
  }

  lemma Sunday2026() returns (p: Date, x: Date, y: int)
    ensures p == Text(y, 1, 4, 24, 0) && y == 2026
    ensures Argument(p).Some? && x == WithYMD_HMS(Argument(p).value) && IsOperand(x)
    ensures WeekFrom(Thursday(x)) == WeekDate(y, 1) && HasWeek(DayOf(x.iJD), WeekDate(y, 2))
  {
    y := 2026;
    var z := Start2026();
    FirstOf(y, 1, Index(y, 1));
    p, x := SundayOf(y);
  }

  lemma SundayOf(y: int) returns (p: Date, x: Date)
    requires 1 <= y <= 9999 && YearStart(y) % 7 == 3 && 0 <= YearStart(y) <= MAXDAY - 30
    ensures p == Text(y, 1, 4, 24, 0)
    ensures Argument(p).Some? && x == WithYMD_HMS(Argument(p).value) && IsOperand(x)
    ensures WeekFrom(Thursday(x)) == WeekDate(y, 1) && HasWeek(DayOf(x.iJD), WeekDate(y, 2))
  {
    p := Text(y, 1, 4, 24, 0);
    x := WeekOneAgain(p, y, Index(y, 1));
  }

  lemma Start2026() returns (z: int)
    ensures z == 2461042 == DayNumber(2026, 1, 1)
  {
    z := 2461042;
  }
}
