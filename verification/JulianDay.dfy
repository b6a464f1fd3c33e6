/** Conversion between calendar dates and julian day numbers, with the closed formulas of the source. */
module JulianDay {
  import opened Basics
  import opened Calendar

  /** The day number that computeJD finds: days since noon of day 0, for noon of the date. */
  function DayNumber(year: int, month: int, d: int): int {
    var y, m := if month <= 2 then year - 1 else year, if month <= 2 then month + 12 else month;
    var a := CDiv(y + 4800, 100);
    var b := 38 - a + CDiv(a, 4);
    var x1 := CDiv(36525 * (y + 4716), 100);
    var x2 := CDiv(306001 * (m + 1), 10000);
    x1 + x2 + d + b - 1524
  }

  /** What the years before March of year y contribute. */
  function YearPart(y: int): int
    requires y >= -4714
  {
    36525 * (y + 4716) / 100 + 38 - (y + 4800) / 100 + (y + 4800) / 100 / 4
  }

  /** What the months from March on contribute. */
  function MonthPart(m: int): int
    requires 3 <= m <= 14
  {
    306001 * (m + 1) / 10000
  }

  lemma InParts(year: int, month: int, d: int)
    requires year >= -4713 && 1 <= month <= 12
    ensures DayNumber(year, month, d)
         == (if month <= 2 then YearPart(year - 1) + MonthPart(month + 12) else YearPart(year) + MonthPart(month))
             + d - 1524
  {
  }

  lemma CenturyLeaps(n: int)
    requires n >= 0
    ensures (n + 1) / 100 - (n + 1) / 100 / 4 - n / 100 + n / 100 / 4
         == if (n + 1) % 100 == 0 && (n + 1) % 400 != 0 then 1 else 0
  {
    var q := n / 100;
    assert (n + 1) / 100 == if (n + 1) % 100 == 0 then q + 1 else q;
    assert (n + 1) % 100 == 0 ==> ((n + 1) % 400 == 0 <==> (q + 1) % 4 == 0);
    assert (q + 1) / 4 == if (q + 1) % 4 == 0 then q / 4 + 1 else q / 4;
  }

  lemma JulianYear(k: nat)
    ensures 36525 * (k + 1) / 100 == 36525 * k / 100 + if (k + 1) % 4 == 0 then 366 else 365
  {
    assert 36525 * k / 100 == 365 * k + k / 4;
    assert 36525 * (k + 1) / 100 == 365 * (k + 1) + (k + 1) / 4;
  }

  lemma LeapShift(y: int)
    requires y + 4800 >= 0
    ensures IsLeap(y) <==> (y + 4716) % 4 == 0 && !((y + 4800) % 100 == 0 && (y + 4800) % 400 != 0)
  {
    assert (y + 4716) % 4 == y % 4 && (y + 4800) % 100 == y % 100 && (y + 4800) % 400 == y % 400;
  }

  lemma YearStep(y: int)
    requires y >= -4714
    ensures YearPart(y + 1) == YearPart(y) + if IsLeap(y + 1) then 366 else 365
  {
    JulianYear(y + 4716);
    CenturyLeaps(y + 4800);
    LeapShift(y + 1);
    HundredFour(y + 4801);
  }

  lemma HundredFour(n: int)
    ensures n % 100 == 0 ==> (n - 84) % 4 == 0
  {
  }

  /** From one month to the next, the formula grows by the length of the month. */
  lemma StepInYear(y: int, m: int)
    requires y >= -4713 && 1 <= m < 12
    ensures DayNumber(y, m + 1, 1) == DayNumber(y, m, 1) + DaysInMonth(y, m)
  {
    InParts(y, m, 1);
    InParts(y, m + 1, 1);
    if m == 1 {
      MonthParts(13);
    } else if m == 2 {
      YearStep(y - 1);
      LastMonthPart();
    } else {
      MonthParts(m);
    }
  }

  lemma MonthParts(m: int)
    requires 3 <= m <= 13
    ensures MonthPart(m + 1) == MonthPart(m) + if m == 4 || m == 6 || m == 9 || m == 11 then 30 else 31
  {
  }

  lemma LastMonthPart()
    ensures MonthPart(14) == MonthPart(3) + 337
  {
  }

  lemma StepToJanuary(y: int)
    requires y >= -4713
    ensures DayNumber(y + 1, 1, 1) == DayNumber(y, 12, 1) + 31
  {
    InParts(y, 12, 1);
    InParts(y + 1, 1, 1);
  }

  lemma Next(i: int)
    ensures YearOf(i + 1) == (if MonthOf(i) == 12 then YearOf(i) + 1 else YearOf(i))
    ensures MonthOf(i + 1) == if MonthOf(i) == 12 then 1 else MonthOf(i) + 1
  {
  }

  lemma MonthStep(i: int)
    requires i >= FIRST
    ensures DayNumber(YearOf(i + 1), MonthOf(i + 1), 1) == DayNumber(YearOf(i), MonthOf(i), 1) + Length(i)
  {
    Next(i);
    if MonthOf(i) == 12 { StepToJanuary(YearOf(i)); } else { StepInYear(YearOf(i), MonthOf(i)); }
  }

  lemma LinearInDay(y: int, m: int, d: int)
    ensures DayNumber(y, m, d) == DayNumber(y, m, 1) + d - 1
  {
  }

  lemma FirstMonth()
    ensures DayNumber(YearOf(FIRST), MonthOf(FIRST), 1) == -327
  {
  }

  /** What starts with the first month and grows by the month lengths is the count of days. */
  lemma {:induction false} CountedBy(f: int -> int, i: int)
    requires i >= FIRST && f(FIRST) == -327
    requires forall j :: FIRST <= j < i ==> f(j + 1) == f(j) + Length(j)
    ensures f(i) == MonthStart(i)
    decreases i - FIRST
  {
    if i > FIRST {
      CountedBy(f, i - 1);
      assert f(i - 1 + 1) == f(i - 1) + Length(i - 1);
    }
  }

  function FirstDay(i: int): int {
    DayNumber(YearOf(i), MonthOf(i), 1)
  }

  lemma FirstDayCounts(i: int)
    requires i >= FIRST
    ensures FirstDay(i) == MonthStart(i)
  {
    FirstMonth();
    forall j | FIRST <= j < i
      ensures FirstDay(j + 1) == FirstDay(j) + Length(j)
    {
      MonthStep(j);
    }
    CountedBy(FirstDay, i);
  }

  /** The closed formula is the count of days, and it goes on past the end of the month. */
  lemma DayNumberCounts(i: int, d: int)
    requires i >= FIRST
    ensures DayNumber(YearOf(i), MonthOf(i), d) == MonthStart(i) + d - 1
  {
    FirstDayCounts(i);
    LinearInDay(YearOf(i), MonthOf(i), d);
  }

  /** The same for a year and a month. */
  lemma DayNumberIs(y: int, m: int, d: int)
    requires y >= -4713 && 1 <= m <= 12
    ensures DayNumber(y, m, d) == MonthStart(Index(y, m)) + d - 1
  {
    var i := Index(y, m);
    assert YearOf(i) == y && MonthOf(i) == m;
    DayNumberCounts(i, d);
  }

  // ---- The inverse ----

  datatype Ymd = Ymd(y: int, m: int, d: int)

  /**
   The date that computeYMD finds for a day number; the constants 32044.75, 36524.25, 122.1, 365.25 and 30.6001 are
   exact.
   */
  function DateOf(z: int): Ymd {
    var alpha := CDiv(4 * z + 128179, 146097) - 52;
    var a := z + 1 + alpha - CDiv(alpha + 100, 4) + 25;
    FromDays(a + 1524)
  }

  function FromDays(b: int): Ymd {
    var c := CDiv(100 * b - 12210, 36525);
    FromYear(b - CDiv(36525 * (c % 32768), 100), c)
  }

  /** The date r days into the year from March that has number c. */
  function FromYear(r: int, c: int): Ymd {
    var e := CDiv(10000 * r, 306001);
    var m := if e < 14 then e - 1 else e - 13;
    Ymd(if m > 2 then c - 4716 else c - 4715, m, r - CDiv(306001 * e, 10000))
  }

  /** A day in month m of the year from March of year y, where January and February are months 13 and 14. */
  predicate IsDay(y: int, m: int, d: int) {
    -4714 <= y && 3 <= m <= 14 && 1 <= d <= if m > 12 then DaysInMonth(y + 1, m - 12) else DaysInMonth(y, m)
  }

  lemma MonthFromDays(y: int, m: int, d: int)
    requires IsDay(y, m, d)
    ensures 10000 * (MonthPart(m) + d) / 306001 == m + 1
    ensures 123 <= MonthPart(m) + d <= 488
    ensures MonthPart(m) + d == 488 ==> IsLeap(y + 1)
  {
  }

  lemma YearFromDays(k: int, r: int)
    requires k >= 0 && 123 <= r <= 488 && (r == 488 ==> k % 4 == 3)
    ensures (100 * (36525 * k / 100 + r) - 12210) / 36525 == k
  {
    assert 36525 * k / 100 == 365 * k + k / 4;
  }

  lemma CenturyFromDays(n: int, r: int)
    requires n >= 0 && 123 <= r <= 488 && (r == 488 ==> n % 4 == 3 && (n % 100 == 99 ==> n / 100 % 4 == 3))
    ensures var x := 36525 * (n - 84) / 100 + 38 - n / 100 + n / 100 / 4 - 1524 + r;
            (4 * x + 128179) / 146097 == n / 100
  {
    var a, q := n / 100, n % 100;
    assert n == 100 * a + q;
    assert 1461 * n / 4 == 36525 * a + 1461 * q / 4;
    assert 36525 * (n - 84) / 100 == 1461 * n / 4 - 30681;
  }

  /** computeYMD finds the day that is d days into month m of the year from March of year y. */
  lemma DateOfParts(y: int, m: int, d: int)
    requires IsDay(y, m, d) && y < 32768 - 4716 && YearPart(y) + MonthPart(m) + d - 1524 >= 0
    ensures DateOf(YearPart(y) + MonthPart(m) + d - 1524)
         == if m > 12 then Ymd(y + 1, m - 12, d) else Ymd(y, m, d)
  {
    var r := MonthPart(m) + d;
    MonthFromDays(y, m, d);
    DateOfYear(y, r);
    FromMonth(y + 4716, m, d);
  }

  lemma DateOfYear(y: int, r: int)
    requires -4714 <= y < 32768 - 4716 && 123 <= r <= 488 && (r == 488 ==> IsLeap(y + 1))
    requires YearPart(y) + r - 1524 >= 0
    ensures DateOf(YearPart(y) + r - 1524) == FromYear(r, y + 4716)
  {
    LeapYears(y, r);
    DaysOfYear(y, r);
    YearFromDays(y + 4716, r);
    InYear(y + 4716, 36525 * (y + 4716) / 100, r);
  }

  lemma LeapYears(y: int, r: int)
    requires y >= -4714 && (r == 488 ==> IsLeap(y + 1))
    ensures r == 488 ==>
              && (y + 4716) % 4 == 3 && (y + 4800) % 4 == 3
              && ((y + 4800) % 100 == 99 ==> (y + 4800) / 100 % 4 == 3)
  {
  }

  lemma DaysOfYear(y: int, r: int)
    requires y >= -4714 && 123 <= r <= 488 && YearPart(y) + r - 1524 >= 0
    requires r == 488 ==> (y + 4800) % 4 == 3 && ((y + 4800) % 100 == 99 ==> (y + 4800) / 100 % 4 == 3)
    ensures DateOf(YearPart(y) + r - 1524) == FromDays(36525 * (y + 4716) / 100 + r)
  {
    CenturyFromDays(y + 4800, r);
    Century(y, r);
  }

  lemma Century(y: int, r: int)
    requires y >= -4714 && 123 <= r <= 488
    requires var z := YearPart(y) + r - 1524; z >= 0 && (4 * z + 128179) / 146097 == (y + 4800) / 100
    ensures DateOf(YearPart(y) + r - 1524) == FromDays(36525 * (y + 4716) / 100 + r)
  {
  }

  lemma InYear(k: nat, p: nat, r: nat)
    requires k < 32768 && p == 36525 * k / 100 && (100 * (p + r) - 12210) / 36525 == k && r >= 123
    ensures FromDays(p + r) == FromYear(r, k)
  {
    assert CDiv(100 * (p + r) - 12210, 36525) == k && k % 32768 == k;
  }

  lemma FromMonth(k: int, m: int, d: int)
    requires 3 <= m <= 14 && MonthPart(m) + d >= 123 && 10000 * (MonthPart(m) + d) / 306001 == m + 1
    ensures FromYear(MonthPart(m) + d, k) == if m > 12 then Ymd(k - 4715, m - 12, d) else Ymd(k - 4716, m, d)
  {
  }

  /** computeYMD inverts computeJD. */
  lemma DateOfDayNumber(y: int, m: int, d: int)
    requires -4713 <= y <= 9999 && 1 <= m <= 12 && 1 <= d <= DaysInMonth(y, m) && DayNumber(y, m, d) >= 0
    ensures DateOf(DayNumber(y, m, d)) == Ymd(y, m, d)
  {
    InParts(y, m, d);
    if m <= 2 {
      DateOfPart(DayNumber(y, m, d), y - 1, m + 12, d);
    } else {
      DateOfPart(DayNumber(y, m, d), y, m, d);
    }
  }

  lemma DateOfPart(z: nat, y: int, m: int, d: int)
    requires IsDay(y, m, d) && y < 32768 - 4716 && z == YearPart(y) + MonthPart(m) + d - 1524
    ensures DateOf(z) == if m > 12 then Ymd(y + 1, m - 12, d) else Ymd(y, m, d)
  {
    DateOfParts(y, m, d);
  }

  /** The last day number that is valid: 31 December 9999. */
  const MAXDAY := 5373484

  lemma LastDay()
    ensures MonthStart(LAST + 1) == MAXDAY + 1
  {
    DayNumberCounts(LAST + 1, 1);
    assert YearOf(LAST + 1) == 10000 && MonthOf(LAST + 1) == 1;
    January10000();
  }

  lemma January10000()
    ensures DayNumber(10000, 1, 1) == MAXDAY + 1
  {
  }

  /** Every valid day number has a date, and computeJD takes it back to the day number. */
  lemma DayNumberOfDate(z: int)
    requires 0 <= z <= MAXDAY
    ensures var r := DateOf(z);
            && -4713 <= r.y <= 9999 && 1 <= r.m <= 12 && 1 <= r.d <= DaysInMonth(r.y, r.m)
            && DayNumber(r.y, r.m, r.d) == z
            && MonthStart(Index(r.y, r.m)) + r.d - 1 == z
  {
    var i := MonthOfValidDay(z);
    var d := z - MonthStart(i) + 1;
    DayNumberCounts(i, d);
    DateOfDayNumber(YearOf(i), MonthOf(i), d);
    IndexOf(i);
  }

  lemma IndexOf(i: int)
    requires FIRST <= i <= LAST
    ensures Index(YearOf(i), MonthOf(i)) == i && -4713 <= YearOf(i) <= 9999
  {
  }

  lemma MonthOfValidDay(z: int) returns (i: int)
    requires 0 <= z <= MAXDAY
    ensures FIRST <= i <= LAST && MonthStart(i) <= z < MonthStart(i) + Length(i)
  {
    LastDay();
    i := MonthOfDay(z, LAST);
  }
}
