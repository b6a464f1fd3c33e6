/** The proleptic Gregorian calendar, counted month by month. */
module Calendar {

  predicate IsLeap(y: int) {
    y % 4 == 0 && (y % 100 != 0 || y % 400 == 0)
  }

  function DaysInMonth(y: int, m: int): (n: int)
    ensures 28 <= n <= 31
  {
    if m == 2 then if IsLeap(y) then 29 else 28
    else if m == 4 || m == 6 || m == 9 || m == 11 then 30
    else 31
  }

  /** Months are numbered in one sequence; month 0 is January of year 0. */
  function Index(y: int, m: int): int {
    y * 12 + m - 1
  }

  function YearOf(i: int): int {
    i / 12
  }

  function MonthOf(i: int): (m: int)
    ensures 1 <= m <= 12
  {
    i % 12 + 1
  }

  function Length(i: int): (n: int)
    ensures 28 <= n <= 31
  {
    DaysInMonth(YearOf(i), MonthOf(i))
  }

  const FIRST := -4713 * 12
  const LAST := 9999 * 12 + 11

  /**
   The day number of the first day of month i, found by adding up month lengths.
   January of year -4713 starts 327 days before day 0, which is 24 November of that year.
   */
  function MonthStart(i: int): int
    requires i >= FIRST
    decreases i - FIRST
  {
    if i == FIRST then -327 else MonthStart(i - 1) + Length(i - 1)
  }

  lemma MonthAfter(i: int, y: int, m: int)
    requires i >= FIRST && 1 <= m <= 12 && i == Index(y, m)
    ensures MonthStart(i + 1) == MonthStart(i) + DaysInMonth(y, m)
  {
    assert YearOf(i) == y && MonthOf(i) == m;
  }

  lemma TenMonths(i: int, y: int)
    requires i >= FIRST && i == Index(y, 1) && !IsLeap(y)
    ensures MonthStart(i + 10) == MonthStart(i) + 304
  {
    MonthAfter(i, y, 1);
    MonthAfter(i + 1, y, 2);
    MonthAfter(i + 2, y, 3);
    MonthAfter(i + 3, y, 4);
    MonthAfter(i + 4, y, 5);
    MonthAfter(i + 5, y, 6);
    MonthAfter(i + 6, y, 7);
    MonthAfter(i + 7, y, 8);
    MonthAfter(i + 8, y, 9);
    MonthAfter(i + 9, y, 10);
  }

  lemma DayZero()
    ensures MonthStart(Index(-4713, 11)) + 23 == 0
  {
    TenMonths(FIRST, -4713);
  }

  lemma {:induction false} MonthStartMono(i: int, j: int)
    requires FIRST <= i <= j
    ensures MonthStart(i) + 28 * (j - i) <= MonthStart(j) <= MonthStart(i) + 31 * (j - i)
    decreases j - i
  {
    if i < j { MonthStartMono(i, j - 1); }
  }

  /** The month that a day is in. */
  lemma {:induction false} MonthOfDay(z: int, last: int) returns (i: int)
    requires last >= FIRST && -327 <= z < MonthStart(last + 1)
    ensures FIRST <= i <= last && MonthStart(i) <= z < MonthStart(i) + Length(i)
    decreases last - FIRST
  {
    if z >= MonthStart(last) {
      i := last;
    } else {
      i := MonthOfDay(z, last - 1);
    }
  }

  /** A day is in one month only. */
  lemma OneMonth(i: int, j: int, z: int)
    requires i >= FIRST && j >= FIRST
    requires MonthStart(i) <= z < MonthStart(i) + Length(i) && MonthStart(j) <= z < MonthStart(j) + Length(j)
    ensures i == j
  {
    if i < j { NotLater(i, j, z); }
    if j < i { NotLater(j, i, z); }
  }

  lemma NotLater(i: int, j: int, z: int)
    requires FIRST <= i < j && z < MonthStart(i) + Length(i)
    ensures z < MonthStart(j)
  {
    assert MonthStart(i + 1) == MonthStart(i) + Length(i);
    MonthStartMono(i + 1, j);
  }
}
