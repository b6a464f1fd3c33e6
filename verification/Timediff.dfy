/** The difference of two instants in years, months, days and time, and that adding it back gives the first instant. */
module Timediff {
  import opened Basics
  import opened Division
  import opened Calendar
  import opened JulianDay
  import opened DateTime
  import opened DateTimeObject

  /** The instant at time ms of day d of month i; d may be past the end of the month. */
  function At(i: int, d: int, ms: int): int
    requires i >= FIRST
  {
    (MonthStart(i) + d - 1) * DAY - HALFDAY + ms
  }

  function Month(p: Date): int {
    Index(p.Y, p.M)
  }

  /** The fields of p, moved to month i. */
  function InMonth(p: Date, i: int): int
    requires i >= FIRST
  {
    At(i, p.D, TimeOfDay(p))
  }

  /**
   An argument of timediff, with all its fields computed. The instant is at the day and time that the fields name;
   only for a time from 24:00 on can it be a day before that.
   */
  predicate IsOperand(p: Date) {
    && p.validJD && p.validYMD && p.validHMS && p.tz == 0 && !p.rawS && !p.isError && ValidJulianDay(p.iJD)
    && 1 <= p.M <= 12 && FIRST + 2 <= Month(p) <= LAST
    && 1 <= p.D <= Length(Month(p)) && 0 <= TimeOfDay(p) < DAY + 3600000
    && At(Month(p), 1, 0) <= p.iJD < At(Month(p), 32, 0)
    && (p.iJD == InMonth(p, Month(p)) || (TimeOfDay(p) >= DAY && p.iJD == InMonth(p, Month(p)) - DAY))
  }

  /** By how many days the instant is before the date and time that the fields name. */
  function Late(p2: Date): int
    requires IsOperand(p2)
  {
    if p2.iJD == InMonth(p2, Month(p2)) then 0 else 1
  }

  /** The instant of d2 moved to month i. */
  predicate IsAt(q: Date, p: Date, i: int) {
    i >= FIRST && q == p.(Y := YearOf(i), M := MonthOf(i), iJD := InMonth(p, i))
  }

  /** The days and the time of a remainder of less than 32 days; the 31st day starts again at 0. */
  predicate IsRemainder(z: Span, ms: int) {
    && 0 <= z.D <= 30 && z.time.Some? && ReadableTime(z.time.value) && z.time.value.h <= 23
    && var t := z.time.value;
       z.D * DAY + t.h * 3600000 + t.m * 60000 + t.s == if ms < 31 * DAY then ms else ms - 31 * DAY
  }

  /** Months z of a difference, and the remainder: as many months as fit. */
  predicate IsTimediff(p1: Date, p2: Date, z: Span)
    requires IsOperand(p1) && IsOperand(p2)
  {
    var a, b, t := Month(p1), Month(p2), 12 * z.Y + z.M;
    && (z.neg <==> p1.iJD < p2.iJD) && 0 <= z.M <= 11
    && if a == b then t == 0 && IsRemainder(z, if z.neg then p2.iJD - p1.iJD else p1.iJD - p2.iJD)
       else if z.neg then IsMonthsDown(p1, p2, b - t, z)
       else IsMonthsUp(p1, p2, b + t, z)
  }

  predicate IsMonthsUp(p1: Date, p2: Date, i: int, z: Span) {
    && FIRST <= i <= Month(p1) && InMonth(p2, i) <= p1.iJD
    && (i < Month(p1) ==> p1.iJD < InMonth(p2, i + 1))
    && IsRemainder(z, p1.iJD - InMonth(p2, i))
  }

  predicate IsMonthsDown(p1: Date, p2: Date, i: int, z: Span) {
    && FIRST <= Month(p1) <= i <= LAST && InMonth(p2, i) >= p1.iJD
    && (i > Month(p1) ==> p1.iJD > InMonth(p2, i - 1))
    && IsRemainder(z, InMonth(p2, i) - p1.iJD)
  }

  lemma MidnightAt(i: int, d: int)
    requires i >= FIRST
    ensures Midnight(YearOf(i), MonthOf(i), d) == At(i, d, 0)
  {
    DayNumberCounts(i, d);
  }

  /** Recomputing the instant from the fields. */
  lemma Recomputed(p: Date)
    requires p.validYMD && p.validHMS && !p.validJD && p.tz == 0 && !p.rawS && 1 <= p.M <= 12
    requires FIRST <= Month(p) <= LAST
    ensures WithJD(p) == p.(validJD := true, iJD := InMonth(p, Month(p)))
  {
    var i := Month(p);
    assert YearOf(i) == p.Y && MonthOf(i) == p.M;
    MidnightAt(i, p.D);
  }

  /** A month later is 28 to 31 days later. */
  lemma NextMonth(p: Date, i: int)
    requires i >= FIRST
    ensures InMonth(p, i) + 28 * DAY <= InMonth(p, i + 1) <= InMonth(p, i) + 31 * DAY
    ensures InMonth(p, i + 1) == InMonth(p, i) + Length(i) * DAY
  {
  }

  lemma LaterMonth(p: Date, i: int, j: int)
    requires FIRST <= i <= j
    ensures InMonth(p, i) + 28 * DAY * (j - i) <= InMonth(p, j)
  {
    MonthStartMono(i, j);
  }

  // ---- The method ----

  method Recompute(d: DateTimeObject, y: int, m: int)
    requires d.State().validYMD && d.State().validHMS && d.tz == 0 && !d.rawS && 1 <= m <= 12
    requires FIRST <= Index(y, m) <= LAST
    modifies d
    ensures d.State() == old(d.State()).(Y := y, M := m, validJD := true, iJD := InMonth(old(d.State()), Index(y, m)))
  {
    d.Y, d.M := y, m;
    d.validJD := false;
    Recomputed(d.State());
    d.ComputeJD();
  }

  lemma IndexInverse(y: int, m: int)
    requires 1 <= m <= 12
    ensures YearOf(Index(y, m)) == y && MonthOf(Index(y, m)) == m
  {
  }

  lemma SameYear(y: int, m: int, n: int)
    requires 1 <= m <= 12 && 1 <= n <= 12 && FIRST <= Index(y, m) <= LAST
    ensures FIRST <= Index(y, n) <= LAST
  {
    assert -4713 <= y <= 9999;
  }

  /** Moves d2 to the month of d1, unless it is there. */
  method Align(d1: DateTimeObject, d2: DateTimeObject)
    requires d1 != d2 && IsOperand(d1.State()) && IsOperand(d2.State())
    modifies d2
    ensures var p2, a := old(d2.State()), Month(d1.State());
            if Month(p2) == a then d2.State() == p2 else IsAt(d2.State(), p2, a)
  {
    IndexInverse(d1.Y, d1.M);
    SameYear(d1.Y, d1.M, d2.M);
    if d1.Y != d2.Y { Recompute(d2, d1.Y, d2.M); }
    if d1.M != d2.M {
      Recompute(d2, d2.Y, d1.M);
    } else {
      assert Month(d2.State()) == Month(d1.State());
    }
  }

  lemma NotBelow(p1: Date, p2: Date, i: int)
    requires IsOperand(p2) && FIRST <= i && p2.iJD <= p1.iJD < InMonth(p2, i)
    ensures i >= Month(p2)
  {
    if i < Month(p2) { LaterMonth(p2, i, Month(p2)); }
  }

  lemma NotAbove(p1: Date, p2: Date, i: int)
    requires IsOperand(p2) && FIRST <= i && p2.iJD >= p1.iJD > InMonth(p2, i)
    ensures i < Month(p2)
  {
    if i >= Month(p2) { LaterMonth(p2, Month(p2), i); }
  }

  method StepBack(d2: DateTimeObject, ghost p2: Date, ghost i: int)
    requires IsOperand(p2) && FIRST < i <= LAST && IsAt(d2.State(), p2, i)
    modifies d2
    ensures IsAt(d2.State(), p2, i - 1)
  {
    var y, m := d2.Y, d2.M - 1;
    if m < 1 {
      m := 12;
      y := y - 1;
    }
    PreviousMonth(i);
    Recompute(d2, y, m);
  }

  lemma PreviousMonth(i: int)
    requires FIRST < i <= LAST
    ensures YearOf(i - 1) == (if MonthOf(i) == 1 then YearOf(i) - 1 else YearOf(i))
    ensures MonthOf(i - 1) == if MonthOf(i) == 1 then 12 else MonthOf(i) - 1
    ensures Index(YearOf(i - 1), MonthOf(i - 1)) == i - 1
  {
    Next(i - 1);
    IndexOf(i - 1);
  }

  lemma NextMonthIs(i: int)
    requires FIRST <= i < LAST
    ensures YearOf(i + 1) == (if MonthOf(i) == 12 then YearOf(i) + 1 else YearOf(i))
    ensures MonthOf(i + 1) == if MonthOf(i) == 12 then 1 else MonthOf(i) + 1
    ensures Index(YearOf(i + 1), MonthOf(i + 1)) == i + 1
  {
    Next(i);
    IndexOf(i + 1);
  }

  method StepForth(d2: DateTimeObject, ghost p2: Date, ghost i: int)
    requires IsOperand(p2) && FIRST <= i < LAST && IsAt(d2.State(), p2, i)
    modifies d2
    ensures IsAt(d2.State(), p2, i + 1)
  {
    var y, m := d2.Y, d2.M + 1;
    if m > 12 {
      m := 1;
      y := y + 1;
    }
    NextMonthIs(i);
    Recompute(d2, y, m);
  }

  /** Where d2 is: moved to month i, or not moved because it was in the month of d1. */
  predicate IsMoved(q: Date, p1: Date, p2: Date, i: int) {
    if Month(p1) == Month(p2) then q == p2 && i == Month(p2) else IsAt(q, p2, i)
  }

  /** Takes months off while d2 is after d1. */
  method GoBack(d1: DateTimeObject, d2: DateTimeObject, Y0: int, M0: int, ghost p2: Date) returns (Y: int, M: int)
    requires d1 != d2 && IsOperand(d1.State()) && IsOperand(p2) && d1.iJD >= p2.iJD && 0 <= M0 <= 11
    requires 12 * Y0 + M0 == Month(d1.State()) - Month(p2) && IsMoved(d2.State(), d1.State(), p2, Month(d1.State()))
    modifies d2
    ensures 0 <= M <= 11
    ensures var p1, i := d1.State(), Month(p2) + 12 * Y + M;
            && FIRST <= i <= Month(p1) && IsMoved(d2.State(), p1, p2, i) && d2.iJD <= p1.iJD
            && (i < Month(p1) ==> p1.iJD < InMonth(p2, i + 1))
  {
    Y, M := Y0, M0;
    ghost var p1 := d1.State();
    ghost var i := Month(p1);
    while d1.iJD < d2.iJD
      invariant i == Month(p2) + 12 * Y + M && 0 <= M <= 11 && FIRST <= i <= Month(p1)
      invariant IsMoved(d2.State(), p1, p2, i)
      invariant i < Month(p1) ==> p1.iJD < InMonth(p2, i + 1)
      decreases i - FIRST
    {
      NotBelow(p1, p2, i);
      M := M - 1;
      if M < 0 {
        M := 11;
        Y := Y - 1;
      }
      StepBack(d2, p2, i);
      i := i - 1;
    }
  }

  /** Takes months off while d2 is before d1. */
  method GoForth(d1: DateTimeObject, d2: DateTimeObject, Y0: int, M0: int, ghost p2: Date) returns (Y: int, M: int)
    requires d1 != d2 && IsOperand(d1.State()) && IsOperand(p2) && d1.iJD < p2.iJD && 0 <= M0 <= 11
    requires 12 * Y0 + M0 == Month(p2) - Month(d1.State()) && IsMoved(d2.State(), d1.State(), p2, Month(d1.State()))
    modifies d2
    ensures 0 <= M <= 11
    ensures var p1, i := d1.State(), Month(p2) - (12 * Y + M);
            && FIRST <= Month(p1) <= i <= LAST && IsMoved(d2.State(), p1, p2, i) && d2.iJD >= p1.iJD
            && (i > Month(p1) ==> p1.iJD > InMonth(p2, i - 1))
  {
    Y, M := Y0, M0;
    ghost var p1 := d1.State();
    ghost var i := Month(p1);
    while d1.iJD > d2.iJD
      invariant i == Month(p2) - (12 * Y + M) && 0 <= M <= 11 && FIRST <= Month(p1) <= i <= LAST
      invariant IsMoved(d2.State(), p1, p2, i)
      invariant i > Month(p1) ==> p1.iJD > InMonth(p2, i - 1)
      decreases LAST - i
    {
      NotAbove(p1, p2, i);
      M := M - 1;
      if M < 0 {
        M := 11;
        Y := Y - 1;
      }
      StepForth(d2, p2, i);
      i := i + 1;
    }
  }

  /** The remainder is at most a month, and an hour more if the time of d2 is past 24:00. */
  lemma RemainderUp(p1: Date, p2: Date, q: Date, i: int)
    requires IsOperand(p1) && IsOperand(p2) && FIRST <= i <= Month(p1) && IsMoved(q, p1, p2, i)
    requires i < Month(p1) ==> p1.iJD < InMonth(p2, i + 1)
    ensures p1.iJD - q.iJD < 31 * DAY
  {
    NextMonth(p2, i);
  }

  lemma RemainderDown(p1: Date, p2: Date, q: Date, i: int)
    requires IsOperand(p1) && IsOperand(p2) && Month(p1) <= i <= LAST && IsMoved(q, p1, p2, i)
    requires i > Month(p1) ==> p1.iJD > InMonth(p2, i - 1)
    ensures q.iJD - p1.iJD < 31 * DAY + 3600000
    ensures TimeOfDay(p2) < DAY ==> q.iJD - p1.iJD < 31 * DAY
  {
    if i > Month(p1) { NextMonth(p2, i - 1); }
  }

  /** timediff(d1, d2). */
  method TimeDiff(d1: DateTimeObject, d2: DateTimeObject) returns (z: Span)
    requires d1 != d2 && IsOperand(d1.State()) && IsOperand(d2.State())
    modifies d1, d2
    ensures IsTimediff(old(d1.State()), old(d2.State()), z)
  {
    if d1.iJD >= d2.iJD { z := TimeSince(d1, d2); } else { z := TimeUntil(d1, d2); }
  }

  method MonthsBetween(y1: int, m1: int, y2: int, m2: int) returns (Y: int, M: int)
    requires 1 <= m1 <= 12 && 1 <= m2 <= 12
    ensures 12 * Y + M == Index(y1, m1) - Index(y2, m2) && 0 <= M <= 11
  {
    Y, M := y1 - y2, m1 - m2;
    if M < 0 {
      Y := Y - 1;
      M := M + 12;
    }
  }

  method TimeSince(d1: DateTimeObject, d2: DateTimeObject) returns (z: Span)
    requires d1 != d2 && IsOperand(d1.State()) && IsOperand(d2.State()) && d1.iJD >= d2.iJD
    modifies d1, d2
    ensures IsTimediff(old(d1.State()), old(d2.State()), z)
  {
    ghost var p1, p2 := d1.State(), d2.State();
    var Y, M := MonthsBetween(d1.Y, d1.M, d2.Y, d2.M);
    Align(d1, d2);
    Y, M := GoBack(d1, d2, Y, M, p2);
    RemainderUp(p1, p2, d2.State(), Month(p2) + 12 * Y + M);
    z := Remainder(d1, false, Y, M, d1.iJD - d2.iJD);
  }

  method TimeUntil(d1: DateTimeObject, d2: DateTimeObject) returns (z: Span)
    requires d1 != d2 && IsOperand(d1.State()) && IsOperand(d2.State()) && d1.iJD < d2.iJD
    modifies d1, d2
    ensures IsTimediff(old(d1.State()), old(d2.State()), z)
  {
    ghost var p1, p2 := d1.State(), d2.State();
    var Y, M := MonthsBetween(d2.Y, d2.M, d1.Y, d1.M);
    Align(d1, d2);
    Y, M := GoForth(d1, d2, Y, M, p2);
    RemainderDown(p1, p2, d2.State(), Month(p2) - (12 * Y + M));
    z := Remainder(d1, true, Y, M, d2.iJD - d1.iJD);
  }

  /** The span whose days and time are read off the date that is ms after the start of year 0. */
  method Remainder(d1: DateTimeObject, neg: bool, Y: int, M: int, ms: int) returns (z: Span)
    requires d1.validJD && 0 <= ms < 32 * DAY
    modifies d1
    ensures z.neg == neg && z.Y == Y && z.M == M && IsRemainder(z, ms)
  {
    d1.iJD := ms + YEAR0;
    d1.ClearYMD_HMS_TZ();
    ghost var p := d1.State();
    d1.ComputeYMD_HMS();
    FieldsOf(p);
    z := Span(neg, Y, M, d1.D - 1, Some(Time(d1.h, d1.m, d1.s)));
    RemainderIs(z, ms);
  }

  lemma DayOfYear0(k: int)
    requires 0 <= k <= 31
    ensures DateOf(1721060 + k) == if k == 31 then Ymd(0, 2, 1) else Ymd(0, 1, 1 + k)
  {
    assert DayNumber(0, 1, 1) == 1721060 && DayNumber(0, 2, 1) == 1721060 + 31;
    LinearInDay(0, 1, 1 + k);
    if k == 31 { DateOfDayNumber(0, 2, 1); } else { DateOfDayNumber(0, 1, 1 + k); }
  }

  /** The start of year 0. */
  const YEAR0 := 148699540800000

  lemma SplitRemainder(ms: int, k: int, r: int)
    requires 0 <= r < DAY && 0 <= k && ms == k * DAY + r
    ensures DayOf(ms + YEAR0) == 1721060 + k && ClockOf(ms + YEAR0) == r
  {
    DayIs(ms + YEAR0, 1721060 + k, r);
  }

  /** A date of January of year 0 tells how many days after its start it is. */
  lemma RemainderIs(z: Span, ms: int)
    requires 0 <= ms < 32 * DAY && z.time == Some(TimeOf(ClockOf(ms + YEAR0))) && z.D == DateOf(DayOf(ms + YEAR0)).d - 1
    ensures IsRemainder(z, ms)
  {
    var k, r := ms / DAY, ms % DAY;
    SplitRemainder(ms, k, r);
    DayOfYear0(k);
    TimeIs(r);
  }

  lemma DateFromInstant(p: Date)
    requires p.validJD && !p.validYMD && ValidJulianDay(p.iJD)
    ensures var ymd := DateOf(DayOf(p.iJD)); WithYMD(p) == p.(Y := ymd.y, M := ymd.m, D := ymd.d, validYMD := true)
  {
  }

  lemma TimeFromInstant(p: Date)
    requires p.validJD && !p.validHMS
    ensures WithHMS(p) == WithTime(p)
  {
  }

  /** The fields computed from a valid instant. */
  lemma FieldsOf(p: Date)
    requires p.validJD && !p.validYMD && !p.validHMS && ValidJulianDay(p.iJD)
    ensures var q, ymd, t := WithYMD_HMS(p), DateOf(DayOf(p.iJD)), TimeOf(ClockOf(p.iJD));
            q == p.(Y := ymd.y, M := ymd.m, D := ymd.d, validYMD := true,
                    h := t.h, m := t.m, s := t.s, rawS := false, validHMS := true)
  {
    DateFromInstant(p);
    TimeFromInstant(WithYMD(p));
  }
}
