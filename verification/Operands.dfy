/** Arguments of the date functions: the instant they stand for, and the fields that are computed from them. */
module Operands {
  import opened Basics
  import opened Division
  import opened Calendar
  import opened JulianDay
  import opened DateTime
  import opened Timediff

  /**
   What reading a date, a time or a number leaves in the object: an instant only (a number, or a date with a time
   zone), or a date with or without a time, or a time only, perhaps with a time zone.
   */
  predicate IsParsed(p: Date) {
    && !p.isError
    && if p.validJD then !p.validYMD && !p.validHMS && p.tz == 0
       else
         && !p.rawS && (p.validYMD || p.validHMS)
         && (p.validYMD ==> 1 <= p.M <= 12 && 1 <= p.D <= 31 && p.tz == 0)
         && (p.validHMS ==> 0 <= p.h <= 24 && 0 <= p.m <= 59 && 0 <= p.s < 60000 && -899 <= p.tz <= 899)
  }

  // ---- Days and times of instants ----

  lemma IsDateOf(r: Ymd, z: int)
    requires 0 <= z <= MAXDAY && r == DateOf(z)
    ensures var i := Index(r.y, r.m);
            && 1 <= r.m <= 12 && FIRST <= i <= LAST && 1 <= r.d <= Length(i) && MonthStart(i) + r.d - 1 == z
            && YearOf(i) == r.y && MonthOf(i) == r.m
  {
    DayNumberOfDate(z);
    IndexInverse(r.y, r.m);
  }

  /** No valid day is in the first ten months of the count. */
  lemma NotEarly(i: int, d: int)
    requires i >= FIRST && d <= 32 && MonthStart(i) + d - 1 >= 0
    ensures FIRST + 2 <= i
  {
    MonthStartMono(FIRST, i);
    assert MonthStart(FIRST) == -327;
  }

  // ---- The fields that a modifier starts from ----

  predicate IsFields(q: Date) {
    && q.validYMD && q.validHMS && !q.rawS && !q.isError
    && 1 <= q.M <= 12 && FIRST <= Month(q) <= LAST
  }

  /** The milliseconds from the start of the day that the fields name; a time zone can lead to another day. */
  function Clock(q: Date): int {
    TimeOfDay(q) - q.tz * 60000
  }

  /** The instant of the fields, in month i. */
  function Instant(q: Date, i: int): int
    requires i >= FIRST
  {
    At(i, q.D, Clock(q))
  }

  /** The fields q stand for the instant iJD. */
  predicate IsView(q: Date, iJD: int) {
    IsFields(q) && 1 <= q.D <= 31 && -DAY < Clock(q) < 2 * DAY && iJD == Instant(q, Month(q))
  }

  /** What an argument leaves: its instant, without a date after the 28th. */
  function Kept(q: Date): Date {
    if q.validYMD && q.D > 28 then q.(validYMD := false) else q
  }

  lemma ValidArgument(p: Date)
    requires Argument(p) != None
    ensures ValidJulianDay(WithJD(p).iJD) && !WithJD(p).isError
    ensures Argument(p) == Some(Kept(WithJD(p)))
  {
  }

  lemma MidnightIs(y: int, m: int, d: int)
    requires 1 <= m <= 12 && Index(y, m) >= FIRST
    ensures Midnight(y, m, d) == At(Index(y, m), d, 0)
  {
    IndexInverse(y, m);
    MidnightAt(Index(y, m), d);
  }

  /** The instant of an argument that names a date. */
  lemma JdOfDate(p: Date)
    requires IsParsed(p) && !p.validJD && p.validYMD && Argument(p) != None
    ensures var i := Month(p);
            && FIRST <= i <= LAST
            && WithJD(p) == p.(validJD := true, iJD := At(i, p.D, if p.validHMS then TimeOfDay(p) else 0))
  {
    MidnightIs(p.Y, p.M, p.D);
  }

  /** January 2000, the month of an argument without a date. */
  const JAN2000 := 24000

  /** The instant of an argument that has only a time. */
  lemma JdOfTime(p: Date)
    requires IsParsed(p) && !p.validJD && !p.validYMD && Argument(p) != None
    ensures var j := p.(validJD := true, iJD := At(JAN2000, 1, Clock(p)));
            WithJD(p) == if p.tz == 0 then j else j.(validHMS := false, tz := 0)
  {
    MidnightIs(2000, 1, 1);
  }

  lemma FullView(p: Date)
    requires p.validYMD && p.validHMS
    ensures WithYMD_HMS(p) == p
  {
  }

  lemma TimeView(p: Date)
    requires !p.validJD && !p.validYMD && p.validHMS
    ensures WithYMD_HMS(p) == p.(Y := 2000, M := 1, D := 1, validYMD := true)
  {
  }

  lemma DateView(p: Date)
    requires p.validYMD && !p.validHMS
    ensures WithYMD_HMS(p) == WithTime(WithJD(p))
  {
  }

  /** The time that is computed from a valid instant. */
  lemma TimedIs(j: Date)
    requires ValidJulianDay(j.iJD)
    ensures var q := WithTime(j);
            && q == j.(h := q.h, m := q.m, s := q.s, rawS := false, validHMS := true)
            && TimeOfDay(q) == ClockOf(j.iJD) && 0 <= TimeOfDay(q) < DAY
  {
    SplitInstant(j.iJD);
    TimeIs(ClockOf(j.iJD));
  }

  // ---- Every valid argument has a view ----

  lemma ViewOfInstant(p: Date)
    requires p.validJD && !p.validYMD && !p.validHMS && p.tz == 0 && !p.isError && ValidJulianDay(p.iJD)
    ensures var q := WithYMD_HMS(p);
            && IsView(q, p.iJD) && q.validJD && q.iJD == p.iJD && q.tz == 0 && TimeOfDay(q) == ClockOf(p.iJD)
            && q.D <= Length(Month(q)) && MonthStart(Month(q)) + q.D - 1 == DayOf(p.iJD)
  {
    FieldsOf(p);
    SplitInstant(p.iJD);
    IsDateOf(DateOf(DayOf(p.iJD)), DayOf(p.iJD));
    TimeIs(ClockOf(p.iJD));
  }

  lemma TimedAtMidnight(j: Date, n: nat)
    requires ValidJulianDay(j.iJD) && j.iJD == n * DAY - HALFDAY
    ensures TimeOfDay(WithTime(j)) == 0
  {
    TimedIs(j);
    DayIs(j.iJD, n, 0);
  }

  lemma ViewOfDate(p: Date, j: Date, q: Date)
    requires IsParsed(p) && !p.validJD && p.validYMD && !p.validHMS && FIRST <= Month(p) <= LAST
    requires j == p.(validJD := true, iJD := At(Month(p), p.D, 0))
    requires q == j.(h := q.h, m := q.m, s := q.s, rawS := false, validHMS := true) && TimeOfDay(q) == 0
    ensures IsView(q, j.iJD)
  {
  }

  /** A valid argument is what its view stands for. */
  lemma ViewOf(p: Date)
    requires IsParsed(p) && Argument(p) != None
    ensures IsView(WithYMD_HMS(p), WithJD(p).iJD) && ValidJulianDay(WithJD(p).iJD)
  {
    ValidArgument(p);
    if p.validJD {
      ViewOfInstant(p);
    } else if !p.validYMD {
      JdOfTime(p);
      TimeView(p);
    } else {
      ViewOfDay(p);
    }
  }

  lemma ViewOfDay(p: Date)
    requires IsParsed(p) && !p.validJD && p.validYMD && Argument(p) != None
    ensures IsView(WithYMD_HMS(p), WithJD(p).iJD)
    ensures p.validHMS ==> WithYMD_HMS(p) == p
    ensures !p.validHMS ==> WithYMD_HMS(p) == WithTime(WithJD(p))
  {
    ValidArgument(p);
    JdOfDate(p);
    if p.validHMS {
      FullView(p);
    } else {
      DateView(p);
      var j := WithJD(p);
      TimedIs(j);
      TimedAtMidnight(j, MonthStart(Month(p)) + p.D - 1);
      ViewOfDate(p, j, WithTime(j));
    }
  }

  // ---- What timediff works with ----

  /**
   The operand p1 of timediff and the fields q that a modifier starts from stand for the same instant. Their months
   are the same or next to each other. If the operand is on the 31st at 24:00 or later, the fields are on the 30th.
   */
  predicate SameInstant(p1: Date, q: Date) {
    && IsOperand(p1) && IsView(q, p1.iJD)
    && Month(p1) - 1 <= Month(q) <= Month(p1) + 1
    && (p1.D == 31 && TimeOfDay(p1) >= DAY ==>
          Month(q) == Month(p1) && q.D == 30 && Clock(q) == TimeOfDay(p1) && p1.iJD == InMonth(p1, Month(p1)) - DAY)
  }

  /** The date of an instant, whatever time goes with it. */
  predicate IsDated(p1: Date, iJD: int) {
    && p1.validJD && p1.validYMD && p1.validHMS && p1.tz == 0 && !p1.rawS && !p1.isError && p1.iJD == iJD
    && ValidJulianDay(iJD) && Ymd(p1.Y, p1.M, p1.D) == DateOf(DayOf(iJD))
  }

  /** An object with its date computed and its time of day, or a day more. */
  lemma DatedOk(p1: Date, iJD: int)
    requires IsDated(p1, iJD) && (TimeOfDay(p1) == ClockOf(iJD) || TimeOfDay(p1) == ClockOf(iJD) + DAY < DAY + 3600000)
    ensures IsOperand(p1) && p1.D <= Length(Month(p1)) && MonthStart(Month(p1)) + p1.D - 1 == DayOf(iJD)
    ensures InMonth(p1, Month(p1)) == iJD + TimeOfDay(p1) - ClockOf(iJD)
  {
    var z := DayOf(iJD);
    SplitInstant(iJD);
    IsDateOf(DateOf(z), z);
    NotEarly(Month(p1), p1.D);
  }

  /** A day that is less than 33 days from the start of a month is in that month or in one next to it. */
  lemma NearMonth(i: int, j: int, z: int)
    requires i > FIRST && j >= FIRST && MonthStart(i) <= z < MonthStart(i) + Length(i)
    requires MonthStart(j) - 1 <= z <= MonthStart(j) + 31
    ensures i - 1 <= j <= i + 1
  {
    if j > i + 1 { MonthStartMono(i + 1, j - 1); }
    if j < i - 1 { MonthStartMono(j + 2, i); }
    assert MonthStart(j + 2) == MonthStart(j) + Length(j) + Length(j + 1);
  }

  /** When the date is computed from the instant, which the fields q stand for. */
  lemma DatedAgrees(p1: Date, q: Date, iJD: int)
    requires IsDated(p1, iJD) && IsView(q, iJD)
    requires TimeOfDay(p1) == ClockOf(iJD) ||
             (Clock(q) == TimeOfDay(p1) == ClockOf(iJD) + DAY < DAY + 3600000)
    ensures SameInstant(p1, q)
  {
    DatedOk(p1, iJD);
    SplitInstant(iJD);
    DayNear(q, iJD, DayOf(iJD), ClockOf(iJD));
    NearMonth(Month(p1), Month(q), DayOf(iJD));
    if TimeOfDay(p1) >= DAY && p1.D == 31 { DayBefore(p1, q, DayOf(iJD)); }
  }

  /** The day of an instant is the one that its fields name, or the one before or after. */
  lemma DayNear(q: Date, iJD: int, z: int, ms: int)
    requires IsView(q, iJD) && 0 <= ms < DAY && iJD == z * DAY + ms - HALFDAY
    ensures MonthStart(Month(q)) + q.D - 2 <= z <= MonthStart(Month(q)) + q.D
    ensures Clock(q) == ms + DAY ==> z == MonthStart(Month(q)) + q.D
  {
  }

  /** On the 31st, the day before is the 30th of the same month. */
  lemma DayBefore(p1: Date, q: Date, z: int)
    requires FIRST <= Month(p1) && FIRST <= Month(q) && Month(p1) - 1 <= Month(q) <= Month(p1) + 1
    requires MonthStart(Month(p1)) + 30 == z == MonthStart(Month(q)) + q.D && 1 <= q.D <= 31
    requires Length(Month(p1)) == 31
    ensures Month(q) == Month(p1) && q.D == 30
  {
    var i, j := Month(q), Month(p1);
    assert MonthStart(i + 1) == MonthStart(i) + Length(i);
    assert MonthStart(j + 1) == MonthStart(j) + Length(j);
  }

  /** When the date is kept, with its time. */
  lemma KeptAgrees(q: Date)
    requires IsView(q, q.iJD) && q.validJD && q.tz == 0 && ValidJulianDay(q.iJD) && q.D <= 28
    requires 0 <= TimeOfDay(q) < DAY + 3600000
    ensures SameInstant(q, q)
  {
    NotEarly(Month(q), q.D + 1);
  }

  // ---- The operand of every valid argument ----

  /** Computing only the date. */
  lemma OnlyDate(a: Date)
    requires a.validJD && !a.validYMD && a.validHMS && ValidJulianDay(a.iJD) && a.tz == 0 && !a.isError && !a.rawS
    ensures IsDated(WithYMD_HMS(a), a.iJD) && TimeOfDay(WithYMD_HMS(a)) == TimeOfDay(a)
  {
    DateFromInstant(a);
  }

  /** Computing date and time. */
  lemma DateAndTime(a: Date)
    requires a.validJD && !a.validYMD && !a.validHMS && ValidJulianDay(a.iJD) && a.tz == 0 && !a.isError
    ensures IsDated(WithYMD_HMS(a), a.iJD) && TimeOfDay(WithYMD_HMS(a)) == ClockOf(a.iJD)
  {
    FieldsOf(a);
    SplitInstant(a.iJD);
    TimeIs(ClockOf(a.iJD));
  }

  /** The time of day of an instant that fields without a time zone stand for. */
  lemma ClockOfView(q: Date, iJD: int)
    requires IsView(q, iJD) && ValidJulianDay(iJD) && q.tz == 0 && 0 <= TimeOfDay(q) < DAY + 3600000
    ensures TimeOfDay(q) == ClockOf(iJD) || TimeOfDay(q) == ClockOf(iJD) + DAY
  {
    SplitInstant(iJD);
    var n := MonthStart(Month(q)) + q.D - 1;
    ClockIs(iJD, n, TimeOfDay(q), DayOf(iJD), ClockOf(iJD));
  }

  lemma ClockIs(iJD: int, n: int, tod: int, z: int, ms: int)
    requires iJD == n * DAY + tod - HALFDAY == z * DAY + ms - HALFDAY && 0 <= ms < DAY && 0 <= tod < DAY + 3600000
    ensures tod == ms || tod == ms + DAY
  {
  }

  lemma OperandOfInstant(p: Date)
    requires IsParsed(p) && p.validJD && Argument(p) != None
    ensures SameInstant(WithYMD_HMS(p), WithYMD_HMS(p)) && WithYMD_HMS(p).iJD == p.iJD
  {
    ValidArgument(p);
    ViewOf(p);
    DateAndTime(p);
    DatedAgrees(WithYMD_HMS(p), WithYMD_HMS(p), p.iJD);
  }

  lemma OperandOfTime(p: Date)
    requires IsParsed(p) && !p.validJD && !p.validYMD && Argument(p) != None
    ensures SameInstant(WithYMD_HMS(WithJD(p)), WithYMD_HMS(p)) && WithYMD_HMS(WithJD(p)).iJD == WithJD(p).iJD
  {
    var j := WithJD(p);
    ValidArgument(p);
    ViewOf(p);
    JdOfTime(p);
    TimeView(p);
    if p.tz == 0 {
      OnlyDate(j);
      ClockOfView(WithYMD_HMS(p), j.iJD);
    } else {
      DateAndTime(j);
    }
    DatedAgrees(WithYMD_HMS(j), WithYMD_HMS(p), j.iJD);
  }

  lemma OperandOfDay(p: Date)
    requires IsParsed(p) && !p.validJD && p.validYMD && Argument(p) != None
    ensures var p1 := WithYMD_HMS(Kept(WithJD(p)));
            SameInstant(p1, WithYMD_HMS(p)) && p1.iJD == WithJD(p).iJD
  {
    var j := WithJD(p);
    ValidArgument(p);
    JdOfDate(p);
    ViewOfDay(p);
    if p.D > 28 {
      OperandOfLateDay(p, j, Kept(j));
    } else if p.validHMS {
      FullView(j);
      KeptAgrees(j);
    } else {
      DateView(j);
      TimedIs(j);
      KeptAgrees(WithTime(j));
    }
  }

  /** A date after the 28th is computed anew. */
  lemma OperandOfLateDay(p: Date, j: Date, a: Date)
    requires IsParsed(p) && !p.validJD && p.validYMD && ValidJulianDay(j.iJD) && IsView(WithYMD_HMS(p), j.iJD)
    requires j == p.(validJD := true, iJD := j.iJD) && a == j.(validYMD := false)
    requires p.validHMS ==> WithYMD_HMS(p) == p
    ensures SameInstant(WithYMD_HMS(a), WithYMD_HMS(p)) && WithYMD_HMS(a).iJD == j.iJD
  {
    if p.validHMS {
      OnlyDate(a);
      ClockOfView(p, j.iJD);
    } else {
      DateAndTime(a);
    }
    DatedAgrees(WithYMD_HMS(a), WithYMD_HMS(p), j.iJD);
  }

  /** What timediff works with, and what the modifier starts from, for any valid argument. */
  lemma OperandOf(p: Date)
    requires IsParsed(p) && Argument(p) != None
    ensures var p1 := WithYMD_HMS(Argument(p).value);
            SameInstant(p1, WithYMD_HMS(p)) && p1.iJD == Argument(p).value.iJD
  {
    ValidArgument(p);
    if p.validJD {
      OperandOfInstant(p);
    } else if !p.validYMD {
      JdOfTime(p);
      OperandOfTime(p);
    } else {
      OperandOfDay(p);
    }
  }
}
