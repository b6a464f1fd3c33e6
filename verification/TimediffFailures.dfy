/** Arguments for which timediff is not inverted: a pair for each way in which the condition of the theorem can fail. */
module TimediffFailures {
  import opened Basics
  import opened Calendar
  import opened JulianDay
  import opened DateTime
  import opened Timediff
  import opened Operands
  import opened TimediffProof
  import opened TimediffCases

  /** A text that names a date and a time. */
  function Text(y: int, m: int, d: int, h: int, min: int): Date {
    ErrorDate.(isError := false, Y := y, M := m, D := d, h := h, m := min, validYMD := true, validHMS := true)
  }

  /** A text that names a time and a time zone, in minutes. */
  function ZonedTime(h: int, tz: int): Date {
    ErrorDate.(isError := false, h := h, tz := tz, validHMS := true)
  }

  // ---- The operands ----

  /** p names time ms of day d of month i. */
  predicate Names(p: Date, i: int, d: int, ms: int) {
    && IsParsed(p) && !p.validJD && p.validYMD && p.validHMS && FIRST <= i <= LAST
    && Month(p) == i && p.D == d && TimeOfDay(p) == ms && ValidJulianDay(At(i, d, ms))
  }

  /** p1 is what timediff works with for p: time ms of day d of month i, at the instant iJD. */
  predicate WorksWith(p: Date, p1: Date, i: int, d: int, ms: int, iJD: int) {
    && Argument(p).Some? && p1 == WithYMD_HMS(Argument(p).value) && SameInstant(p1, WithYMD_HMS(p))
    && Month(p1) == i && p1.D == d && TimeOfDay(p1) == ms && p1.iJD == iJD
  }

  lemma KeptIs(p: Date, i: int, d: int, ms: int)
    requires Names(p, i, d, ms)
    ensures Argument(p) == Some(Kept(p.(validJD := true, iJD := At(i, d, ms)))) && WithYMD_HMS(p) == p
  {
    Recomputed(p);
    FullView(p);
  }

  /** A date up to the 28th is kept. */
  lemma Early(p: Date, i: int, d: int, ms: int) returns (p1: Date)
    requires Names(p, i, d, ms) && d <= 28
    ensures WorksWith(p, p1, i, d, ms, At(i, d, ms)) && WithYMD_HMS(p) == p
  {
    KeptIs(p, i, d, ms);
    p1 := p.(validJD := true, iJD := At(i, d, ms));
    FullView(p1);
    OperandOf(p);
  }

  /** A later one becomes the date of its instant, which is day e of month j. */
  lemma Computed(p: Date, i: int, d: int, ms: int, j: int, e: int) returns (p1: Date)
    requires Names(p, i, d, ms) && d > 28 && FIRST <= j && 1 <= e <= Length(j)
    requires MonthStart(j) + e == MonthStart(i) + d + if ms >= DAY then 1 else 0
    ensures WorksWith(p, p1, j, e, ms, At(i, d, ms)) && WithYMD_HMS(p) == p
  {
    KeptIs(p, i, d, ms);
    OperandOf(p);
    var a := p.(validJD := true, iJD := At(i, d, ms), validYMD := false);
    OnlyDate(a);
    p1 := WithYMD_HMS(a);
    IsDay(p1, p, i, j, e);
  }

  lemma IsDay(p1: Date, p: Date, i: int, j: int, e: int)
    requires IsOperand(p1) && i == Month(p) && i >= FIRST && FIRST <= j && 1 <= e <= Length(j)
    requires p1.iJD == InMonth(p, i) && TimeOfDay(p1) == TimeOfDay(p) && IsDated(p1, p1.iJD)
    requires MonthStart(j) + e == MonthStart(i) + p.D + if TimeOfDay(p) >= DAY then 1 else 0
    ensures Month(p1) == j && p1.D == e
  {
    var z, ms := MonthStart(j) + e - 1, TimeOfDay(p) - if TimeOfDay(p) >= DAY then DAY else 0;
    SplitInstant(p1.iJD);
    DayIs(p1.iJD, DayOf(p1.iJD), ClockOf(p1.iJD));
    OneDay(p1.iJD, z, ms);
    IsDateOf(DateOf(z), z);
    OneMonth(Month(p1), j, z);
  }

  lemma OneDay(iJD: int, z: int, ms: int)
    requires ValidJulianDay(iJD) && 0 <= ms < DAY && iJD == z * DAY + ms - HALFDAY
    ensures DayOf(iJD) == z && 0 <= z <= MAXDAY
  {
    SplitInstant(iJD);
  }

  /** timediff of A and B, with what the theorems say of it. */
  lemma Difference(pA: Date, pB: Date) returns (z: Span)
    requires IsParsed(pA) && IsParsed(pB) && Argument(pA).Some? && Argument(pB).Some?
    ensures IsTimediffOf(pA, pB, z)
    ensures IsOperand(WithYMD_HMS(Argument(pA).value)) && IsOperand(WithYMD_HMS(Argument(pB).value))
    ensures var p1, p2 := WithYMD_HMS(Argument(pA).value), WithYMD_HMS(Argument(pB).value);
            && (AddSpan(pB, z) != None <==> Ordered(p1, p2))
            && (InvertsTo(Argument(pA).value.iJD, ArgumentPlus(pB, z)) <==> Inverted(p1, p2, WithYMD_HMS(pB)))
  {
    OperandOf(pA);
    OperandOf(pB);
    z := Exists(WithYMD_HMS(Argument(pA).value), WithYMD_HMS(Argument(pB).value));
    AcceptedIff(pA, pB, z);
    TimediffInverts(pA, pB, z);
  }

  /** The difference is not accepted as a modifier. */
  predicate IsRejected(pA: Date, pB: Date, z: Span) {
    IsTimediffOf(pA, pB, z) && AddSpan(pB, z) == None
  }

  /** The difference is accepted, but leads elsewhere. */
  predicate IsMissed(pA: Date, pB: Date, z: Span) {
    IsTimediffOf(pA, pB, z) && AddSpan(pB, z) != None && !InvertsTo(Argument(pA).value.iJD, ArgumentPlus(pB, z))
  }

  // ---- The months of a year ----

  lemma FirstOf(y: int, m: int, i: int)
    requires 1 <= m <= 12 && i == Index(y, m) && FIRST <= i
    ensures MonthStart(i) == DayNumber(y, m, 1)
  {
    IndexInverse(y, m);
    DayNumberCounts(i, 1);
  }

  lemma YearStarts(y: int, i: int)
    requires 1 <= y <= 9999 && i == Index(y, 1)
    ensures 400 <= MonthStart(i) <= MAXDAY - 335
  {
    FirstOf(y, 1, i);
    InParts(y, 1, 1);
  }

  lemma LengthIs(y: int, m: int)
    requires 1 <= m <= 12
    ensures Length(Index(y, m)) == DaysInMonth(y, m)
  {
    IndexInverse(y, m);
  }

  lemma FirstMonths(y: int, i: int)
    requires !IsLeap(y) && i == Index(y, 1)
    ensures Length(i - 1) == 31 && Length(i) == 31 && Length(i + 1) == 28 && Length(i + 2) == 31
  {
    LengthIs(y - 1, 12);
    LengthIs(y, 1);
    LengthIs(y, 2);
    LengthIs(y, 3);
  }

  /** Where the months around the start of a year start, when its February has 28 days. */
  lemma Starts(y: int, i: int)
    requires 1 <= y <= 9999 && !IsLeap(y) && i == Index(y, 1)
    ensures FIRST + 2 < i && i + 3 <= LAST && 400 <= MonthStart(i) <= MAXDAY - 335
    ensures MonthStart(i - 1) == MonthStart(i) - 31 && MonthStart(i + 1) == MonthStart(i) + 31
    ensures MonthStart(i + 2) == MonthStart(i) + 59 && MonthStart(i + 3) == MonthStart(i) + 90
    ensures Length(i) == 31 && Length(i + 1) == 28 && Length(i + 2) == 31
  {
    YearStarts(y, i);
    FirstMonths(y, i);
  }

  // ---- Months that are not equally long ----

  /** From 31 February, which is read as 3 March, it is a month to 3 April, but a month later it is 31 March. */
  lemma FebruaryThirtyFirst(y: int) returns (pA: Date, pB: Date, z: Span)
    requires 1 <= y <= 9999 && !IsLeap(y)
    ensures pA == Text(y, 4, 3, 0, 0) && pB == Text(y, 2, 31, 0, 0) && IsMissed(pA, pB, z)
  {
    pA, pB := Text(y, 4, 3, 0, 0), Text(y, 2, 31, 0, 0);
    Starts(y, Index(y, 1));
    z := ShortMonth(pA, pB, Index(y, 1) + 1, 0);
  }

  lemma ShortMonth(pA: Date, pB: Date, i: int, ms: int) returns (z: Span)
    requires Names(pA, i + 2, 3, ms) && Names(pB, i, 31, ms) && ms < DAY
    requires Length(i) == 28 && Length(i + 1) == 31
    ensures IsMissed(pA, pB, z)
  {
    var p1 := Early(pA, i + 2, 3, ms);
    var p2 := Computed(pB, i, 31, ms, i + 1, 3);
    NoFit(p1, p2, pB, i);
    z := Missed(pA, pB, p1, p2, pB);
  }

  lemma NoFit(p1: Date, p2: Date, q: Date, i: int)
    requires IsOperand(p1) && IsOperand(p2) && Month(p1) == i + 2 && Month(p2) == i + 1 && Month(q) == i
    requires p1.D == p2.D && TimeOfDay(p1) == TimeOfDay(p2) < DAY && TimeOfDay(p1) < DAY
    requires Length(i) == 28 && Length(i + 1) == 31
    ensures Ordered(p1, p2) && !Fits(p2, q, Reached(p1, p2))
  {
    NextMonth(p2, i + 1);
  }

  lemma Missed(pA: Date, pB: Date, p1: Date, p2: Date, q: Date) returns (z: Span)
    requires IsParsed(pA) && IsParsed(pB) && Argument(pA).Some? && Argument(pB).Some?
    requires p1 == WithYMD_HMS(Argument(pA).value) && p2 == WithYMD_HMS(Argument(pB).value) && q == WithYMD_HMS(pB)
    requires IsOperand(p1) && IsOperand(p2) && Month(p1) != Month(p2)
    requires Ordered(p1, p2) && !Fits(p2, q, Reached(p1, p2))
    ensures IsMissed(pA, pB, z)
  {
    z := Difference(pA, pB);
  }

  lemma Rejected(pA: Date, pB: Date, p1: Date, p2: Date) returns (z: Span)
    requires IsParsed(pA) && IsParsed(pB) && Argument(pA).Some? && Argument(pB).Some?
    requires p1 == WithYMD_HMS(Argument(pA).value) && p2 == WithYMD_HMS(Argument(pB).value)
    requires IsOperand(p1) && IsOperand(p2) && !Ordered(p1, p2)
    ensures IsRejected(pA, pB, z)
  {
    z := Difference(pA, pB);
  }

  // ---- Times from 24:00 on ----

  /** 30 January 24:00 is 31 January, but the time is still 24:00: the difference to 1 February is a day short. */
  lemma DayShort(y: int) returns (pA: Date, pB: Date, z: Span)
    requires 1 <= y <= 9999 && !IsLeap(y)
    ensures pA == Text(y, 2, 1, 0, 0) && pB == Text(y, 1, 30, 24, 0) && IsMissed(pA, pB, z)
  {
    pA, pB := Text(y, 2, 1, 0, 0), Text(y, 1, 30, 24, 0);
    Starts(y, Index(y, 1));
    z := LateB(pA, pB, Index(y, 1), DAY);
  }

  lemma LateB(pA: Date, pB: Date, i: int, ms: int) returns (z: Span)
    requires Names(pA, i + 1, 1, 0) && Names(pB, i, 30, ms) && ms == DAY && Length(i) == 31
    ensures IsMissed(pA, pB, z)
  {
    var p1 := Early(pA, i + 1, 1, 0);
    var p2 := Computed(pB, i, 30, ms, i, 31);
    LateNoFit(p1, p2, pB, i);
    z := Missed(pA, pB, p1, p2, pB);
  }

  lemma LateNoFit(p1: Date, p2: Date, q: Date, i: int)
    requires IsOperand(p1) && IsOperand(p2) && Month(p2) == Month(q) == i && Late(p2) == 1
    requires if p1.iJD < p2.iJD then Month(p1) < i else Month(p1) > i && InMonth(p2, i) <= p1.iJD
    ensures Ordered(p1, p2) && !Fits(p2, q, Reached(p1, p2))
  {
  }

  /** Back from 30 January 24:30 to 1 December, 31 days and more are left over, and 31 of them are lost. */
  lemma DaysLost(y: int) returns (pA: Date, pB: Date, z: Span)
    requires 2 <= y <= 9999 && !IsLeap(y)
    ensures pA == Text(y - 1, 12, 1, 0, 0) && pB == Text(y, 1, 30, 24, 30) && IsMissed(pA, pB, z)
    ensures z.neg && z.D == 0
  {
    pA, pB := Text(y - 1, 12, 1, 0, 0), Text(y, 1, 30, 24, 30);
    Starts(y, Index(y, 1));
    FirstMonths(y, Index(y, 1));
    z := LateBack(pA, pB, Index(y, 1), DAY + 1800000);
  }

  lemma LateBack(pA: Date, pB: Date, i: int, ms: int) returns (z: Span)
    requires FIRST < i && Names(pA, i - 1, 1, 0) && Names(pB, i, 30, ms) && DAY < ms < DAY + 3600000
    requires Length(i - 1) == 31 && Length(i) == 31
    ensures IsMissed(pA, pB, z) && z.neg && z.D == 0
  {
    var p1 := Early(pA, i - 1, 1, 0);
    var p2 := Computed(pB, i, 30, ms, i, 31);
    NextMonth(p2, i - 1);
    LateNoFit(p1, p2, pB, i);
    z := Missed(pA, pB, p1, p2, pB);
    Lost(p1, p2, z, i);
  }

  lemma Lost(p1: Date, p2: Date, z: Span, i: int)
    requires IsOperand(p1) && IsOperand(p2) && IsTimediff(p1, p2, z) && Month(p1) == i - 1 && Month(p2) == i
    requires p1.iJD == At(i - 1, 1, 0) && p2.iJD == InMonth(p2, i) - DAY && p2.D == 31 && Length(i - 1) == 31
    requires DAY < TimeOfDay(p2)
    ensures z.neg && z.D == 0
  {
    assert MonthStart(i) == MonthStart(i - 1) + 31;
    MonthsAre(p1, p2, z);
    LostDays(z, InMonth(p2, i - 1) - p1.iJD);
  }

  lemma LostDays(z: Span, ms: int)
    requires IsRemainder(z, ms) && 31 * DAY <= ms < 32 * DAY
    ensures z.D == 0
  {
  }

  /** 28 February 24:00 is the instant of 1 March: no time between them, but one month back. */
  lemma MonthAhead(y: int) returns (pA: Date, pB: Date, z: Span)
    requires 1 <= y <= 9999 && !IsLeap(y)
    ensures pA == Text(y, 2, 28, 24, 0) && pB == Text(y, 3, 1, 0, 0) && IsRejected(pA, pB, z)
  {
    pA, pB := Text(y, 2, 28, 24, 0), Text(y, 3, 1, 0, 0);
    Starts(y, Index(y, 1));
    z := Ahead(pA, pB, Index(y, 1) + 1, DAY, 0);
  }

  /** The same in the other direction: 28 February 24:30 is after 1 March. */
  lemma MonthBehind(y: int) returns (pA: Date, pB: Date, z: Span)
    requires 1 <= y <= 9999 && !IsLeap(y)
    ensures pA == Text(y, 3, 1, 0, 0) && pB == Text(y, 2, 28, 24, 30) && IsRejected(pA, pB, z)
  {
    pA, pB := Text(y, 3, 1, 0, 0), Text(y, 2, 28, 24, 30);
    Starts(y, Index(y, 1));
    z := Behind(pA, pB, Index(y, 1) + 1, 0, DAY + 1800000);
  }

  lemma Ahead(pA: Date, pB: Date, i: int, ms: int, ns: int) returns (z: Span)
    requires Names(pA, i, 28, ms) && Names(pB, i + 1, 1, ns) && Length(i) == 28 && DAY + ns <= ms
    ensures IsRejected(pA, pB, z)
  {
    var p1 := Early(pA, i, 28, ms);
    var p2 := Early(pB, i + 1, 1, ns);
    z := Rejected(pA, pB, p1, p2);
  }

  lemma Behind(pA: Date, pB: Date, i: int, ms: int, ns: int) returns (z: Span)
    requires Names(pA, i + 1, 1, ms) && Names(pB, i, 28, ns) && Length(i) == 28 && DAY + ms < ns
    ensures IsRejected(pA, pB, z)
  {
    var p1 := Early(pA, i + 1, 1, ms);
    var p2 := Early(pB, i, 28, ns);
    z := Rejected(pA, pB, p1, p2);
  }

  /** 30 January 24:30 is before 1 February, but 31 January 24:30, its date and time, is after it. */
  lemma DateAhead(y: int) returns (pA: Date, pB: Date, z: Span)
    requires 1 <= y <= 9999 && !IsLeap(y)
    ensures pA == Text(y, 2, 1, 0, 0) && pB == Text(y, 1, 30, 24, 30) && IsRejected(pA, pB, z)
  {
    pA, pB := Text(y, 2, 1, 0, 0), Text(y, 1, 30, 24, 30);
    Starts(y, Index(y, 1));
    z := LateAhead(pA, pB, Index(y, 1), DAY + 1800000);
  }

  lemma LateAhead(pA: Date, pB: Date, i: int, ms: int) returns (z: Span)
    requires Names(pA, i + 1, 1, 0) && Names(pB, i, 30, ms) && DAY < ms < DAY + 3600000 && Length(i) == 31
    ensures IsRejected(pA, pB, z)
  {
    var p1 := Early(pA, i + 1, 1, 0);
    var p2 := Computed(pB, i, 30, ms, i, 31);
    NextMonth(p2, i);
    z := Rejected(pA, pB, p1, p2);
  }

  // ---- A time with a time zone ----

  /** The instant of a time of 1 January 2000 that its time zone moves to the evening before. */
  lemma Zoned(p: Date, ms: int) returns (p2: Date)
    requires IsParsed(p) && !p.validJD && !p.validYMD && p.tz != 0 && Clock(p) == ms - DAY && 0 <= ms < DAY
    ensures WorksWith(p, p2, JAN2000 - 1, 31, ms, At(JAN2000 - 1, 31, ms))
    ensures WithYMD_HMS(p) == p.(Y := 2000, M := 1, D := 1, validYMD := true)
  {
    TimeView(p);
    JdOfZoned(p, ms);
    OperandOf(p);
    DateAndTime(WithJD(p));
    p2 := WithYMD_HMS(WithJD(p));
    ZonedDay(p2, JAN2000 - 1, ms);
  }

  lemma Start2000(i: int)
    requires i == JAN2000
    ensures MonthStart(i) == 2451545 && MonthStart(i - 1) == 2451514 && Length(i - 1) == 31
  {
    DayNumberCounts(i, 1);
    assert YearOf(i) == 2000 && MonthOf(i) == 1;
    NewYear2000();
    assert YearOf(i - 1) == 1999 && MonthOf(i - 1) == 12;
  }

  lemma JdOfZoned(p: Date, ms: int)
    requires IsParsed(p) && !p.validJD && !p.validYMD && p.tz != 0 && Clock(p) == ms - DAY && 0 <= ms < DAY
    ensures Argument(p) == Some(WithJD(p))
    ensures WithJD(p) == p.(validJD := true, iJD := At(JAN2000 - 1, 31, ms), validHMS := false, tz := 0)
  {
    MidnightIs(2000, 1, 1);
    Start2000(JAN2000);
  }

  lemma ZonedDay(p2: Date, i: int, ms: int)
    requires IsOperand(p2) && IsDated(p2, p2.iJD) && i >= FIRST && Length(i) == 31 && 0 <= ms < DAY
    requires p2.iJD == At(i, 31, ms) && TimeOfDay(p2) == ClockOf(p2.iJD)
    ensures Month(p2) == i && p2.D == 31 && TimeOfDay(p2) == ms
  {
    OneDay(p2.iJD, MonthStart(i) + 30, ms);
    SplitInstant(p2.iJD);
    IsDateOf(DateOf(MonthStart(i) + 30), MonthStart(i) + 30);
    OneMonth(Month(p2), i, MonthStart(i) + 30);
  }

  /**
   01:00+05:00 is read as that time of 1 January 2000, of which the instant is in December. To 1 May it is four
   months from 31 December, with 31 April read as 1 May, but four months from 1 January is a day less.
   */
  lemma ZoneDayShort() returns (pA: Date, pB: Date, z: Span)
    ensures pA == Text(2000, 5, 1, 20, 0) && pB == ZonedTime(1, 300) && IsMissed(pA, pB, z)
  {
    pA, pB := Text(2000, 5, 1, 20, 0), ZonedTime(1, 300);
    Spring2000(JAN2000);
    z := ZonedSpring(pA, pB, JAN2000, 72000000);
  }

  lemma Spring2000(i: int)
    requires i == JAN2000
    ensures MonthStart(i + 4) == 2451666 && Length(i + 3) == 30 && Length(i - 1) == 31
  {
    DayNumberCounts(i + 4, 1);
    assert YearOf(i + 4) == 2000 && MonthOf(i + 4) == 5;
    assert DayNumber(2000, 5, 1) == 2451666;
    assert YearOf(i - 1) == 1999 && MonthOf(i - 1) == 12;
    assert YearOf(i + 3) == 2000 && MonthOf(i + 3) == 4;
  }

  lemma ZonedSpring(pA: Date, pB: Date, i: int, ms: int) returns (z: Span)
    requires i == JAN2000 && Names(pA, i + 4, 1, ms) && ms < DAY && Length(i + 3) == 30 && Length(i - 1) == 31
    requires IsParsed(pB) && !pB.validJD && !pB.validYMD && pB.tz != 0 && Clock(pB) == ms - DAY
    ensures IsMissed(pA, pB, z)
  {
    var p1 := Early(pA, i + 4, 1, ms);
    var p2 := Zoned(pB, ms);
    SpringNoFit(p1, p2, WithYMD_HMS(pB), i);
    z := Missed(pA, pB, p1, p2, WithYMD_HMS(pB));
  }

  lemma SpringNoFit(p1: Date, p2: Date, q: Date, i: int)
    requires IsOperand(p1) && IsOperand(p2) && Month(p1) == i + 4 && Month(p2) == i - 1 && Month(q) == i
    requires p1.D == 1 && p2.D == 31 && TimeOfDay(p1) == TimeOfDay(p2) < DAY && p1.iJD >= p2.iJD
    requires Length(i + 3) == 30 && Length(i - 1) == 31
    ensures Ordered(p1, p2) && !Fits(p2, q, Reached(p1, p2))
  {
    NextMonth(p2, i + 3);
  }

  /** To the last evening of 9999 it is a whole number of months from 31 December, which lead from 1 January too far. */
  lemma ZoneTooLate() returns (pA: Date, pB: Date, z: Span)
    ensures pA == Text(9999, 12, 31, 21, 0) && pB == ZonedTime(1, 300) && IsMissed(pA, pB, z)
  {
    pA, pB := Text(9999, 12, 31, 21, 0), ZonedTime(1, 300);
    LastMonth(LAST);
    z := ZonedEnd(pA, pB, LAST, 72000000, 75600000);
  }

  lemma LastMonth(i: int)
    requires i == LAST
    ensures Length(i) == 31 && MonthStart(i) == MAXDAY - 30
  {
    assert YearOf(i) == 9999 && MonthOf(i) == 12;
    LastDay();
  }

  lemma ZonedEnd(pA: Date, pB: Date, i: int, ms: int, ns: int) returns (z: Span)
    requires i == LAST && Length(i) == 31 && Names(pA, i, 31, ns) && 0 <= ms < ns < DAY
    requires IsParsed(pB) && !pB.validJD && !pB.validYMD && pB.tz != 0 && Clock(pB) == ms - DAY
    ensures IsMissed(pA, pB, z)
  {
    var p1 := Computed(pA, i, 31, ns, i, 31);
    var p2 := Zoned(pB, ms);
    EndNoFit(p1, p2, WithYMD_HMS(pB), i);
    z := Missed(pA, pB, p1, p2, WithYMD_HMS(pB));
  }

  lemma EndNoFit(p1: Date, p2: Date, q: Date, i: int)
    requires IsOperand(p1) && IsOperand(p2) && Month(p1) == i == LAST && Month(q) == Month(p2) + 1 < i
    requires p1.D == 31 && p2.D == 31 && TimeOfDay(p2) < TimeOfDay(p1) < DAY
    ensures Ordered(p1, p2) && !Fits(p2, q, Reached(p1, p2))
  {
    LaterMonth(p2, Month(p2), i);
  }
}
