/** Every pair of arguments has a difference; what the theorem says below 24:00; and a pair for each way to fail. */
module TimediffCases {
  import opened Basics
  import opened Division
  import opened Calendar
  import opened JulianDay
  import opened DateTime
  import opened Timediff
  import opened Operands
  import opened TimediffProof

  // ---- The difference exists, and there is only one ----


  lemma SpanOfIs(neg: bool, t: int, ms: int) returns (z: Span)
    requires 0 <= ms < 32 * DAY
    ensures z.neg == neg && 12 * z.Y + z.M == t && 0 <= z.M <= 11 && IsRemainder(z, ms)
  {
    var k := if ms < 31 * DAY then ms else ms - 31 * DAY;
    var d, r := k / DAY, k % DAY;
    TimeIs(r);
    z := Span(neg, YearOf(t), MonthOf(t) - 1, d, Some(TimeOf(r)));
  }

  lemma Exists(p1: Date, p2: Date) returns (z: Span)
    requires IsOperand(p1) && IsOperand(p2)
    ensures IsTimediff(p1, p2, z)
  {
    if Month(p1) == Month(p2) {
      z := SpanOfIs(p1.iJD < p2.iJD, 0, if p1.iJD < p2.iJD then p2.iJD - p1.iJD else p1.iJD - p2.iJD);
    } else if p1.iJD >= p2.iJD {
      z := ExistsUp(p1, p2, Reached(p1, p2));
    } else {
      z := ExistsDown(p1, p2, Reached(p1, p2));
    }
  }

  lemma ExistsUp(p1: Date, p2: Date, i: int) returns (z: Span)
    requires IsOperand(p1) && IsOperand(p2) && p1.iJD >= p2.iJD && Month(p1) != Month(p2) && i == Reached(p1, p2)
    ensures IsTimediff(p1, p2, z)
  {
    ReachedIs(p1, p2);
    NextMonth(p2, i);
    z := SpanOfIs(false, i - Month(p2), p1.iJD - InMonth(p2, i));
  }

  lemma NotPast(p1: Date, p2: Date, i: int)
    requires IsOperand(p1) && IsOperand(p2) && p1.iJD < p2.iJD && Month(p1) != Month(p2) && IsDown(p1, p2, i)
    ensures i <= LAST
  {
    if Month(p1) < Month(p2) {
      OrderedDown(p1, p2, i);
    } else {
      LaterMonth(p2, Month(p2), Month(p1));
      if i > Month(p1) { LaterMonth(p2, Month(p1), i - 1); }
    }
  }

  lemma LeftBelow(p1: Date, p2: Date, i: int)
    requires IsOperand(p1) && IsOperand(p2) && p1.iJD < p2.iJD && IsDown(p1, p2, i)
    ensures 0 <= InMonth(p2, i) - p1.iJD < 32 * DAY
  {
    if i > Month(p1) { NextMonth(p2, i - 1); }
  }

  lemma ExistsDown(p1: Date, p2: Date, i: int) returns (z: Span)
    requires IsOperand(p1) && IsOperand(p2) && p1.iJD < p2.iJD && Month(p1) != Month(p2) && i == Reached(p1, p2)
    ensures IsTimediff(p1, p2, z)
  {
    ReachedIs(p1, p2);
    NotPast(p1, p2, i);
    LeftBelow(p1, p2, i);
    z := SpanOfIs(true, Month(p2) - i, InMonth(p2, i) - p1.iJD);
  }

  lemma TimesAgree(t: Time, u: Time)
    requires ReadableTime(t) && ReadableTime(u) && t.h <= 23 && u.h <= 23
    requires MsOf(t) == MsOf(u)
    ensures t == u
  {
  }

  lemma DaysAgree(d: int, e: int, a: int, b: int)
    requires d * DAY + a == e * DAY + b && 0 <= a < DAY && 0 <= b < DAY
    ensures d == e && a == b
  {
  }

  lemma RemaindersAgree(y: Span, z: Span, ms: int)
    requires IsRemainder(y, ms) && IsRemainder(z, ms)
    ensures y.D == z.D && y.time == z.time
  {
    DaysAgree(y.D, z.D, MsOf(y.time.value), MsOf(z.time.value));
    TimesAgree(y.time.value, z.time.value);
  }

  lemma MonthsAgree(y: Span, z: Span)
    requires y.neg == z.neg && Months(y) == Months(z) && 0 <= y.M <= 11 && 0 <= z.M <= 11
    ensures y.Y == z.Y && y.M == z.M
  {
  }

  lemma LeftOverIs(p1: Date, p2: Date, z: Span) returns (ms: int)
    requires IsOperand(p1) && IsOperand(p2) && IsTimediff(p1, p2, z)
    ensures ms == LeftMs(p1, p2, Months(z)) && IsRemainder(z, ms)
  {
    MonthsAre(p1, p2, z);
    ms := LeftMs(p1, p2, Months(z));
  }

  /** What is left over when p2 has been moved by t months. */
  function LeftMs(p1: Date, p2: Date, t: int): int {
    var x := if Month(p1) == Month(p2) || Month(p2) + t < FIRST then p2.iJD else InMonth(p2, Month(p2) + t);
    if p1.iJD < p2.iJD then x - p1.iJD else p1.iJD - x
  }

  /** The difference is determined by the operands. */
  lemma Unique(p1: Date, p2: Date, y: Span, z: Span)
    requires IsOperand(p1) && IsOperand(p2) && IsTimediff(p1, p2, y) && IsTimediff(p1, p2, z)
    ensures y == z
  {
    MonthsAre(p1, p2, y);
    MonthsAre(p1, p2, z);
    MonthsAgree(y, z);
    var ms := LeftOverIs(p1, p2, y);
    var ms' := LeftOverIs(p1, p2, z);
    RemaindersAgree(y, z, ms);
  }

  // ---- Times below 24:00, without a time zone ----

  /** The time is below 24:00 and has no time zone. */
  predicate IsUsual(p: Date) {
    p.validHMS ==> p.h <= 23 && p.tz == 0
  }

  lemma UsualTime(p: Date)
    requires IsParsed(p) && IsUsual(p) && Argument(p).Some?
    ensures TimeOfDay(WithYMD_HMS(Argument(p).value)) < DAY
    ensures 0 <= Clock(WithYMD_HMS(p)) < DAY
  {
    ValidArgument(p);
    UsualOperand(Argument(p).value);
    if p.validJD {
      ViewOfInstant(p);
    } else if !p.validYMD {
      TimeView(p);
    } else if p.validHMS {
      FullView(p);
    } else {
      JdOfDate(p);
      DateView(p);
      TimedIs(WithJD(p));
    }
  }

  lemma UsualOperand(a: Date)
    requires a.validJD && ValidJulianDay(a.iJD) && (a.validHMS ==> TimeOfDay(a) < DAY)
    ensures TimeOfDay(WithYMD_HMS(a)) < DAY
  {
    if !a.validHMS { TimedIs(WithYMD(a)); }
  }

  /** A day is in the month of its date or, if it is past the end of that month, in the next. */
  lemma TrueMonth(p2: Date, q: Date)
    requires SameInstant(p2, q) && TimeOfDay(p2) < DAY && 0 <= Clock(q) < DAY
    ensures Late(p2) == 0 && Month(p2) == if q.D <= Length(Month(q)) then Month(q) else Month(q) + 1
  {
    var i, z := Month(q), MonthStart(Month(q)) + q.D - 1;
    assert MonthStart(i + 1) == MonthStart(i) + Length(i);
    OneMonth(Month(p2), if q.D <= Length(i) then i else i + 1, z);
  }

  /** Earlier operands are not in later months. */
  lemma InOrder(p1: Date, p2: Date)
    requires IsOperand(p1) && IsOperand(p2) && TimeOfDay(p1) < DAY && TimeOfDay(p2) < DAY && p1.iJD <= p2.iJD
    ensures Month(p1) <= Month(p2)
  {
    if Month(p2) < Month(p1) {
      assert MonthStart(Month(p2) + 1) == MonthStart(Month(p2)) + Length(Month(p2));
      MonthStartMono(Month(p2) + 1, Month(p1));
    }
  }

  predicate FitsUsually(p1: Date, p2: Date, q: Date)
    requires IsOperand(p1) && IsOperand(p2)
  {
    q.D <= Length(Month(q)) || Month(p1) == Month(p2) || Length(Month(q)) == Length(Reached(p1, p2) - 1)
  }

  /**
   Without times of 24:00 and time zones, the difference is always accepted. It gives A unless the day of B is past
   the end of its month, A is not in the month that B is really in, and the month before the one that timediff
   reaches is not as long as the month of B.
   */
  lemma UsualInverts(pA: Date, pB: Date, z: Span)
    requires IsParsed(pA) && IsParsed(pB) && IsTimediffOf(pA, pB, z) && IsUsual(pA) && IsUsual(pB)
    ensures var p1, p2, q := WithYMD_HMS(Argument(pA).value), WithYMD_HMS(Argument(pB).value), WithYMD_HMS(pB);
            AddSpan(pB, z) != None && (InvertsTo(p1.iJD, ArgumentPlus(pB, z)) <==> FitsUsually(p1, p2, q))
    ensures WithYMD_HMS(Argument(pA).value).iJD == Argument(pA).value.iJD
  {
    OperandOf(pA);
    UsualPair(pA, pB);
    Usual(WithYMD_HMS(Argument(pA).value), WithYMD_HMS(Argument(pB).value), pB, WithYMD_HMS(pB), z);
  }

  /** Operands at usual times, and the fields q of B. */
  predicate IsUsualPair(p1: Date, p2: Date, q: Date) {
    && IsOperand(p1) && SameInstant(p2, q)
    && TimeOfDay(p1) < DAY && TimeOfDay(p2) < DAY && 0 <= Clock(q) < DAY
  }

  lemma UsualPair(pA: Date, pB: Date)
    requires IsParsed(pA) && IsParsed(pB) && Argument(pA).Some? && Argument(pB).Some? && IsUsual(pA) && IsUsual(pB)
    ensures IsUsualPair(WithYMD_HMS(Argument(pA).value), WithYMD_HMS(Argument(pB).value), WithYMD_HMS(pB))
  {
    UsualTime(pA);
    UsualTime(pB);
    OperandOf(pA);
    OperandOf(pB);
  }

  lemma Usual(p1: Date, p2: Date, pB: Date, q: Date, z: Span)
    requires IsUsualPair(p1, p2, q) && q == WithYMD_HMS(pB) && IsTimediff(p1, p2, z)
    ensures AddSpan(pB, z) != None
    ensures InvertsTo(p1.iJD, ArgumentPlus(pB, z)) <==> FitsUsually(p1, p2, q)
  {
    UsualAccepted(p1, p2, pB, z);
    Inverts(p1, p2, pB, q, z);
    UsualInverted(p1, p2, q);
  }

  lemma UsualAccepted(p1: Date, p2: Date, p: Date, z: Span)
    requires IsOperand(p1) && IsOperand(p2) && TimeOfDay(p1) < DAY && TimeOfDay(p2) < DAY && IsTimediff(p1, p2, z)
    ensures AddSpan(p, z) != None
  {
    UsualOrdered(p1, p2);
    NotNegative(p1, p2, z);
    AcceptedIs(p, z);
  }

  lemma UsualInverted(p1: Date, p2: Date, q: Date)
    requires IsUsualPair(p1, p2, q)
    ensures Inverted(p1, p2, q) <==> FitsUsually(p1, p2, q)
  {
    UsualOrdered(p1, p2);
    if Month(p1) != Month(p2) { UsualFits(p1, p2, q); }
  }

  lemma UsualOrdered(p1: Date, p2: Date)
    requires IsOperand(p1) && IsOperand(p2) && TimeOfDay(p1) < DAY && TimeOfDay(p2) < DAY
    ensures Ordered(p1, p2)
  {
    if p1.iJD < p2.iJD { InOrder(p1, p2); } else { InOrder(p2, p1); }
  }

  lemma UsualFits(p1: Date, p2: Date, q: Date)
    requires IsOperand(p1) && SameInstant(p2, q) && TimeOfDay(p1) < DAY && TimeOfDay(p2) < DAY && 0 <= Clock(q) < DAY
    requires Month(p1) != Month(p2)
    ensures Fits(p2, q, Reached(p1, p2)) <==> q.D <= Length(Month(q)) || Length(Month(q)) == Length(Reached(p1, p2) - 1)
  {
    TrueMonth(p2, q);
    ReachedNear(p1, p2);
    UsualOrdered(p1, p2);
    OrderedIs(p1, p2);
  }
}
