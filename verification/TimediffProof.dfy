/** When timediff(A, B) is accepted as a modifier of B, and when it leads from B to A. */
module TimediffProof {
  import opened Basics
  import opened Calendar
  import opened JulianDay
  import opened DateTime
  import opened Timediff
  import opened Operands

  function Signed(neg: bool, x: int): int {
    if neg then -x else x
  }

  /** The months of a span, with its sign. */
  function Months(z: Span): int {
    Signed(z.neg, 12 * z.Y + z.M)
  }

  // ---- The month that timediff moves its second operand to ----

  /** The month of the first operand, or one of the two before it, or one of the two after it. */
  function Reached(p1: Date, p2: Date): int
    requires IsOperand(p1) && IsOperand(p2)
  {
    var a := Month(p1);
    if p1.iJD >= p2.iJD then
      if InMonth(p2, a) <= p1.iJD then a else if InMonth(p2, a - 1) <= p1.iJD then a - 1 else a - 2
    else
      if InMonth(p2, a) >= p1.iJD then a else if InMonth(p2, a + 1) >= p1.iJD then a + 1 else a + 2
  }

  lemma TwoBack(p1: Date, p2: Date)
    requires IsOperand(p1) && IsOperand(p2)
    ensures InMonth(p2, Month(p1) - 2) <= p1.iJD
  {
    var i := Month(p1) - 2;
    assert MonthStart(i + 2) == MonthStart(i) + Length(i) + Length(i + 1);
  }

  lemma TwoForth(p1: Date, p2: Date)
    requires IsOperand(p1) && IsOperand(p2)
    ensures InMonth(p2, Month(p1) + 2) >= p1.iJD
  {
    var i := Month(p1);
    assert MonthStart(i + 2) == MonthStart(i) + Length(i) + Length(i + 1);
  }

  /** The latest month, not after that of p1, in which p2 is not after p1. */
  predicate IsUp(p1: Date, p2: Date, i: int) {
    FIRST <= i <= Month(p1) && InMonth(p2, i) <= p1.iJD && (i < Month(p1) ==> p1.iJD < InMonth(p2, i + 1))
  }

  /** The first month, not before that of p1, in which p2 is not before p1. */
  predicate IsDown(p1: Date, p2: Date, i: int) {
    FIRST <= Month(p1) <= i && InMonth(p2, i) >= p1.iJD && (i > Month(p1) ==> p1.iJD > InMonth(p2, i - 1))
  }

  lemma OneUp(p1: Date, p2: Date, i: int, j: int)
    requires IsUp(p1, p2, i) && IsUp(p1, p2, j)
    ensures i == j
  {
    if i < j { LaterMonth(p2, i + 1, j); }
    if j < i { LaterMonth(p2, j + 1, i); }
  }

  lemma OneDown(p1: Date, p2: Date, i: int, j: int)
    requires IsDown(p1, p2, i) && IsDown(p1, p2, j)
    ensures i == j
  {
    if i < j { LaterMonth(p2, i, j - 1); }
    if j < i { LaterMonth(p2, j, i - 1); }
  }

  lemma ReachedIs(p1: Date, p2: Date)
    requires IsOperand(p1) && IsOperand(p2)
    ensures if p1.iJD >= p2.iJD then IsUp(p1, p2, Reached(p1, p2)) else IsDown(p1, p2, Reached(p1, p2))
  {
    TwoBack(p1, p2);
    TwoForth(p1, p2);
  }

  lemma ReachedUp(p1: Date, p2: Date, i: int)
    requires IsOperand(p1) && IsOperand(p2) && p1.iJD >= p2.iJD
    ensures IsUp(p1, p2, i) <==> i == Reached(p1, p2)
  {
    ReachedIs(p1, p2);
    if IsUp(p1, p2, i) { OneUp(p1, p2, i, Reached(p1, p2)); }
  }

  lemma ReachedDown(p1: Date, p2: Date, i: int)
    requires IsOperand(p1) && IsOperand(p2) && p1.iJD < p2.iJD
    ensures IsDown(p1, p2, i) <==> i == Reached(p1, p2)
  {
    ReachedIs(p1, p2);
    if IsDown(p1, p2, i) { OneDown(p1, p2, i, Reached(p1, p2)); }
  }

  /** The months of a difference lead from the month of p2 to the month reached. */
  lemma MonthsAre(p1: Date, p2: Date, z: Span)
    requires IsOperand(p1) && IsOperand(p2) && IsTimediff(p1, p2, z)
    ensures Months(z) == if Month(p1) == Month(p2) then 0 else Reached(p1, p2) - Month(p2)
  {
    if Month(p1) != Month(p2) {
      var i := Month(p2) + Months(z);
      if z.neg { ReachedDown(p1, p2, i); } else { ReachedUp(p1, p2, i); }
    }
  }

  // ---- When the modifier accepts the difference ----

  /**
   The operands are in one month, or their months are ordered as their instants are. Only for a time of 24:00 or
   later can p2, in its own month, be after its instant.
   */
  predicate Ordered(p1: Date, p2: Date)
    requires IsOperand(p2)
  {
    || Month(p1) == Month(p2)
    || (p1.iJD < p2.iJD && Month(p1) < Month(p2))
    || (p1.iJD >= p2.iJD && Month(p1) > Month(p2) && InMonth(p2, Month(p2)) <= p1.iJD)
  }

  lemma OrderedUp(p1: Date, p2: Date, i: int)
    requires IsOperand(p1) && IsOperand(p2) && p1.iJD >= p2.iJD && Month(p1) != Month(p2) && IsUp(p1, p2, i)
    ensures i >= Month(p2) <==> Ordered(p1, p2)
  {
    if i < Month(p2) { LaterMonth(p2, i + 1, Month(p2)); } else { LaterMonth(p2, Month(p2), i); }
  }

  lemma OrderedDown(p1: Date, p2: Date, i: int)
    requires IsOperand(p1) && IsOperand(p2) && p1.iJD < p2.iJD && Month(p1) != Month(p2) && IsDown(p1, p2, i)
    ensures i <= Month(p2) <==> Ordered(p1, p2)
  {
    if i > Month(p2) { LaterMonth(p2, Month(p2), i - 1); }
  }

  lemma OrderedIs(p1: Date, p2: Date)
    requires IsOperand(p1) && IsOperand(p2) && Month(p1) != Month(p2)
    ensures Ordered(p1, p2) <==> if p1.iJD >= p2.iJD then Reached(p1, p2) >= Month(p2) else Reached(p1, p2) <= Month(p2)
  {
    if p1.iJD >= p2.iJD {
      ReachedUp(p1, p2, Reached(p1, p2));
      OrderedUp(p1, p2, Reached(p1, p2));
    } else {
      ReachedDown(p1, p2, Reached(p1, p2));
      OrderedDown(p1, p2, Reached(p1, p2));
    }
  }

  /** What the modifier accepts. */
  predicate IsAccepted(z: Span) {
    ReadableDate(z) && z.M <= 11 && z.D <= 30 && z.time.Some? && ReadableTime(z.time.value)
  }

  lemma AcceptedIs(p: Date, z: Span)
    requires z.time.Some?
    ensures AddSpan(p, z) != None <==> IsAccepted(z)
    ensures IsAccepted(z) <==>
              && 0 <= z.Y <= 14712 && 0 <= z.M <= 11 && 0 <= z.D <= 30
              && 0 <= z.time.value.h <= 24 && 0 <= z.time.value.m <= 59 && 0 <= z.time.value.s < 60000
  {
  }

  lemma ReachedNear(p1: Date, p2: Date)
    requires IsOperand(p1) && IsOperand(p2)
    ensures if p1.iJD >= p2.iJD then Reached(p1, p2) <= Month(p1) else Reached(p1, p2) >= Month(p1)
  {
  }

  lemma YearsOk(z: Span, t: int)
    requires 0 <= z.M <= 11 && t == 12 * z.Y + z.M && t <= LAST - FIRST
    ensures 0 <= z.Y <= 14712 <==> t >= 0
  {
  }

  /** The years and months are not negative exactly if the operands are ordered. */
  lemma NotNegative(p1: Date, p2: Date, z: Span)
    requires IsOperand(p1) && IsOperand(p2) && IsTimediff(p1, p2, z)
    ensures IsAccepted(z) <==> Ordered(p1, p2)
  {
    MonthsAre(p1, p2, z);
    ReachedNear(p1, p2);
    YearsOk(z, 12 * z.Y + z.M);
    if Month(p1) != Month(p2) { OrderedIs(p1, p2); }
  }

  // ---- Where the modifier leads ----

  lemma MonthsMovedIs(q: Date, z: Span)
    ensures Month(MonthsMoved(q, z)) == Month(q) + Months(z)
  {
  }

  /** An object with fields, whatever its time zone, has their instant. */
  lemma InstantOf(q: Date)
    requires IsFields(q) && !q.validJD
    ensures WithJD(q).validJD && !WithJD(q).isError && WithJD(q).iJD == Instant(q, Month(q))
  {
    MidnightIs(q.Y, q.M, q.D);
  }

  lemma SameDay(q: Date, r: Date, i: int)
    requires i >= FIRST && r.D == q.D && Clock(r) == Clock(q)
    ensures Instant(r, i) == Instant(q, i)
  {
  }

  /** The years and months move the month; day, time and time zone stay, even past the end of the month. */
  lemma Moves(q: Date, z: Span, i: int)
    requires IsFields(q) && FIRST <= i == Month(q) + Months(z) <= LAST
    ensures var r := DaysMoved(WithJD(WithFloor(MonthsMoved(q, z))), z);
            r.validJD && !r.isError && r.iJD == Instant(q, i) + Signed(z.neg, z.D * DAY)
  {
    MonthsMovedIs(q, z);
    var m := WithFloor(MonthsMoved(q, z));
    InstantOf(m);
    SameDay(q, m, i);
  }

  predicate InvertsTo(iJD: int, r: Option<Date>) {
    r.Some? && r.value.iJD == iJD
  }

  lemma Added(p: Date, q: Date, z: Span, i: int, ms: int)
    requires q == WithYMD_HMS(p) && IsFields(q) && FIRST <= i == Month(q) + Months(z) <= LAST
    requires IsAccepted(z) && z.time.value.h <= 23 && ms == z.D * DAY + MsOf(z.time.value)
    ensures forall x :: ValidJulianDay(x) ==>
              (InvertsTo(x, ArgumentPlus(p, z)) <==> x == Instant(q, i) + Signed(z.neg, ms))
  {
    Moves(q, z, i);
    SpanTimeIs(z.time.value);
    var r := Moved(p, z);
    assert AddSpan(p, z) == Some(TimeMoved(r, z.neg, SpanTime(z.time.value)));
  }

  function MsOf(t: Time): int {
    t.h * 3600000 + t.m * 60000 + t.s
  }

  /** A date without a time: the same move, by months and days. */
  lemma AddedDate(p: Date, q: Date, z: Span, i: int)
    requires q == WithYMD_HMS(p) && IsFields(q) && FIRST <= i == Month(q) + Months(z) <= LAST
    requires IsDateSpan(z) && z.time == None
    ensures forall x :: ValidJulianDay(x) ==>
              (InvertsTo(x, ArgumentPlus(p, z)) <==> x == Instant(q, i) + Signed(z.neg, z.D * DAY))
  {
    Moves(q, z, i);
    assert AddSpan(p, z) == Some(Moved(p, z));
  }

  /** Years, months and days that the modifier accepts. */
  predicate IsDateSpan(z: Span) {
    ReadableDate(z) && z.M <= 11 && z.D <= 30
  }

  lemma DateAcceptedIs(p: Date, z: Span)
    requires z.time == None
    ensures AddSpan(p, z) != None <==> 0 <= z.Y <= 14712 && 0 <= z.M <= 11 && 0 <= z.D <= 30
  {
  }

  /**
   Without a time, a span moves any argument to the same instant, or the same error, as with the time 00:00 or 24:00.
   */
  lemma NoTimeIsMidnight(p: Date, y: Span, z: Span, t: Time)
    requires IsDateSpan(y) && y.time == None && z == y.(time := Some(t))
    requires ReadableTime(t) && (MsOf(t) == 0 || MsOf(t) == DAY)
    ensures var r, s := ArgumentPlus(p, y), ArgumentPlus(p, z);
            (r == None <==> s == None) && (r != None ==> r.value.iJD == s.value.iJD)
  {
    SameMove(p, y, z);
    MovedShape(p, y);
    AddSpanDate(p, y);
    var ms := AddSpanMidnight(p, z, t);
    NothingMoved(Moved(p, y), y.neg, ms, AddSpan(p, y), AddSpan(p, z));
  }

  lemma AddSpanDate(p: Date, y: Span)
    requires IsDateSpan(y) && y.time == None
    ensures AddSpan(p, y) == Some(Moved(p, y))
  {
  }

  lemma AddSpanTime(p: Date, z: Span, t: Time, ms: int)
    requires IsDateSpan(z) && z.time == Some(t) && ReadableTime(t) && ms == SpanTime(t)
    ensures AddSpan(p, z) == Some(TimeMoved(Moved(p, z), z.neg, ms))
  {
  }

  lemma AddSpanMidnight(p: Date, z: Span, t: Time) returns (ms: int)
    requires IsDateSpan(z) && z.time == Some(t) && ReadableTime(t) && (MsOf(t) == 0 || MsOf(t) == DAY)
    ensures ms == 0 && AddSpan(p, z) == Some(TimeMoved(Moved(p, z), z.neg, ms))
  {
    SpanTimeIs(t);
    ms := SpanTime(t);
    AddSpanTime(p, z, t, ms);
  }

  /** The time of a span does not matter to its date. */
  lemma SameMove(p: Date, y: Span, z: Span)
    requires z == y.(time := z.time)
    ensures Moved(p, y) == Moved(p, z)
  {
    SameMonths(WithYMD_HMS(p), y, z);
    SameDays(WithJD(WithFloor(MonthsMoved(WithYMD_HMS(p), y))), y, z);
  }

  lemma SameMonths(q: Date, y: Span, z: Span)
    requires z == y.(time := z.time)
    ensures MonthsMoved(q, y) == MonthsMoved(q, z)
  {
  }

  lemma SameDays(r: Date, y: Span, z: Span)
    requires z == y.(time := z.time)
    ensures DaysMoved(r, y) == DaysMoved(r, z)
  {
  }

  lemma MovedShape(p: Date, y: Span)
    ensures var r := Moved(p, y); !r.validYMD && !r.validHMS && (r.validJD || r.isError)
  {
    JdOrError(WithFloor(MonthsMoved(WithYMD_HMS(p), y)));
  }

  lemma JdOrError(m: Date)
    ensures WithJD(m).validJD || WithJD(m).isError
  {
  }

  lemma NothingMoved(r: Date, neg: bool, ms: int, a: Option<Date>, b: Option<Date>)
    requires !r.validYMD && !r.validHMS && (r.validJD || r.isError) && ms == 0
    requires a == Some(r) && b == Some(TimeMoved(r, neg, ms))
    ensures Completed(a) == None <==> Completed(b) == None
    ensures Completed(a) != None ==> Completed(a).value.iJD == Completed(b).value.iJD
  {
  }

  /** Months past the year 9999 are an error. */
  lemma TooLate(p: Date, q: Date, z: Span)
    requires q == WithYMD_HMS(p) && IsFields(q) && Month(q) + Months(z) > LAST
    requires IsAccepted(z) || (IsDateSpan(z) && z.time == None)
    ensures ArgumentPlus(p, z) == None
  {
    MonthsMovedIs(q, z);
    var m := WithFloor(MonthsMoved(q, z));
    assert m.Y > 9999;
    assert Moved(p, z) == DaysMoved(ErrorDate, z);
  }

  // ---- When that is A ----

  /**
   Moving the fields q of B by months leads to the same instant as moving the date p2 that timediff starts from, to
   month r: in the same month, always unless the time is past 24:00; otherwise if the two months that are crossed in
   part are equally long.
   */
  predicate Fits(p2: Date, q: Date, r: int)
    requires IsOperand(p2)
  {
    var i := Month(q) + r - Month(p2);
    && i <= LAST
    && (Month(q) == Month(p2) ==> Late(p2) == 0)
    && (Month(q) < Month(p2) ==> Length(Month(q)) == Length(i) + Late(p2))
    && (Month(q) > Month(p2) ==> Length(r) == Length(Month(p2)) + Late(p2))
  }

  lemma FitsIs(p2: Date, q: Date, r: int)
    requires SameInstant(p2, q) && FIRST < r && Month(q) + r - Month(p2) <= LAST
    ensures Instant(q, Month(q) + r - Month(p2)) == InMonth(p2, r) <==> Fits(p2, q, r)
  {
    var i, j, b := Month(q) + r - Month(p2), Month(q), Month(p2);
    assert MonthStart(i + 1) == MonthStart(i) + Length(i);
    assert MonthStart(j + 1) == MonthStart(j) + Length(j);
    assert MonthStart(b + 1) == MonthStart(b) + Length(b);
    assert MonthStart(r + 1) == MonthStart(r) + Length(r);
  }

  /** The time of a difference, in milliseconds, is what is left over, or 31 days less. */
  lemma LeftOver(p1: Date, p2: Date, z: Span) returns (ms: int, r: int)
    requires IsOperand(p1) && IsOperand(p2) && IsTimediff(p1, p2, z) && Ordered(p1, p2)
    ensures r == (if Month(p1) == Month(p2) then Month(p2) else Reached(p1, p2)) && FIRST + 2 <= r <= LAST
    ensures Months(z) == r - Month(p2) && z.time.Some? && z.time.value.h <= 23
    ensures ms == Signed(z.neg, z.D * DAY + MsOf(z.time.value))
    ensures Month(p1) == Month(p2) ==> ms == p1.iJD - p2.iJD
    ensures Month(p1) != Month(p2) ==> ms == p1.iJD - InMonth(p2, r) || IsLost(p1, p2, r, ms)
  {
    MonthsAre(p1, p2, z);
    ms := Signed(z.neg, z.D * DAY + MsOf(z.time.value));
    r := Month(p2) + Months(z);
    if Month(p1) != Month(p2) {
      OrderedIs(p1, p2);
      if z.neg { LeftDown(p1, p2, r, ms, z); } else { LeftUp(p1, p2, r, ms, z); }
    }
  }

  /** 31 days are lost; the date of p2 is then a 31st at 24:00 or later. */
  predicate IsLost(p1: Date, p2: Date, r: int, ms: int) {
    r >= FIRST && ms == p1.iJD - InMonth(p2, r) + 31 * DAY && p2.D == 31 && TimeOfDay(p2) >= DAY
  }

  lemma LeftUp(p1: Date, p2: Date, r: int, ms: int, z: Span)
    requires IsOperand(p1) && IsOperand(p2) && p1.iJD >= p2.iJD && IsMonthsUp(p1, p2, r, z)
    requires ms == z.D * DAY + MsOf(z.time.value)
    ensures ms == p1.iJD - InMonth(p2, r)
  {
    NextMonth(p2, r);
  }

  lemma LeftDown(p1: Date, p2: Date, r: int, ms: int, z: Span)
    requires IsOperand(p1) && IsOperand(p2) && p1.iJD < p2.iJD && IsMonthsDown(p1, p2, r, z)
    requires -ms == z.D * DAY + MsOf(z.time.value)
    ensures ms == p1.iJD - InMonth(p2, r) || IsLost(p1, p2, r, ms)
  {
    if r > Month(p1) { NextMonth(p2, r - 1); }
  }

  // ---- The theorem ----

  /** z is timediff(A, B), of valid arguments A and B. */
  predicate IsTimediffOf(pA: Date, pB: Date, z: Span) {
    && Argument(pA).Some? && Argument(pB).Some?
    && IsOperand(WithYMD_HMS(Argument(pA).value)) && IsOperand(WithYMD_HMS(Argument(pB).value))
    && IsTimediff(WithYMD_HMS(Argument(pA).value), WithYMD_HMS(Argument(pB).value), z)
  }

  /** The difference is accepted as a modifier exactly if the operands are ordered. */
  lemma AcceptedIff(pA: Date, pB: Date, z: Span)
    requires IsParsed(pA) && IsParsed(pB) && IsTimediffOf(pA, pB, z)
    ensures AddSpan(pB, z) != None <==> Ordered(WithYMD_HMS(Argument(pA).value), WithYMD_HMS(Argument(pB).value))
  {
    NotNegative(WithYMD_HMS(Argument(pA).value), WithYMD_HMS(Argument(pB).value), z);
    AcceptedIs(pB, z);
  }

  /** Adding the difference to B leads to A. */
  predicate Inverted(p1: Date, p2: Date, q: Date)
    requires IsOperand(p1) && IsOperand(p2)
  {
    Month(p1) == Month(p2) || (Ordered(p1, p2) && Fits(p2, q, Reached(p1, p2)))
  }

  lemma LeadsTo(p1: Date, p2: Date, pB: Date, q: Date, z: Span)
    requires IsOperand(p1) && SameInstant(p2, q) && q == WithYMD_HMS(pB)
    requires IsTimediff(p1, p2, z) && IsAccepted(z) && Ordered(p1, p2)
    ensures InvertsTo(p1.iJD, ArgumentPlus(pB, z)) <==> Inverted(p1, p2, q)
  {
    var ms, r := LeftOver(p1, p2, z);
    var i := Month(q) + r - Month(p2);
    if i > LAST {
      TooLate(pB, q, z);
    } else {
      Added(pB, q, z, i, z.D * DAY + MsOf(z.time.value));
      Meets(p1, p2, q, i, r, ms);
    }
  }

  lemma Meets(p1: Date, p2: Date, q: Date, i: int, r: int, ms: int)
    requires IsOperand(p1) && SameInstant(p2, q) && FIRST + 2 <= r && i == Month(q) + r - Month(p2) <= LAST
    requires if Month(p1) == Month(p2) then r == Month(p2) && ms == p1.iJD - p2.iJD
             else ms == p1.iJD - InMonth(p2, r) || IsLost(p1, p2, r, ms)
    ensures p1.iJD == Instant(q, i) + ms <==> Month(p1) == Month(p2) || Fits(p2, q, r)
  {
    FitsIs(p2, q, r);
  }

  lemma Inverts(p1: Date, p2: Date, pB: Date, q: Date, z: Span)
    requires IsOperand(p1) && SameInstant(p2, q) && q == WithYMD_HMS(pB) && IsTimediff(p1, p2, z)
    ensures InvertsTo(p1.iJD, ArgumentPlus(pB, z)) <==> Inverted(p1, p2, q)
  {
    NotNegative(p1, p2, z);
    AcceptedIs(pB, z);
    if Ordered(p1, p2) { LeadsTo(p1, p2, pB, q, z); }
  }

  /** The difference of A and B, added to B, gives A: exactly if the operands are ordered and B fits. */
  lemma TimediffInverts(pA: Date, pB: Date, z: Span)
    requires IsParsed(pA) && IsParsed(pB) && IsTimediffOf(pA, pB, z)
    ensures var p1, p2 := WithYMD_HMS(Argument(pA).value), WithYMD_HMS(Argument(pB).value);
            InvertsTo(Argument(pA).value.iJD, ArgumentPlus(pB, z)) <==> Inverted(p1, p2, WithYMD_HMS(pB))
  {
    OperandOf(pA);
    OperandOf(pB);
    Inverts(WithYMD_HMS(Argument(pA).value), WithYMD_HMS(Argument(pB).value), pB, WithYMD_HMS(pB), z);
  }
}
