/** The date and time object as the source keeps it: fields that its methods update in place. */
module DateTimeObject {
  import opened Basics
  import opened Calendar
  import opened JulianDay
  import opened DateTime

  class DateTimeObject {
    var iJD: int
    var Y: int
    var M: int
    var D: int
    var h: int
    var m: int
    var s: int
    var tz: int
    var validJD: bool
    var validYMD: bool
    var validHMS: bool
    var nFloor: int
    var rawS: bool
    var isError: bool

    ghost function State(): Date
      reads this
    {
      Date(iJD, Y, M, D, h, m, s, tz, validJD, validYMD, validHMS, nFloor, rawS, isError)
    }

    /** The object that memset clears. */
    constructor Zero()
      ensures State() == ErrorDate.(isError := false)
    {
      iJD, Y, M, D, h, m, s, tz := 0, 0, 0, 0, 0, 0, 0, 0;
      validJD, validYMD, validHMS, nFloor, rawS, isError := false, false, false, 0, false, false;
    }

    constructor Copy(p: DateTimeObject)
      ensures State() == p.State()
    {
      iJD, Y, M, D, h, m, s, tz := p.iJD, p.Y, p.M, p.D, p.h, p.m, p.s, p.tz;
      validJD, validYMD, validHMS := p.validJD, p.validYMD, p.validHMS;
      nFloor, rawS, isError := p.nFloor, p.rawS, p.isError;
    }

    method DatetimeError()
      modifies this
      ensures State() == ErrorDate
    {
      ClearNumbers();
      ClearFlags();
      isError := true;
    }

    method ClearNumbers()
      modifies this`iJD, this`Y, this`M, this`D, this`h, this`m, this`s, this`tz, this`nFloor
      ensures iJD == Y == M == D == h == m == s == tz == nFloor == 0
    {
      iJD, Y, M, D, h, m, s, tz, nFloor := 0, 0, 0, 0, 0, 0, 0, 0, 0;
    }

    method ClearFlags()
      modifies this`validJD, this`validYMD, this`validHMS, this`rawS
      ensures !validJD && !validYMD && !validHMS && !rawS
    {
      validJD, validYMD, validHMS, rawS := false, false, false, false;
    }

    method ComputeJD()
      modifies this
      ensures State() == WithJD(old(State()))
    {
      if validJD { return; }
      var year, month, day := 2000, 1, 1;
      if validYMD { year, month, day := Y, M, D; }
      if year < -4713 || year > 9999 || rawS {
        DatetimeError();
        return;
      }
      iJD := FromYMD(year, month, day);
      validJD := true;
      if validHMS {
        iJD := iJD + h * 3600000 + m * 60000 + s;
        if tz != 0 {
          iJD := iJD - tz * 60000;
          validYMD, validHMS, tz := false, false, 0;
        }
      }
    }

    /** The start of a date; the year starts in March, so that the leap day is the last day of a year. */
    static method FromYMD(year: int, month: int, day: int) returns (iJD: int)
      ensures iJD == Midnight(year, month, day)
      ensures year >= -4713 && 1 <= month <= 12 ==>
                iJD == (MonthStart(Index(year, month)) + day - 1) * DAY - HALFDAY
    {
      if year >= -4713 && 1 <= month <= 12 { DayNumberIs(year, month, day); }
      var y, m := year, month;
      if m <= 2 {
        y := y - 1;
        m := m + 12;
      }
      var a := CDiv(y + 4800, 100);
      var b := 38 - a + CDiv(a, 4);
      var x1 := CDiv(36525 * (y + 4716), 100);
      var x2 := CDiv(306001 * (m + 1), 10000);
      iJD := (2 * (x1 + x2 + day + b) - 3049) * HALFDAY;
    }

    method ComputeYMD()
      modifies this
      ensures State() == WithYMD(old(State()))
    {
      if validYMD { return; }
      if !validJD {
        Y, M, D := 2000, 1, 1;
      } else if iJD < 0 || iJD > MAXJD {
        DatetimeError();
        return;
      } else {
        Y, M, D := ToYMD(DayOf(iJD));
      }
      validYMD := true;
    }

    /** The date of day Z: it is in the calendar and Z days from the start of the count. */
    static method ToYMD(Z: int) returns (Y: int, M: int, D: int)
      ensures Ymd(Y, M, D) == DateOf(Z)
      ensures 0 <= Z <= MAXDAY ==>
                && -4713 <= Y <= 9999 && 1 <= M <= 12 && 1 <= D <= DaysInMonth(Y, M)
                && MonthStart(Index(Y, M)) + D - 1 == Z
    {
      Y, M, D := Decompose(Z);
      if 0 <= Z <= MAXDAY { DayNumberOfDate(Z); }
    }

    static method Decompose(Z: int) returns (Y: int, M: int, D: int)
      ensures Ymd(Y, M, D) == DateOf(Z)
    {
      var alpha := CDiv(4 * Z + 128179, 146097) - 52;
      var A := Z + 1 + alpha - CDiv(alpha + 100, 4) + 25;
      var B := A + 1524;
      var C := CDiv(100 * B - 12210, 36525);
      var days := CDiv(36525 * (C % 32768), 100);
      var E := CDiv(10000 * (B - days), 306001);
      var X1 := CDiv(306001 * E, 10000);
      D := B - days - X1;
      M := if E < 14 then E - 1 else E - 13;
      Y := if M > 2 then C - 4716 else C - 4715;
    }

    method ComputeHMS()
      modifies this
      ensures State() == WithHMS(old(State()))
    {
      if validHMS { return; }
      ComputeJD();
      TakeTime();
    }

    method TakeTime()
      modifies this
      ensures State() == WithTime(old(State()))
    {
      var day_ms := ClockOf(iJD);
      s := CMod(day_ms, 60000);
      var day_min := CDiv(day_ms, 60000);
      m := CMod(day_min, 60);
      h := CDiv(day_min, 60);
      rawS := false;
      validHMS := true;
    }

    method ComputeYMD_HMS()
      modifies this
      ensures State() == WithYMD_HMS(old(State()))
    {
      ComputeYMD();
      ComputeHMS();
    }

    method ClearYMD_HMS_TZ()
      modifies this
      ensures State() == Cleared(old(State()))
    {
      validYMD, validHMS, tz := false, false, 0;
    }

    method ComputeFloor()
      requires 0 <= M <= 12
      modifies this`nFloor
      ensures State() == WithFloor(old(State()))
    {
      MaskIs(M);
      if D <= 28 {
        nFloor := 0;
      } else if (1 as bv16 << M) & 0x15aa != 0 {
        nFloor := 0;
      } else if M != 2 {
        nFloor := if D == 31 then 1 else 0;
      } else if CMod(Y, 4) != 0 || (CMod(Y, 100) == 0 && CMod(Y, 400) != 0) {
        nFloor := D - 28;
      } else {
        nFloor := D - 29;
      }
    }

    /** The modifier (+|-)YYYY-MM-DD HH:MM:SS.SSS. */
    method ApplySpan(z: Span) returns (ok: bool)
      modifies this
      ensures ok <==> AddSpan(old(State()), z) != None
      ensures ok ==> AddSpan(old(State()), z) == Some(State())
    {
      if !ReadableDate(z) || z.M >= 12 || z.D >= 31 { return false; }
      Move(z);
      match z.time
      case None => return true;
      case Some(t) =>
        if !ReadableTime(t) { return false; }
        var ms := TimeOfSpan(t);
        MoveTime(z.neg, ms);
        return true;
    }

    method MoveTime(neg: bool, ms: int)
      modifies this
      ensures State() == TimeMoved(old(State()), neg, ms)
    {
      ComputeJD();
      ClearYMD_HMS_TZ();
      iJD := iJD + if neg then -ms else ms;
    }

    method Move(z: Span)
      modifies this
      ensures State() == Moved(old(State()), z)
    {
      ComputeYMD_HMS();
      MoveMonths(z);
      ComputeFloor();
      ComputeJD();
      validHMS, validYMD := false, false;
      iJD := iJD + (if z.neg then -z.D else z.D) * DAY;
    }

    method MoveMonths(z: Span)
      modifies this
      ensures State() == MonthsMoved(old(State()), z) && 1 <= M <= 12
    {
      validJD := false;
      if z.neg {
        Y := Y - z.Y;
        M := M - z.M;
      } else {
        Y := Y + z.Y;
        M := M + z.M;
      }
      var x := MonthCarry(M);
      Y := Y + x;
      M := M - x * 12;
    }

    /** The milliseconds of the time of a span, as the time of day of a date; 24:00 is the start of the next day. */
    static method TimeOfSpan(t: Time) returns (ms: int)
      ensures ms == SpanTime(t)
      ensures ReadableTime(t) ==> ms == (if t.h == 24 then 0 else t.h) * 3600000 + t.m * 60000 + t.s
    {
      if ReadableTime(t) { SpanTimeIs(t); }
      var tx := new DateTimeObject.Zero();
      tx.h, tx.m, tx.s, tx.validHMS := t.h, t.m, t.s, true;
      assert tx.State() == OnlyTime(t);
      tx.ComputeJD();
      ms := tx.TakeDays();
    }

    method TakeDays() returns (ms: int)
      modifies this`iJD
      ensures ms == iJD == SinceMidnight(old(iJD))
    {
      iJD := iJD - HALFDAY;
      var day := CDiv(iJD, DAY);
      iJD := iJD - day * DAY;
      ms := iJD;
    }

    /** The modifier floor. */
    method ApplyFloor()
      modifies this
      ensures State() == Floored(old(State()))
    {
      ComputeJD();
      iJD := iJD - nFloor * DAY;
      ClearYMD_HMS_TZ();
    }

    /** Completes an argument that has no modifiers. */
    method Complete() returns (ok: bool)
      modifies this
      ensures ok <==> Argument(old(State())) != None
      ensures ok ==> Argument(old(State())) == Some(State())
    {
      ComputeJD();
      if isError || iJD < 0 || iJD > MAXJD { return false; }
      if validYMD && D > 28 { validYMD := false; }
      return true;
    }
  }
}
