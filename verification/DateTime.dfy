/** The date and time object: an instant in milliseconds, its calendar fields, and which of the two are valid. */
module DateTime {
  import opened Basics
  import opened Division
  import opened Calendar
  import opened JulianDay

  const DAY := 86400000
  const HALFDAY := 43200000
  const MAXJD := 464269060799999

  /** The fields of the object. Seconds are in milliseconds. */
  datatype Date = Date(iJD: int, Y: int, M: int, D: int, h: int, m: int, s: int, tz: int,
                       validJD: bool, validYMD: bool, validHMS: bool, nFloor: int, rawS: bool, isError: bool)

  datatype Time = Time(h: int, m: int, s: int)

  const ErrorDate := Date(0, 0, 0, 0, 0, 0, 0, 0, false, false, false, 0, false, true)

  predicate ValidJulianDay(iJD: int) {
    0 <= iJD <= MAXJD
  }

  /** The instant at which a date starts. */
  function Midnight(y: int, m: int, d: int): int {
    DayNumber(y, m, d) * DAY - HALFDAY
  }

  function TimeOfDay(p: Date): int {
    p.h * 3600000 + p.m * 60000 + p.s
  }

  /** The day number of an instant, and its time of day. */
  function DayOf(iJD: int): int {
    CDiv(iJD + HALFDAY, DAY)
  }

  function ClockOf(iJD: int): int {
    CMod(iJD + HALFDAY, DAY)
  }

  function WithJD(p: Date): Date {
    var ymd := if p.validYMD then Ymd(p.Y, p.M, p.D) else Ymd(2000, 1, 1);
    if p.validJD then p
    else if ymd.y < -4713 || ymd.y > 9999 || p.rawS then ErrorDate
    else
      var iJD := Midnight(ymd.y, ymd.m, ymd.d);
      if !p.validHMS then p.(iJD := iJD, validJD := true)
      else if p.tz == 0 then p.(iJD := iJD + TimeOfDay(p), validJD := true)
      else p.(iJD := iJD + TimeOfDay(p) - p.tz * 60000, validJD := true, validYMD := false, validHMS := false, tz := 0)
  }

  function WithYMD(p: Date): Date {
    if p.validYMD then p
    else if !p.validJD then p.(Y := 2000, M := 1, D := 1, validYMD := true)
    else if !ValidJulianDay(p.iJD) then ErrorDate
    else
      var ymd := DateOf(DayOf(p.iJD));
      p.(Y := ymd.y, M := ymd.m, D := ymd.d, validYMD := true)
  }

  function WithHMS(p: Date): Date {
    if p.validHMS then p else WithTime(WithJD(p))
  }

  function WithTime(p: Date): Date {
    var t := TimeOf(ClockOf(p.iJD));
    p.(s := t.s, m := t.m, h := t.h, rawS := false, validHMS := true)
  }

  function TimeOf(ms: int): Time {
    Time(CDiv(CDiv(ms, 60000), 60), CMod(CDiv(ms, 60000), 60), CMod(ms, 60000))
  }

  function WithYMD_HMS(p: Date): Date {
    WithHMS(WithYMD(p))
  }

  function Cleared(p: Date): Date {
    p.(validYMD := false, validHMS := false, tz := 0)
  }

  /** The months whose bits are set in 0x15aa. */
  predicate InMask(m: int) {
    m == 1 || m == 3 || m == 5 || m == 7 || m == 8 || m == 10 || m == 12
  }

  lemma MaskIs(m: int)
    requires 0 <= m <= 12
    ensures (1 as bv16 << m) & 0x15aa != 0 <==> InMask(m)
  {
  }

  /** The days to go back to the end of the month, as computeFloor finds them. */
  function FloorDays(y: int, m: int, d: int): int
    requires 0 <= m <= 12
  {
    if d <= 28 then 0
    else if InMask(m) then 0
    else if m != 2 then if d == 31 then 1 else 0
    else if CMod(y, 4) != 0 || (CMod(y, 100) == 0 && CMod(y, 400) != 0) then d - 28
    else d - 29
  }

  lemma CModZero(y: int)
    ensures CMod(y, 4) == 0 <==> y % 4 == 0
    ensures CMod(y, 100) == 0 <==> y % 100 == 0
    ensures CMod(y, 400) == 0 <==> y % 400 == 0
  {
    ModZero(y, 4);
    ModZero(y, 100);
    ModZero(y, 400);
  }

  lemma ModZero(y: int, d: int)
    requires d > 0
    ensures CMod(y, d) == 0 <==> y % d == 0
  {
    var k, l := y / d, -y / d;
    if y % d == 0 { DivModUnique(-y, d, -k, 0); }
    if -y % d == 0 { DivModUnique(y, d, -l, 0); }
  }

  /** The days past the end of the month. */
  lemma FloorDaysAre(y: int, m: int, d: int)
    requires 1 <= m <= 12 && 0 <= d <= 31
    ensures FloorDays(y, m, d) == if d <= DaysInMonth(y, m) then 0 else d - DaysInMonth(y, m)
  {
    CModZero(y);
  }

  // ---- Modifiers ----

  /** A time difference: sign, years, months and days, and perhaps a time. */
  datatype Span = Span(neg: bool, Y: int, M: int, D: int, time: Option<Time>)

  /** What getDigits accepts for the date and for the time of a span. */
  predicate ReadableDate(z: Span) {
    0 <= z.Y <= 14712 && 0 <= z.M <= 12 && 0 <= z.D <= 31
  }

  predicate ReadableTime(t: Time) {
    0 <= t.h <= 24 && 0 <= t.m <= 59 && 0 <= t.s < 60000
  }

  /** The years that are in m months. */
  function MonthCarry(m: int): (x: int)
    ensures 1 <= m - 12 * x <= 12
  {
    if m > 0 then CDiv(m - 1, 12) else CDiv(m - 12, 12)
  }

  function WithFloor(p: Date): Date
    requires 0 <= p.M <= 12
  {
    p.(nFloor := FloorDays(p.Y, p.M, p.D))
  }

  /** The fields of a date moved by the years and months of a span. */
  function MonthsMoved(q: Date, z: Span): (r: Date)
    ensures 1 <= r.M <= 12
  {
    var y, m := if z.neg then q.Y - z.Y else q.Y + z.Y, if z.neg then q.M - z.M else q.M + z.M;
    var x := MonthCarry(m);
    q.(Y := y + x, M := m - 12 * x, validJD := false)
  }

  /** A date moved by years, months and days. */
  function Moved(p: Date, z: Span): Date {
    DaysMoved(WithJD(WithFloor(MonthsMoved(WithYMD_HMS(p), z))), z)
  }

  function DaysMoved(r: Date, z: Span): Date {
    r.(iJD := r.iJD + (if z.neg then -z.D else z.D) * DAY, validYMD := false, validHMS := false)
  }

  /** An object that has only the time of a span. */
  function OnlyTime(t: Time): Date {
    ErrorDate.(isError := false, h := t.h, m := t.m, s := t.s, validHMS := true)
  }

  /** The milliseconds since midnight. */
  function SinceMidnight(iJD: int): int {
    iJD - HALFDAY - CDiv(iJD - HALFDAY, DAY) * DAY
  }

  function SpanTime(t: Time): int {
    SinceMidnight(WithJD(OnlyTime(t)).iJD)
  }

  /** The modifier (+|-)YYYY-MM-DD HH:MM:SS.SSS; None if it is rejected. */
  function AddSpan(p: Date, z: Span): Option<Date> {
    if !ReadableDate(z) || z.M >= 12 || z.D >= 31 then None
    else match z.time
      case None => Some(Moved(p, z))
      case Some(t) =>
        if !ReadableTime(t) then None else Some(TimeMoved(Moved(p, z), z.neg, SpanTime(t)))
  }

  function TimeMoved(p: Date, neg: bool, ms: int): Date {
    var r := Cleared(WithJD(p));
    r.(iJD := r.iJD + if neg then -ms else ms)
  }

  /** The modifier floor. */
  function Floored(p: Date): Date {
    var q := WithJD(p);
    Cleared(q.(iJD := q.iJD - q.nFloor * DAY))
  }

  /** What becomes of an argument that has no modifiers. */
  function Argument(p: Date): Option<Date> {
    var q := WithJD(p);
    if q.isError || !ValidJulianDay(q.iJD) then None
    else if q.validYMD && q.D > 28 then Some(q.(validYMD := false))
    else Some(q)
  }

  /** What becomes of an argument with a span as its modifier. */
  function ArgumentPlus(p: Date, z: Span): Option<Date> {
    Completed(AddSpan(p, z))
  }

  /** What becomes of an argument whose date a modifier has left open. */
  function Completed(r: Option<Date>): Option<Date> {
    match r
    case None => None
    case Some(d) =>
      var q := WithJD(d);
      if q.isError || !ValidJulianDay(q.iJD) then None else Some(q)
  }

  // ---- Weeks ----

  function DaysAfterMonday(p: Date): int {
    CMod(DayOf(p.iJD), 7)
  }

  function DaysAfterJan01(p: Date): int {
    CDiv(p.iJD - WithJD(p.(M := 1, D := 1, validJD := false)).iJD + HALFDAY, DAY)
  }

  /** The Thursday in the same week. */
  function Thursday(p: Date): Date {
    WithYMD(p.(iJD := p.iJD + (3 - DaysAfterMonday(p)) * DAY, validYMD := false))
  }

  // ---- Days and times of instants ----

  lemma TimeIs(ms: int)
    requires 0 <= ms < DAY
    ensures var t := TimeOf(ms);
            && t.h * 3600000 + t.m * 60000 + t.s == ms
            && 0 <= t.h <= 23 && 0 <= t.m <= 59 && 0 <= t.s < 60000
  {
    var x := ms / 60000;
    assert x == x / 60 * 60 + x % 60;
  }

  lemma DayIs(iJD: int, z: int, ms: int)
    requires 0 <= z && 0 <= ms < DAY && iJD == z * DAY + ms - HALFDAY
    ensures DayOf(iJD) == z && ClockOf(iJD) == ms
  {
    DivModUnique(z * DAY + ms, DAY, z, ms);
  }

  lemma SplitInstant(iJD: int)
    requires ValidJulianDay(iJD)
    ensures 0 <= DayOf(iJD) <= MAXDAY && 0 <= ClockOf(iJD) < DAY
    ensures iJD == DayOf(iJD) * DAY + ClockOf(iJD) - HALFDAY
  {
  }

  lemma NewYear2000()
    ensures Midnight(2000, 1, 1) == 2451545 * DAY - HALFDAY
  {
    assert DayNumber(2000, 1, 1) == 2451545;
  }

  lemma ClockAfter(iJD: int, n: nat, ms: int)
    requires 0 <= ms < DAY && iJD - HALFDAY == n * DAY + ms
    ensures SinceMidnight(iJD) == ms
  {
    DivModUnique(n * DAY + ms, DAY, n, ms);
  }

  /** The time of a span is its hours, minutes and seconds; the hour 24 counts as 0. */
  lemma SpanTimeIs(t: Time)
    requires ReadableTime(t)
    ensures SpanTime(t) == (if t.h == 24 then 0 else t.h) * 3600000 + t.m * 60000 + t.s
  {
    var ms := t.h * 3600000 + t.m * 60000 + t.s;
    NewYear2000();
    assert WithJD(OnlyTime(t)).iJD == 2451545 * DAY - HALFDAY + ms;
    if t.h == 24 {
      ClockAfter(WithJD(OnlyTime(t)).iJD, 2451545, ms - DAY);
    } else {
      ClockAfter(WithJD(OnlyTime(t)).iJD, 2451544, ms);
    }
  }
}
