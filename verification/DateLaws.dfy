/** Laws of the conversions between an instant and its fields. */
module DateLaws {
  import opened Basics
  import opened Calendar
  import opened JulianDay
  import opened DateTime
  import opened Timediff
  import opened Operands

  /** computeYMD and computeHMS are inverted by computeJD on every valid instant. */
  lemma FieldsInvert(p: Date)
    requires p.validJD && !p.validYMD && !p.validHMS && p.tz == 0 && !p.isError && ValidJulianDay(p.iJD)
    ensures WithJD(WithYMD_HMS(p).(validJD := false)) == WithYMD_HMS(p)
  {
    ViewOfInstant(p);
    Recomputed(WithYMD_HMS(p).(validJD := false));
  }

  /** The modifier floor goes back from past the end of a month to its last day. */
  lemma FloorGoesBack(p: Date)
    requires IsParsed(p) && !p.validJD && p.validYMD && p.nFloor == FloorDays(p.Y, p.M, p.D) && Argument(p) != None
    ensures var i := Month(p);
            && i >= FIRST
            && Floored(p).iJD == At(i, if p.D <= Length(i) then p.D else Length(i),
                                    if p.validHMS then TimeOfDay(p) else 0)
  {
    JdOfDate(p);
    IndexInverse(p.Y, p.M);
    FloorDaysAre(p.Y, p.M, p.D);
  }

  /** Valid instants are those from day 0 on, before the year 10000 begins. */
  lemma ValidIs(iJD: int)
    ensures ValidJulianDay(iJD) <==> 0 <= iJD < At(LAST + 1, 1, 0)
  {
    LastDay();
  }
}
