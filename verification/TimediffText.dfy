/** The text of a difference, as timediff prints it, and how the modifier reads it. */
module TimediffText {
  import opened Basics
  import opened DateTime
  import opened Timediff
  import opened Operands
  import opened TimediffProof

  // ---- Printing ----

  /** The character of a digit. */
  function DigitOf(n: nat): char
    requires n < 10
  {
    ('0' as int + n) as char
  }

  /** A number with at least w digits. */
  function Decimal(n: nat, w: nat): (s: string)
    ensures |s| >= w && |s| >= 1
    decreases n, w
  {
    if n < 10 && w <= 1 then [DigitOf(n)] else Decimal(n / 10, if w == 0 then 0 else w - 1) + [DigitOf(n % 10)]
  }

  /** The format %04d; a minus sign takes the place of a digit. */
  function Year(y: int): string {
    if y >= 0 then Decimal(y, 4) else "-" + Decimal(-y, 3)
  }

  /** The format %c%04d-%02d-%02d %02d:%02d:%06.3f. */
  function Printed(z: Span): string
    requires z.time.Some? && z.M >= 0 && z.D >= 0 && ReadableTime(z.time.value)
  {
    (if z.neg then "-" else "+") + Year(z.Y) + Rest(z.M, z.D, z.time.value)
  }

  function Rest(m: nat, d: nat, t: Time): string
    requires ReadableTime(t)
  {
    "-" + Decimal(m, 2) + "-" + Decimal(d, 2) + " " + TimeText(t)
  }

  function TimeText(t: Time): string
    requires ReadableTime(t)
  {
    Decimal(t.h, 2) + ":" + Decimal(t.m, 2) + ":" + Decimal(t.s / 1000, 2) + "." + Decimal(t.s % 1000, 3)
  }

  // ---- Reading ----

  predicate IsDigit(c: char) {
    '0' <= c <= '9'
  }

  function Value(c: char): (n: nat)
    requires IsDigit(c)
    ensures n < 10 && DigitOf(n) == c
  {
    c as int - '0' as int
  }

  predicate IsSpace(c: char) {
    c in " \t\n\r" || c as int == 11 || c as int == 12
  }

  predicate Has(s: string, i: nat, c: char) {
    i < |s| && s[i] == c
  }

  /** The number in the k characters from i on, all of them digits. */
  function Number(s: string, i: nat, k: nat, sofar: nat): Option<nat>
    decreases k
  {
    if k == 0 then Some(sofar)
    else if i < |s| && IsDigit(s[i]) then Number(s, i + 1, k - 1, sofar * 10 + Value(s[i]))
    else None
  }

  /** The same, if it is no larger than max. */
  function UpTo(s: string, i: nat, k: nat, max: nat): Option<nat> {
    match Number(s, i, k, 0)
    case None => None
    case Some(n) => if n <= max then Some(n) else None
  }

  const MAXYEAR := 14712

  /** The scan from character n on: it stops at a colon, at a space, or after a year. */
  function Stop(s: string, n: nat): (k: nat)
    ensures k >= n
    decreases |s| - n
  {
    if n >= |s| || s[n] == ':' || IsSpace(s[n]) then n
    else if s[n] == '-' && (n == 5 || n == 6) && UpTo(s, 1, n - 1, MAXYEAR) != None then n
    else Stop(s, n + 1)
  }

  /** A modifier with a sign, a date and perhaps a time to milliseconds; None if the text is nothing of the kind. */
  function ReadSpan(s: string): Option<Span> {
    if !Has(s, 0, '+') && !Has(s, 0, '-') then None
    else
      var n := Stop(s, 1);
      if !Has(s, n, '-') then None else ReadDate(s, n)
  }

  function ReadDate(s: string, n: nat): Option<Span>
    requires |s| > 0 && n > 0
  {
    var y, m, d := UpTo(s, 1, n - 1, MAXYEAR), UpTo(s, n + 1, 2, 12), UpTo(s, n + 4, 2, 31);
    if y == None || m == None || !Has(s, n + 3, '-') || d == None then None
    else if |s| == n + 6 then Some(Span(s[0] == '-', y.value, m.value, d.value, None))
    else if |s| < n + 6 || !IsSpace(s[n + 6]) then None
    else
      match ReadTime(s, n + 7)
      case None => None
      case Some(t) => Some(Span(s[0] == '-', y.value, m.value, d.value, Some(t)))
  }

  /** HH:MM, perhaps with :SS, perhaps with .SSS. */
  function ReadTime(s: string, i: nat): Option<Time> {
    var h, m := UpTo(s, i, 2, 24), UpTo(s, i + 3, 2, 59);
    if h == None || !Has(s, i + 2, ':') || m == None then None
    else if |s| == i + 5 then Some(Time(h.value, m.value, 0))
    else
      match ReadSeconds(s, i + 6)
      case None => None
      case Some(ms) => if Has(s, i + 5, ':') then Some(Time(h.value, m.value, ms)) else None
  }

  function ReadSeconds(s: string, i: nat): Option<nat> {
    var x, f := UpTo(s, i, 2, 59), Number(s, i + 3, 3, 0);
    if x == None then None
    else if |s| == i + 2 then Some(x.value * 1000)
    else if |s| == i + 6 && Has(s, i + 2, '.') && f != None then Some(x.value * 1000 + f.value)
    else None
  }

  // ---- The loops of the reader ----

  /** The inner loop of getDigits. */
  method GetNumber(s: string, i: nat, k: nat) returns (r: Option<nat>)
    ensures r == Number(s, i, k, 0)
  {
    var val: nat, at: nat, left: nat := 0, i, k;
    while left > 0
      invariant Number(s, at, left, val) == Number(s, i, k, 0)
    {
      if at >= |s| || !IsDigit(s[at]) { return None; }
      val := val * 10 + Value(s[at]);
      at := at + 1;
      left := left - 1;
    }
    r := Some(val);
  }

  /** The loop that finds where the number at the start of a modifier ends. */
  method FindStop(s: string) returns (n: nat)
    requires |s| > 0
    ensures n == Stop(s, 1)
  {
    n := 1;
    while n < |s|
      invariant n <= |s| && Stop(s, n) == Stop(s, 1)
    {
      if s[n] == ':' || IsSpace(s[n]) { break; }
      if s[n] == '-' && (n == 5 || n == 6) {
        var y := GetNumber(s, 1, n - 1);
        if y != None && y.value <= MAXYEAR { break; }
      }
      n := n + 1;
    }
  }

  // ---- What is read is what was printed ----

  /** t is in s from i on. */
  predicate Holds(s: string, i: nat, t: string) {
    i + |t| <= |s| && s[i..i + |t|] == t
  }

  lemma AtConcat(s: string, i: nat, a: string, b: string)
    requires Holds(s, i, a + b)
    ensures Holds(s, i, a) && Holds(s, i + |a|, b)
  {
    assert a == (a + b)[..|a|] && b == (a + b)[|a|..];
  }

  lemma AtChar(s: string, i: nat, c: char)
    requires Holds(s, i, [c])
    ensures Has(s, i, c)
  {
    assert s[i..i + 1][0] == s[i];
  }

  lemma {:induction false} NumberSnoc(s: string, i: nat, k: nat, sofar: nat)
    requires i + k < |s| && IsDigit(s[i + k])
    ensures var n := Number(s, i, k, sofar);
            Number(s, i, k + 1, sofar) == if n == None then None else Some(n.value * 10 + Value(s[i + k]))
    decreases k
  {
    if k == 0 {
      assert Number(s, i + 1, 0, sofar * 10 + Value(s[i])) == Some(sofar * 10 + Value(s[i]));
    } else if IsDigit(s[i]) {
      NumberSnoc(s, i + 1, k - 1, sofar * 10 + Value(s[i]));
    }
  }

  lemma DigitValue(n: nat)
    requires n < 10
    ensures IsDigit(DigitOf(n)) && Value(DigitOf(n)) == n
  {
  }

  lemma LastDigit(s: string, i: nat, t: string, q: nat, m: nat)
    requires m < 10 && Holds(s, i, t + [DigitOf(m)]) && Number(s, i, |t|, 0) == Some(q)
    ensures Number(s, i, |t| + 1, 0) == Some(q * 10 + m)
  {
    DigitValue(m);
    AtConcat(s, i, t, [DigitOf(m)]);
    AtChar(s, i + |t|, DigitOf(m));
    NumberSnoc(s, i, |t|, 0);
  }

  /** Reading the digits of a number gives the number. */
  lemma {:induction false} ReadsBack(s: string, i: nat, n: nat, w: nat)
    requires Holds(s, i, Decimal(n, w))
    ensures Number(s, i, |Decimal(n, w)|, 0) == Some(n)
    decreases n, w
  {
    if n < 10 && w <= 1 {
      assert [] + [DigitOf(n)] == [DigitOf(n)];
      LastDigit(s, i, [], 0, n);
    } else {
      var t := Decimal(n / 10, if w == 0 then 0 else w - 1);
      AtConcat(s, i, t, [DigitOf(n % 10)]);
      ReadsBack(s, i, n / 10, if w == 0 then 0 else w - 1);
      LastDigit(s, i, t, n / 10, n % 10);
    }
  }

  /** How many digits are printed. */
  lemma {:induction false} Widths(n: nat, w: nat, bound: nat)
    requires 1 <= w && bound == Power(w)
    ensures n < bound ==> |Decimal(n, w)| == w
    ensures bound <= n < 10 * bound ==> |Decimal(n, w)| == w + 1
    decreases w
  {
    if w == 1 {
      OneOrTwo(n);
    } else {
      Widths(n / 10, w - 1, Power(w - 1));
    }
  }

  function Power(w: nat): nat {
    if w == 0 then 1 else 10 * Power(w - 1)
  }

  lemma OneOrTwo(n: nat)
    ensures n < 10 ==> |Decimal(n, 1)| == 1
    ensures 10 <= n < 100 ==> |Decimal(n, 1)| == 2
  {
    if 10 <= n < 100 { assert |Decimal(n / 10, 0)| == 1; }
  }

  lemma TwoDigits(n: nat)
    requires n < 100
    ensures |Decimal(n, 2)| == 2
  {
    assert Power(2) == 10 * Power(1) == 100;
    Widths(n, 2, 100);
  }

  lemma ThreeDigits(n: nat)
    requires n < 1000
    ensures |Decimal(n, 3)| == 3
  {
    assert Power(3) == 10 * Power(2) == 100 * Power(1) == 1000;
    Widths(n, 3, 1000);
  }

  lemma YearDigits(n: nat)
    requires n < 100000
    ensures |Decimal(n, 4)| == if n < 10000 then 4 else 5
  {
    assert Power(4) == 10 * Power(3) == 100 * Power(2) == 1000 * Power(1) == 10000;
    Widths(n, 4, 10000);
  }

  /** Two digits, a separator, and what follows. */
  lemma Field(s: string, i: nat, n: nat, c: char, rest: string)
    requires n < 100 && Holds(s, i, Decimal(n, 2) + ([c] + rest))
    ensures Number(s, i, 2, 0) == Some(n) && Has(s, i + 2, c) && Holds(s, i + 3, rest)
  {
    TwoDigits(n);
    AtConcat(s, i, Decimal(n, 2), [c] + rest);
    AtConcat(s, i + 2, [c], rest);
    AtChar(s, i + 2, c);
    ReadsBack(s, i, n, 2);
  }

  lemma SecondsBack(s: string, i: nat, ms: nat)
    requires ms < 60000 && |s| == i + 6 && Holds(s, i, Decimal(ms / 1000, 2) + ("." + Decimal(ms % 1000, 3)))
    ensures ReadSeconds(s, i) == Some(ms)
  {
    Field(s, i, ms / 1000, '.', Decimal(ms % 1000, 3));
    ThreeDigits(ms % 1000);
    ReadsBack(s, i + 3, ms % 1000, 3);
  }

  lemma TimeTextIs(t: Time, seconds: string)
    requires ReadableTime(t) && seconds == Decimal(t.s / 1000, 2) + ("." + Decimal(t.s % 1000, 3))
    ensures TimeText(t) == Decimal(t.h, 2) + (":" + (Decimal(t.m, 2) + (":" + seconds)))
  {
    Regroup(Decimal(t.h, 2), Decimal(t.m, 2), Decimal(t.s / 1000, 2), Decimal(t.s % 1000, 3));
  }

  lemma Regroup(a: string, b: string, c: string, d: string)
    ensures a + ":" + b + ":" + c + "." + d == a + (":" + (b + (":" + (c + ("." + d)))))
  {
  }

  lemma TimeBack(s: string, i: nat, t: Time)
    requires ReadableTime(t) && |s| == i + 12 && Holds(s, i, TimeText(t))
    ensures ReadTime(s, i) == Some(t)
  {
    var seconds := Decimal(t.s / 1000, 2) + ("." + Decimal(t.s % 1000, 3));
    TimeTextIs(t, seconds);
    Field(s, i, t.h, ':', Decimal(t.m, 2) + (":" + seconds));
    Field(s, i + 3, t.m, ':', seconds);
    SecondsBack(s, i + 6, t.s);
  }

  lemma TimeTextLength(t: Time)
    requires ReadableTime(t)
    ensures |TimeText(t)| == 12
  {
    TwoDigits(t.h);
    TwoDigits(t.m);
    TwoDigits(t.s / 1000);
    ThreeDigits(t.s % 1000);
  }

  lemma DateBack(s: string, n: nat, z: Span)
    requires IsAccepted(z) && |s| > 0 && n > 0 && UpTo(s, 1, n - 1, MAXYEAR) == Some(z.Y) && (s[0] == '-') == z.neg
    requires |s| == n + |Rest(z.M, z.D, z.time.value)| && Holds(s, n, Rest(z.M, z.D, z.time.value))
    ensures Has(s, n, '-') && ReadDate(s, n) == Some(z)
  {
    var t := z.time.value;
    RestIs(z.M, z.D, t);
    TimeTextLength(t);
    TwoDigits(z.M);
    TwoDigits(z.D);
    AtConcat(s, n, "-", Decimal(z.M, 2) + ("-" + (Decimal(z.D, 2) + (" " + TimeText(t)))));
    AtChar(s, n, '-');
    Field(s, n + 1, z.M, '-', Decimal(z.D, 2) + (" " + TimeText(t)));
    Field(s, n + 4, z.D, ' ', TimeText(t));
    TimeBack(s, n + 7, t);
  }

  lemma RestIs(m: nat, d: nat, t: Time)
    requires ReadableTime(t)
    ensures Rest(m, d, t) == "-" + (Decimal(m, 2) + ("-" + (Decimal(d, 2) + (" " + TimeText(t)))))
  {
    RegroupDate(Decimal(m, 2), Decimal(d, 2), TimeText(t));
  }

  lemma RegroupDate(a: string, b: string, c: string)
    ensures "-" + a + "-" + b + " " + c == "-" + (a + ("-" + (b + (" " + c))))
  {
  }

  /** Characters that make a number are digits. */
  lemma {:induction false} NumberDigits(s: string, i: nat, k: nat, sofar: nat, j: nat)
    requires Number(s, i, k, sofar) != None && i <= j < i + k
    ensures j < |s| && IsDigit(s[j])
    decreases k
  {
    if j > i { NumberDigits(s, i + 1, k - 1, sofar * 10 + Value(s[i]), j); }
  }

  /** The scan passes over the digits of a year and stops at the hyphen after it. */
  lemma {:induction false} StopsAfterYear(s: string, i: nat, n: nat)
    requires 1 <= i <= n && (n == 5 || n == 6) && Has(s, n, '-') && UpTo(s, 1, n - 1, MAXYEAR) != None
    ensures Stop(s, i) == n
    decreases n - i
  {
    if i < n {
      NumberDigits(s, 1, n - 1, 0, i);
      StopsAfterYear(s, i + 1, n);
    }
  }

  /** The modifier reads what timediff prints, whenever it is in the range that it accepts. */
  lemma RoundTrip(z: Span)
    requires IsAccepted(z)
    ensures ReadSpan(Printed(z)) == Some(z)
  {
    var s, n := Printed(z), 1 + |Decimal(z.Y, 4)|;
    YearDigits(z.Y);
    Parts(z, s);
    ReadsBack(s, 1, z.Y, 4);
    DateBack(s, n, z);
    StopsAfterYear(s, 1, n);
  }

  lemma Parts(z: Span, s: string)
    requires IsAccepted(z) && s == Printed(z)
    ensures var y, rest := Decimal(z.Y, 4), Rest(z.M, z.D, z.time.value);
            && |s| == 1 + |y| + |rest| && Holds(s, 1, y) && Holds(s, 1 + |y|, rest)
            && s[0] == if z.neg then '-' else '+'
  {
    var y, rest := Decimal(z.Y, 4), Rest(z.M, z.D, z.time.value);
    var sign := if z.neg then "-" else "+";
    Sum(sign, y, rest, s);
  }

  lemma Sum(a: string, b: string, c: string, s: string)
    requires s == a + b + c && |a| == 1
    ensures |s| == 1 + |b| + |c| && s[0] == a[0] && Holds(s, 1, b) && Holds(s, 1 + |b|, c)
  {
  }

  // ---- Shorter texts ----

  /** A sign and a date. */
  function DateText(z: Span): string
    requires z.M >= 0 && z.D >= 0
  {
    (if z.neg then "-" else "+") + Year(z.Y) + ("-" + (Decimal(z.M, 2) + ("-" + Decimal(z.D, 2))))
  }

  /** Hours and minutes, and whole seconds if they are wanted. */
  function ShortTime(t: Time, seconds: bool): string
    requires ReadableTime(t)
  {
    Decimal(t.h, 2) + (":" + (Decimal(t.m, 2) + if seconds then ":" + Decimal(t.s / 1000, 2) else ""))
  }

  /** What is read of a date in a text s that goes on with rest after it. */
  lemma ReadsDate(s: string, z: Span, rest: string)
    requires 0 <= z.Y < 100000 && 0 <= z.M < 100 && 0 <= z.D < 100 && s == DateText(z) + rest
    ensures var n := 1 + |Year(z.Y)|;
            && n == (if z.Y < 10000 then 5 else 6) && |s| == n + 6 + |rest| && Holds(s, n + 6, rest)
            && Has(s, 0, if z.neg then '-' else '+') && Has(s, n, '-') && Has(s, n + 3, '-')
            && Number(s, 1, n - 1, 0) == Some(z.Y)
            && Number(s, n + 1, 2, 0) == Some(z.M) && Number(s, n + 4, 2, 0) == Some(z.D)
            && (z.Y <= MAXYEAR ==> Stop(s, 1) == n)
  {
    var y, n := Decimal(z.Y, 4), 1 + |Decimal(z.Y, 4)|;
    var date := "-" + (Decimal(z.M, 2) + ("-" + (Decimal(z.D, 2) + rest)));
    YearDigits(z.Y);
    DateTextIs(z, rest, if z.neg then "-" else "+", y, date, s);
    ReadsBack(s, 1, z.Y, 4);
    ReadsFields(s, n, z.M, z.D, rest);
    if z.Y <= MAXYEAR { StopsAfterYear(s, 1, n); }
  }

  lemma DateTextIs(z: Span, rest: string, sign: string, y: string, date: string, s: string)
    requires 0 <= z.Y < 100000 && 0 <= z.M < 100 && 0 <= z.D < 100 && s == DateText(z) + rest
    requires sign == (if z.neg then "-" else "+") && y == Decimal(z.Y, 4)
    requires date == "-" + (Decimal(z.M, 2) + ("-" + (Decimal(z.D, 2) + rest)))
    ensures |s| == 1 + |y| + |date| && s[0] == sign[0] && Holds(s, 1, y) && Holds(s, 1 + |y|, date)
    ensures |date| == 6 + |rest|
  {
    TwoDigits(z.M);
    TwoDigits(z.D);
    RegroupShort(sign, y, Decimal(z.M, 2), Decimal(z.D, 2), rest);
    Sum(sign, y, date, s);
  }

  lemma ReadsFields(s: string, n: nat, m: nat, d: nat, rest: string)
    requires m < 100 && d < 100 && Holds(s, n, "-" + (Decimal(m, 2) + ("-" + (Decimal(d, 2) + rest))))
    ensures Has(s, n, '-') && Has(s, n + 3, '-') && Holds(s, n + 6, rest)
    ensures Number(s, n + 1, 2, 0) == Some(m) && Number(s, n + 4, 2, 0) == Some(d)
  {
    TwoDigits(d);
    AtConcat(s, n, "-", Decimal(m, 2) + ("-" + (Decimal(d, 2) + rest)));
    AtChar(s, n, '-');
    Field(s, n + 1, m, '-', Decimal(d, 2) + rest);
    AtConcat(s, n + 4, Decimal(d, 2), rest);
    ReadsBack(s, n + 4, d, 2);
  }

  lemma RegroupShort(a: string, b: string, c: string, d: string, e: string)
    ensures a + b + ("-" + (c + ("-" + d))) + e == a + b + ("-" + (c + ("-" + (d + e))))
  {
  }

  /** A date alone is read as a span without a time, exactly if its numbers are in range. */
  lemma DateRoundTrip(z: Span)
    requires 0 <= z.Y < 100000 && 0 <= z.M < 100 && 0 <= z.D < 100 && z.time == None
    ensures ReadSpan(DateText(z)) == if z.Y <= 14712 && z.M <= 12 && z.D <= 31 then Some(z) else None
  {
    var s := DateText(z);
    assert s + "" == s;
    ReadsDate(s, z, "");
    if z.Y > MAXYEAR && Has(s, Stop(s, 1), '-') {
      StopsAt(s, 1);
      NumberDigits(s, 1, 5, 0, 5);
      assert false;
    }
  }

  /** What is read is in range. */
  lemma InRangeRead(s: string, z: Span)
    requires ReadSpan(s) == Some(z)
    ensures 0 <= z.Y <= 14712 && 0 <= z.M <= 12 && 0 <= z.D <= 31
    ensures z.time.Some? ==> 0 <= z.time.value.h <= 24 && 0 <= z.time.value.m <= 59 && 0 <= z.time.value.s < 60000
  {
    var n := Stop(s, 1);
    if |s| > n + 6 { TimeInRange(s, n + 7); }
  }

  lemma TimeInRange(s: string, i: nat)
    ensures var r := ReadTime(s, i);
            r.Some? ==> r.value.h <= 24 && r.value.m <= 59 && 0 <= r.value.h && 0 <= r.value.m && 0 <= r.value.s < 60000
  {
    ThreeAtMost(s, i + 9);
  }

  lemma ThreeAtMost(s: string, i: nat)
    ensures Number(s, i, 3, 0) != None ==> Number(s, i, 3, 0).value < 1000
  {
    var k := 3;
    AtMost(s, i, k, 0, 1);
    assert Power(3) == 10 * Power(2) == 100 * Power(1) == 1000;
  }

  lemma {:induction false} AtMost(s: string, i: nat, k: nat, sofar: nat, bound: nat)
    requires sofar < bound
    ensures var n := Number(s, i, k, sofar); n != None ==> n.value < bound * Power(k)
    decreases k
  {
    if k > 0 && i < |s| && IsDigit(s[i]) {
      AtMost(s, i + 1, k - 1, sofar * 10 + Value(s[i]), bound * 10);
      assert bound * 10 * Power(k - 1) == bound * (10 * Power(k - 1));
    }
  }

  /** A date with hours and minutes, or with whole seconds too, is read back as well. */
  lemma ShortRoundTrip(z: Span, seconds: bool)
    requires IsAccepted(z) && if seconds then z.time.value.s % 1000 == 0 else z.time.value.s == 0
    ensures ReadSpan(DateText(z) + (" " + ShortTime(z.time.value, seconds))) == Some(z)
  {
    var tail := ShortTime(z.time.value, seconds);
    var s := DateText(z) + (" " + tail);
    ReadsDate(s, z, " " + tail);
    ShortTail(s, z, if z.Y < 10000 then 5 else 6, tail, seconds);
  }

  lemma ShortTail(s: string, z: Span, n: nat, tail: string, seconds: bool)
    requires IsAccepted(z) && (if seconds then z.time.value.s % 1000 == 0 else z.time.value.s == 0)
    requires n > 0 && |s| == n + 6 + |" " + tail| && Holds(s, n + 6, " " + tail)
    requires tail == ShortTime(z.time.value, seconds)
    requires Number(s, 1, n - 1, 0) == Some(z.Y) && Has(s, n, '-') && Stop(s, 1) == n
    requires Number(s, n + 1, 2, 0) == Some(z.M) && Number(s, n + 4, 2, 0) == Some(z.D) && Has(s, n + 3, '-')
    requires Has(s, 0, if z.neg then '-' else '+')
    ensures ReadSpan(s) == Some(z)
  {
    AfterSpace(s, n + 6, tail);
    ShortTimeBack(s, n + 7, z.time.value, seconds);
    WithTime(s, n, z);
  }

  /** The parts of a text, put together. */
  lemma WithTime(s: string, n: nat, z: Span)
    requires IsAccepted(z) && |s| > n + 6 && n > 0
    requires Number(s, 1, n - 1, 0) == Some(z.Y) && Has(s, n, '-') && Stop(s, 1) == n
    requires Number(s, n + 1, 2, 0) == Some(z.M) && Number(s, n + 4, 2, 0) == Some(z.D) && Has(s, n + 3, '-')
    requires Has(s, 0, if z.neg then '-' else '+') && Has(s, n + 6, ' ') && ReadTime(s, n + 7) == z.time
    ensures ReadSpan(s) == Some(z)
  {
  }

  lemma AfterSpace(s: string, i: nat, t: string)
    requires Holds(s, i, " " + t) && |s| == i + |" " + t|
    ensures Has(s, i, ' ') && Holds(s, i + 1, t) && |s| == i + 1 + |t|
  {
    AtConcat(s, i, " ", t);
    AtChar(s, i, ' ');
  }

  lemma ShortTimeBack(s: string, i: nat, t: Time, seconds: bool)
    requires ReadableTime(t) && if seconds then t.s % 1000 == 0 else t.s == 0
    requires Holds(s, i, ShortTime(t, seconds)) && |s| == i + |ShortTime(t, seconds)|
    ensures ReadTime(s, i) == Some(t)
  {
    var rest := if seconds then ":" + Decimal(t.s / 1000, 2) else "";
    MinutesBack(s, i, t.h, t.m, rest);
    if seconds { WholeSeconds(s, i + 5, t.s / 1000); }
  }

  lemma MinutesBack(s: string, i: nat, h: nat, m: nat, rest: string)
    requires h < 100 && m < 100 && Holds(s, i, Decimal(h, 2) + (":" + (Decimal(m, 2) + rest)))
    ensures Number(s, i, 2, 0) == Some(h) && Has(s, i + 2, ':') && Number(s, i + 3, 2, 0) == Some(m)
    ensures Holds(s, i + 5, rest) && |Decimal(h, 2) + (":" + (Decimal(m, 2) + rest))| == 5 + |rest|
  {
    TwoDigits(h);
    TwoDigits(m);
    Field(s, i, h, ':', Decimal(m, 2) + rest);
    AtConcat(s, i + 3, Decimal(m, 2), rest);
    ReadsBack(s, i + 3, m, 2);
  }

  lemma WholeSeconds(s: string, i: nat, x: nat)
    requires x < 60 && Holds(s, i, ":" + Decimal(x, 2)) && |s| == i + |":" + Decimal(x, 2)|
    ensures |s| == i + 3 && Has(s, i, ':') && ReadSeconds(s, i + 1) == Some(x * 1000)
  {
    TwoDigits(x);
    AtConcat(s, i, ":", Decimal(x, 2));
    AtChar(s, i, ':');
    ReadsBack(s, i + 1, x, 2);
  }

  /** Where the scan stops at a hyphen, digits are before it. */
  lemma {:induction false} StopsAt(s: string, n: nat)
    requires Has(s, Stop(s, n), '-')
    ensures Stop(s, n) >= 5 && |s| > 1 && IsDigit(s[1])
    ensures var k := Stop(s, n); (k == 5 || k == 6) && UpTo(s, 1, k - 1, MAXYEAR) != None
    decreases |s| - n
  {
    if !(s[n] == '-' && (n == 5 || n == 6) && UpTo(s, 1, n - 1, MAXYEAR) != None) {
      StopsAt(s, n + 1);
    } else {
      NumberDigits(s, 1, n - 1, 0, 1);
    }
  }

  /** A negative year is not read as one. */
  lemma NegativeYear(z: Span)
    requires z.time.Some? && z.M >= 0 && z.D >= 0 && ReadableTime(z.time.value) && z.Y < 0
    ensures ReadSpan(Printed(z)) == None
  {
    var s := Printed(z);
    assert s[1] == '-';
    if Has(s, Stop(s, 1), '-') {
      StopsAt(s, 1);
      assert false;
    }
  }

  // ---- The documented law, on the text ----

  /** What becomes of an argument with a text as its modifier. */
  function ArgumentPlusText(p: Date, s: string): Option<Date> {
    match ReadSpan(s)
    case None => None
    case Some(z) => ArgumentPlus(p, z)
  }

  lemma SameByText(pB: Date, z: Span)
    requires 0 <= z.M <= 11 && 0 <= z.D <= 30 && z.time.Some? && ReadableTime(z.time.value) && z.Y <= MAXYEAR
    ensures ArgumentPlusText(pB, Printed(z)) == ArgumentPlus(pB, z)
  {
    if z.Y < 0 { NegativeYear(z); } else { RoundTrip(z); }
  }

  /** The text of timediff(A, B), as a modifier of B, gives A: exactly if the operands are ordered and B fits. */
  lemma TextInverts(pA: Date, pB: Date, z: Span)
    requires IsParsed(pA) && IsParsed(pB) && IsTimediffOf(pA, pB, z)
    ensures z.M >= 0 && z.D >= 0 && z.time.Some? && ReadableTime(z.time.value)
    ensures var p1, p2 := WithYMD_HMS(Argument(pA).value), WithYMD_HMS(Argument(pB).value);
            InvertsTo(Argument(pA).value.iJD, ArgumentPlusText(pB, Printed(z))) <==> Inverted(p1, p2, WithYMD_HMS(pB))
  {
    TimediffInverts(pA, pB, z);
    InRange(WithYMD_HMS(Argument(pA).value), WithYMD_HMS(Argument(pB).value), z);
    SameByText(pB, z);
  }

  lemma InRange(p1: Date, p2: Date, z: Span)
    requires IsOperand(p1) && IsOperand(p2) && IsTimediff(p1, p2, z)
    ensures 0 <= z.M <= 11 && 0 <= z.D <= 30 && z.time.Some? && ReadableTime(z.time.value) && z.Y <= MAXYEAR
  {
    NotNegative(p1, p2, z);
    MonthsAre(p1, p2, z);
    ReachedNear(p1, p2);
  }
}
