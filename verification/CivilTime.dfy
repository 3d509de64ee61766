/** ISO 8601 timestamps and the day count of the proleptic Gregorian calendar. */
module CivilTime {
  import opened Options
  import opened Radix
  import opened JsonTokenizer
  import opened JsonGrammar

  // ---------- the calendar ----------

  predicate Leap(y: int) {
    y % 4 == 0 && (y % 100 != 0 || y % 400 == 0)
  }

  function MonthDays(y: int, m: int): int {
    if m == 2 then (if Leap(y) then 29 else 28)
    else if m == 4 || m == 6 || m == 9 || m == 11 then 30
    else 31
  }

  datatype Date = Date(y: int, m: int, d: int)

  predicate ValidDate(a: Date) {
    1 <= a.m <= 12 && 1 <= a.d <= MonthDays(a.y, a.m)
  }

  /** The following day. */
  function Next(a: Date): Date {
    if a.d < MonthDays(a.y, a.m) then Date(a.y, a.m, a.d + 1)
    else if a.m < 12 then Date(a.y, a.m + 1, 1)
    else Date(a.y + 1, 1, 1)
  }

  /** C division, which truncates toward zero. */
  function Quotient(a: int, b: int): int
    requires b > 0
  {
    if a >= 0 then a / b else -(-a / b)
  }

  /** days_from_civil */
  function DaysFromCivil(y0: int, m: int, d: int): int {
    var y := if m <= 2 then y0 - 1 else y0;
    var era := Quotient(if y >= 0 then y else y - 399, 400);
    var yoe := y - era * 400;
    var doy := Quotient(153 * (m + (if m > 2 then -3 else 9)) + 2, 5) + d - 1;
    var doe := yoe * 365 + Quotient(yoe, 4) - Quotient(yoe, 100) + doy;
    era * 146097 + doe - 719468
  }

  /** Days before year y that starts in March, day count within it, relative to 1970-01-01. */
  function MarchDays(y: int, doy: int): int {
    y * 365 + y / 4 - y / 100 + y / 400 + doy - 719468
  }

  /** The era arithmetic is the plain leap-year count, for negative years too. */
  lemma EraCount(y0: int, m: int, d: int)
    ensures DaysFromCivil(y0, m, d)
         == MarchDays(if m <= 2 then y0 - 1 else y0, Quotient(153 * (m + (if m > 2 then -3 else 9)) + 2, 5) + d - 1)
  {
    var y := if m <= 2 then y0 - 1 else y0;
    var era := Quotient(if y >= 0 then y else y - 399, 400);
    assert era == y / 400;
    var yoe := y - era * 400;
    assert 0 <= yoe < 400;
    assert y / 4 == era * 100 + yoe / 4;
    assert y / 100 == era * 4 + yoe / 100;
  }

  /** The day count starts at 0 on 1970-01-01. */
  lemma EpochIsZero()
    ensures DaysFromCivil(1970, 1, 1) == 0
  {}

  lemma YearStep(y: int)
    ensures MarchDays(y + 1, 0) == MarchDays(y, 365 + if Leap(y + 1) then 1 else 0)
  {
    QuotientStep(y, 4);
    QuotientStep(y, 100);
    QuotientStep(y, 400);
    LeapDivisors(y + 1);
  }

  lemma QuotientStep(y: int, k: int)
    requires k > 1
    ensures (y + 1) / k == y / k + if (y + 1) % k == 0 then 1 else 0
  {
    var q, r := y / k, y % k;
    assert y == k * q + r;
    if r == k - 1 {
      Arith.DivModUnique(y + 1, k, q + 1, 0);
    } else {
      Arith.DivModUnique(y + 1, k, q, r + 1);
    }
  }

  lemma LeapDivisors(y: int)
    ensures y % 400 == 0 ==> y % 100 == 0
    ensures y % 100 == 0 ==> y % 4 == 0
  {}

  /** Consecutive dates of any year have consecutive day counts. */
  lemma NextDay(a: Date)
    requires ValidDate(a)
    ensures ValidDate(Next(a))
    ensures var b := Next(a); DaysFromCivil(b.y, b.m, b.d) == DaysFromCivil(a.y, a.m, a.d) + 1
  {
    var b := Next(a);
    EraCount(a.y, a.m, a.d);
    EraCount(b.y, b.m, b.d);
    hide DaysFromCivil, MarchDays;
    if a.m == 2 && b.m == 3 {
      YearStep(a.y - 1);
      MarchLinear(a.y - 1, 365 + (if Leap(a.y) then 1 else 0), Quotient(153 * 11 + 2, 5) + a.d - 1);
    } else {
      var y := if a.m <= 2 then a.y - 1 else a.y;
      assert y == if b.m <= 2 then b.y - 1 else b.y;
      var da := Quotient(153 * (a.m + (if a.m > 2 then -3 else 9)) + 2, 5) + a.d - 1;
      var db := Quotient(153 * (b.m + (if b.m > 2 then -3 else 9)) + 2, 5) + b.d - 1;
      MonthStep(a);
      MarchLinear(y, db, da);
    }
  }

  lemma MarchLinear(y: int, d: int, e: int)
    ensures MarchDays(y, d) - MarchDays(y, e) == d - e
  {}

  /** Within a March year the month formula steps by one day, also at month ends. */
  lemma MonthStep(a: Date)
    requires ValidDate(a) && !(a.m == 2 && Next(a).m == 3)
    ensures var b := Next(a);
            Quotient(153 * (b.m + (if b.m > 2 then -3 else 9)) + 2, 5) + b.d
              == Quotient(153 * (a.m + (if a.m > 2 then -3 else 9)) + 2, 5) + a.d + 1
  {}

  // ---------- timestamps ----------

  const DASH: byte := 0x2d
  const PLUS: byte := 0x2b
  const DOT: byte := 0x2e

  datatype Zone = NoZone | Zulu(letter: byte) | Offset(sign: byte, hours: int, minutes: int)

  /** second and minutes are -1 when they are not written. */
  datatype Clock = NoClock | Clock(sep: byte, hour: int, minute: int, second: int, fraction: Fraction, zone: Zone)

  datatype Fraction = NoFraction | Fraction(digits: Text)

  datatype Stamp = Stamp(year: int, month: int, day: int, clock: Clock)

  /** v in n decimal digits. */
  function Pad(v: int, n: nat): (s: Text)
    requires v >= 0
    ensures |s| == n && forall i :: 0 <= i < n ==> Digit(s[i])
    decreases n
  {
    if n == 0 then [] else Pad(v / 10, n - 1) + [0x30 + v % 10]
  }

  /** The value of n digits at i, or -1. */
  function DigitsAt(s: Text, i: nat, n: nat): (v: int)
    ensures v >= -1
    decreases n
  {
    if n == 0 then 0
    else if i + n > |s| || !Digit(s[i + n - 1]) then -1
    else
      var high := DigitsAt(s, i, n - 1);
      if high < 0 then -1 else 10 * high + (s[i + n - 1] as int - 0x30)
  }

  lemma {:induction false} DigitsBound(s: Text, i: nat, n: nat)
    ensures DigitsAt(s, i, n) < Arith.Pow(10, n)
    decreases n
  {
    if n > 0 {
      DigitsBound(s, i, n - 1);
    }
    Arith.PowPositive(10, n);
  }

  /** Printed digits read back. */
  lemma {:induction false} PadRead(s: Text, i: nat, v: int, n: nat)
    requires 0 <= v < Arith.Pow(10, n) && i + n <= |s| && s[i..i + n] == Pad(v, n)
    ensures DigitsAt(s, i, n) == v
    decreases n
  {
    if n > 0 {
      assert s[i..i + n][n - 1] == s[i + n - 1];
      assert s[i..i + (n - 1)] == s[i..i + n][..n - 1] == Pad(v / 10, n - 1);
      assert Arith.Pow(10, n) == 10 * Arith.Pow(10, n - 1);
      PadRead(s, i, v / 10, n - 1);
    }
  }

  /** Digits read are the print of their value. */
  lemma {:induction false} ReadPad(s: Text, i: nat, n: nat)
    requires DigitsAt(s, i, n) >= 0 && i + n <= |s|
    ensures s[i..i + n] == Pad(DigitsAt(s, i, n), n)
    decreases n
  {
    if n > 0 {
      ReadPad(s, i, n - 1);
      assert s[i..i + n] == s[i..i + (n - 1)] + [s[i + n - 1]];
    }
  }

  lemma {:induction false} DigitsFit(s: Text, i: nat, n: nat)
    requires DigitsAt(s, i, n) >= 0 && n > 0
    ensures i + n <= |s|
  {}

  // ---------- print ----------

  function PrintZone(z: Zone): Text
    requires z.Offset? ==> z.hours >= 0
  {
    match z
    case NoZone => []
    case Zulu(letter) => [letter]
    case Offset(sign, hours, minutes) => [sign] + Pad(hours, 2) + (if minutes < 0 then [] else [COLON] + Pad(minutes, 2))
  }

  function PrintFraction(f: Fraction): Text {
    if f.NoFraction? then [] else [DOT] + f.digits
  }

  function PrintSecond(second: int): Text {
    if second < 0 then [] else [COLON] + Pad(second, 2)
  }

  function PrintTail(c: Clock): Text
    requires c.Clock? && (c.zone.Offset? ==> c.zone.hours >= 0)
  {
    PrintSecond(c.second) + (PrintFraction(c.fraction) + PrintZone(c.zone))
  }

  predicate Printable(t: Stamp) {
    && 0 <= t.year < 10000 && 0 <= t.month < 100 && 0 <= t.day < 100
    && (t.clock.Clock? ==> PrintableClock(t.clock))
  }

  predicate PrintableClock(c: Clock)
    requires c.Clock?
  {
    && (c.sep == 0x54 || c.sep == 0x74 || c.sep == 0x20)
    && 0 <= c.hour < 100 && 0 <= c.minute < 100 && -1 <= c.second < 100
    && (c.fraction.Fraction? ==> forall i :: 0 <= i < |c.fraction.digits| ==> Digit(c.fraction.digits[i]))
    && PrintableZone(c.zone)
  }

  predicate PrintableZone(z: Zone) {
    match z
    case NoZone => true
    case Zulu(letter) => letter == 0x5a || letter == 0x7a
    case Offset(sign, hours, minutes) => (sign == PLUS || sign == DASH) && 0 <= hours < 100 && -1 <= minutes < 100
  }

  function PrintDate(t: Stamp): Text
    requires Printable(t)
  {
    Pad(t.year, 4) + [DASH] + Pad(t.month, 2) + [DASH] + Pad(t.day, 2)
  }

  function Print(t: Stamp): Text
    requires Printable(t)
  {
    if t.clock.NoClock? then PrintDate(t)
    else PrintDate(t) + ([t.clock.sep] + Pad(t.clock.hour, 2) + [COLON] + Pad(t.clock.minute, 2) + PrintTail(t.clock))
  }

  // ---------- parse ----------

  function ParseZone(s: Text): Option<Zone> {
    if |s| == 0 then Some(NoZone)
    else if s[0] == 0x5a || s[0] == 0x7a then (if |s| == 1 then Some(Zulu(s[0])) else None)
    else if s[0] == PLUS || s[0] == DASH then
      var h := DigitsAt(s, 1, 2);
      if h < 0 then None
      else if |s| == 3 then Some(Offset(s[0], h, -1))
      else if s[3] != COLON then None
      else
        var m := DigitsAt(s, 4, 2);
        if m < 0 || |s| != 6 then None else Some(Offset(s[0], h, m))
    else None
  }

  datatype Tail = NoTail | Tail(second: int, fraction: Fraction, zone: Zone)

  function ParseFraction(s: Text, second: int): Tail {
    var f := if |s| > 0 && s[0] == DOT then Fraction(s[1..1 + DigitRun(s[1..])]) else NoFraction;
    var z := ParseZone(s[|PrintFraction(f)|..]);
    if z.None? then NoTail else Tail(second, f, z.value)
  }

  /** What follows hours and minutes. */
  function ParseTail(s: Text): Tail {
    if |s| > 0 && s[0] == COLON then
      var sec := DigitsAt(s, 1, 2);
      if sec < 0 then NoTail else ParseFraction(s[3..], sec)
    else ParseFraction(s, -1)
  }

  function ParseClock(s: Text, year: int, month: int, day: int): Option<Stamp>
    requires |s| >= 10
  {
    if |s| == 10 then Some(Stamp(year, month, day, NoClock))
    else if !(s[10] == 0x54 || s[10] == 0x74 || s[10] == 0x20) then None
    else
      var h := DigitsAt(s, 11, 2);
      if h < 0 || |s| <= 13 || s[13] != COLON then None
      else
        var mi := DigitsAt(s, 14, 2);
        if mi < 0 then None
        else
          var tail := ParseTail(s[16..]);
          if tail.NoTail? then None
          else Some(Stamp(year, month, day, Clock(s[10], h, mi, tail.second, tail.fraction, tail.zone)))
  }

  /** The fields of a timestamp, not yet range-checked. */
  function Parse(s: Text): Option<Stamp> {
    var y := DigitsAt(s, 0, 4);
    if y < 0 || |s| <= 4 || s[4] != DASH then None
    else
      var mo := DigitsAt(s, 5, 2);
      if mo < 0 || |s| <= 7 || s[7] != DASH then None
      else
        var d := DigitsAt(s, 8, 2);
        if d < 0 then None else ParseClock(s, y, mo, d)
  }

  // ---------- meaning ----------

  predicate InRange(t: Stamp) {
    && 1 <= t.month <= 12 && 1 <= t.day <= 31
    && (t.clock.Clock? ==> t.clock.hour <= 23 && t.clock.minute <= 59 && t.clock.second <= 60)
  }

  function ZoneSeconds(z: Zone): int {
    if z.Offset? then (if z.sign == DASH then -1 else 1) * (z.hours * 3600 + (if z.minutes < 0 then 0 else z.minutes) * 60) else 0
  }

  /** The epoch second a timestamp denotes: fractions are dropped, a missing zone is UTC. */
  function Epoch(t: Stamp): int {
    var day := DaysFromCivil(t.year, t.month, t.day) * 86400;
    if t.clock.NoClock? then day
    else day + t.clock.hour * 3600 + t.clock.minute * 60 + (if t.clock.second < 0 then 0 else t.clock.second) - ZoneSeconds(t.clock.zone)
  }

  // ---------- parse is the inverse of print ----------

  lemma ZonePrinted(z: Zone)
    requires PrintableZone(z)
    ensures ParseZone(PrintZone(z)) == Some(z)
  {
    var s := PrintZone(z);
    assert Arith.Pow(10, 2) == 100;
    if z.Offset? {
      assert s[1..3] == Pad(z.hours, 2);
      PadRead(s, 1, z.hours, 2);
      if z.minutes >= 0 {
        assert s[4..6] == Pad(z.minutes, 2);
        PadRead(s, 4, z.minutes, 2);
      }
    }
  }

  lemma ZoneParsed(s: Text)
    requires ParseZone(s).Some?
    ensures PrintableZone(ParseZone(s).value) && PrintZone(ParseZone(s).value) == s
  {
    if |s| >= 3 {
      DigitsBound(s, 1, 2);
      DigitsBound(s, 4, 2);
      assert Arith.Pow(10, 2) == 100;
      ReadPad(s, 1, 2);
      if |s| > 3 {
        ReadPad(s, 4, 2);
        assert s == [s[0]] + s[1..3] + ([s[3]] + s[4..6]);
      } else {
        assert s == [s[0]] + s[1..3];
      }
    }
  }

  lemma {:induction false} RunOfDigits(d: Text, rest: Text)
    requires (forall i :: 0 <= i < |d| ==> Digit(d[i])) && (|rest| > 0 ==> !Digit(rest[0]))
    ensures DigitRun(d + rest) == |d|
    decreases |d|
  {
    if |d| > 0 {
      assert (d + rest)[1..] == d[1..] + rest;
      RunOfDigits(d[1..], rest);
    } else {
      assert d + rest == rest;
    }
  }

  lemma ZoneStart(z: Zone)
    requires PrintableZone(z)
    ensures |PrintZone(z)| > 0 ==> !Digit(PrintZone(z)[0]) && PrintZone(z)[0] != DOT && PrintZone(z)[0] != COLON
  {}

  lemma FractionPrinted(f: Fraction, z: Zone, second: int)
    requires PrintableZone(z) && (f.Fraction? ==> forall i :: 0 <= i < |f.digits| ==> Digit(f.digits[i]))
    ensures ParseFraction(PrintFraction(f) + PrintZone(z), second) == Tail(second, f, z)
  {
    hide ParseZone, PrintZone;
    var s := PrintFraction(f) + PrintZone(z);
    ZoneStart(z);
    ZonePrinted(z);
    if f.Fraction? {
      assert s[1..] == f.digits + PrintZone(z);
      RunOfDigits(f.digits, PrintZone(z));
      assert s[1..1 + |f.digits|] == f.digits;
    }
    assert s[|PrintFraction(f)|..] == PrintZone(z);
  }

  lemma FractionParsed(s: Text, second: int)
    requires ParseFraction(s, second).Tail?
    ensures var t := ParseFraction(s, second);
            && t.second == second && PrintableZone(t.zone) && PrintFraction(t.fraction) + PrintZone(t.zone) == s
            && (t.fraction.Fraction? ==> forall i :: 0 <= i < |t.fraction.digits| ==> Digit(t.fraction.digits[i]))
  {
    hide ParseZone, PrintZone, PrintableZone;
    var f := ParseFraction(s, second).fraction;
    ZoneParsed(s[|PrintFraction(f)|..]);
    assert s == PrintFraction(f) + s[|PrintFraction(f)|..];
  }

  lemma TailPrinted(c: Clock)
    requires c.Clock? && PrintableClock(c)
    ensures ParseTail(PrintTail(c)) == Tail(c.second, c.fraction, c.zone)
  {
    hide ParseFraction, PrintZone, Pad;
    var rest := PrintFraction(c.fraction) + PrintZone(c.zone);
    FractionPrinted(c.fraction, c.zone, c.second);
    var s := PrintTail(c);
    if c.second >= 0 {
      assert s[1..3] == Pad(c.second, 2);
      assert Arith.Pow(10, 2) == 100;
      PadRead(s, 1, c.second, 2);
      assert s[3..] == rest;
    } else {
      assert s == rest;
      ZoneStart(c.zone);
    }
  }

  lemma TailParsed(s: Text)
    requires ParseTail(s).Tail?
    ensures var t := ParseTail(s);
            && -1 <= t.second < 100 && PrintableZone(t.zone)
            && PrintSecond(t.second) + (PrintFraction(t.fraction) + PrintZone(t.zone)) == s
            && (t.fraction.Fraction? ==> forall i :: 0 <= i < |t.fraction.digits| ==> Digit(t.fraction.digits[i]))
  {
    hide ParseFraction, PrintZone, PrintableZone, PrintFraction, Pad;
    if |s| > 0 && s[0] == COLON {
      DigitsBound(s, 1, 2);
      assert Arith.Pow(10, 2) == 100;
      DigitsFit(s, 1, 2);
      ReadPad(s, 1, 2);
      FractionParsed(s[3..], DigitsAt(s, 1, 2));
      assert s == ([s[0]] + s[1..3]) + s[3..];
    } else {
      FractionParsed(s, -1);
    }
  }

  lemma DatePrinted(t: Stamp, s: Text)
    requires Printable(t) && |s| >= 10 && s[..10] == PrintDate(t)
    ensures DigitsAt(s, 0, 4) == t.year && s[4] == DASH && DigitsAt(s, 5, 2) == t.month && s[7] == DASH && DigitsAt(s, 8, 2) == t.day
  {
    hide Pad;
    var p := s[..10];
    assert Arith.Pow(10, 2) == 100 && Arith.Pow(10, 4) == 10000;
    assert s[0..4] == p[0..4] == Pad(t.year, 4);
    assert s[5..7] == p[5..7] == Pad(t.month, 2);
    assert s[8..10] == p[8..10] == Pad(t.day, 2);
    assert s[4] == p[4] && s[7] == p[7];
    PadRead(s, 0, t.year, 4);
    PadRead(s, 5, t.month, 2);
    PadRead(s, 8, t.day, 2);
  }

  /** Parsing a printed timestamp gives its fields back. */
  lemma ParsePrint(t: Stamp)
    requires Printable(t)
    ensures Parse(Print(t)) == Some(t)
  {
    var s := Print(t);
    assert s[..10] == PrintDate(t);
    hide Pad, DigitsAt, PrintDate, PrintTail, ParseTail;
    DatePrinted(t, s);
    if t.clock.Clock? {
      var c := t.clock;
      ClockPrinted(t, s);
      TailPrinted(c);
    }
  }

  lemma ClockPrinted(t: Stamp, s: Text)
    requires Printable(t) && t.clock.Clock? && s == Print(t)
    ensures |s| >= 16 && s[10] == t.clock.sep && DigitsAt(s, 11, 2) == t.clock.hour && s[13] == COLON
    ensures DigitsAt(s, 14, 2) == t.clock.minute && s[16..] == PrintTail(t.clock)
  {
    hide Pad, PrintTail;
    var c := t.clock;
    assert Arith.Pow(10, 2) == 100;
    assert s[11..13] == Pad(c.hour, 2);
    assert s[14..16] == Pad(c.minute, 2);
    PadRead(s, 11, c.hour, 2);
    PadRead(s, 14, c.minute, 2);
  }

  /** Whatever parses is the print of the fields found, so Parse and Print are inverse. */
  lemma PrintParse(s: Text)
    requires Parse(s).Some?
    ensures Printable(Parse(s).value) && Print(Parse(s).value) == s
  {
    hide Pad, DigitsAt, ParseTail, PrintTail, PrintableClock, ParseClock, Parse;
    DateParsed(s);
    var t := Parse(s).value;
    if |s| == 10 {
      assert s == s[..10];
    } else {
      ClockParsed(s, t);
      assert s == s[..10] + s[10..];
    }
  }

  lemma DateParsed(s: Text)
    requires Parse(s).Some?
    ensures |s| >= 10 && var t := Parse(s).value; ParseClock(s, t.year, t.month, t.day) == Some(t)
    ensures var t := Parse(s).value;
            && 0 <= t.year < 10000 && 0 <= t.month < 100 && 0 <= t.day < 100
            && s[..10] == Pad(t.year, 4) + [DASH] + Pad(t.month, 2) + [DASH] + Pad(t.day, 2)
            && (t.clock.NoClock? <==> |s| == 10)
  {
    assert Arith.Pow(10, 2) == 100 && Arith.Pow(10, 4) == 10000;
    DigitsBound(s, 0, 4);
    DigitsBound(s, 5, 2);
    DigitsBound(s, 8, 2);
    DigitsFit(s, 8, 2);
    hide Pad, DigitsAt, ParseTail;
    ReadPad(s, 0, 4);
    ReadPad(s, 5, 2);
    ReadPad(s, 8, 2);
    assert s[..10] == s[0..4] + [s[4]] + s[5..7] + [s[7]] + s[8..10];
  }

  lemma ClockParsed(s: Text, t: Stamp)
    requires |s| > 10 && ParseClock(s, t.year, t.month, t.day) == Some(t)
    ensures t.clock.Clock? && PrintableClock(t.clock)
    ensures s[10..] == [t.clock.sep] + Pad(t.clock.hour, 2) + [COLON] + Pad(t.clock.minute, 2) + PrintTail(t.clock)
  {
    hide Pad, DigitsAt, ParseTail, PrintZone, PrintFraction, PrintSecond, PrintableZone;
    ClockDigits(s);
    TailParsed(s[16..]);
    SplitClock(s);
  }

  lemma ClockDigits(s: Text)
    requires DigitsAt(s, 11, 2) >= 0 && DigitsAt(s, 14, 2) >= 0
    ensures |s| >= 16 && DigitsAt(s, 11, 2) < 100 && DigitsAt(s, 14, 2) < 100
    ensures s[11..13] == Pad(DigitsAt(s, 11, 2), 2) && s[14..16] == Pad(DigitsAt(s, 14, 2), 2)
  {
    assert Arith.Pow(10, 2) == 100;
    DigitsBound(s, 11, 2);
    DigitsBound(s, 14, 2);
    DigitsFit(s, 14, 2);
    hide Pad, DigitsAt;
    ReadPad(s, 11, 2);
    ReadPad(s, 14, 2);
  }

  lemma SplitClock(s: Text)
    requires |s| >= 16
    ensures s[10..] == [s[10]] + s[11..13] + [s[13]] + s[14..16] + s[16..]
  {}

  // ---------- the parser ----------

  /** read_digits: advances i by count, or fails. */
  method ReadDigits(s: Text, i: nat, count: nat) returns (ok: bool, v: int, i': nat)
    ensures ok <==> DigitsAt(s, i, count) >= 0
    ensures ok ==> v == DigitsAt(s, i, count) && i' == i + count && (count > 0 ==> i' <= |s|)
  {
    v, i' := 0, i;
    var k := 0;
    while k < count
      invariant 0 <= k <= count && i' == i + k && v >= 0 && v == DigitsAt(s, i, k) && (k > 0 ==> i' <= |s|)
    {
      if i' >= |s| || s[i'] < 0x30 || s[i'] > 0x39 {
        NoDigits(s, i, k + 1, count);
        return false, v, i';
      }
      v := v * 10 + (s[i'] as int - 0x30);
      i' := i' + 1;
      k := k + 1;
    }
    ok := true;
  }

  lemma {:induction false} NoDigits(s: Text, i: nat, n: nat, m: nat)
    requires n <= m && DigitsAt(s, i, n) == -1
    ensures DigitsAt(s, i, m) == -1
    decreases m
  {
    if n < m {
      NoDigits(s, i, n, m - 1);
    }
  }

  lemma {:induction false} DigitsShift(s: Text, d: nat, i: nat, n: nat)
    requires d <= |s|
    ensures DigitsAt(s[d..], i, n) == DigitsAt(s, d + i, n)
    decreases n
  {
    if n > 0 {
      DigitsShift(s, d, i, n - 1);
    }
  }

  /** The zone at i and its offset in seconds; i is the end of the text when it is well-formed. */
  method ReadZone(s: Text, i: nat) returns (ok: bool, i': nat, offset: int)
    requires i <= |s|
    ensures (ok && i' == |s|) <==> ParseZone(s[i..]).Some?
    ensures ok && i' == |s| ==> offset == ZoneSeconds(ParseZone(s[i..]).value)
    ensures ok ==> i' <= |s|
  {
    i', offset := i, 0;
    if i' < |s| {
      if s[i'] == 0x5a || s[i'] == 0x7a {
        i' := i' + 1;
      } else if s[i'] == PLUS || s[i'] == DASH {
        var sign := if s[i'] == DASH then -1 else 1;
        var oh, om := 0, 0;
        i' := i' + 1;
        DigitsShift(s, i, 1, 2);
        ok, oh, i' := ReadDigits(s, i', 2);
        if !ok {
          return;
        }
        if i' < |s| && s[i'] == COLON {
          i' := i' + 1;
          DigitsShift(s, i, 4, 2);
          ok, om, i' := ReadDigits(s, i', 2);
          if !ok {
            return;
          }
        }
        offset := sign * (oh * 3600 + om * 60);
      }
    }
    ok := true;
  }

  /** Skips a fraction of any length. */
  method SkipFraction(s: Text, i: nat) returns (i': nat)
    requires i <= |s|
    ensures i' == i + (if i < |s| && s[i] == DOT then 1 + DigitRun(s[i + 1..]) else 0) && i' <= |s|
  {
    i' := i;
    if i' < |s| && s[i'] == DOT {
      i' := i' + 1;
      while i' < |s| && s[i'] >= 0x30 && s[i'] <= 0x39
        invariant i < i' <= |s| && i' + DigitRun(s[i'..]) == i + 1 + DigitRun(s[i + 1..])
      {
        assert s[i'..][1..] == s[i' + 1..];
        i' := i' + 1;
      }
    }
  }

  /** Fraction and zone, which must end the text. */
  method ReadFraction(s: Text, i: nat, ghost second: int) returns (ok: bool, offset: int)
    requires i <= |s|
    ensures ok <==> ParseFraction(s[i..], second).Tail?
    ensures ok ==> offset == ZoneSeconds(ParseFraction(s[i..], second).zone)
  {
    hide ParseZone, DigitRun;
    ghost var rest := s[i..];
    assert i < |s| ==> rest[1..] == s[i + 1..];
    var j := SkipFraction(s, i);
    assert rest[j - i..] == s[j..];
    ok, j, offset := ReadZone(s, j);
    ok := ok && j == |s|;
  }

  /** Seconds, fraction and zone. */
  method ReadTail(s: Text, i: nat) returns (ok: bool, sec: int, offset: int)
    requires i <= |s|
    ensures ok <==> ParseTail(s[i..]).Tail?
    ensures ok ==> var t := ParseTail(s[i..]); sec == (if t.second < 0 then 0 else t.second) && offset == ZoneSeconds(t.zone)
  {
    hide ParseFraction, DigitsAt, ZoneSeconds;
    sec, offset := 0, 0;
    var i' := i;
    ghost var second := -1;
    if i' < |s| && s[i'] == COLON {
      i' := i' + 1;
      DigitsShift(s, i, 1, 2);
      ok, sec, i' := ReadDigits(s, i', 2);
      if !ok {
        return;
      }
      second := sec;
      assert s[i..][3..] == s[i'..];
    }
    TailSecond(s[i'..], second);
    ok, offset := ReadFraction(s, i', second);
  }

  lemma TailSecond(s: Text, second: int)
    ensures ParseFraction(s, second).Tail? ==> ParseFraction(s, second).second == second
  {
    hide ParseZone;
  }

  /** hlm_parse_iso8601: exactly the printed timestamps in range, and the second they denote. */
  method ParseIso8601(s: Text) returns (ok: bool, epoch: int)
    ensures ok <==> Parse(s).Some? && InRange(Parse(s).value)
    ensures ok <==> Parse(s).Some? && var t := Parse(s).value; 1 <= t.month <= 12 && 1 <= t.day <= 31 && (t.clock.Clock? ==> t.clock.hour <= 23 && t.clock.minute <= 59 && t.clock.second <= 60)
    ensures ok ==> epoch == Epoch(Parse(s).value)
  {
    hide ParseTail, DigitsAt, DaysFromCivil, ZoneSeconds;
    epoch := 0;
    var year, mon, day, hour, min, sec, offset, i := 0, 0, 0, 0, 0, 0, 0, 0;
    ok, year, i := ReadDigits(s, 0, 4);
    if !ok || i >= |s| || s[i] != DASH {
      return false, 0;
    }
    ok, mon, i := ReadDigits(s, i + 1, 2);
    if !ok || i >= |s| || s[i] != DASH {
      return false, 0;
    }
    ok, day, i := ReadDigits(s, i + 1, 2);
    if !ok {
      return false, 0;
    }
    if i < |s| {
      if !(s[i] == 0x54 || s[i] == 0x74 || s[i] == 0x20) {
        return false, 0;
      }
      ok, hour, i := ReadDigits(s, i + 1, 2);
      if !ok || i >= |s| || s[i] != COLON {
        return false, 0;
      }
      ok, min, i := ReadDigits(s, i + 1, 2);
      if !ok {
        return false, 0;
      }
      ok, sec, offset := ReadTail(s, i);
      if !ok {
        return false, 0;
      }
    }
    if mon < 1 || mon > 12 || day < 1 || day > 31 || hour > 23 || min > 59 || sec > 60 {
      return false, 0;
    }
    epoch := DaysFromCivil(year, mon, day) * 86400 + hour * 3600 + min * 60 + sec - offset;
    ok := true;
  }
}
