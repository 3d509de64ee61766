/** The clock a timestamp is read against: seconds of UTC counted one by one from 1970-01-01T00:00:00. */
module Calendar {
  import opened Options
  import opened Radix
  import opened JsonTokenizer
  import opened CivilTime

  /** A date and the time of day. */
  datatype Moment = Moment(date: Date, hour: int, minute: int, second: int)

  predicate ValidMoment(t: Moment) {
    ValidDate(t.date) && 0 <= t.hour < 24 && 0 <= t.minute < 60 && 0 <= t.second < 60
  }

  /** One second later. */
  function Tick(t: Moment): Moment {
    if t.second < 59 then t.(second := t.second + 1)
    else if t.minute < 59 then Moment(t.date, t.hour, t.minute + 1, 0)
    else if t.hour < 23 then Moment(t.date, t.hour + 1, 0, 0)
    else Moment(Next(t.date), 0, 0, 0)
  }

  /** The preceding day. */
  function Previous(a: Date): Date {
    if a.d > 1 then Date(a.y, a.m, a.d - 1)
    else if a.m > 1 then Date(a.y, a.m - 1, MonthDays(a.y, a.m - 1))
    else Date(a.y - 1, 12, 31)
  }

  /** One second earlier. */
  function Untick(t: Moment): Moment {
    if t.second > 0 then t.(second := t.second - 1)
    else if t.minute > 0 then Moment(t.date, t.hour, t.minute - 1, 59)
    else if t.hour > 0 then Moment(t.date, t.hour - 1, 59, 59)
    else Moment(Previous(t.date), 23, 59, 59)
  }

  /** The date and time in UTC, n seconds after the start of 1970 or before it. */
  function Utc(n: int): Moment
    decreases if n < 0 then -n else n
  {
    if n > 0 then Tick(Utc(n - 1)) else if n < 0 then Untick(Utc(n + 1)) else Moment(Date(1970, 1, 1), 0, 0, 0)
  }

  lemma PreviousDay(a: Date)
    requires ValidDate(a)
    ensures ValidDate(Previous(a)) && Next(Previous(a)) == a
  {}

  lemma TickBack(t: Moment)
    requires ValidMoment(t)
    ensures ValidMoment(Tick(t)) && ValidMoment(Untick(t)) && Tick(Untick(t)) == t
  {
    PreviousDay(t.date);
    NextDay(t.date);
    hide ValidDate, Next, Previous, DaysFromCivil;
  }

  /** The second the source computes for a moment in UTC. */
  function Second(t: Moment): int {
    DaysFromCivil(t.date.y, t.date.m, t.date.d) * 86400 + t.hour * 3600 + t.minute * 60 + t.second
  }

  /** A tick is one second, at the end of a day, a month, a year or a century too. */
  lemma TickSecond(t: Moment)
    requires ValidMoment(t)
    ensures Second(Tick(t)) == Second(t) + 1
  {
    NextDay(t.date);
    hide ValidDate, Next, DaysFromCivil;
  }

  lemma UtcStep(n: int)
    ensures n > 0 ==> Utc(n) == Tick(Utc(n - 1))
    ensures n < 0 ==> Utc(n) == Untick(Utc(n + 1))
  {
    hide Tick, Untick;
  }

  lemma {:induction false} UtcSecond(n: int)
    ensures ValidMoment(Utc(n)) && Second(Utc(n)) == n
    decreases if n < 0 then -n else n
  {
    if n == 0 {
      EpochIsZero();
    } else {
      UtcStep(n);
      hide ValidMoment, Second, Tick, Untick, Utc;
      if n > 0 {
        UtcSecond(n - 1);
        TickBack(Utc(n - 1));
        TickSecond(Utc(n - 1));
      } else {
        UtcSecond(n + 1);
        TickBack(Utc(n + 1));
        TickSecond(Untick(Utc(n + 1)));
      }
    }
  }

  // ---------- what is written in a timestamp ----------

  /** v in two decimal digits. */
  function Two(v: int): Text
    requires 0 <= v < 100
  {
    ['0' as int + v / 10, '0' as int + v % 10]
  }

  lemma PadTwo(v: int)
    requires 0 <= v < 100
    ensures Pad(v, 2) == Two(v)
  {
    assert Pad(v / 10 / 10, 0) == [];
    assert Pad(v / 10, 1) == Pad(v / 10 / 10, 0) + [0x30 + v / 10 % 10];
  }

  lemma PadFour(v: int)
    requires 0 <= v < 10000
    ensures Pad(v, 4) == Two(v / 100) + Two(v % 100)
  {
    var w := v / 100;
    assert v / 10 / 10 == w && v / 10 % 10 == v % 100 / 10 && v % 10 == v % 100 % 10;
    assert Pad(v / 10, 3) == Pad(w, 2) + [0x30 + v / 10 % 10];
    PadTwo(w);
  }

  /** YYYY-MM-DD */
  function DateText(a: Date): Text
    requires ValidDate(a) && 0 <= a.y < 10000
  {
    Two(a.y / 100) + Two(a.y % 100) + Ascii("-") + Two(a.m) + Ascii("-") + Two(a.d)
  }

  /** hh:mm:ss, or hh:mm */
  function TimeText(t: Moment, seconds: bool): Text
    requires ValidMoment(t)
  {
    Two(t.hour) + Ascii(":") + Two(t.minute) + if seconds then Ascii(":") + Two(t.second) else []
  }

  /** How far a zone is ahead of UTC: none and Z are UTC, +hh:mm and +hh are ahead, -hh:mm and -hh behind. */
  ghost predicate Ahead(zone: Text, h: int, m: int, east: int)
    requires 0 <= h < 100 && 0 <= m < 100
  {
    || (east == 0 && (zone == [] || zone == Ascii("Z") || zone == Ascii("z")))
    || (east == 3600 * h + 60 * m && zone == Ascii("+") + Two(h) + Ascii(":") + Two(m))
    || (east == -3600 * h - 60 * m && zone == Ascii("-") + Two(h) + Ascii(":") + Two(m))
    || (east == 3600 * h && zone == Ascii("+") + Two(h))
    || (east == -3600 * h && zone == Ascii("-") + Two(h))
  }

  lemma ZoneRead(zone: Text, h: int, m: int, east: int) returns (z: Zone)
    requires 0 <= h < 100 && 0 <= m < 100 && Ahead(zone, h, m, east)
    ensures PrintableZone(z) && PrintZone(z) == zone && ZoneSeconds(z) == east
  {
    PadTwo(h);
    PadTwo(m);
    assert Ascii("+") == [PLUS] && Ascii("-") == [DASH] && Ascii(":") == [COLON] && Ascii("Z") == [0x5a] && Ascii("z") == [0x7a];
    hide Two, Pad;
    if zone == [] {
      z := NoZone;
    } else if zone == Ascii("Z") || zone == Ascii("z") {
      z := Zulu(zone[0]);
    } else if east == 3600 * h + 60 * m && zone == Ascii("+") + Two(h) + Ascii(":") + Two(m) {
      z := Offset(PLUS, h, m);
    } else if east == -3600 * h - 60 * m && zone == Ascii("-") + Two(h) + Ascii(":") + Two(m) {
      z := Offset(DASH, h, m);
    } else {
      z := Offset(zone[0], h, -1);
    }
  }

  /** The date of a moment as the source writes and reads it. */
  lemma DatePrint(t: Stamp, a: Date)
    requires ValidDate(a) && Printable(t) && t.year == a.y && t.month == a.m && t.day == a.d
    ensures PrintDate(t) == DateText(a)
  {
    PadFour(a.y);
    PadTwo(a.m);
    PadTwo(a.d);
    assert Ascii("-") == [DASH];
    hide Two, Pad;
  }

  lemma TailPrint(t: Moment, seconds: bool, c: Clock)
    requires ValidMoment(t) && c.Clock? && PrintableClock(c) && c.hour == t.hour && c.minute == t.minute && c.second == if seconds then t.second else -1
    ensures Pad(c.hour, 2) + [COLON] + Pad(c.minute, 2) + PrintTail(c) == TimeText(t, seconds) + PrintFraction(c.fraction) + PrintZone(c.zone)
  {
    PadTwo(t.hour);
    PadTwo(t.minute);
    PadTwo(t.second);
    assert Ascii(":") == [COLON];
    hide Two, Pad, PrintZone, PrintFraction;
    assert PrintSecond(c.second) == if seconds then Ascii(":") + Two(t.second) else [];
  }

  /** The text of any fields: what the parser accepts is of this form, digit by digit and sign by sign. */
  lemma PrintedForm(t: Stamp)
    requires Printable(t)
    ensures var date := Two(t.year / 100) + Two(t.year % 100) + Ascii("-") + Two(t.month) + Ascii("-") + Two(t.day);
            if t.clock.NoClock? then Print(t) == date
            else
              var c := t.clock;
              && (c.sep == 'T' as int || c.sep == 't' as int || c.sep == ' ' as int)
              && Print(t) == date + [c.sep] + Two(c.hour) + Ascii(":") + Two(c.minute) + (if c.second < 0 then [] else Ascii(":") + Two(c.second))
                + (if c.fraction.NoFraction? then [] else Ascii(".") + c.fraction.digits) + PrintZone(c.zone)
    ensures t.clock.Clock? && t.clock.fraction.Fraction? ==>
              forall i :: 0 <= i < |t.clock.fraction.digits| ==> '0' as int <= t.clock.fraction.digits[i] <= '9' as int
  {
    assert Ascii("-") == [DASH] && Ascii(":") == [COLON] && Ascii(".") == [DOT];
    PadFour(t.year);
    PadTwo(t.month);
    PadTwo(t.day);
    hide Two, Pad, PrintZone, Ascii, PrintableZone;
    if t.clock.Clock? {
      var c := t.clock;
      PadTwo(c.hour);
      PadTwo(c.minute);
      if c.second >= 0 {
        PadTwo(c.second);
      }
      Flat(PrintDate(t), [c.sep], Pad(c.hour, 2), [COLON], Pad(c.minute, 2), PrintSecond(c.second), PrintFraction(c.fraction), PrintZone(c.zone));
    }
  }

  lemma Flat(d: Text, sep: Text, h: Text, colon: Text, m: Text, sec: Text, f: Text, z: Text)
    ensures d + (sep + h + colon + m + (sec + (f + z))) == d + sep + h + colon + m + sec + f + z
  {
    assert d + (sep + h + colon + m + (sec + (f + z))) == d + (sep + h + colon + m) + (sec + (f + z));
  }

  /** A zone is nothing, Z in either case, or a sign and the hours, with or without minutes. */
  lemma ZoneForm(z: Zone)
    requires PrintableZone(z)
    ensures var s := PrintZone(z);
            match z
            case NoZone => s == []
            case Zulu(_) => s == Ascii("Z") || s == Ascii("z")
            case Offset(sign, h, m) =>
              (sign == '+' as int || sign == '-' as int) && s == [sign] + Two(h) + if m < 0 then [] else Ascii(":") + Two(m)
  {
    assert Ascii("Z") == [0x5a] && Ascii("z") == [0x7a] && Ascii(":") == [COLON];
    if z.Offset? {
      PadTwo(z.hours);
      if z.minutes >= 0 {
        PadTwo(z.minutes);
      }
      hide Two, Pad;
    }
  }

  // ---------- reading it ----------

  /** The text is a timestamp of second n. */
  ghost predicate Reads(s: Text, n: int) {
    var t := CivilTime.Parse(s);
    t.Some? && InRange(t.value) && Epoch(t.value) == n
  }

  /** The local date and time of any second n, in a zone ahead of UTC by east, reads as n: with T, t or a blank between date
      and time, with or without seconds where they are zero, and with a fraction, which is dropped. */
  lemma LocalTimeRead(n: int, sep: Text, seconds: bool, dot: bool, digits: Text, zone: Text, h: int, m: int, east: int) returns (s: Text)
    requires 0 <= h < 100 && 0 <= m < 100 && Ahead(zone, h, m, east) && 0 <= Utc(n + east).date.y < 10000
    requires sep == Ascii("T") || sep == Ascii("t") || sep == Ascii(" ")
    requires seconds || Utc(n + east).second == 0
    requires forall i :: 0 <= i < |digits| ==> '0' as int <= digits[i] <= '9' as int
    ensures ValidMoment(Utc(n + east))
    ensures s == DateText(Utc(n + east).date) + sep + TimeText(Utc(n + east), seconds) + (if dot then Ascii(".") + digits else []) + zone
    ensures Reads(s, n)
  {
    hide Utc, Ahead, TimeText, DateText, Reads, PrintZone, ZoneSeconds, ValidMoment, PrintableZone, PrintableClock, PrintFraction, Second, Ascii;
    UtcSecond(n + east);
    var local := Utc(n + east);
    var z := ZoneRead(zone, h, m, east);
    var c := ClockOf(local, sep, seconds, dot, digits, z);
    s := Read(local, seconds, c, sep);
    Denoted(s, local, seconds, c, n, east);
  }

  lemma ClockOf(local: Moment, sep: Text, seconds: bool, dot: bool, digits: Text, z: Zone) returns (c: Clock)
    requires ValidMoment(local) && PrintableZone(z) && (sep == Ascii("T") || sep == Ascii("t") || sep == Ascii(" "))
    requires forall i :: 0 <= i < |digits| ==> '0' as int <= digits[i] <= '9' as int
    ensures c.Clock? && PrintableClock(c) && sep == [c.sep] && c.zone == z && PrintFraction(c.fraction) == if dot then Ascii(".") + digits else []
    ensures c.hour == local.hour && c.minute == local.minute && c.second == if seconds then local.second else -1
  {
    assert Ascii("T") == [0x54] && Ascii("t") == [0x74] && Ascii(" ") == [0x20] && Ascii(".") == [DOT];
    hide PrintableZone, MonthDays;
    c := Clock(sep[0], local.hour, local.minute, if seconds then local.second else -1, if dot then Fraction(digits) else NoFraction, z);
  }

  lemma Denoted(s: Text, local: Moment, seconds: bool, c: Clock, n: int, east: int)
    requires ValidMoment(local) && c.Clock? && CivilTime.Parse(s) == Some(Stamp(local.date.y, local.date.m, local.date.d, c))
    requires c.hour == local.hour && c.minute == local.minute && c.second == if seconds then local.second else -1
    requires Second(local) == n + east && ZoneSeconds(c.zone) == east && (seconds || local.second == 0)
    ensures Reads(s, n)
  {
    DayNumber(local.date);
    hide CivilTime.Parse, DaysFromCivil, ZoneSeconds, MonthDays;
  }

  lemma DayNumber(a: Date)
    requires ValidDate(a)
    ensures 1 <= a.m <= 12 && 1 <= a.d <= 31
  {}

  lemma Read(local: Moment, seconds: bool, c: Clock, sep: Text) returns (s: Text)
    requires ValidMoment(local) && 0 <= local.date.y < 10000 && c.Clock? && PrintableClock(c) && sep == [c.sep]
    requires c.hour == local.hour && c.minute == local.minute && c.second == if seconds then local.second else -1
    ensures s == DateText(local.date) + sep + TimeText(local, seconds) + PrintFraction(c.fraction) + PrintZone(c.zone)
    ensures CivilTime.Parse(s) == Some(Stamp(local.date.y, local.date.m, local.date.d, c))
  {
    DayNumber(local.date);
    hide MonthDays, PrintTail, TimeText, DateText, Two, Pad, PrintZone, PrintFraction, CivilTime.Parse, PrintDate;
    var t := Stamp(local.date.y, local.date.m, local.date.d, c);
    ParsePrint(t);
    DatePrint(t, local.date);
    TailPrint(local, seconds, c);
    s := Print(t);
    Regroup(PrintDate(t), sep, Pad(c.hour, 2), [COLON], Pad(c.minute, 2), PrintTail(c), TimeText(local, seconds), PrintFraction(c.fraction), PrintZone(c.zone));
  }

  lemma Regroup(d: Text, sep: Text, h: Text, colon: Text, m: Text, tail: Text, time: Text, f: Text, z: Text)
    requires h + colon + m + tail == time + f + z
    ensures d + (sep + h + colon + m + tail) == d + sep + time + f + z
  {
    assert sep + h + colon + m + tail == sep + (h + colon + m + tail);
    assert d + (sep + (time + f + z)) == d + sep + time + f + z;
  }

  /** A date alone reads as its midnight in UTC. */
  lemma MidnightRead(n: int)
    requires var t := Utc(n); t.hour == 0 && t.minute == 0 && t.second == 0 && 0 <= t.date.y < 10000
    ensures ValidMoment(Utc(n))
    ensures Reads(DateText(Utc(n).date), n)
  {
    UtcSecond(n);
    var a := Utc(n).date;
    DayNumber(a);
    hide Utc, MonthDays, DateText, PrintDate, CivilTime.Parse, DaysFromCivil;
    var t := Stamp(a.y, a.m, a.d, NoClock);
    ParsePrint(t);
    DatePrint(t, a);
  }

  /** Fields past the end of a minute or a month carry over: a day, an hour, a minute and a second count in full. */
  lemma FieldsCount(t: Stamp)
    requires t.clock.Clock? && 1 <= t.month <= 12
    ensures Epoch(t) == Epoch(Stamp(t.year, t.month, 1, NoClock)) + (t.day - 1) * 86400
      + t.clock.hour * 3600 + t.clock.minute * 60 + (if t.clock.second < 0 then 0 else t.clock.second) - ZoneSeconds(t.clock.zone)
  {}

  /** hlm_parse_iso8601 returns n for the local date and time of second n with its zone. */
  method ParseLocalTime(n: int, zone: Text, h: int, m: int, east: int) returns (ok: bool, epoch: int)
    requires 0 <= h < 100 && 0 <= m < 100 && Ahead(zone, h, m, east) && 0 <= Utc(n + east).date.y < 10000
    ensures ok && epoch == n
  {
    hide Utc, Ahead, Epoch, InRange, CivilTime.Parse, TimeText, DateText, Ascii, ValidDate;
    ghost var text := LocalTimeRead(n, Ascii("T"), true, false, [], zone, h, m, east);
    var local := Utc(n + east);
    assert text == DateText(local.date) + Ascii("T") + TimeText(local, true) + zone;
    ok, epoch := ParseIso8601(DateText(local.date) + Ascii("T") + TimeText(local, true) + zone);
  }
}
