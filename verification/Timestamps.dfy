/** `format_millis`: the timestamp strings the catalog keys its tables by. */
module Timestamps {
  import opened StringOrder
  import opened Decimal
  import opened CivilDate

  function ClockTime(hour: nat, minute: nat, second: nat, millis: nat): string {
    Pad(hour, 2) + (":" + (Pad(minute, 2) + (":" + (Pad(second, 2) + ("." + Pad(millis, 3))))))
  }

  function TimeOfDay(rem: nat, millis: nat): string {
    ClockTime(rem / 3_600, rem % 3_600 / 60, rem % 60, millis)
  }

  function DateAndTime(d: Date, rem: nat, millis: nat): string
    requires d.year >= 0 && d.month >= 0 && d.day >= 0
  {
    Pad(d.year, 4) + ("-" + (Pad(d.month, 2) + ("-" + (Pad(d.day, 2) + (" " + TimeOfDay(rem, millis))))))
  }

  /** `YYYY-MM-DD HH:MM:SS.SSS` for a Unix second and its millisecond. */
  function FormatMillis(secs: nat, millis: nat): string {
    YearsAreNatural(secs / 86_400);
    DateAndTime(CivilFromDays(secs / 86_400), secs % 86_400, millis)
  }

  lemma YearsAreNatural(days: nat)
    ensures var d := CivilFromDays(days); d.year >= 1970 && 1 <= d.month <= 12 && 1 <= d.day <= 31
  {
    CivilFromDaysIsNthDay(days);
    Epoch();
    if days > 0 { DatesIncrease(0, days); }
  }

  predicate Earlier(s1: nat, m1: nat, s2: nat, m2: nat) {
    s1 < s2 || (s1 == s2 && m1 < m2)
  }

  lemma Separated(c: char, x: string, y: string)
    ensures StrLess([c] + x, [c] + y) <==> StrLess(x, y)
  {
    assert ([c] + x)[1..] == x && ([c] + y)[1..] == y;
  }

  lemma MillisLess(m1: nat, m2: nat)
    requires m1 < 1000 && m2 < 1000
    ensures StrLess("." + Pad(m1, 3), "." + Pad(m2, 3)) <==> m1 < m2
  {
    Separated('.', Pad(m1, 3), Pad(m2, 3));
    FieldLess(m1, [], m2, [], 3);
    assert Pad(m1, 3) + [] == Pad(m1, 3) && Pad(m2, 3) + [] == Pad(m2, 3);
  }

  predicate ClockLess(h1: nat, i1: nat, s1: nat, m1: nat, h2: nat, i2: nat, s2: nat, m2: nat) {
    h1 < h2 || (h1 == h2 && (i1 < i2 || (i1 == i2 && Earlier(s1, m1, s2, m2))))
  }

  lemma ClockTimeLess(h1: nat, i1: nat, s1: nat, m1: nat, h2: nat, i2: nat, s2: nat, m2: nat)
    requires h1 < 24 && i1 < 60 && s1 < 60 && m1 < 1000 && h2 < 24 && i2 < 60 && s2 < 60 && m2 < 1000
    ensures StrLess(ClockTime(h1, i1, s1, m1), ClockTime(h2, i2, s2, m2)) <==> ClockLess(h1, i1, s1, m1, h2, i2, s2, m2)
  {
    assert Pow10(2) == 100;
    MillisLess(m1, m2);
    FieldLess(s1, "." + Pad(m1, 3), s2, "." + Pad(m2, 3), 2);
    var x1, x2 := Pad(s1, 2) + ("." + Pad(m1, 3)), Pad(s2, 2) + ("." + Pad(m2, 3));
    Separated(':', x1, x2);
    FieldLess(i1, ":" + x1, i2, ":" + x2, 2);
    var y1, y2 := Pad(i1, 2) + (":" + x1), Pad(i2, 2) + (":" + x2);
    Separated(':', y1, y2);
    FieldLess(h1, ":" + y1, h2, ":" + y2, 2);
  }

  lemma ClockFields(r: nat) returns (h: nat, i: nat, s: nat)
    requires r < 86_400
    ensures h < 24 && i < 60 && s < 60 && r == 3_600 * h + 60 * i + s
    ensures forall m :: TimeOfDay(r, m) == ClockTime(h, i, s, m)
  {
    h, i, s := r / 3_600, r % 3_600 / 60, r % 60;
  }

  lemma TimeOfDayLess(r1: nat, m1: nat, r2: nat, m2: nat)
    requires r1 < 86_400 && r2 < 86_400 && m1 < 1000 && m2 < 1000
    ensures StrLess(TimeOfDay(r1, m1), TimeOfDay(r2, m2)) <==> Earlier(r1, m1, r2, m2)
  {
    var h1, i1, s1 := ClockFields(r1);
    var h2, i2, s2 := ClockFields(r2);
    ClockTimeLess(h1, i1, s1, m1, h2, i2, s2, m2);
  }

  predicate FourDigitDate(d: Date) {
    0 <= d.year < 10_000 && 1 <= d.month <= 12 && 1 <= d.day <= 31
  }

  lemma DateLessAsString(d1: Date, x1: string, d2: Date, x2: string)
    requires FourDigitDate(d1) && FourDigitDate(d2)
    ensures StrLess(Pad(d1.year, 4) + ("-" + (Pad(d1.month, 2) + ("-" + (Pad(d1.day, 2) + (" " + x1))))),
                    Pad(d2.year, 4) + ("-" + (Pad(d2.month, 2) + ("-" + (Pad(d2.day, 2) + (" " + x2))))))
            <==> DateLess(d1, d2) || (d1 == d2 && StrLess(x1, x2))
  {
    assert Pow10(2) == 100 && Pow10(4) == 10_000;
    Separated(' ', x1, x2);
    FieldLess(d1.day, " " + x1, d2.day, " " + x2, 2);
    var y1, y2 := Pad(d1.day, 2) + (" " + x1), Pad(d2.day, 2) + (" " + x2);
    Separated('-', y1, y2);
    FieldLess(d1.month, "-" + y1, d2.month, "-" + y2, 2);
    var z1, z2 := Pad(d1.month, 2) + ("-" + y1), Pad(d2.month, 2) + ("-" + y2);
    Separated('-', z1, z2);
    FieldLess(d1.year, "-" + z1, d2.year, "-" + z2, 4);
  }

  /** The first second of the year 10000. */
  const YEAR_10000: nat := 253_402_300_800

  lemma LastFourDigitDay()
    ensures CivilFromDays(2_932_896) == Date(9999, 12, 31)
    ensures CivilFromDays(2_932_897) == Date(10_000, 1, 1)
  {
    AtParts(2_932_896, 24, 399, 305);
    AtParts(2_932_897, 24, 399, 306);
  }

  /** The same layout over any calendar. */
  ghost function FormatWith(calendar: nat -> Date, secs: nat, millis: nat): string
    requires FourDigitDate(calendar(secs / 86_400))
  {
    DateAndTime(calendar(secs / 86_400), secs % 86_400, millis)
  }

  lemma FourDigitYears(calendar: nat -> Date, days: nat)
    requires RunsThroughCalendar(calendar) && calendar(2_932_896) == Date(9999, 12, 31)
    requires days <= 2_932_896
    ensures FourDigitDate(calendar(days))
  {
    if days > 0 { CalendarIncreases(calendar, 0, days); }
    if days < 2_932_896 { CalendarIncreases(calendar, days, 2_932_896); }
    assert ValidDate(calendar(days));
  }

  lemma CalendarOrder(calendar: nat -> Date, s1: nat, m1: nat, s2: nat, m2: nat)
    requires RunsThroughCalendar(calendar)
    requires FourDigitDate(calendar(s1 / 86_400)) && FourDigitDate(calendar(s2 / 86_400)) && m1 < 1000 && m2 < 1000
    ensures StrLess(FormatWith(calendar, s1, m1), FormatWith(calendar, s2, m2)) <==> Earlier(s1, m1, s2, m2)
  {
    var d1: nat, d2: nat, r1: nat, r2: nat := s1 / 86_400, s2 / 86_400, s1 % 86_400, s2 % 86_400;
    DateLessAsString(calendar(d1), TimeOfDay(r1, m1), calendar(d2), TimeOfDay(r2, m2));
    TimeOfDayLess(r1, m1, r2, m2);
    if d1 < d2 {
      CalendarIncreases(calendar, d1, d2);
    } else if d2 < d1 {
      CalendarIncreases(calendar, d2, d1);
    }
  }

  lemma FormatUsesCalendar(secs: nat, millis: nat)
    requires secs < YEAR_10000
    ensures FourDigitDate(CivilFromDays(secs / 86_400))
    ensures FormatMillis(secs, millis) == FormatWith(CivilFromDays, secs, millis)
  {
    ClosedFormRuns();
    LastFourDigitDay();
    FourDigitYears(CivilFromDays, secs / 86_400);
  }

  /** Before the year 10000, string order is exactly time order. */
  lemma StringOrderIsTimeOrder(s1: nat, m1: nat, s2: nat, m2: nat)
    requires s1 < YEAR_10000 && s2 < YEAR_10000 && m1 < 1000 && m2 < 1000
    ensures StrLess(FormatMillis(s1, m1), FormatMillis(s2, m2)) <==> Earlier(s1, m1, s2, m2)
  {
    ClosedFormRuns();
    FormatUsesCalendar(s1, m1);
    FormatUsesCalendar(s2, m2);
    CalendarOrder(CivilFromDays, s1, m1, s2, m2);
  }

  lemma StartsWithYear(secs: nat, millis: nat)
    ensures var year := CivilFromDays(secs / 86_400).year;
            year >= 0 && |Pad(year, 4)| > 0 && |FormatMillis(secs, millis)| > 0 &&
            FormatMillis(secs, millis)[0] == Pad(year, 4)[0]
  {
    YearsAreNatural(secs / 86_400);
  }

  lemma FirstDigits()
    ensures |Pad(9999, 4)| > 0 && Pad(9999, 4)[0] == '9'
    ensures |Pad(10_000, 4)| > 0 && Pad(10_000, 4)[0] == '1'
  {
    assert Show(999) == Show(99) + ['9'] && Show(9999) == Show(999) + ['9'];
    assert Show(1_000) == Show(100) + ['0'] && Show(10_000) == Show(1_000) + ['0'];
  }

  /** The last second of 9999 sorts after the first of 10000: five digits break the order. */
  lemma TimestampOrderBreaksInYear10000()
    ensures Earlier(YEAR_10000 - 1, 0, YEAR_10000, 0)
    ensures !StrLess(FormatMillis(YEAR_10000 - 1, 0), FormatMillis(YEAR_10000, 0))
  {
    LastFourDigitDay();
    FirstDigits();
    assert (YEAR_10000 - 1) / 86_400 == 2_932_896 && YEAR_10000 / 86_400 == 2_932_897;
    StartsWithYear(YEAR_10000 - 1, 0);
    StartsWithYear(YEAR_10000, 0);
  }

  /** String order is time order on all instants below a bound exactly when the bound stays within year 9999. */
  lemma TimestampsSortAsStrings(bound: nat)
    ensures (forall s1: nat, m1: nat, s2: nat, m2: nat ::
               s1 < bound && s2 < bound && m1 < 1000 && m2 < 1000 && Earlier(s1, m1, s2, m2)
               ==> StrLess(FormatMillis(s1, m1), FormatMillis(s2, m2)))
            <==> bound <= YEAR_10000
  {
    if bound <= YEAR_10000 {
      forall s1: nat, m1: nat, s2: nat, m2: nat |
        s1 < bound && s2 < bound && m1 < 1000 && m2 < 1000 && Earlier(s1, m1, s2, m2)
        ensures StrLess(FormatMillis(s1, m1), FormatMillis(s2, m2))
      {
        StringOrderIsTimeOrder(s1, m1, s2, m2);
      }
    } else {
      TimestampOrderBreaksInYear10000();
    }
  }

  // ----- what a timestamp shows -----

  /** Digits stand from `i` to `j`, and this is their number. */
  predicate NumberAt(s: string, i: nat, j: nat, n: int) {
    i <= j <= |s| && AllDigits(s[i..j]) && Value(s[i..j]) == n
  }

  lemma FieldAt(s: string, i: nat, n: nat, width: nat, sep: char, rest: string)
    requires i <= |s| && s[i..] == Pad(n, width) + ([sep] + rest) && width > 0 && n < Pow10(width)
    ensures |s| == i + width + 1 + |rest| && NumberAt(s, i, i + width, n)
    ensures s[i + width] == sep && s[i + width + 1..] == rest
  {
    PadShows(n, width);
    assert s[i..i + width] == s[i..][..width] == Pad(n, width);
    assert s[i + width] == s[i..][width] && s[i + width + 1..] == s[i..][width + 1..];
  }

  lemma LastFieldAt(s: string, i: nat, n: nat, width: nat)
    requires i <= |s| && s[i..] == Pad(n, width) && width > 0 && n < Pow10(width)
    ensures |s| == i + width && NumberAt(s, i, i + width, n)
  {
    PadShows(n, width);
    assert s[i..i + width] == s[i..];
  }

  lemma ClockShows(s: string, i: nat, hour: nat, minute: nat, second: nat, millis: nat)
    requires i <= |s| && s[i..] == ClockTime(hour, minute, second, millis)
    requires hour < 24 && minute < 60 && second < 60 && millis < 1000
    ensures |s| == i + 12 && s[i + 2] == ':' && s[i + 5] == ':' && s[i + 8] == '.'
    ensures NumberAt(s, i, i + 2, hour) && NumberAt(s, i + 3, i + 5, minute)
    ensures NumberAt(s, i + 6, i + 8, second) && NumberAt(s, i + 9, i + 12, millis)
  {
    assert Pow10(2) == 100 && Pow10(3) == 1000;
    FieldAt(s, i, hour, 2, ':', Pad(minute, 2) + (":" + (Pad(second, 2) + ("." + Pad(millis, 3)))));
    FieldAt(s, i + 3, minute, 2, ':', Pad(second, 2) + ("." + Pad(millis, 3)));
    FieldAt(s, i + 6, second, 2, '.', Pad(millis, 3));
    LastFieldAt(s, i + 9, millis, 3);
  }

  lemma DateShows(s: string, d: Date, time: string)
    requires FourDigitDate(d)
    requires s == Pad(d.year, 4) + ("-" + (Pad(d.month, 2) + ("-" + (Pad(d.day, 2) + (" " + time)))))
    ensures |s| == 11 + |time| && s[4] == '-' && s[7] == '-' && s[10] == ' ' && s[11..] == time
    ensures NumberAt(s, 0, 4, d.year) && NumberAt(s, 5, 7, d.month) && NumberAt(s, 8, 10, d.day)
  {
    assert Pow10(2) == 100 && Pow10(4) == 10_000 && s[0..] == s;
    FieldAt(s, 0, d.year, 4, '-', Pad(d.month, 2) + ("-" + (Pad(d.day, 2) + (" " + time))));
    FieldAt(s, 5, d.month, 2, '-', Pad(d.day, 2) + (" " + time));
    FieldAt(s, 8, d.day, 2, ' ', time);
  }

  /** The same layout over any calendar shows that calendar's date and the time of day. */
  lemma LayoutShows(calendar: nat -> Date, secs: nat, millis: nat, h: nat, i: nat, sec: nat)
    requires FourDigitDate(calendar(secs / 86_400)) && h < 24 && i < 60 && sec < 60 && millis < 1000
    requires TimeOfDay(secs % 86_400, millis) == ClockTime(h, i, sec, millis)
    ensures StampOf(FormatWith(calendar, secs, millis), calendar(secs / 86_400), h, i, sec, millis)
  {
    var s, d := FormatWith(calendar, secs, millis), calendar(secs / 86_400);
    DateShows(s, d, ClockTime(h, i, sec, millis));
    ClockShows(s, 11, h, i, sec, millis);
  }

  /** `YYYY-MM-DD HH:MM:SS.SSS`, character by character. */
  predicate StampOf(s: string, d: Date, hour: nat, minute: nat, second: nat, millis: nat) {
    && |s| == 23 && s[4] == '-' && s[7] == '-' && s[10] == ' ' && s[13] == ':' && s[16] == ':' && s[19] == '.'
    && NumberAt(s, 0, 4, d.year) && NumberAt(s, 5, 7, d.month) && NumberAt(s, 8, 10, d.day)
    && NumberAt(s, 11, 13, hour) && NumberAt(s, 14, 16, minute) && NumberAt(s, 17, 19, second)
    && NumberAt(s, 20, 23, millis)
  }

  /**
   A timestamp before the year 10000 shows, in 23 characters, the calendar day that many days after 1970-01-01, the
   hour, minute and second that make up the rest of the day, and the millisecond.
  */
  lemma StampShows(secs: nat, millis: nat) returns (hour: nat, minute: nat, second: nat)
    requires secs < YEAR_10000 && millis < 1000
    ensures StampOf(FormatMillis(secs, millis), NthDay(secs / 86_400), hour, minute, second, millis)
    ensures minute < 60 && second < 60 && 3_600 * hour + 60 * minute + second == secs % 86_400
  {
    hour, minute, second := ClockFields(secs % 86_400);
    FormatUsesCalendar(secs, millis);
    CivilFromDaysIsNthDay(secs / 86_400);
    LayoutShows(CivilFromDays, secs, millis, hour, minute, second);
  }
}
