/** The closed-form civil-date conversion inside `format_millis`, checked against a calendar that counts days one by one. */
module CivilDate {

  datatype Date = Date(year: int, month: int, day: int)

  /** Days since 1970-01-01 to a civil date, as the source computes it. */
  function CivilFromDays(days: nat): Date {
    var z := days + 719_468;
    CivilOfEra(z / 146_097, z % 146_097)
  }

  function CivilOfEra(era: int, doe: int): Date {
    var yoe := YearOfEra(doe);
    FromParts(era, yoe, doe - YearStart(yoe))
  }

  function YearOfEra(doe: int): int {
    (doe - doe / 1_460 + doe / 36_524 - doe / 146_096) / 365
  }

  /** Days before March-based year `k` of an era. */
  function YearStart(k: int): int {
    365 * k + k / 4 - k / 100
  }

  /** A date from its era, its March-based year of the era, and its day of that year. */
  function FromParts(era: int, k: int, doy: int): Date {
    var mp := (5 * doy + 2) / 153;
    var d := doy - (153 * mp + 2) / 5 + 1;
    var m := if mp < 10 then mp + 3 else mp - 9;
    var y := k + era * 400;
    Date(if m <= 2 then y + 1 else y, m, d)
  }

  // ----- the Gregorian calendar, one day at a time -----

  predicate IsLeap(year: int) {
    year % 4 == 0 && (year % 100 != 0 || year % 400 == 0)
  }

  function DaysInMonth(year: int, month: int): int {
    if month == 2 then (if IsLeap(year) then 29 else 28)
    else if month == 4 || month == 6 || month == 9 || month == 11 then 30
    else 31
  }

  predicate ValidDate(d: Date) {
    1 <= d.month <= 12 && 1 <= d.day <= DaysInMonth(d.year, d.month)
  }

  function NextDay(d: Date): Date {
    if d.day < DaysInMonth(d.year, d.month) then d.(day := d.day + 1)
    else if d.month < 12 then Date(d.year, d.month + 1, 1)
    else Date(d.year + 1, 1, 1)
  }

  /** 1970-01-01 stepped forward `n` times. */
  function NthDay(n: nat): Date {
    if n == 0 then Date(1970, 1, 1) else NextDay(NthDay(n - 1))
  }

  predicate DateLess(a: Date, b: Date) {
    a.year < b.year || (a.year == b.year && (a.month < b.month || (a.month == b.month && a.day < b.day)))
  }

  // ----- the closed form, piece by piece -----

  /** Years run from March to February here, so a leap day closes its year. Year `k` of a 400-year era. */
  predicate LongYear(k: int) {
    (k + 1) % 4 == 0 && ((k + 1) % 100 != 0 || (k + 1) % 400 == 0)
  }

  function YearLength(k: int): int {
    if LongYear(k) then 366 else 365
  }

  /** The year-of-era formula finds the year a day of the era falls in. */
  lemma YearOfEraFinds(c: int, q: int, r: int, doy: int)
    requires 0 <= c < 4 && 0 <= q < 25 && 0 <= r < 4
    requires 0 <= doy < YearLength(100 * c + 4 * q + r)
    ensures var k := 100 * c + 4 * q + r;
            var doe := YearStart(k) + doy;
            0 <= doe < 146_097 && YearOfEra(doe) == k
  {
    var k := 100 * c + 4 * q + r;
    assert k / 4 == 25 * c + q && k / 100 == c;
    var doe := YearStart(k) + doy;
    assert doe == 36_524 * c + 1_461 * q + 365 * r + doy;
    LongYearParts(c, q, r);
    var rest := 24 * c + q + 365 * r + doy;
    assert doe == 1_460 * (25 * c + q) + rest;
    var e := if rest >= 1_460 then 1 else 0;
    assert doe / 1_460 == 25 * c + q + e;
    var last := if c == 3 && q == 24 && r == 3 && doy == 365 then 1 else 0;
    assert doe / 146_096 == last;
    assert doe / 36_524 == c + last;
    assert doe - doe / 1_460 + doe / 36_524 - doe / 146_096 == 365 * k + (doy - e);
  }

  lemma LongYearParts(c: int, q: int, r: int)
    requires 0 <= c < 4 && 0 <= q < 25 && 0 <= r < 4
    ensures LongYear(100 * c + 4 * q + r) <==> r == 3 && (q < 24 || c == 3)
  {
    var k1 := 100 * c + 4 * q + r + 1;
    assert k1 == 4 * (25 * c + q) + r + 1;
    assert k1 % 4 == 0 <==> r == 3;
    if r == 3 {
      assert k1 == 100 * c + 4 * (q + 1);
      assert k1 % 100 == 0 <==> q == 24;
      if q == 24 { assert k1 == 100 * (c + 1); assert k1 % 400 == 0 <==> c == 3; }
    }
  }

  /** Every day of an era lies in exactly one of its years. */
  lemma SplitDayOfEra(doe: int) returns (k: int, doy: int)
    requires 0 <= doe < 146_097
    ensures 0 <= k < 400 && 0 <= doy < YearLength(k) && doe == YearStart(k) + doy
  {
    k := 0;
    while k < 399 && YearStart(k + 1) <= doe
      invariant 0 <= k < 400 && YearStart(k) <= doe
    {
      k := k + 1;
    }
    doy := doe - YearStart(k);
    YearStartStep(k);
  }

  lemma YearStartStep(k: int)
    requires 0 <= k < 400
    ensures YearStart(k) + YearLength(k) == if k == 399 then 146_097 else YearStart(k + 1)
  {
    var c, q, r := k / 100, k % 100 / 4, k % 4;
    assert k == 100 * c + 4 * q + r;
    LongYearParts(c, q, r);
  }

  lemma EraParts(era: int, k: int, doy: int)
    requires 0 <= k < 400 && 0 <= doy < YearLength(k)
    ensures CivilOfEra(era, YearStart(k) + doy) == FromParts(era, k, doy)
    ensures 0 <= YearStart(k) + doy < 146_097
  {
    var c, q, r := k / 100, k % 100 / 4, k % 4;
    assert k == 100 * c + 4 * q + r;
    YearOfEraFinds(c, q, r, doy);
  }

  lemma CivilParts(days: nat, era: int, doe: int)
    requires 0 <= doe < 146_097
    requires days + 719_468 == 146_097 * era + doe
    ensures CivilFromDays(days) == CivilOfEra(era, doe)
  {
    var z := days + 719_468;
    assert z / 146_097 == era && z % 146_097 == doe;
  }

  /** Within a March-based year the month formula walks the calendar. */
  lemma DayStep(era: int, k: int, doy: int)
    requires 0 <= k < 400 && 0 <= doy < YearLength(k)
    ensures ValidDate(FromParts(era, k, doy))
    ensures NextDay(FromParts(era, k, doy)) ==
            if doy + 1 < YearLength(k) then FromParts(era, k, doy + 1)
            else FromParts(era, k + 1, 0)
  {
    var mp := (5 * doy + 2) / 153;
    assert 0 <= mp <= 11;
    LeapAcrossEras(era, k + 1);
    assert IsLeap(k + 1 + era * 400) <==> LongYear(k);
    if mp == 11 {
      assert 337 <= doy && FromParts(era, k, doy) == Date(k + era * 400 + 1, 2, doy - 336);
    } else {
      MonthStep(doy, mp);
    }
  }

  lemma LeapAcrossEras(era: int, year: int)
    ensures IsLeap(year + era * 400) <==> IsLeap(year)
  {
    assert (year + 4 * (100 * era)) % 4 == year % 4;
    RemainderShift100(year, 4 * era);
    RemainderShift400(year, era);
  }

  lemma RemainderShift100(year: int, k: int)
    ensures (year + 100 * k) % 100 == year % 100
  {
  }

  lemma RemainderShift400(year: int, k: int)
    ensures (year + 400 * k) % 400 == year % 400
  {
  }

  lemma MonthStep(doy: int, mp: int)
    requires 0 <= mp < 11 && mp == (5 * doy + 2) / 153 && 0 <= doy
    ensures var start := (153 * mp + 2) / 5;
            var length := if mp == 1 || mp == 3 || mp == 6 || mp == 8 then 30 else 31;
            start <= doy < start + length &&
            (153 * (mp + 1) + 2) / 5 == start + length &&
            (5 * (doy + 1) + 2) / 153 == if doy + 1 == start + length then mp + 1 else mp
  {
  }

  lemma DayParts(days: nat) returns (era: int, k: int, doy: int)
    ensures 0 <= k < 400 && 0 <= doy < YearLength(k)
    ensures days + 719_468 == 146_097 * era + YearStart(k) + doy
  {
    var z := days + 719_468;
    era := z / 146_097;
    k, doy := SplitDayOfEra(z % 146_097);
  }

  lemma AtParts(days: nat, era: int, k: int, doy: int)
    requires 0 <= k < 400 && 0 <= doy < YearLength(k)
    requires days + 719_468 == 146_097 * era + YearStart(k) + doy
    ensures CivilFromDays(days) == FromParts(era, k, doy)
  {
    EraParts(era, k, doy);
    CivilParts(days, era, YearStart(k) + doy);
  }

  /** Era, year and day of the next day: in the same year, the next year, or the next era. */
  lemma NextParts(era: int, k: int, doy: int) returns (era': int, k': int, doy': int)
    requires 0 <= k < 400 && 0 <= doy < YearLength(k)
    ensures 0 <= k' < 400 && 0 <= doy' < YearLength(k')
    ensures 146_097 * era' + YearStart(k') + doy' == 146_097 * era + YearStart(k) + doy + 1
    ensures FromParts(era', k', doy') == if doy + 1 < YearLength(k) then FromParts(era, k, doy + 1) else FromParts(era, k + 1, 0)
  {
    if doy + 1 < YearLength(k) {
      era', k', doy' := era, k, doy + 1;
    } else {
      YearStartStep(k);
      era', k', doy' := if k < 399 then era else era + 1, if k < 399 then k + 1 else 0, 0;
    }
  }

  lemma ClosedFormStep(days: nat)
    ensures ValidDate(CivilFromDays(days))
    ensures CivilFromDays(days + 1) == NextDay(CivilFromDays(days))
  {
    var era, k, doy := DayParts(days);
    AtParts(days, era, k, doy);
    DayStep(era, k, doy);
    var era', k', doy' := NextParts(era, k, doy);
    AtParts(days + 1, era', k', doy');
  }

  /** `f` runs through the calendar from 1970-01-01 on. */
  ghost predicate RunsThroughCalendar(f: nat -> Date) {
    f(0) == Date(1970, 1, 1) && forall k: nat :: ValidDate(f(k)) && f(k + 1) == NextDay(f(k))
  }

  lemma {:induction false} OnlyOneCalendar(f: nat -> Date, n: nat)
    requires RunsThroughCalendar(f)
    ensures f(n) == NthDay(n)
  {
    if n > 0 { OnlyOneCalendar(f, n - 1); }
  }

  lemma {:induction false} CalendarIncreases(f: nat -> Date, a: nat, b: nat)
    requires RunsThroughCalendar(f) && a < b
    ensures DateLess(f(a), f(b))
  {
    var c: nat := b - 1;
    assert f(c + 1) == NextDay(f(c));
    assert DateLess(f(c), f(b));
    if a < c { CalendarIncreases(f, a, c); }
  }

  lemma Epoch()
    ensures CivilFromDays(0) == Date(1970, 1, 1)
  {
    AtParts(0, 4, 369, 306);
  }

  lemma ClosedFormRuns()
    ensures RunsThroughCalendar(CivilFromDays)
  {
    Epoch();
    forall k: nat ensures ValidDate(CivilFromDays(k)) && CivilFromDays(k + 1) == NextDay(CivilFromDays(k)) {
      ClosedFormStep(k);
    }
  }

  /** The closed form is the n-th calendar day, and a real date, for every day count. */
  lemma CivilFromDaysIsNthDay(n: nat)
    ensures CivilFromDays(n) == NthDay(n)
    ensures ValidDate(CivilFromDays(n))
  {
    ClosedFormRuns();
    OnlyOneCalendar(CivilFromDays, n);
  }

  /** Later days have later dates. */
  lemma DatesIncrease(a: nat, b: nat)
    requires a < b
    ensures DateLess(CivilFromDays(a), CivilFromDays(b))
  {
    ClosedFormRuns();
    CalendarIncreases(CivilFromDays, a, b);
  }
}
