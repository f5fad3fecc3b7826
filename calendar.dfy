/** The proleptic Gregorian calendar on instants counted in whole seconds from
    1970-01-01 00:00:00 UTC. Split takes an instant apart into year, month,
    day, hour, minute and second; Compose puts them back together.

    Day numbers are computed on a March-based year (it starts on 1 March and
    ends with the leap day, if any), counted in 400-year eras of 146097 days,
    each of four centuries (36524 days, the last one 36525), each of 25
    four-year cycles (1461 days, the last one of a non-final century 1460). */
module Calendar {
  import opened Arith

  datatype Date = Date(year: int, month: int, day: int)

  datatype DateTime = DateTime(year: int, month: int, day: int, hour: int, minute: int, second: int)

  predicate IsLeapYear(y: int) { y % 4 == 0 && (y % 100 != 0 || y % 400 == 0) }

  function DaysInMonth(y: int, m: int): (r: int)
    requires 1 <= m <= 12
  {
    if m == 2 then (if IsLeapYear(y) then 29 else 28)
    else if m == 4 || m == 6 || m == 9 || m == 11 then 30
    else 31
  }

  predicate ValidDate(d: Date) { 1 <= d.month <= 12 && 1 <= d.day <= DaysInMonth(d.year, d.month) }

  predicate ValidDateTime(t: DateTime)
  {
    && ValidDate(Date(t.year, t.month, t.day))
    && 0 <= t.hour < 24 && 0 <= t.minute < 60 && 0 <= t.second < 60
  }

  /** The day of the March-based year on which month index mp begins (0 is March, 11 is February). */
  function MonthOffset(mp: int): (r: int) { (153 * mp + 2) / 5 }

  /** Days from the start of a 400-year era to 1 March of its year yoe. */
  function EraYearStart(yoe: int): (r: int) { 365 * yoe + yoe / 4 - yoe / 100 }

  /** Days from 0000-03-01 to 1 March of year y: 365 a year, plus one for each leap year in 1 .. y. */
  function MarchYearStart(y: int): (r: int) { 365 * y + y / 4 - y / 100 + y / 400 }

  /** Days from 1970-01-01 to the given date (negative before it). */
  function DaysFromCivil(d: Date): (r: int)
    requires 1 <= d.month <= 12
  {
    var y := if d.month <= 2 then d.year - 1 else d.year;
    var mp := if d.month > 2 then d.month - 3 else d.month + 9;
    MarchYearStart(y) + MonthOffset(mp) + d.day - 1 - 719468
  }

  /** The March-based year of its era on which day doe of the era falls. */
  function YearOfEra(doe: int): (r: int)
  {
    var c := if doe == 146096 then 3 else doe / 36524; // century of the era
    var doc := doe - 36524 * c;                        // day of the century
    var q := doc / 1461;                               // four-year cycle of the century
    var doq := doc % 1461;                             // day of the cycle
    var yq := if doq == 1460 then 3 else doq / 365;    // year of the cycle
    100 * c + 4 * q + yq
  }

  /** The date of day doy (0 is 1 March) of the March-based year ym. */
  function DateOfYearDay(ym: int, doy: int): (r: Date)
  {
    var mp := (5 * doy + 2) / 153;
    var m := if mp < 10 then mp + 3 else mp - 9;
    Date(ym + (if m <= 2 then 1 else 0), m, doy - MonthOffset(mp) + 1)
  }

  /** The date of day doe (0 is 1 March of its first year) of 400-year era number era. */
  function EraDate(era: int, doe: int): (r: Date)
  {
    var yoe := YearOfEra(doe);
    DateOfYearDay(400 * era + yoe, doe - EraYearStart(yoe))
  }

  /** The date that lies z days after 1970-01-01 (before it when z is negative): 0000-03-01 is
      719468 days before 1970-01-01 and starts era number 0. */
  function CivilFromDays(z: int): (r: Date)
  {
    EraDate((z + 719468) / 146097, (z + 719468) % 146097)
  }

  /** The calendar components of an instant, in UTC. */
  function Split(t: int): (r: DateTime)
  {
    var date := CivilFromDays(t / 86400);
    var sod := t % 86400;
    DateTime(date.year, date.month, date.day, sod / 3600, sod % 3600 / 60, sod % 60)
  }

  /** The instant that calendar components denote. */
  function Compose(t: DateTime): (r: int)
    requires 1 <= t.month <= 12
  {
    DaysFromCivil(Date(t.year, t.month, t.day)) * 86400 + t.hour * 3600 + t.minute * 60 + t.second
  }

  /** The calendar successor of a valid date. */
  function NextDay(d: Date): (r: Date)
    requires ValidDate(d)
  {
    if d.day < DaysInMonth(d.year, d.month) then Date(d.year, d.month, d.day + 1)
    else if d.month < 12 then Date(d.year, d.month + 1, 1)
    else Date(d.year + 1, 1, 1)
  }

  /** Where each month index begins and how many days it spans before the next one. */
  lemma MonthOffsets(mp: int)
    requires 0 <= mp <= 11
    ensures MonthOffset(mp) == [0, 31, 61, 92, 122, 153, 184, 214, 245, 275, 306, 337][mp]
    ensures mp < 11 ==> MonthOffset(mp + 1) - MonthOffset(mp) ==
                        DaysInMonth(2001, if mp < 10 then mp + 3 else mp - 9)
  {
  }

  /** The day of a March-based year falls inside the month that (5 * doy + 2) / 153 names. */
  lemma MonthOfDay(doy: int)
    requires 0 <= doy <= 365
    ensures var mp := (5 * doy + 2) / 153;
      0 <= mp <= 11 && MonthOffset(mp) <= doy && (mp < 11 ==> doy < MonthOffset(mp + 1))
  {
  }

  /** A year of an era gets its leap day exactly when the corresponding year of any era does. */
  lemma LeapYearPeriodic(era: int, yoe: int)
    ensures IsLeapYear(400 * era + yoe) == IsLeapYear(yoe)
  {
    var y := 400 * era + yoe;
    DivModUnique(y, 4, 100 * era + yoe / 4, yoe % 4);
    DivModUnique(y, 100, 4 * era + yoe / 100, yoe % 100);
    DivModUnique(y, 400, era + yoe / 400, yoe % 400);
  }

  /** Year yoe + 400 * era starts era * 146097 days plus its offset in the era after 0000-03-01. */
  lemma MarchYearStartOf(era: int, yoe: int)
    requires 0 <= yoe < 400
    ensures MarchYearStart(400 * era + yoe) == era * 146097 + EraYearStart(yoe)
  {
    var y := 400 * era + yoe;
    DivModUnique(y, 4, 100 * era + yoe / 4, yoe % 4);
    DivModUnique(y, 100, 4 * era + yoe / 100, yoe % 100);
    DivModUnique(y, 400, era, yoe);
  }

  /** The four-year cycles and years inside a century of an era (see YearOfEra). */
  lemma CycleBounds(doc: int, lastCentury: bool)
    requires 0 <= doc <= 36524 && (!lastCentury ==> doc <= 36523)
    ensures var q, doq := doc / 1461, doc % 1461;
      var yq := if doq == 1460 then 3 else doq / 365;
      && doc == 1461 * q + doq && 0 <= q <= 24
      && 0 <= yq <= 3 && 0 <= doq - 365 * yq <= 365
      && (doq - 365 * yq == 365 ==> doq == 1460 && (q < 24 || lastCentury))
  {
  }

  /** Day doe of an era lies in March-based year YearOfEra(doe) of that era, at most 365 days after
      its first day, and on day index 365 only when that year ends with 29 February. */
  lemma YearOfEraBounds(doe: int)
    requires 0 <= doe < 146097
    ensures var yoe := YearOfEra(doe);
      && 0 <= yoe < 400
      && 0 <= doe - EraYearStart(yoe) <= 365
      && (doe - EraYearStart(yoe) == 365 ==> IsLeapYear(yoe + 1))
  {
    var c := if doe == 146096 then 3 else doe / 36524;
    var doc := doe - 36524 * c;
    assert 0 <= c <= 3 && 0 <= doc <= 36524 && (c < 3 ==> doc <= 36523);
    CycleBounds(doc, c == 3);
    var q, doq := doc / 1461, doc % 1461;
    var yq := if doq == 1460 then 3 else doq / 365;
    var yoe := 100 * c + 4 * q + yq;
    assert YearOfEra(doe) == yoe;
    DivModUnique(yoe, 4, 25 * c + q, yq);
    DivModUnique(yoe, 100, c, 4 * q + yq);
    assert EraYearStart(yoe) == 36524 * c + 1461 * q + 365 * yq;
    if doq == 1460 {
      var y := yoe + 1;
      DivModUnique(y, 4, 25 * c + q + 1, 0);
      if q < 24 {
        DivModUnique(y, 100, c, 4 * q + 4);
      } else {
        DivModUnique(y, 400, 1, 0);
      }
    }
  }

  /** A March-based year has 366 days exactly when the February it ends with has a leap day. */
  lemma MarchYearLength(y: int)
    ensures MarchYearStart(y + 1) - MarchYearStart(y) == if IsLeapYear(y + 1) then 366 else 365
  {
    DivStep(y, 4);
    DivStep(y, 100);
    DivStep(y, 400);
    var a := y + 1;
    if a % 100 == 0 {
      DivModUnique(a, 4, 25 * (a / 100), 0);
    }
    if a % 400 == 0 {
      DivModUnique(a, 100, 4 * (a / 400), 0);
    }
  }

  /** Day doy of March-based year ym, read as a month and a day of that month, is a valid date. */
  lemma DayOfYearValid(ym: int, doy: int)
    requires 0 <= doy <= 365 && (doy == 365 ==> IsLeapYear(ym + 1))
    ensures ValidDate(DateOfYearDay(ym, doy))
  {
    var mp := (5 * doy + 2) / 153;
    MonthOfDay(doy);
    MonthOffsets(mp);
  }

  /** Counting the days of day doy of March-based year ym gives doy days after the year's first day. */
  lemma DayOfYearDays(ym: int, doy: int)
    requires 0 <= doy <= 365
    ensures var d := DateOfYearDay(ym, doy);
      1 <= d.month <= 12 && DaysFromCivil(d) == MarchYearStart(ym) + doy - 719468
  {
    var mp := (5 * doy + 2) / 153;
    MonthOfDay(doy);
    var m := if mp < 10 then mp + 3 else mp - 9;
    assert (if m > 2 then m - 3 else m + 9) == mp;
  }

  /** Day doe of an era names a valid date. */
  lemma EraDateValid(era: int, doe: int)
    requires 0 <= doe < 146097
    ensures ValidDate(EraDate(era, doe))
  {
    var yoe := YearOfEra(doe);
    YearOfEraBounds(doe);
    LeapYearPeriodic(era, yoe + 1);
    DayOfYearValid(400 * era + yoe, doe - EraYearStart(yoe));
  }

  /** Counting the days of day doe of an era gives the era's first day plus doe. */
  lemma EraDateDays(era: int, doe: int)
    requires 0 <= doe < 146097
    ensures 1 <= EraDate(era, doe).month <= 12
    ensures DaysFromCivil(EraDate(era, doe)) == era * 146097 + doe - 719468
  {
    var yoe := YearOfEra(doe);
    var ym, doy := 400 * era + yoe, doe - EraYearStart(yoe);
    YearOfEraBounds(doe);
    assert EraDate(era, doe) == DateOfYearDay(ym, doy);
    DayOfYearDays(ym, doy);
    MarchYearStartOf(era, yoe);
    assert DaysFromCivil(EraDate(era, doe)) == MarchYearStart(ym) + doy - 719468;
  }

  /** Every day number names a valid date. */
  lemma CivilFromDaysValid(z: int)
    ensures ValidDate(CivilFromDays(z))
  {
    EraDateValid((z + 719468) / 146097, (z + 719468) % 146097);
  }

  /** Counting the days of the date that a day number names gives the number back. */
  lemma CivilFromDaysRoundTrip(z: int)
    ensures DaysFromCivil(CivilFromDays(z)) == z
  {
    EraDateDays((z + 719468) / 146097, (z + 719468) % 146097);
  }

  /** The first day of the month after the last day of month m (not December) is the next day number. */
  lemma MonthTurn(d: Date)
    requires ValidDate(d) && d.day == DaysInMonth(d.year, d.month) && d.month < 12
    ensures DaysFromCivil(Date(d.year, d.month + 1, 1)) == DaysFromCivil(d) + 1
  {
    if d.month == 2 {
      MarchYearLength(d.year - 1);
      assert MonthOffset(11) == 337 && MonthOffset(0) == 0;
    } else {
      var mp := if d.month > 2 then d.month - 3 else d.month + 9;
      MonthOffsets(mp);
      assert (if d.month + 1 > 2 then d.month + 1 - 3 else d.month + 1 + 9) == mp + 1;
    }
  }

  /** Counting days agrees with the calendar succession of dates. */
  lemma DaysFromCivilNextDay(d: Date)
    requires ValidDate(d)
    ensures ValidDate(NextDay(d))
    ensures DaysFromCivil(NextDay(d)) == DaysFromCivil(d) + 1
  {
    if d.day == DaysInMonth(d.year, d.month) {
      if d.month < 12 {
        MonthTurn(d);
      } else {
        assert MonthOffset(9) == 275 && MonthOffset(10) == 306;
      }
    }
  }

  /** Day number zero is 1 January 1970. */
  lemma EpochDay()
    ensures DaysFromCivil(Date(1970, 1, 1)) == 0
  {
  }

  /** Splitting an instant gives valid components, and composing them gives the instant back. */
  lemma SplitRoundTrip(t: int)
    ensures ValidDateTime(Split(t))
    ensures Compose(Split(t)) == t
  {
    var days, sod := t / 86400, t % 86400;
    assert t == days * 86400 + sod && 0 <= sod < 86400;
    CivilFromDaysValid(days);
    CivilFromDaysRoundTrip(days);
    var date := CivilFromDays(days);
    var h, rest := sod / 3600, sod % 3600;
    assert sod == h * 3600 + rest && 0 <= h < 24;
    var mi, sec := rest / 60, rest % 60;
    assert rest == mi * 60 + sec && 0 <= mi < 60;
    DivModUnique(sod, 60, h * 60 + mi, sec);
    var dt := Split(t);
    assert dt.hour == h && dt.minute == mi && dt.second == sec;
    assert Date(dt.year, dt.month, dt.day) == date;
  }
}
