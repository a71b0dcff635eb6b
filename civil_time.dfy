/**
  UTC calendar arithmetic behind `getUTCFullYear`, `getUTCMonth`,
  `getUTCDate` and `Date.UTC`, on instants counted in whole seconds from
  1970-01-01T00:00:00Z. The getters read the proleptic Gregorian calendar;
  `Date.UTC` and `new Date(y, m, d)` first read a year from 0 to 99 as
  1900 to 1999 (`MakeFullYear`), which `DateUtc` models.

  Day numbers are converted through a year that starts on 1 March, so that
  the leap day is the last day of its year: a 400-year era has 146097 days,
  split into three centuries of 36524 days and a last one of 36525; a century
  into four-year blocks of 1461 days (the last block of a short century has
  1460); a block into years of 365 days (the last has 366).
 */
module CivilTime {

  const SecondsPerDay: int := 86400
  const DaysPerEra: int := 146097
  const DaysPerCentury: int := 36524
  const DaysPerQuad: int := 1461
  /** Days from 0000-03-01 to 1970-01-01. */
  const EpochShift: int := 719468

  predicate IsLeapYear(y: int) {
    y % 4 == 0 && (y % 100 != 0 || y % 400 == 0)
  }

  /** Length of month `month` (0 = January, as `getUTCMonth`) of `year`. */
  function DaysInMonth(year: int, month: int): int
    requires 0 <= month < 12
  {
    if month == 1 then (if IsLeapYear(year) then 29 else 28)
    else if month == 3 || month == 5 || month == 8 || month == 10 then 30
    else 31
  }

  /** A calendar date; `month` counts from 0 as in JavaScript, `day` from 1. */
  datatype Date = Date(year: int, month: int, day: int)

  predicate ValidDate(d: Date) {
    0 <= d.month < 12 && 1 <= d.day <= DaysInMonth(d.year, d.month)
  }

  /** The day of the March-based year on which shifted month `mp` (0 = March, 11 = February) starts. */
  function ShiftedMonthStart(mp: int): int
    requires 0 <= mp < 12
  {
    [0, 31, 61, 92, 122, 153, 184, 214, 245, 275, 306, 337][mp]
  }

  /** The shifted month that day `doy` of a March-based year falls in. */
  function ShiftedMonthOf(doy: int): (mp: int)
    requires 0 <= doy < 366
    ensures 0 <= mp < 12 && ShiftedMonthStart(mp) <= doy
    ensures mp < 11 ==> doy < ShiftedMonthStart(mp + 1)
  {
    if doy < 31 then 0 else if doy < 61 then 1 else if doy < 92 then 2
    else if doy < 122 then 3 else if doy < 153 then 4 else if doy < 184 then 5
    else if doy < 214 then 6 else if doy < 245 then 7 else if doy < 275 then 8
    else if doy < 306 then 9 else if doy < 337 then 10 else 11
  }

  /** Days from the start of a 400-year era to 1 March of its year `yoe`. */
  function YearStartInEra(yoe: int): int
    requires 0 <= yoe <= 400
  {
    365 * yoe + yoe / 4 - yoe / 100
  }

  /** Length of March-based year `y`: 366 when the February that ends it has 29 days. */
  function ShiftedYearLength(y: int): int {
    if IsLeapYear(y + 1) then 366 else 365
  }

  /** Splits a day of an era into the March-based year of the era and the day of that year. */
  function EraSplit(doe: int): (p: (int, int))
    requires 0 <= doe < DaysPerEra
    ensures 0 <= p.0 < 400 && 0 <= p.1 < ShiftedYearLength(p.0)
    ensures doe == YearStartInEra(p.0) + p.1
  {
    var c := if doe / DaysPerCentury < 3 then doe / DaysPerCentury else 3;
    var doc := doe - DaysPerCentury * c;
    var q := doc / DaysPerQuad;
    var doq := doc % DaysPerQuad;
    var r := if doq / 365 < 3 then doq / 365 else 3;
    var doy := doq - 365 * r;
    var yoe := 100 * c + 4 * q + r;
    FebruaryFits(c, q, r, doc, doq, doy);
    DivModUnique(yoe, 4, 25 * c + q, r);
    DivModUnique(yoe, 100, c, 4 * q + r);
    (yoe, doy)
  }

  /** Day number (from 1970-01-01) of 1 March of year `y`. */
  function ShiftedYearStart(y: int): int {
    (y / 400) * DaysPerEra + YearStartInEra(y % 400) - EpochShift
  }

  /** Day number of `d` counted from 1970-01-01, in the proleptic calendar. */
  function DaysFromCivil(d: Date): int
    requires ValidDate(d)
  {
    var mp := if d.month >= 2 then d.month - 2 else d.month + 10;
    var y := if d.month >= 2 then d.year else d.year - 1;
    ShiftedYearStart(y) + ShiftedMonthStart(mp) + d.day - 1
  }

  /** The calendar date of day number `z`: the UTC fields of an instant on that day. */
  function CivilFromDays(z: int): (d: Date)
    ensures ValidDate(d)
  {
    var zs := z + EpochShift;
    var era := zs / DaysPerEra;
    var (yoe, doy) := EraSplit(zs % DaysPerEra);
    var mp := ShiftedMonthOf(doy);
    var year := era * 400 + yoe + (if mp >= 10 then 1 else 0);
    LeapInEra(era, yoe + 1);
    Date(year, if mp < 10 then mp + 2 else mp - 10, doy - ShiftedMonthStart(mp) + 1)
  }

  lemma {:induction false} LeapMod400(y: int)
    ensures IsLeapYear(y) == IsLeapYear(y % 400)
  {
    var m := y % 400;
    DivModUnique(y, 400, y / 400, m);
    DivModUnique(y, 4, 100 * (y / 400) + m / 4, m % 4);
    DivModUnique(y, 100, 4 * (y / 400) + m / 100, m % 100);
  }

  lemma {:induction false} LeapInEra(era: int, k: int)
    requires 0 <= k <= 400
    ensures IsLeapYear(era * 400 + k) == IsLeapYear(k)
  {
    LeapMod400(era * 400 + k);
    LeapMod400(k);
    if k < 400 {
      DivModUnique(era * 400 + k, 400, era, k);
    } else {
      DivModUnique(era * 400 + k, 400, era + 1, 0);
    }
  }

  /** Day 365 of a March-based year exists only when the February that ends it is a leap one. */
  lemma {:induction false} FebruaryFits(c: int, q: int, r: int, doc: int, doq: int, doy: int)
    requires 0 <= c <= 3 && 0 <= doc && (c < 3 ==> doc < DaysPerCentury) && doc <= DaysPerCentury
    requires q == doc / DaysPerQuad && doq == doc % DaysPerQuad
    requires r == (if doq / 365 < 3 then doq / 365 else 3) && doy == doq - 365 * r
    ensures 0 <= q <= 24 && 0 <= r <= 3 && 0 <= doy <= 365
    ensures doy == 365 ==> IsLeapYear(100 * c + 4 * q + r + 1)
  {
    if doy == 365 {
      assert r == 3;
      assert q < 24 || c == 3;
      var y := 100 * c + 4 * q + 4;
      if c < 3 || q < 24 {
        DivModUnique(y, 4, 25 * c + q + 1, 0);
        DivModUnique(y, 100, c, 4 * q + 4);
      }
    }
  }

  lemma {:induction false} DivModUnique(x: int, k: int, q: int, r: int)
    requires k > 0 && 0 <= r < k && x == k * q + r
    ensures x / k == q && x % k == r
  {
    var q' := x / k;
    if q' > q {
      MulMonotone(k, q + 1, q');
    } else if q' < q {
      MulMonotone(k, q' + 1, q);
    }
  }

  lemma {:induction false} MulMonotone(k: int, a: int, b: int)
    requires k > 0 && a <= b
    ensures k * a <= k * b
  {
    assert k * b - k * a == k * (b - a);
  }

  /** `EraSplit` is the only way to write a day of an era as a year start plus a day of that year. */
  lemma {:induction false} EraSplitUnique(yoe: int, doy: int)
    requires 0 <= yoe < 400 && 0 <= doy < ShiftedYearLength(yoe)
    ensures YearStartInEra(yoe) + doy < DaysPerEra
    ensures EraSplit(YearStartInEra(yoe) + doy) == (yoe, doy)
  {
    var c := yoe / 100;
    var q := (yoe % 100) / 4;
    var r := yoe % 4;
    YearStartDigits(yoe);
    LongYearPlacement(yoe, doy);
    var doq := 365 * r + doy;
    var doc := DaysPerQuad * q + doq;
    var doe := DaysPerCentury * c + doc;
    CappedQuotient(doe, DaysPerCentury, c, doc);
    DivModUnique(doc, DaysPerQuad, q, doq);
    CappedQuotient(doq, 365, r, doy);
    EraSplitOf(doe, c, doc, q, doq, r, doy);
  }

  /** The start of year `yoe` of an era, by centuries, four-year blocks and single years. */
  lemma {:induction false} YearStartDigits(yoe: int)
    requires 0 <= yoe < 400
    ensures yoe == 100 * (yoe / 100) + 4 * ((yoe % 100) / 4) + yoe % 4
    ensures YearStartInEra(yoe)
         == DaysPerCentury * (yoe / 100) + DaysPerQuad * ((yoe % 100) / 4) + 365 * (yoe % 4)
  {
    var c, q, r := yoe / 100, (yoe % 100) / 4, yoe % 4;
    DivModUnique(yoe % 100, 4, q, (yoe % 100) % 4);
    assert yoe == 100 * c + 4 * q + r by {
      DivModUnique(yoe, 4, 25 * c + q, (yoe % 100) % 4);
    }
    DivModUnique(yoe, 4, 25 * c + q, r);
  }

  /** A quotient capped at 3, as the century and year steps of `EraSplit` take it. */
  lemma {:induction false} CappedQuotient(x: int, k: int, c: int, rest: int)
    requires k > 0 && 0 <= c <= 3 && 0 <= rest && x == k * c + rest && (c < 3 ==> rest < k)
    ensures (if x / k < 3 then x / k else 3) == c
  {
    if c < 3 {
      DivModUnique(x, k, c, rest);
    } else if x / k < 3 {
      MulMonotone(k, x / k + 1, 3);
    }
  }

  /** `EraSplit` of a day whose intermediate quotients and remainders are known. */
  lemma {:induction false} EraSplitOf(doe: int, c: int, doc: int, q: int, doq: int, r: int, doy: int)
    requires 0 <= doe < DaysPerEra
    requires (if doe / DaysPerCentury < 3 then doe / DaysPerCentury else 3) == c
    requires doc == doe - DaysPerCentury * c && doc / DaysPerQuad == q && doc % DaysPerQuad == doq
    requires (if doq / 365 < 3 then doq / 365 else 3) == r && doy == doq - 365 * r
    ensures EraSplit(doe) == (100 * c + 4 * q + r, doy)
  {
  }

  /** Where a 366th day can occur: only in the last year of a four-year block, and not at the end of a short century. */
  lemma {:induction false} LongYearPlacement(yoe: int, doy: int)
    requires 0 <= yoe < 400 && 0 <= doy < ShiftedYearLength(yoe)
    ensures var c, q, r := yoe / 100, (yoe % 100) / 4, yoe % 4;
            0 <= c <= 3 && 0 <= q <= 24 && 0 <= r <= 3 && doy <= 365 &&
            (doy == 365 ==> r == 3 && (q < 24 || c == 3))
  {
    if doy == 365 {
      LeapMod400(yoe + 1);
      if yoe + 1 < 400 {
        DivModUnique(yoe + 1, 400, 0, yoe + 1);
        DivModUnique(yoe + 1, 4, (yoe + 1) / 4, (yoe + 1) % 4);
        DivModUnique(yoe, 4, (yoe + 1) / 4 - 1, 3);
        DivModUnique(yoe + 1, 100, (yoe + 1) / 100, (yoe + 1) % 100);
      }
    }
  }

  /** Consecutive years inside an era start `ShiftedYearLength` days apart. */
  lemma {:induction false} YearStartInEraStep(yoe: int)
    requires 0 <= yoe < 399
    ensures YearStartInEra(yoe + 1) == YearStartInEra(yoe) + ShiftedYearLength(yoe)
  {
    var y := yoe + 1;
    LeapMod400(y);
    DivModUnique(y, 400, 0, y);
    QuotientStep(yoe, 4);
    QuotientStep(yoe, 100);
    if y % 100 == 0 {
      DivModUnique(y, 4, 25 * (y / 100), 0);
    }
  }

  /** The quotient by `k` goes up by one exactly at multiples of `k`. */
  lemma {:induction false} QuotientStep(x: int, k: int)
    requires k > 0
    ensures (x + 1) / k == x / k + (if (x + 1) % k == 0 then 1 else 0)
  {
    if x % k == k - 1 {
      DivModUnique(x + 1, k, x / k + 1, 0);
    } else {
      DivModUnique(x + 1, k, x / k, x % k + 1);
    }
  }

  // ---------------------------------------------------------------------------
  // The two conversions are inverse to each other

  /** Reading the calendar fields of day `z` and numbering them again gives back `z`. */
  lemma {:induction false} CivilRoundTrip(z: int)
    ensures DaysFromCivil(CivilFromDays(z)) == z
  {
    var zs := z + EpochShift;
    var era := zs / DaysPerEra;
    var p := EraSplit(zs % DaysPerEra);
    var mp := ShiftedMonthOf(p.1);
    CivilFromDaysOf(z, era, p.0, p.1);
    YearStartOfEra(era, p.0);
    DaysFromShifted(CivilFromDays(z), era * 400 + p.0, mp);
  }

  /** Every valid date is the date of its own day number. */
  lemma {:induction false} DateRoundTrip(d: Date)
    requires ValidDate(d)
    ensures CivilFromDays(DaysFromCivil(d)) == d
  {
    var mp := if d.month >= 2 then d.month - 2 else d.month + 10;
    var y := if d.month >= 2 then d.year else d.year - 1;
    var era := y / 400;
    var yoe := y % 400;
    var doy := ShiftedMonthStart(mp) + d.day - 1;
    DivModUnique(y, 400, era, yoe);
    DayOfShiftedYear(d, era, yoe, mp);
    YearStartOfEra(era, yoe);
    DaysFromShifted(d, y, mp);
    CivilFromDaysOf(DaysFromCivil(d), era, yoe, doy);
  }

  /** The day number in terms of the March-based year and month of the date. */
  lemma {:induction false} DaysFromShifted(d: Date, y: int, mp: int)
    requires ValidDate(d)
    requires mp == (if d.month >= 2 then d.month - 2 else d.month + 10)
    requires y == (if d.month >= 2 then d.year else d.year - 1)
    ensures DaysFromCivil(d) == ShiftedYearStart(y) + ShiftedMonthStart(mp) + d.day - 1
  {
  }

  /** 1 March of year `yoe` of era `era`, as a day number. */
  lemma {:induction false} YearStartOfEra(era: int, yoe: int)
    requires 0 <= yoe < 400
    ensures ShiftedYearStart(era * 400 + yoe) == era * DaysPerEra + YearStartInEra(yoe) - EpochShift
  {
    DivModUnique(era * 400 + yoe, 400, era, yoe);
  }

  /** The day of its March-based year on which a valid date falls exists in that year. */
  lemma {:induction false} DayOfShiftedYear(d: Date, era: int, yoe: int, mp: int)
    requires ValidDate(d) && 0 <= yoe < 400
    requires mp == (if d.month >= 2 then d.month - 2 else d.month + 10)
    requires era * 400 + yoe == (if d.month >= 2 then d.year else d.year - 1)
    ensures 0 <= ShiftedMonthStart(mp) + d.day - 1 < ShiftedYearLength(yoe)
    ensures ShiftedMonthOf(ShiftedMonthStart(mp) + d.day - 1) == mp
  {
    LeapInEra(era, yoe + 1);
  }

  /** The date of day `z`, once `z` is split into an era, a year of that era and a day of that year. */
  lemma {:induction false} CivilFromDaysOf(z: int, era: int, yoe: int, doy: int)
    requires 0 <= yoe < 400 && 0 <= doy < ShiftedYearLength(yoe)
    requires z + EpochShift == era * DaysPerEra + YearStartInEra(yoe) + doy
    ensures var mp := ShiftedMonthOf(doy);
            CivilFromDays(z) == Date(era * 400 + yoe + (if mp >= 10 then 1 else 0),
                                     if mp < 10 then mp + 2 else mp - 10,
                                     doy - ShiftedMonthStart(mp) + 1)
  {
    EraSplitUnique(yoe, doy);
    DivModUnique(z + EpochShift, DaysPerEra, era, YearStartInEra(yoe) + doy);
    CivilFromSplit(z, era, yoe, doy);
  }

  /** `CivilFromDays` once the era of `z` and the split of its day of era are known. */
  lemma {:induction false} CivilFromSplit(z: int, era: int, yoe: int, doy: int)
    requires (z + EpochShift) / DaysPerEra == era
    requires EraSplit((z + EpochShift) % DaysPerEra) == (yoe, doy)
    ensures var mp := ShiftedMonthOf(doy);
            CivilFromDays(z) == Date(era * 400 + yoe + (if mp >= 10 then 1 else 0),
                                     if mp < 10 then mp + 2 else mp - 10,
                                     doy - ShiftedMonthStart(mp) + 1)
  {
  }

  lemma {:induction false} DaysFromCivilInjective(d1: Date, d2: Date)
    requires ValidDate(d1) && ValidDate(d2)
    ensures DaysFromCivil(d1) == DaysFromCivil(d2) <==> d1 == d2
  {
    if DaysFromCivil(d1) == DaysFromCivil(d2) {
      DateRoundTrip(d1);
      DateRoundTrip(d2);
    }
  }

  // ---------------------------------------------------------------------------
  // An independent description of the calendar: consecutive days, from 1970-01-01

  /** The calendar date after `d`. */
  function NextDay(d: Date): (n: Date)
    requires ValidDate(d)
    ensures ValidDate(n)
  {
    if d.day < DaysInMonth(d.year, d.month) then d.(day := d.day + 1)
    else if d.month < 11 then Date(d.year, d.month + 1, 1)
    else Date(d.year + 1, 0, 1)
  }

  /** A March-based year lasts 365 days, 366 when the February that ends it is a leap one. */
  lemma {:induction false} NextShiftedYearStart(y: int)
    ensures ShiftedYearStart(y + 1) == ShiftedYearStart(y) + ShiftedYearLength(y)
  {
    var era := y / 400;
    var yoe := y % 400;
    DivModUnique(y, 400, era, yoe);
    LeapInEra(era, yoe + 1);
    if yoe < 399 {
      YearStartInEraStep(yoe);
      DivModUnique(y + 1, 400, era, yoe + 1);
    } else {
      DivModUnique(y + 1, 400, era + 1, 0);
      assert YearStartInEra(399) + 366 == DaysPerEra;
    }
  }

  /** The day numbering counts the days of the calendar consecutively. */
  lemma {:induction false} NextDayIsNextNumber(d: Date)
    requires ValidDate(d)
    ensures DaysFromCivil(NextDay(d)) == DaysFromCivil(d) + 1
  {
    if d.day == DaysInMonth(d.year, d.month) && d.month == 1 {
      NextShiftedYearStart(d.year - 1);
    }
  }

  /** Day 0 is 1 January 1970. */
  lemma EpochIsDayZero()
    ensures DaysFromCivil(Date(1970, 0, 1)) == 0
  {
  }

  // ---------------------------------------------------------------------------
  // Instants and their UTC fields

  /** The UTC date of instant `t`: `getUTCFullYear`, `getUTCMonth`, `getUTCDate`. */
  function UtcDate(t: int): (d: Date)
    ensures ValidDate(d)
  {
    CivilFromDays(t / SecondsPerDay)
  }

  /** Midnight UTC starting `d`, in seconds, in the proleptic calendar. */
  function UtcMidnight(d: Date): int
    requires ValidDate(d)
  {
    DaysFromCivil(d) * SecondsPerDay
  }

  /** Midnight of a date is an instant on that date, and the day of an instant starts at its midnight. */
  lemma {:induction false} UtcMidnightOfDate(d: Date)
    requires ValidDate(d)
    ensures UtcDate(UtcMidnight(d)) == d
  {
    DateRoundTrip(d);
    DivModUnique(UtcMidnight(d), SecondsPerDay, DaysFromCivil(d), 0);
  }

  lemma {:induction false} DayOfInstant(t: int)
    ensures UtcMidnight(UtcDate(t)) <= t < UtcMidnight(UtcDate(t)) + SecondsPerDay
    ensures UtcMidnight(UtcDate(t)) % SecondsPerDay == 0
  {
    var z := t / SecondsPerDay;
    MidnightOfDay(z);
    DivModUnique(z * SecondsPerDay, SecondsPerDay, z, 0);
  }

  /** Midnight of the date of day `z` is `z` whole days after the epoch. */
  lemma {:induction false} MidnightOfDay(z: int)
    ensures UtcMidnight(CivilFromDays(z)) == z * SecondsPerDay
  {
    CivilRoundTrip(z);
  }

  /** The aggregation intervals of the activity charts. */
  datatype Interval = Day | Month | Year

  /** The first day of the interval that contains `d`. */
  function PeriodStart(iv: Interval, d: Date): (s: Date)
    requires ValidDate(d)
    ensures ValidDate(s)
  {
    match iv
    case Day => d
    case Month => Date(d.year, d.month, 1)
    case Year => Date(d.year, 0, 1)
  }

  /** `d1` and `d2` lie in the same UTC day, month or year. */
  predicate SamePeriod(iv: Interval, d1: Date, d2: Date) {
    d1.year == d2.year && (iv != Year ==> d1.month == d2.month) && (iv == Day ==> d1.day == d2.day)
  }

  // ---------------------------------------------------------------------------
  // `Date.UTC` and `new Date(y, m, d)`: years from 0 to 99

  /**
    `MakeFullYear` of `Date.UTC` and of the `Date` constructor given a year,
    a month and a day: a year from 0 to 99 stands for 1900 to 1999.
   */
  function FullYear(y: int): int {
    if 0 <= y <= 99 then 1900 + y else y
  }

  /** `d` with its year read as `Date.UTC` reads it. */
  function WithFullYear(d: Date): Date {
    d.(year := FullYear(d.year))
  }

  /**
    `MakeDay(year, month, day)` for a month from 0 to 11: the day number of
    the first of the month plus `day - 1`, so a day past the end of the month
    runs on into the next one.
   */
  function MakeDay(year: int, month: int, day: int): int
    requires 0 <= month < 12
  {
    DaysFromCivil(Date(year, month, 1)) + day - 1
  }

  /** `Date.UTC(year, month, day)` in seconds, for a month from 0 to 11. */
  function DateUtc(year: int, month: int, day: int): int
    requires 0 <= month < 12
  {
    MakeDay(FullYear(year), month, day) * SecondsPerDay
  }

  /** The date on which `Date.UTC(d.year, d.month, d.day)` falls. */
  function KeyDate(d: Date): Date
    requires 0 <= d.month < 12
  {
    CivilFromDays(MakeDay(FullYear(d.year), d.month, d.day))
  }

  /** On a valid date, `MakeDay` is the date's day number. */
  lemma {:induction false} MakeDayOfValid(d: Date)
    requires ValidDate(d)
    ensures MakeDay(d.year, d.month, d.day) == DaysFromCivil(d)
  {
  }

  /** Reading a year from 1 to 99 as 1900 + y keeps its leap years; year 0 is a leap year and 1900 is not. */
  lemma {:induction false} FullYearLeap(y: int)
    requires 0 <= y <= 99
    ensures IsLeapYear(FullYear(y)) <==> IsLeapYear(y) && y != 0
  {
    DivModUnique(1900 + y, 4, 475 + y / 4, y % 4);
    DivModUnique(1900 + y, 100, 19, y);
  }

  /** Only 29 February of year 0 stops being a date when its year is read as `Date.UTC` reads it. */
  lemma {:induction false} WithFullYearValid(d: Date)
    requires ValidDate(d) && d != Date(0, 1, 29)
    ensures ValidDate(WithFullYear(d))
  {
    if 0 <= d.year <= 99 && d.month == 1 {
      FullYearLeap(d.year);
    }
  }

  /**
    `Date.UTC` of a valid date is UTC midnight of `KeyDate`: the date itself
    when its year is not between 0 and 99, the same month and day in 1900 to
    1999 when it is, and 1 March 1900 for 29 February of year 0.
   */
  lemma {:induction false} KeyDateSpec(d: Date)
    requires ValidDate(d)
    ensures DateUtc(d.year, d.month, d.day) == UtcMidnight(KeyDate(d))
    ensures d != Date(0, 1, 29) ==> KeyDate(d) == WithFullYear(d)
    ensures d == Date(0, 1, 29) ==> KeyDate(d) == Date(1900, 2, 1)
    ensures !(0 <= d.year <= 99) ==> KeyDate(d) == d && DateUtc(d.year, d.month, d.day) == UtcMidnight(d)
  {
    var z := MakeDay(FullYear(d.year), d.month, d.day);
    MidnightOfDay(z);
    if d == Date(0, 1, 29) {
      NextShiftedYearStart(1899);
      assert z == DaysFromCivil(Date(1900, 2, 1));
      DateRoundTrip(Date(1900, 2, 1));
    } else {
      WithFullYearValid(d);
      MakeDayOfValid(WithFullYear(d));
      DateRoundTrip(WithFullYear(d));
    }
  }

  /** Dates of years 0 to 99 come before dates of years 1900 to 1999. */
  lemma {:induction false} CenturiesApart(d1: Date, d2: Date)
    requires ValidDate(d1) && ValidDate(d2)
    requires 0 <= d1.year <= 99 && 1900 <= d2.year <= 1999
    ensures DaysFromCivil(d1) < DaysFromCivil(d2)
  {
    var y1 := if d1.month >= 2 then d1.year else d1.year - 1;
    var y2 := if d2.month >= 2 then d2.year else d2.year - 1;
    YearStartsApart(y1, y2);
  }

  /** The March-based years -1 to 99 start more than a year before the years 1899 to 1999. */
  lemma {:induction false} YearStartsApart(y1: int, y2: int)
    requires -1 <= y1 <= 99 && 1899 <= y2 <= 1999
    ensures ShiftedYearStart(y1) + 366 < ShiftedYearStart(y2)
  {
    if y1 < 0 {
      DivModUnique(y1, 400, -1, 399);
    } else {
      DivModUnique(y1, 400, 0, y1);
    }
    DivModUnique(y2, 400, 4, y2 - 1600);
  }

  /**
    The truncation of an author timestamp: `Date.UTC` of the UTC year, month
    and day of `t`, with the day set to 1 for a month and the month to January
    for a year.
   */
  function Truncate(iv: Interval, t: int): int {
    var s := PeriodStart(iv, UtcDate(t));
    DateUtc(s.year, s.month, s.day)
  }

  /** A period never starts after a date inside it. */
  lemma {:induction false} PeriodStartNotLater(iv: Interval, d: Date)
    requires ValidDate(d)
    ensures DaysFromCivil(PeriodStart(iv, d)) <= DaysFromCivil(d)
  {
    if iv == Year && d.month >= 2 {
      NextShiftedYearStart(d.year - 1);
    }
  }

  /**
    Truncation gives a UTC midnight, the one on the date `Date.UTC` makes of
    the start of the period of `t`, and truncating again leaves it there.
    Outside years 0 to 99 it is the start of the period: an instant no later
    than `t`, in the same day, month or year. In years 0 to 99 it lands 1900
    years later, after `t`.
   */
  lemma {:induction false} TruncateSpec(iv: Interval, t: int)
    ensures Truncate(iv, t) % SecondsPerDay == 0
    ensures UtcDate(Truncate(iv, t)) == KeyDate(PeriodStart(iv, UtcDate(t)))
    ensures Truncate(iv, Truncate(iv, t)) == Truncate(iv, t)
    ensures !(0 <= UtcDate(t).year <= 99) ==>
              && Truncate(iv, t) <= t
              && UtcDate(Truncate(iv, t)) == PeriodStart(iv, UtcDate(t))
              && SamePeriod(iv, UtcDate(Truncate(iv, t)), UtcDate(t))
    ensures 0 <= UtcDate(t).year <= 99 ==>
              && UtcDate(Truncate(iv, t)).year == UtcDate(t).year + 1900
              && Truncate(iv, t) > t
  {
    var d := UtcDate(t);
    var s := PeriodStart(iv, d);
    var k := KeyDate(s);
    KeyDateSpec(s);
    UtcMidnightOfDate(k);
    DivModUnique(UtcMidnight(k), SecondsPerDay, DaysFromCivil(k), 0);
    KeyDateSpec(k);
    DayOfInstant(t);
    if 0 <= d.year <= 99 {
      CenturiesApart(d, k);
    } else {
      PeriodStartNotLater(iv, d);
    }
  }

  /**
    Two instants truncate to the same instant exactly when `Date.UTC` puts
    the starts of their periods on the same date. Unless one of them is 29
    February of year 0 truncated by day, that is: their periods, with years 0
    to 99 read as 1900 to 1999, are the same; and outside years 0 to 99,
    they lie in the same period.
   */
  lemma {:induction false} TruncateSamePeriod(iv: Interval, t1: int, t2: int)
    ensures Truncate(iv, t1) == Truncate(iv, t2) <==>
              KeyDate(PeriodStart(iv, UtcDate(t1))) == KeyDate(PeriodStart(iv, UtcDate(t2)))
    ensures !(iv == Day && (UtcDate(t1) == Date(0, 1, 29) || UtcDate(t2) == Date(0, 1, 29))) ==>
              (Truncate(iv, t1) == Truncate(iv, t2) <==>
               SamePeriod(iv, WithFullYear(UtcDate(t1)), WithFullYear(UtcDate(t2))))
    ensures !(0 <= UtcDate(t1).year <= 99) && !(0 <= UtcDate(t2).year <= 99) ==>
              (Truncate(iv, t1) == Truncate(iv, t2) <==> SamePeriod(iv, UtcDate(t1), UtcDate(t2)))
  {
    var d1, d2 := UtcDate(t1), UtcDate(t2);
    var s1, s2 := PeriodStart(iv, d1), PeriodStart(iv, d2);
    TruncateIsKeyMidnight(iv, t1);
    TruncateIsKeyMidnight(iv, t2);
    DaysFromCivilInjective(KeyDate(s1), KeyDate(s2));
    if !(iv == Day && (d1 == Date(0, 1, 29) || d2 == Date(0, 1, 29))) {
      KeyDateOfPeriod(iv, d1);
      KeyDateOfPeriod(iv, d2);
      SamePeriodStart(iv, d1, d2);
    }
  }

  /** The truncation is UTC midnight of the date `Date.UTC` makes of the period start. */
  lemma {:induction false} TruncateIsKeyMidnight(iv: Interval, t: int)
    ensures Truncate(iv, t) == UtcMidnight(KeyDate(PeriodStart(iv, UtcDate(t))))
  {
    KeyDateSpec(PeriodStart(iv, UtcDate(t)));
  }

  /** Unless it is 29 February of year 0 truncated by day, a period start keeps its fields under `Date.UTC`, the year read by `MakeFullYear`. */
  lemma {:induction false} KeyDateOfPeriod(iv: Interval, d: Date)
    requires ValidDate(d) && !(iv == Day && d == Date(0, 1, 29))
    ensures KeyDate(PeriodStart(iv, d)) == WithFullYear(PeriodStart(iv, d))
  {
    KeyDateSpec(PeriodStart(iv, d));
  }

  /** Two dates lie in the same period exactly when their period starts are equal, whatever their years are read as. */
  lemma {:induction false} SamePeriodStart(iv: Interval, d1: Date, d2: Date)
    requires ValidDate(d1) && ValidDate(d2)
    ensures WithFullYear(PeriodStart(iv, d1)) == WithFullYear(PeriodStart(iv, d2)) <==>
              SamePeriod(iv, WithFullYear(d1), WithFullYear(d2))
    ensures !(0 <= d1.year <= 99) && !(0 <= d2.year <= 99) ==>
              WithFullYear(d1) == d1 && WithFullYear(d2) == d2
  {
  }

  /**
    A date of year 0 to 99 and the same day 1900 years later lie in
    different periods, yet truncate to the same instant.
   */
  lemma {:induction false} TwoDigitYearsAlias(iv: Interval, d: Date)
    requires ValidDate(d) && 0 <= d.year <= 99 && ValidDate(WithFullYear(d))
    ensures !SamePeriod(iv, d, WithFullYear(d))
    ensures Truncate(iv, UtcMidnight(d)) == Truncate(iv, UtcMidnight(WithFullYear(d)))
  {
    var e := WithFullYear(d);
    UtcMidnightOfDate(d);
    UtcMidnightOfDate(e);
    TruncateSamePeriod(iv, UtcMidnight(d), UtcMidnight(e));
  }
}
