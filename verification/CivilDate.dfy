/** Day numbers to Gregorian dates, as the postmark and the trace each compute them. */
module CivilDate {
  import opened Bytes

  const I64_MAX: int := 0x7FFF_FFFF_FFFF_FFFF

  datatype Date = Date(year: int, month: int, day: int)

  /** Division of the source language: toward zero. */
  function TruncDiv(a: int, b: int): int
    requires 0 < b
  {
    if 0 <= a then a / b else -((-a) / b)
  }

  /** The last steps shared by both conversions, from an era and a day within it. */
  function FromEra(era: int, dayOfEra: int): Date {
    var yearOfEra := TruncDiv(dayOfEra - TruncDiv(dayOfEra, 1460) + TruncDiv(dayOfEra, 36524) - TruncDiv(dayOfEra, 146096), 365);
    var dayOfYear := dayOfEra - (365 * yearOfEra + TruncDiv(yearOfEra, 4) - TruncDiv(yearOfEra, 100));
    var monthPrime := TruncDiv(5 * dayOfYear + 2, 153);
    var day := dayOfYear - TruncDiv(153 * monthPrime + 2, 5) + 1;
    var month := monthPrime + if monthPrime < 10 then 3 else -9;
    Date(yearOfEra + era * 400 + (if month <= 2 then 1 else 0), month, day)
  }

  /** `civil_from_days`: None when the shifted day number leaves the 64-bit range. */
  function CivilFromDays(days: int): Option<Date> {
    var shifted := days + 719468;
    if shifted > I64_MAX then None
    else
      var era := TruncDiv(shifted, 146097);
      Some(FromEra(era, shifted - era * 146097))
  }

  /** The date `civil_date_from_days` finds: it rounds eras down for negative days as well. */
  function WideTraceDate(days: int): Date {
    var shifted := days + 719468;
    var era := if shifted >= 0 then TruncDiv(shifted, 146097) else TruncDiv(shifted - 146096, 146097);
    FromEra(era, shifted - era * 146097)
  }

  /** A 64-bit year cut to 32 bits. */
  function AsI32(year: int): int {
    (year + 0x8000_0000) % 0x1_0000_0000 - 0x8000_0000
  }

  /** `civil_date_from_days`. */
  function TraceDate(days: int): Date {
    var date := WideTraceDate(days);
    date.(year := AsI32(date.year))
  }

  // ----- The calendar -----

  predicate IsLeap(year: int) {
    year % 4 == 0 && (year % 100 != 0 || year % 400 == 0)
  }

  function DaysInMonth(year: int, month: int): int {
    if month == 2 then (if IsLeap(year) then 29 else 28)
    else if month == 4 || month == 6 || month == 9 || month == 11 then 30
    else 31
  }

  predicate IsDate(d: Date) {
    1 <= d.month <= 12 && 1 <= d.day <= DaysInMonth(d.year, d.month)
  }

  function NextDay(d: Date): Date {
    if d.day < DaysInMonth(d.year, d.month) then d.(day := d.day + 1)
    else if d.month < 12 then Date(d.year, d.month + 1, 1)
    else Date(d.year + 1, 1, 1)
  }

  /** Days of the year before a month, month lengths added up. */
  function DaysBeforeMonth(year: int, month: int): int
    requires 1 <= month <= 13
  {
    if month == 1 then 0 else DaysBeforeMonth(year, month - 1) + DaysInMonth(year, month - 1)
  }

  /** Days before 1 January of a year, counted from a fixed origin. */
  function DaysBeforeYear(year: int): int {
    365 * (year - 1) + (year - 1) / 4 - (year - 1) / 100 + (year - 1) / 400
  }

  /** Days since 1 January 1970. */
  function DayNumber(d: Date): int
    requires 1 <= d.month <= 12
  {
    DaysBeforeYear(d.year) + DaysBeforeMonth(d.year, d.month) + d.day - 1 - 719162
  }

  lemma YearLength(year: int)
    ensures DaysBeforeYear(year + 1) == DaysBeforeYear(year) + (if IsLeap(year) then 366 else 365)
  {
    Quotients(year, 4);
    Quotients(year, 100);
    Quotients(year, 400);
    Multiples(year);
  }

  lemma Multiples(n: int)
    ensures n % 400 == 0 ==> n % 100 == 0
    ensures n % 100 == 0 ==> n % 4 == 0
  {
    if n % 400 == 0 {
      Divides(n, 100, 4 * (n / 400), 0);
    }
    if n % 100 == 0 {
      Divides(n, 4, 25 * (n / 100), 0);
    }
  }

  /** A quotient and remainder that fit are the quotient and remainder. */
  lemma Divides(n: int, k: int, q: int, r: int)
    requires k == 4 || k == 100 || k == 365 || k == 400 || k == 1460 || k == 146097
    requires n == k * q + r && 0 <= r < k
    ensures n / k == q && n % k == r
  {
  }

  lemma Quotients(n: int, k: int)
    requires k == 4 || k == 100 || k == 400
    ensures n / k == (n - 1) / k + (if n % k == 0 then 1 else 0)
  {
  }

  lemma MonthsAddUp(year: int)
    ensures DaysBeforeMonth(year, 13) == if IsLeap(year) then 366 else 365
  {
    MonthTable(year, 12);
  }

  /** The running month totals in closed form. */
  lemma MonthTable(year: int, month: int)
    requires 1 <= month <= 12
    ensures DaysBeforeMonth(year, month) ==
            if month <= 2 then 31 * (month - 1)
            else (153 * (month - 3) + 2) / 5 + 59 + (if IsLeap(year) then 1 else 0)
  {
    if 1 < month {
      MonthTable(year, month - 1);
      assert month == 2 || month == 3 || month == 4 || month == 5 || month == 6 || month == 7 ||
             month == 8 || month == 9 || month == 10 || month == 11 || month == 12;
    }
  }

  /** Consecutive dates have consecutive day numbers. */
  lemma NextDayCounts(d: Date)
    requires IsDate(d)
    ensures IsDate(NextDay(d)) && DayNumber(NextDay(d)) == DayNumber(d) + 1
  {
    if d.day == DaysInMonth(d.year, d.month) && d.month == 12 {
      YearLength(d.year);
      MonthsAddUp(d.year);
    }
  }

  lemma DayOfYearFits(d: Date)
    requires IsDate(d)
    ensures 0 <= DaysBeforeMonth(d.year, d.month) + d.day - 1 < if IsLeap(d.year) then 366 else 365
  {
    MonthTable(d.year, d.month);
  }

  lemma {:induction false} YearsGrow(a: int, b: int)
    requires a < b
    ensures DaysBeforeYear(a) + (if IsLeap(a) then 366 else 365) <= DaysBeforeYear(b)
    decreases b - a
  {
    YearLength(b - 1);
    if a < b - 1 {
      YearsGrow(a, b - 1);
    }
  }

  lemma {:induction false} MonthsGrow(year: int, a: int, b: int)
    requires 1 <= a < b <= 12
    ensures DaysBeforeMonth(year, a) + DaysInMonth(year, a) <= DaysBeforeMonth(year, b)
    decreases b - a
  {
    if a < b - 1 {
      MonthsGrow(year, a, b - 1);
    }
  }

  /** A day number names one date only. */
  lemma DayNumberInjective(a: Date, b: Date)
    requires IsDate(a) && IsDate(b) && DayNumber(a) == DayNumber(b)
    ensures a == b
  {
    DayOfYearFits(a);
    DayOfYearFits(b);
    if a.year < b.year {
      YearsGrow(a.year, b.year);
    } else if b.year < a.year {
      YearsGrow(b.year, a.year);
    } else if a.month < b.month {
      MonthsGrow(a.year, a.month, b.month);
    } else if b.month < a.month {
      MonthsGrow(a.year, b.month, a.month);
    }
  }

  // ----- The conversion -----

  /** A day of an era by century, four-year group and year: how the closed formula
      for the year works out. The last day of an era is the one day that belongs
      to a fifth quarter of a group. */
  lemma EraYear(dayOfEra: int) returns (c: int, q: int, y: int, doy: int)
    requires 0 <= dayOfEra < 146097
    ensures 0 <= c <= 3 && 0 <= q <= 24 && 0 <= y <= 3 && 0 <= doy <= 365
    ensures dayOfEra == 36524 * c + 1461 * q + 365 * y + doy
    ensures doy == 365 ==> y == 3 && (q == 24 ==> c == 3)
    ensures (dayOfEra - dayOfEra / 1460 + dayOfEra / 36524 - dayOfEra / 146096) / 365 == 100 * c + 4 * q + y
  {
    c := if dayOfEra == 146096 then 3 else dayOfEra / 36524;
    var inCentury := dayOfEra - 36524 * c;
    q := inCentury / 1461;
    var inGroup := inCentury - 1461 * q;
    y := if inGroup == 1460 then 3 else inGroup / 365;
    doy := inGroup - 365 * y;
    EraYearFormula(dayOfEra, c, q, y, inGroup);
  }

  lemma EraYearFormula(dayOfEra: int, c: int, q: int, y: int, inGroup: int)
    requires 0 <= c <= 3 && 0 <= q <= 24 && 0 <= inGroup <= 1460
    requires dayOfEra == 36524 * c + 1461 * q + inGroup
    requires c < 3 && q == 24 ==> inGroup < 1460
    requires y == if inGroup == 1460 then 3 else inGroup / 365
    ensures (dayOfEra - dayOfEra / 1460 + dayOfEra / 36524 - dayOfEra / 146096) / 365 == 100 * c + 4 * q + y
  {
    var e := (24 * c + q + inGroup) / 1460;
    assert e == if 24 * c + q + inGroup < 1460 then 0 else 1;
    Divides(dayOfEra, 1460, 25 * c + q + e, 24 * c + q + inGroup - 1460 * e);
    CenturyOfEra(dayOfEra, c);
    Divides(dayOfEra - dayOfEra / 1460 + c, 365, 100 * c + 4 * q + y, inGroup - e - 365 * y);
  }

  lemma CenturyOfEra(dayOfEra: int, c: int)
    requires 0 <= c <= 3 && 36524 * c <= dayOfEra < 36524 * (c + 1) + (if c == 3 then 1 else 0)
    ensures dayOfEra / 36524 - dayOfEra / 146096 == c
  {
  }

  /** Months from March: where the day of a March-based year falls. */
  lemma MonthOfDay(doy: int)
    requires 0 <= doy <= 365
    ensures var mp := (5 * doy + 2) / 153;
            var day := doy - (153 * mp + 2) / 5 + 1;
            0 <= mp <= 11 && 1 <= day <= (if mp == 11 then 29 else if mp == 1 || mp == 3 || mp == 6 || mp == 8 then 30 else 31) &&
            (mp == 11 && day == 29 ==> doy == 365)
  {
    var mp := (5 * doy + 2) / 153;
    assert mp == 0 || mp == 1 || mp == 2 || mp == 3 || mp == 4 || mp == 5 ||
           mp == 6 || mp == 7 || mp == 8 || mp == 9 || mp == 10 || mp == 11;
  }

  /** Days before the January that follows March-based year Y = 400 era + 100 c + 4 q + y. */
  lemma DaysBeforeNextYear(era: int, c: int, q: int, y: int)
    requires 0 <= c <= 3 && 0 <= q <= 24 && 0 <= y <= 3
    ensures var year := 400 * era + 100 * c + 4 * q + y;
            DaysBeforeYear(year + 1) == 146097 * era + 36524 * c + 1461 * q + 365 * y
  {
    var year := 400 * era + 100 * c + 4 * q + y;
    Divides(year, 4, 100 * era + 25 * c + q, y);
    Divides(year, 100, 4 * era + c, 4 * q + y);
    Divides(year, 400, era, 100 * c + 4 * q + y);
  }

  lemma LeapAfterLongYear(era: int, c: int, q: int)
    requires 0 <= c <= 3 && 0 <= q <= 24 && (q == 24 ==> c == 3)
    ensures IsLeap(400 * era + 100 * c + 4 * q + 4)
  {
    var year := 400 * era + 100 * c + 4 * q + 4;
    Divides(year, 4, 100 * era + 25 * c + q + 1, 0);
    if q < 24 {
      Divides(year, 100, 4 * era + c, 4 * q + 4);
    } else {
      Divides(year, 400, era + 1, 0);
    }
  }

  /** A date found from a March-based year and day has the day number it stands for. */
  lemma MarchDate(year: int, doy: int, d: Date)
    requires 0 <= doy <= 365 && (doy == 365 ==> IsLeap(year + 1))
    requires var mp := (5 * doy + 2) / 153;
             d == Date(if mp < 10 then year else year + 1, if mp < 10 then mp + 3 else mp - 9, doy - (153 * mp + 2) / 5 + 1)
    ensures IsDate(d) && DayNumber(d) == DaysBeforeYear(year + 1) + doy - 719468
  {
    MonthOfDay(doy);
    YearLength(year);
    MonthTable(d.year, d.month);
  }

  lemma FromEraIsExact(era: int, dayOfEra: int)
    requires 0 <= dayOfEra < 146097
    ensures IsDate(FromEra(era, dayOfEra)) && DayNumber(FromEra(era, dayOfEra)) == 146097 * era + dayOfEra - 719468
  {
    var c, q, y, doy := EraYear(dayOfEra);
    var yearOfEra := 100 * c + 4 * q + y;
    Divides(yearOfEra, 4, 25 * c + q, y);
    Divides(yearOfEra, 100, c, 4 * q + y);
    DaysBeforeNextYear(era, c, q, y);
    if doy == 365 {
      LeapAfterLongYear(era, c, q);
    }
    FromEraByMarch(era, dayOfEra, yearOfEra, doy);
    MarchDate(400 * era + yearOfEra, doy, FromEra(era, dayOfEra));
  }

  lemma FromEraByMarch(era: int, dayOfEra: int, yearOfEra: int, doy: int)
    requires 0 <= dayOfEra && 0 <= yearOfEra && 0 <= doy <= 365
    requires (dayOfEra - dayOfEra / 1460 + dayOfEra / 36524 - dayOfEra / 146096) / 365 == yearOfEra
    requires doy == dayOfEra - (365 * yearOfEra + yearOfEra / 4 - yearOfEra / 100)
    ensures var mp, year := (5 * doy + 2) / 153, 400 * era + yearOfEra;
            FromEra(era, dayOfEra) ==
            Date(if mp < 10 then year else year + 1, if mp < 10 then mp + 3 else mp - 9, doy - (153 * mp + 2) / 5 + 1)
  {
    MonthOfDay(doy);
    assert dayOfEra - dayOfEra / 1460 + dayOfEra / 36524 - dayOfEra / 146096 >= 0;
  }

  /** From the beginning of the first era on, the postmark date is a calendar date
      whose day number is the input. */
  lemma CivilIsExact(days: int)
    requires -719468 <= days <= I64_MAX - 719468
    ensures var d := CivilFromDays(days); d.Some? && IsDate(d.value) && DayNumber(d.value) == days
  {
    var shifted := days + 719468;
    FromEraIsExact(shifted / 146097, shifted % 146097);
  }

  lemma NextDayIs(a: Date, b: Date)
    requires IsDate(a) && IsDate(b) && DayNumber(b) == DayNumber(a) + 1
    ensures b == NextDay(a)
  {
    NextDayCounts(a);
    DayNumberInjective(NextDay(a), b);
  }

  /** Day 0 is 1 January 1970 ... */
  lemma EpochDate()
    ensures CivilFromDays(0) == Some(Date(1970, 1, 1))
  {
    CivilIsExact(0);
    DayNumberInjective(CivilFromDays(0).value, Date(1970, 1, 1));
  }

  /** ... and each next day is the next date of the calendar. */
  lemma CivilFollowsCalendar(days: int)
    requires -719468 <= days < I64_MAX - 719468
    ensures CivilFromDays(days).Some? && CivilFromDays(days + 1) == Some(NextDay(CivilFromDays(days).value))
  {
    CivilIsExact(days);
    CivilIsExact(days + 1);
    NextDayIs(CivilFromDays(days).value, CivilFromDays(days + 1).value);
  }

  /** Before the year is cut, the trace date is exact for every day number, before
      the first era as well. */
  lemma WideTraceIsExact(days: int)
    ensures IsDate(WideTraceDate(days)) && DayNumber(WideTraceDate(days)) == days
  {
    var shifted := days + 719468;
    if shifted < 0 {
      FloorEra(shifted);
    }
    FromEraIsExact(shifted / 146097, shifted % 146097);
  }

  lemma FloorEra(shifted: int)
    requires shifted < 0
    ensures TruncDiv(shifted - 146096, 146097) == shifted / 146097
  {
    var q, r := shifted / 146097, shifted % 146097;
    Divides(146096 - shifted, 146097, -q, 146096 - r);
  }

  /** The first and the last day of the years that 32 bits can hold. */
  const FIRST_TRACE_DAY: int := DaysBeforeYear(-0x8000_0000) - 719162
  const LAST_TRACE_DAY: int := DaysBeforeYear(0x8000_0000) - 719162 - 1

  predicate InTraceRange(days: int) {
    FIRST_TRACE_DAY <= days <= LAST_TRACE_DAY
  }

  /** A date lies before a year exactly when its day number lies before that year's first day. */
  lemma YearByDay(d: Date, year: int)
    requires IsDate(d)
    ensures d.year < year <==> DayNumber(d) < DaysBeforeYear(year) - 719162
  {
    DayOfYearFits(d);
    if d.year < year {
      YearsGrow(d.year, year);
    } else if year < d.year {
      YearsGrow(year, d.year);
    }
  }

  lemma CutYear(year: int)
    ensures AsI32(year) == year <==> -0x8000_0000 <= year < 0x8000_0000
  {
  }

  lemma YearFits(days: int)
    ensures AsI32(WideTraceDate(days).year) == WideTraceDate(days).year <==> InTraceRange(days)
  {
    WideTraceIsExact(days);
    YearByDay(WideTraceDate(days), -0x8000_0000);
    YearByDay(WideTraceDate(days), 0x8000_0000);
    CutYear(WideTraceDate(days).year);
  }

  /** The trace date is right exactly for the days whose year fits in 32 bits. */
  lemma TraceIsExact(days: int)
    ensures IsDate(TraceDate(days)) && DayNumber(TraceDate(days)) == days <==> InTraceRange(days)
  {
    WideTraceIsExact(days);
    YearFits(days);
    if IsDate(TraceDate(days)) && DayNumber(TraceDate(days)) == days {
      DayNumberInjective(TraceDate(days), WideTraceDate(days));
    }
  }

  /** The two conversions agree exactly there, wherever the postmark one is defined. */
  lemma ConversionsAgree(days: int)
    requires -719468 <= days <= I64_MAX - 719468
    ensures CivilFromDays(days) == Some(TraceDate(days)) <==> days <= LAST_TRACE_DAY
  {
    CivilIsExact(days);
    WideTraceIsExact(days);
    DayNumberInjective(CivilFromDays(days).value, WideTraceDate(days));
    YearFits(days);
  }
}
