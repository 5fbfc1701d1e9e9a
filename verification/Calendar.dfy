// The dates of the audit log: civil_from_days and describe_time of crates/dr-dsh-daemon/src/lib.rs,
// against the Gregorian calendar.
module Calendar {
  import opened Decimal

  datatype Date = Date(year: int, month: int, day: int)

  // ------------------------------------------------------------ the calendar

  predicate Leap(year: int)
  {
    year % 4 == 0 && (year % 100 != 0 || year % 400 == 0)
  }

  function DaysIn(year: int, month: int): int
  {
    if month == 2 then (if Leap(year) then 29 else 28)
    else if month == 4 || month == 6 || month == 9 || month == 11 then 30 else 31
  }

  predicate Valid(d: Date)
  {
    1 <= d.month <= 12 && 1 <= d.day <= DaysIn(d.year, d.month)
  }

  function NextDate(d: Date): Date
  {
    if d.day < DaysIn(d.year, d.month) then d.(day := d.day + 1)
    else if d.month < 12 then Date(d.year, d.month + 1, 1)
    else Date(d.year + 1, 1, 1)
  }

  const EPOCH := Date(1970, 1, 1)

  // Days from the first of January of year 1 to that of the given year.
  function DaysBeforeYear(year: int): int
  {
    365 * (year - 1) + (year - 1) / 4 - (year - 1) / 100 + (year - 1) / 400
  }

  function DaysBeforeMonth(year: int, month: int): int
    requires 1 <= month <= 12
  {
    if month == 1 then 0 else DaysBeforeMonth(year, month - 1) + DaysIn(year, month - 1)
  }

  // The number of a date, counted from the epoch.
  function DaysFromCivil(d: Date): int
    requires 1 <= d.month <= 12
  {
    DaysBeforeYear(d.year) + DaysBeforeMonth(d.year, d.month) + d.day - 1 - 719162
  }

  // ---------------------------------------------------------------- the code

  function CivilFromDays(days: int): Date
  {
    var shifted := days + 719468;
    var era := shifted / 146097;
    var dayOfEra := shifted % 146097;
    var yearOfEra := YearOfEra(dayOfEra);
    var year := yearOfEra + era * 400;
    MarchDate(year, dayOfEra - (365 * yearOfEra + yearOfEra / 4 - yearOfEra / 100))
  }

  // The date of a day of a year that starts in March, so that leap days come last.
  function MarchDate(year: int, dayOfYear: int): Date
  {
    var monthPrime := (5 * dayOfYear + 2) / 153;
    var day := dayOfYear - (153 * monthPrime + 2) / 5 + 1;
    var month := if monthPrime < 10 then monthPrime + 3 else monthPrime - 9;
    Date(year + (if month <= 2 then 1 else 0), month, day)
  }

  function YearOfEra(dayOfEra: int): int
  {
    (dayOfEra - dayOfEra / 1460 + dayOfEra / 36524 - dayOfEra / 146096) / 365
  }

  // The formula in terms of the century c, the group of four years q and the day s within it.
  lemma YearByParts(doe: int, c: int, q: int, s: int)
    requires doe == 36524 * c + 1461 * q + s && 0 <= c <= 3 && 0 <= q <= 24 && 0 <= s <= 1460
    requires 1461 * q + s <= 36524 && (1461 * q + s == 36524 ==> c == 3)
    ensures YearOfEra(doe) == 100 * c + 4 * q + (if s < 1460 then s / 365 else 3)
  {
    var e := if 24 * c + q + s >= 1460 then 1 else 0;
    var last := if doe == 146096 then 1 else 0;
    assert doe / 1460 == 25 * c + q + e;
    assert doe / 36524 == c + last;
    assert doe / 146096 == last;
    assert doe - doe / 1460 + doe / 36524 - doe / 146096 == 365 * (100 * c + 4 * q) + (s - e);
    assert (s - e) / 365 == if s < 1460 then s / 365 else 3;
  }

  // Within an era, the year runs over 0..399 and the day of the year over 0..365; only a year that
  // ends with a leap day has the day 365.
  lemma YearOfEraFits(doe: int)
    requires 0 <= doe < 146097
    ensures 0 <= YearOfEra(doe) < 400
    ensures (var y := YearOfEra(doe); var doy := doe - (365 * y + y / 4 - y / 100);
             0 <= doy <= 365 && (doy == 365 ==> Leap(y + 1)))
  {
    var c := if doe == 146096 then 3 else doe / 36524;
    var r := doe - 36524 * c;
    var q := r / 1461;
    var s := r % 1461;
    YearByParts(doe, c, q, s);
    var k := if s < 1460 then s / 365 else 3;
    var y := 100 * c + 4 * q + k;
    assert y / 4 == 25 * c + q && y / 100 == c;
    assert doe - (365 * y + y / 4 - y / 100) == s - 365 * k;
  }

  // Counting leap days up to a year, from either side of it.
  lemma LeapDays(year: int)
    ensures (year - 1) / 4 - (year - 1) / 100 + (year - 1) / 400 + (if Leap(year) then 1 else 0)
         == year / 4 - year / 100 + year / 400
  {
    var q, r := year / 400, year % 400;
    assert year / 4 == 100 * q + r / 4 && year / 100 == 4 * q + r / 100;
    if r == 0 {
      assert (year - 1) / 4 == 100 * q - 1 && (year - 1) / 100 == 4 * q - 1 && (year - 1) / 400 == q - 1;
    } else {
      assert (year - 1) / 4 == 100 * q + (r - 1) / 4 && (year - 1) / 100 == 4 * q + (r - 1) / 100 && (year - 1) / 400 == q;
      assert (r - 1) / 4 == if r % 4 == 0 then r / 4 - 1 else r / 4;
      assert (r - 1) / 100 == if r % 100 == 0 then r / 100 - 1 else r / 100;
    }
  }

  lemma MonthTable(year: int)
    ensures (var l := if Leap(year) then 1 else 0;
             && DaysBeforeMonth(year, 1) == 0 && DaysBeforeMonth(year, 2) == 31 && DaysBeforeMonth(year, 3) == 59 + l
             && DaysBeforeMonth(year, 4) == 90 + l && DaysBeforeMonth(year, 5) == 120 + l && DaysBeforeMonth(year, 6) == 151 + l
             && DaysBeforeMonth(year, 7) == 181 + l && DaysBeforeMonth(year, 8) == 212 + l && DaysBeforeMonth(year, 9) == 243 + l
             && DaysBeforeMonth(year, 10) == 273 + l && DaysBeforeMonth(year, 11) == 304 + l && DaysBeforeMonth(year, 12) == 334 + l)
  {
    assert DaysBeforeMonth(year, 4) == DaysBeforeMonth(year, 3) + 31;
    assert DaysBeforeMonth(year, 6) == DaysBeforeMonth(year, 5) + 31;
    assert DaysBeforeMonth(year, 8) == DaysBeforeMonth(year, 7) + 31;
    assert DaysBeforeMonth(year, 10) == DaysBeforeMonth(year, 9) + 30;
    assert DaysBeforeMonth(year, 12) == DaysBeforeMonth(year, 11) + 30;
  }

  // The day of a March year, split into month and day.
  lemma MonthFits(year: int, doy: int)
    requires 0 <= doy <= 365 && (doy == 365 ==> Leap(year + 1))
    ensures Valid(MarchDate(year, doy))
    ensures DaysFromCivil(MarchDate(year, doy))
         == DaysBeforeYear(year) + (if Leap(year) then 1 else 0) + doy + 59 - 719162
  {
    MonthTable(year);
    MonthTable(year + 1);
    LeapDays(year);
    var mp := (5 * doy + 2) / 153;
    assert 0 <= mp <= 11;
  }

  // For every day count the code yields a real date, and the date's number is the count.
  lemma CivilIsInverted(days: int)
    ensures Valid(CivilFromDays(days)) && DaysFromCivil(CivilFromDays(days)) == days
  {
    var era, doe := (days + 719468) / 146097, (days + 719468) % 146097;
    EraOfDay(days, era, doe);
    YearOfEraFits(doe);
    EraDate(era, doe, YearOfEra(doe), days);
  }

  lemma EraOfDay(days: int, era: int, doe: int)
    requires era == (days + 719468) / 146097 && doe == (days + 719468) % 146097
    ensures 0 <= doe < 146097 && 146097 * era + doe == days + 719468
    ensures (var yoe := YearOfEra(doe);
             CivilFromDays(days) == MarchDate(yoe + era * 400, doe - (365 * yoe + yoe / 4 - yoe / 100)))
  {}

  lemma EraDate(era: int, doe: int, yoe: int, days: int)
    requires 0 <= yoe < 400 && 146097 * era + doe == days + 719468
    requires (var doy := doe - (365 * yoe + yoe / 4 - yoe / 100); 0 <= doy <= 365 && (doy == 365 ==> Leap(yoe + 1)))
    ensures (var d := MarchDate(yoe + era * 400, doe - (365 * yoe + yoe / 4 - yoe / 100));
             Valid(d) && DaysFromCivil(d) == days)
  {
    EraShift(yoe, era);
    MonthFits(yoe + era * 400, doe - (365 * yoe + yoe / 4 - yoe / 100));
    YearStart(yoe, era);
  }

  // The first of March of a year, counted through the eras.
  lemma YearStart(yoe: int, era: int)
    requires 0 <= yoe < 400
    ensures (var year := yoe + era * 400;
             DaysBeforeYear(year) + (if Leap(year) then 1 else 0)
             == 365 * yoe + yoe / 4 - yoe / 100 + 146097 * era - 365)
  {
    EraShift(yoe, era);
    LeapDays(yoe + era * 400);
  }

  lemma EraShift(yoe: int, era: int)
    requires 0 <= yoe < 400
    ensures (var year := yoe + era * 400;
             && year / 4 == yoe / 4 + 100 * era && year / 100 == yoe / 100 + 4 * era && year / 400 == era
             && (Leap(year + 1) <==> Leap(yoe + 1)))
  {
    Shifted(yoe, 100 * era, 4);
    Shifted(yoe, 4 * era, 100);
    Shifted(yoe, era, 400);
    Shifted(yoe + 1, 100 * era, 4);
    Shifted(yoe + 1, 4 * era, 100);
    Shifted(yoe + 1, era, 400);
  }

  lemma Shifted(n: int, k: int, m: int)
    requires m == 4 || m == 100 || m == 400
    ensures (n + k * m) / m == n / m + k && (n + k * m) % m == n % m
  {}

  // ------------------------------------------------------------- bijection

  lemma YearStep(year: int)
    ensures DaysBeforeYear(year + 1) == DaysBeforeYear(year) + if Leap(year) then 366 else 365
  {
    LeapDays(year);
  }

  lemma {:induction false} YearsGrow(a: int, b: int)
    requires a < b
    ensures DaysBeforeYear(a) + (if Leap(a) then 366 else 365) <= DaysBeforeYear(b)
    decreases b - a
  {
    YearStep(b - 1);
    if a < b - 1 {
      YearsGrow(a, b - 1);
    } else {
      YearStep(a);
    }
  }

  lemma WithinYear(d: Date)
    requires Valid(d)
    ensures DaysBeforeYear(d.year) <= DaysFromCivil(d) + 719162 < DaysBeforeYear(d.year) + if Leap(d.year) then 366 else 365
  {
    MonthTable(d.year);
  }

  // Dates with the same number are the same date.
  lemma NumberIsUnique(a: Date, b: Date)
    requires Valid(a) && Valid(b) && DaysFromCivil(a) == DaysFromCivil(b)
    ensures a == b
  {
    WithinYear(a);
    WithinYear(b);
    if a.year < b.year {
      YearsGrow(a.year, b.year);
    } else if b.year < a.year {
      YearsGrow(b.year, a.year);
    }
    MonthTable(a.year);
  }

  // Every real date is the date of its number.
  lemma EveryDateIsReached(d: Date)
    requires Valid(d)
    ensures CivilFromDays(DaysFromCivil(d)) == d
  {
    CivilIsInverted(DaysFromCivil(d));
    NumberIsUnique(CivilFromDays(DaysFromCivil(d)), d);
  }

  lemma NextDateIsNextNumber(d: Date)
    requires Valid(d)
    ensures Valid(NextDate(d)) && DaysFromCivil(NextDate(d)) == DaysFromCivil(d) + 1
  {
    MonthTable(d.year);
    MonthTable(d.year + 1);
    YearStep(d.year);
  }

  lemma EpochIsZero()
    ensures Valid(EPOCH) && DaysFromCivil(EPOCH) == 0
  {
    assert DaysBeforeMonth(1970, 1) == 0;
  }

  // Day 0 is the epoch and each day is followed by the next date of the calendar.
  lemma DaysFollowTheCalendar(days: int)
    ensures CivilFromDays(DaysFromCivil(EPOCH)) == EPOCH && DaysFromCivil(EPOCH) == 0
    ensures CivilFromDays(days + 1) == NextDate(CivilFromDays(days))
  {
    EpochIsZero();
    EveryDateIsReached(EPOCH);
    NextFollows(days, CivilFromDays(days));
  }

  lemma NextFollows(days: int, d: Date)
    requires d == CivilFromDays(days)
    ensures CivilFromDays(days + 1) == NextDate(d)
  {
    CivilIsInverted(days);
    NextDateIsNextNumber(d);
    EveryDateIsReached(NextDate(d));
  }

  // ------------------------------------------------------------------ text

  // YYYY-MM-DDTHH:MM:SSZ of a second count; the year takes as many digits as it needs.
  function DescribeSeconds(seconds: nat): string
  {
    var days, ofDay := seconds / 86400, seconds % 86400;
    var d := CivilFromDays(days);
    CivilIsInverted(days);
    CivilYearIsPositive(days);
    Padded(d.year, 4) + Clock(d.month, d.day, ofDay)
  }

  function Clock(month: nat, day: nat, ofDay: nat): string
  {
    ['-'] + Padded(month, 2) + ['-'] + Padded(day, 2) + ['T'] + Padded(ofDay / 3600, 2) + [':']
    + Padded(ofDay % 3600 / 60, 2) + [':'] + Padded(ofDay % 60, 2) + ['Z']
  }

  function DescribeTime(atMs: nat): string
  {
    DescribeSeconds(atMs / 1000)
  }

  lemma CivilYearIsPositive(days: nat)
    ensures CivilFromDays(days).year >= 1970
  {
    var d := CivilFromDays(days);
    CivilIsInverted(days);
    if d.year < 1970 {
      WithinYear(d);
      YearsGrow(d.year, 1970);
    }
  }

  lemma TwoDigits(n: nat)
    requires n < 100
    ensures |Padded(n, 2)| == 2 && Value(Padded(n, 2)) == n
  {
    PaddedWidth(n, 2, 100);
    PaddedReadsBack(n, 2);
  }

  lemma ClockShape(month: nat, day: nat, ofDay: nat)
    requires month < 100 && day < 100 && ofDay < 86400
    ensures (var s := Clock(month, day, ofDay);
             && |s| == 16 && s[1..3] == Padded(month, 2) && s[4..6] == Padded(day, 2)
             && s[7..9] == Padded(ofDay / 3600, 2) && s[10..12] == Padded(ofDay % 3600 / 60, 2)
             && s[13..15] == Padded(ofDay % 60, 2))
  {
    TwoDigits(month);
    TwoDigits(day);
    TwoDigits(ofDay / 3600);
    TwoDigits(ofDay % 3600 / 60);
    TwoDigits(ofDay % 60);
  }

  lemma ClockReadsBack(month: nat, day: nat, ofDay: nat)
    requires month < 100 && day < 100 && ofDay < 86400
    ensures (var s := Clock(month, day, ofDay);
             && |s| == 16 && Value(s[1..3]) == month && Value(s[4..6]) == day && SecondsOf(s) == ofDay)
  {
    ClockShape(month, day, ofDay);
    TwoDigits(month);
    TwoDigits(day);
    TimeReadsBack(Clock(month, day, ofDay), ofDay / 3600, ofDay % 3600 / 60, ofDay % 60);
    TimeParts(ofDay);
  }

  lemma TimeParts(ofDay: nat)
    ensures 3600 * (ofDay / 3600) + 60 * (ofDay % 3600 / 60) + ofDay % 60 == ofDay
  {}

  lemma TimeReadsBack(clock: string, h: nat, m: nat, sec: nat)
    requires |clock| == 16 && h < 100 && m < 100 && sec < 100
    requires clock[7..9] == Padded(h, 2) && clock[10..12] == Padded(m, 2) && clock[13..15] == Padded(sec, 2)
    ensures SecondsOf(clock) == 3600 * h + 60 * m + sec
  {
    TwoDigits(h);
    TwoDigits(m);
    TwoDigits(sec);
  }

  function SecondsOf(clock: string): int
    requires |clock| == 16
  {
    3600 * Value(clock[7..9]) + 60 * Value(clock[10..12]) + Value(clock[13..15])
  }

  // A reader of descriptions: the date before the last sixteen characters, the time within them.
  function ReadMoment(s: string): int
  {
    if |s| < 16 then -1
    else
      var clock := s[|s| - 16..];
      var d := Date(Value(s[..|s| - 16]), Value(clock[1..3]), Value(clock[4..6]));
      if Valid(d) then 86400 * DaysFromCivil(d) + SecondsOf(clock) else -1
  }

  // The moment can be read back from its description, to the second.
  lemma DescriptionReadsBack(seconds: nat)
    ensures ReadMoment(DescribeSeconds(seconds)) == seconds
  {
    var days, ofDay := seconds / 86400, seconds % 86400;
    var d := CivilFromDays(days);
    CivilIsInverted(days);
    CivilYearIsPositive(days);
    ClockReadsBack(d.month, d.day, ofDay);
    PaddedReadsBack(d.year, 4);
    var s := DescribeSeconds(seconds);
    var n := |s| - 16;
    assert s[..n] == Padded(d.year, 4) && s[n..] == Clock(d.month, d.day, ofDay);
  }

  // Two timestamps are described alike exactly when they fall in the same second.
  lemma SameDescriptionIffSameSecond(a: nat, b: nat)
    ensures DescribeTime(a) == DescribeTime(b) <==> a / 1000 == b / 1000
  {
    DescriptionReadsBack(a / 1000);
    DescriptionReadsBack(b / 1000);
  }

  lemma TwoDigitsAreDigits(n: nat)
    requires n < 100
    ensures |Padded(n, 2)| == 2 && AllDigits(Padded(n, 2))
  {
    TwoDigits(n);
    PaddedDigits(n, 2);
  }

  // The shape of a time of day with its date: the separators in their places and digits between them.
  lemma ClockSeparators(month: nat, day: nat, ofDay: nat)
    requires month < 100 && day < 100 && ofDay < 86400
    ensures (var s := Clock(month, day, ofDay);
             && |s| == 16 && s[0] == '-' && s[3] == '-' && s[6] == 'T' && s[9] == ':' && s[12] == ':' && s[15] == 'Z'
             && AllDigits(s[1..3]) && AllDigits(s[4..6]) && AllDigits(s[7..9]) && AllDigits(s[10..12]) && AllDigits(s[13..15]))
  {
    TwoDigitsAreDigits(month);
    TwoDigitsAreDigits(day);
    TwoDigitsAreDigits(ofDay / 3600);
    TwoDigitsAreDigits(ofDay % 3600 / 60);
    TwoDigitsAreDigits(ofDay % 60);
    ClockShape(month, day, ofDay);
  }

  // YYYY-MM-DDTHH:MM:SSZ, with a year of four digits or more.
  predicate Shaped(s: string)
  {
    var n := |s| - 16;
    && n >= 4 && AllDigits(s[..n])
    && s[n] == '-' && s[n + 3] == '-' && s[n + 6] == 'T' && s[n + 9] == ':' && s[n + 12] == ':' && s[n + 15] == 'Z'
    && AllDigits(s[n + 1..n + 3]) && AllDigits(s[n + 4..n + 6])
    && AllDigits(s[n + 7..n + 9]) && AllDigits(s[n + 10..n + 12]) && AllDigits(s[n + 13..n + 15])
  }

  lemma YearAndClockShaped(year: string, clock: string)
    requires |year| >= 4 && AllDigits(year) && |clock| == 16
    requires clock[0] == '-' && clock[3] == '-' && clock[6] == 'T' && clock[9] == ':' && clock[12] == ':' && clock[15] == 'Z'
    requires AllDigits(clock[1..3]) && AllDigits(clock[4..6])
    requires AllDigits(clock[7..9]) && AllDigits(clock[10..12]) && AllDigits(clock[13..15])
    ensures Shaped(year + clock)
  {
    TailOf(year, clock);
  }

  // The description of a timestamp, of whatever millisecond, has that shape, and a reader of it gets the second
  // of the timestamp: the date and the time of day it says are real and add up to it.
  lemma DescriptionIsTheTime(atMs: nat)
    ensures Shaped(DescribeTime(atMs)) && ReadMoment(DescribeTime(atMs)) == atMs / 1000
  {
    var days, ofDay := atMs / 1000 / 86400, atMs / 1000 % 86400;
    var d := CivilFromDays(days);
    DescriptionReadsBack(atMs / 1000);
    CivilIsInverted(days);
    CivilYearIsPositive(days);
    PaddedDigits(d.year, 4);
    ClockSeparators(d.month, d.day, ofDay);
    YearAndClockShaped(Padded(d.year, 4), Clock(d.month, d.day, ofDay));
  }

  // The parts of a text that ends with a clock.
  lemma TailOf(year: string, clock: string)
    requires |clock| == 16
    ensures (var s, n := year + clock, |year|;
             && s[..n] == year && s[n + 1..n + 3] == clock[1..3] && s[n + 4..n + 6] == clock[4..6]
             && s[n + 7..n + 9] == clock[7..9] && s[n + 10..n + 12] == clock[10..12] && s[n + 13..n + 15] == clock[13..15]
             && s[n] == clock[0] && s[n + 3] == clock[3] && s[n + 6] == clock[6]
             && s[n + 9] == clock[9] && s[n + 12] == clock[12] && s[n + 15] == clock[15])
  {}
}
