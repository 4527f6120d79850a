/** Calendar time: from seconds since the Epoch to broken-down time and its text. */
module Calendar {
  import opened CTypes
  import opened Numerals
  import opened Format

  const DAY: int := 86400

  predicate IsLeap(year: int) {
    (year % 4 == 0 && year % 100 != 0) || year % 400 == 0
  }

  function YearDays(year: int): int {
    if IsLeap(year) then 366 else 365
  }

  const MONTH_DAYS: seq<int> := [31, 28, 31, 30, 31, 30, 31, 31, 30, 31, 30, 31]
  const MONTH_DAYS_LEAP: seq<int> := [31, 29, 31, 30, 31, 30, 31, 31, 30, 31, 30, 31]

  function MonthDays(leap: bool, month: nat): int
    requires month < 12
  {
    (if leap then MONTH_DAYS_LEAP else MONTH_DAYS)[month]
  }

  /** Days in the months before this one. */
  function DaysBefore(leap: bool, month: nat): int
    requires month <= 12
  {
    if month == 0 then 0 else DaysBefore(leap, month - 1) + MonthDays(leap, month - 1)
  }

  /** Days from the Epoch to the first of January, counting the leap years in closed form. */
  function YearStart(year: int): int {
    365 * (year - 1970) + (year - 1969) / 4 - (year - 1901) / 100 + (year - 1601) / 400
  }

  datatype Tm = Tm(sec: int, min: int, hour: int, mday: int, mon: int, year: int, wday: int, yday: int, isdst: int)

  /** The "Seconds Since the Epoch" expression of section 4.16 of IEEE Std 1003.1-2017, Base Definitions. */
  function PosixSeconds(tm: Tm): int {
    tm.sec + tm.min * 60 + tm.hour * 3600 + tm.yday * 86400 + (tm.year - 70) * 31536000
    + ((tm.year - 69) / 4) * 86400 - ((tm.year - 1) / 100) * 86400 + ((tm.year + 299) / 400) * 86400
  }

  /** Every field is in its calendar range, and the day of the year is that of the month and day. */
  predicate InRange(tm: Tm) {
    && 0 <= tm.sec < 60 && 0 <= tm.min < 60 && 0 <= tm.hour < 24
    && 0 <= tm.mon < 12 && 70 <= tm.year
    && 1 <= tm.mday <= MonthDays(IsLeap(tm.year + 1900), tm.mon)
    && tm.yday == DaysBefore(IsLeap(tm.year + 1900), tm.mon) + tm.mday - 1
  }

  /** tm is the broken-down form of the second t. */
  predicate IsBrokenDown(t: int, tm: Tm) {
    && InRange(tm) && tm.isdst == 0
    && PosixSeconds(tm) == t
    && tm.wday == (t / DAY + 4) % 7
  }

  // ----- Years and months -----

  /** The closed form steps by the length of the year. */
  lemma YearStep(year: int)
    ensures YearStart(year + 1) == YearStart(year) + YearDays(year)
  {
    DivStep(year - 1969, 4);
    DivStep(year - 1901, 100);
    DivStep(year - 1601, 400);
    LeapByRemainder(year);
    hide IsLeap;
  }

  lemma HundredsOfFourHundreds(q: int)
    ensures (400 * q) % 100 == 0
  {
    assert 400 * q == 100 * (4 * q);
  }

  lemma FoursOfHundreds(q: int)
    ensures (100 * q) % 4 == 0
  {
    assert 100 * q == 4 * (25 * q);
  }

  lemma CenturiesDivide(year: int)
    ensures year % 400 == 0 ==> year % 100 == 0
    ensures year % 100 == 0 ==> year % 4 == 0
  {
    HundredsOfFourHundreds(year / 400);
    FoursOfHundreds(year / 100);
  }

  lemma LeapByRemainder(year: int)
    ensures (if (year - 1968) % 4 == 0 then 1 else 0) - (if (year - 1900) % 100 == 0 then 1 else 0)
      + (if (year - 1600) % 400 == 0 then 1 else 0) == if IsLeap(year) then 1 else 0
  {
    Shifted(year, 4, 492);
    Shifted(year, 100, 19);
    Shifted(year, 400, 4);
    CenturiesDivide(year);
  }

  lemma Shifted(n: int, d: int, q: int)
    requires (d == 4 && q == 492) || (d == 100 && q == 19) || (d == 400 && q == 4)
    ensures (n - d * q) % d == n % d
  {
  }

  lemma DivStep(n: int, d: int)
    requires d == 4 || d == 100 || d == 400
    ensures (n + 1) / d == n / d + if (n + 1) % d == 0 then 1 else 0
  {
  }

  lemma {:induction false} YearsGrow(y1: int, y2: int)
    requires y1 < y2
    ensures YearStart(y1) + YearDays(y1) <= YearStart(y2)
    decreases y2 - y1
  {
    YearStep(y2 - 1);
    if y1 < y2 - 1 { YearsGrow(y1, y2 - 1); } else { YearStep(y1); }
  }

  lemma {:induction false} MonthsGrow(leap: bool, m1: nat, m2: nat)
    requires m1 < m2 <= 12
    ensures DaysBefore(leap, m1) + MonthDays(leap, m1) <= DaysBefore(leap, m2)
  {
    if m1 < m2 - 1 { MonthsGrow(leap, m1, m2 - 1); }
  }

  lemma YearLength(leap: bool)
    ensures DaysBefore(leap, 12) == if leap then 366 else 365
  {
    forall m: nat | m < 12 ensures DaysBefore(leap, m + 1) == DaysBefore(leap, m) + MonthDays(leap, m) {}
    assert DaysBefore(leap, 0 + 1) == 31;
    assert DaysBefore(leap, 1 + 1) == 59 + (if leap then 1 else 0);
    assert DaysBefore(leap, 2 + 1) == DaysBefore(leap, 2) + 31;
    assert DaysBefore(leap, 3 + 1) == DaysBefore(leap, 3) + 30;
    assert DaysBefore(leap, 4 + 1) == DaysBefore(leap, 4) + 31;
    assert DaysBefore(leap, 5 + 1) == DaysBefore(leap, 5) + 30;
    assert DaysBefore(leap, 6 + 1) == DaysBefore(leap, 6) + 31;
    assert DaysBefore(leap, 7 + 1) == DaysBefore(leap, 7) + 31;
    assert DaysBefore(leap, 8 + 1) == DaysBefore(leap, 8) + 30;
    assert DaysBefore(leap, 9 + 1) == DaysBefore(leap, 9) + 31;
    assert DaysBefore(leap, 10 + 1) == DaysBefore(leap, 10) + 30;
    assert DaysBefore(leap, 11 + 1) == DaysBefore(leap, 11) + 31;
  }

  // ----- The conversion -----

  class TmBuffer {
    var sec: int
    var min: int
    var hour: int
    var mday: int
    var mon: int
    var year: int
    var wday: int
    var yday: int
    var isdst: int

    function Value(): Tm
      reads this
    {
      Tm(sec, min, hour, mday, mon, year, wday, yday, isdst)
    }

    /** time_to_tm. The year stays an int as long as t is before the year INT_MAX + 1. */
    method TimeToTm(t: Int64)
      requires 0 <= t && t / DAY < YearStart(INT_MAX + 1)
      modifies this
      ensures IsBrokenDown(t, Value()) && isdst == 0
    {
      var days := t / 86400;
      var rem := t % 86400;
      hour := rem / 3600;
      rem := rem % 3600;
      min := rem / 60;
      sec := rem % 60;
      wday := (days + 4) % 7;
      var y: Int32;
      y, days := FindYear(days);
      year := y - 1900;
      yday := days;
      mon, days := FindMonth(IsLeap(y), days);
      mday := days + 1;
      isdst := 0;
      SecondsAdd(t, Value());
    }
  }

  /** The year loop. */
  method FindYear(days0: nat) returns (year: Int32, days: nat)
    requires days0 < YearStart(INT_MAX + 1)
    ensures 1970 <= year && YearStart(year) + days == days0 && days < YearDays(year)
  {
    year, days := 1970, days0;
    while true
      invariant 1970 <= year && YearStart(year) + days == days0
      decreases days
    {
      var yearDays := if IsLeap(year) then 366 else 365;
      if days < yearDays {
        return;
      }
      YearStep(year);
      days := days - yearDays;
      assert year < INT_MAX;
      year := year + 1;
    }
  }

  /** The month loop. */
  method FindMonth(leap: bool, days0: nat) returns (month: nat, days: nat)
    requires days0 < if leap then 366 else 365
    ensures month < 12 && DaysBefore(leap, month) + days == days0 && days < MonthDays(leap, month)
  {
    month, days := 0, days0;
    while month < 12 && days >= MonthDays(leap, month)
      invariant month <= 12 && DaysBefore(leap, month) + days == days0
    {
      days := days - MonthDays(leap, month);
      month := month + 1;
    }
    YearLength(leap);
  }

  lemma SecondsAdd(t: int, tm: Tm)
    requires 0 <= t && tm.hour == t % 86400 / 3600 && tm.min == t % 86400 % 3600 / 60 && tm.sec == t % 86400 % 3600 % 60
    requires YearStart(tm.year + 1900) + tm.yday == t / 86400
    ensures PosixSeconds(tm) == t
    ensures 0 <= tm.sec < 60 && 0 <= tm.min < 60 && 0 <= tm.hour < 24
  {
  }

  // ----- Order -----

  /** a comes before b in (year, mon, mday, hour, min, sec). */
  predicate LexLess(a: Tm, b: Tm) {
    a.year < b.year || (a.year == b.year &&
    (a.mon < b.mon || (a.mon == b.mon &&
    (a.mday < b.mday || (a.mday == b.mday &&
    (a.hour < b.hour || (a.hour == b.hour &&
    (a.min < b.min || (a.min == b.min && a.sec < b.sec)))))))))
  }

  lemma SecondsFromDays(tm: Tm)
    ensures PosixSeconds(tm) == 86400 * (YearStart(tm.year + 1900) + tm.yday) + 3600 * tm.hour + 60 * tm.min + tm.sec
  {
  }

  lemma YdayInYear(tm: Tm)
    requires InRange(tm)
    ensures 0 <= tm.yday < YearDays(tm.year + 1900)
  {
    var leap := IsLeap(tm.year + 1900);
    YearLength(leap);
    if tm.mon < 11 { MonthsGrow(leap, tm.mon, 11); }
    if tm.mon > 0 { MonthsGrow(leap, 0, tm.mon); }
    assert DaysBefore(leap, 11 + 1) == DaysBefore(leap, 11) + 31;
  }

  lemma LexMeansEarlier(a: Tm, b: Tm)
    requires InRange(a) && InRange(b) && LexLess(a, b)
    ensures PosixSeconds(a) < PosixSeconds(b)
  {
    SecondsFromDays(a);
    SecondsFromDays(b);
    YdayInYear(a);
    YdayInYear(b);
    hide YearStart, PosixSeconds, IsLeap;
    if a.year < b.year {
      YearsGrow(a.year + 1900, b.year + 1900);
    } else if a.mon < b.mon {
      MonthsGrow(IsLeap(a.year + 1900), a.mon, b.mon);
    }
  }

  /** Broken-down time keeps the order of the seconds. */
  lemma OrderIsomorphism(t1: int, a: Tm, t2: int, b: Tm)
    requires IsBrokenDown(t1, a) && IsBrokenDown(t2, b)
    ensures t1 < t2 <==> LexLess(a, b)
  {
    if LexLess(a, b) { LexMeansEarlier(a, b); }
    if LexLess(b, a) { LexMeansEarlier(b, a); }
  }

  lemma LexTotal(a: Tm, b: Tm)
    requires !LexLess(a, b) && !LexLess(b, a)
    ensures a.year == b.year && a.mon == b.mon && a.mday == b.mday && a.hour == b.hour && a.min == b.min && a.sec == b.sec
  {
  }

  /** A second has only one broken-down form. */
  lemma BrokenDownUnique(t: int, a: Tm, b: Tm)
    requires IsBrokenDown(t, a) && IsBrokenDown(t, b)
    ensures a == b
  {
    hide PosixSeconds, YearStart, MonthDays, DaysBefore, IsLeap, LexLess;
    OrderIsomorphism(t, a, t, b);
    OrderIsomorphism(t, b, t, a);
    LexTotal(a, b);
  }

  // ----- The weekday -----

  /** Zeller's congruence: the day of the week of a Gregorian date, Sunday being 0, from the date
      alone. January and February count as the last months of the year before. */
  function Zeller(year: int, month: nat, mday: int): int {
    var y := if month <= 2 then year - 1 else year;
    var m := if month <= 2 then month + 12 else month;
    (mday + 13 * (m + 1) / 5 + y + y / 4 - y / 100 + y / 400 + 6) % 7
  }

  /** Days before a month of a common year. */
  const BEFORE: seq<int> := [0, 31, 59, 90, 120, 151, 181, 212, 243, 273, 304, 334]

  lemma {:induction false} DaysBeforeTable(leap: bool, month: nat)
    requires month < 12
    ensures DaysBefore(leap, month) == BEFORE[month] + if leap && month >= 2 then 1 else 0
  {
    if month > 0 { DaysBeforeTable(leap, month - 1); }
  }

  /** The leap years up to year, by the Gregorian rule. */
  function Leaps(year: int): int {
    year / 4 - year / 100 + year / 400
  }

  lemma YearStartByLeaps(year: int)
    ensures YearStart(year) == 365 * (year - 1970) + Leaps(year - 1) - 477
  {
    assert (year - 1969) / 4 == (year - 1) / 4 - 492;
    assert (year - 1901) / 100 == (year - 1) / 100 - 19;
    assert (year - 1601) / 400 == (year - 1) / 400 - 4;
  }

  lemma LeapsStep(year: int)
    ensures Leaps(year) == Leaps(year - 1) + if IsLeap(year) then 1 else 0
  {
    DivStep(year - 1, 4);
    DivStep(year - 1, 100);
    DivStep(year - 1, 400);
    CenturiesDivide(year);
  }

  lemma SameWeekday(a: int, b: int, weeks: int)
    requires a == b + 7 * weeks
    ensures a % 7 == b % 7
  {
  }

  /** The months of a common year and Zeller's month term keep in step, up to whole weeks. */
  lemma MonthTerm(month: nat)
    requires month < 12
    ensures var m := if month < 2 then month + 13 else month + 1;
      (BEFORE[month] - 13 * (m + 1) / 5) % 7 == if month < 2 then 6 else 0
  {
  }

  /** The weekday is that of Zeller's congruence for the date. */
  lemma WeekdayIsZeller(t: int, tm: Tm)
    requires IsBrokenDown(t, tm)
    ensures tm.wday == Zeller(tm.year + 1900, tm.mon + 1, tm.mday)
  {
    hide PosixSeconds, YearStart, Leaps, IsLeap;
    var year := tm.year + 1900;
    DaysOfTm(t, tm);
    DaysBeforeTable(IsLeap(year), tm.mon);
    YearStartByLeaps(year);
    LeapsStep(year);
    ZellerByLeaps(year, tm.mon, tm.mday);
    MonthTerm(tm.mon);
    hide DaysBefore, Zeller, InRange;
    var m := if tm.mon < 2 then tm.mon + 13 else tm.mon + 1;
    var term := 13 * (m + 1) / 5;
    var spare := (BEFORE[tm.mon] - term) / 7;
    SameWeekday(t / DAY + 4, tm.mday + term + (if tm.mon < 2 then year - 1 + Leaps(year - 1) else year + Leaps(year)) + 6,
                52 * year + spare - if tm.mon < 2 then 102789 else 102790);
  }

  lemma ZellerByLeaps(year: int, month: nat, mday: int)
    ensures var m := if month < 2 then month + 13 else month + 1;
      Zeller(year, month + 1, mday) ==
        (mday + 13 * (m + 1) / 5 + (if month < 2 then year - 1 + Leaps(year - 1) else year + Leaps(year)) + 6) % 7
  {
  }

  lemma DaysOfTm(t: int, tm: Tm)
    requires IsBrokenDown(t, tm)
    ensures t / DAY == YearStart(tm.year + 1900) + DaysBefore(IsLeap(tm.year + 1900), tm.mon) + tm.mday - 1
  {
    SecondsFromDays(tm);
  }

  // ----- The Gregorian period -----

  const PERIOD: int := 12622780800   // 146097 days

  /** 400 years on, everything but the year is the same. */
  lemma Periodicity(t: int, tm: Tm)
    requires IsBrokenDown(t, tm)
    ensures IsBrokenDown(t + PERIOD, tm.(year := tm.year + 400))
  {
    LeapPeriod(tm.year + 1900);
    YearStartPeriod(tm.year + 1900);
    SecondsFromDays(tm);
    SecondsFromDays(tm.(year := tm.year + 400));
    DayPeriod(t);
    hide YearStart, PosixSeconds, IsLeap;
  }

  lemma LeapPeriod(year: int)
    ensures IsLeap(year + 400) == IsLeap(year)
  {
    ModPeriod(year, 4);
    ModPeriod(year, 100);
    ModPeriod(year, 400);
  }

  lemma ModPeriod(n: int, d: int)
    requires d == 4 || d == 100 || d == 400
    ensures (n + 400) % d == n % d
  {
    if d == 4 { assert (n + 400) / 4 == n / 4 + 100; }
    else if d == 100 { assert (n + 400) / 100 == n / 100 + 4; }
    else { assert (n + 400) / 400 == n / 400 + 1; }
  }

  lemma YearStartPeriod(year: int)
    ensures YearStart(year + 400) == YearStart(year) + 146097
  {
    FourCenturies(year - 1969, 4, 100);
    FourCenturies(year - 1901, 100, 4);
    FourCenturies(year - 1601, 400, 1);
  }

  lemma FourCenturies(n: int, d: int, q: int)
    requires (d == 4 && q == 100) || (d == 100 && q == 4) || (d == 400 && q == 1)
    ensures (n + 400) / d == n / d + q
  {
  }

  lemma DayPeriod(t: int)
    ensures ((t + PERIOD) / DAY + 4) % 7 == (t / DAY + 4) % 7
  {
    assert (t + PERIOD) / DAY == t / DAY + 146097;
  }

  // ----- Text -----

  function WdayName(i: nat): (name: seq<char>)
    requires i < 7
    ensures |name| == 3
  {
    ["Sun", "Mon", "Tue", "Wed", "Thu", "Fri", "Sat"][i]
  }

  function MonName(i: nat): (name: seq<char>)
    requires i < 12
    ensures |name| == 3
  {
    ["Jan", "Feb", "Mar", "Apr", "May", "Jun", "Jul", "Aug", "Sep", "Oct", "Nov", "Dec"][i]
  }

  /** '0' + v stored in a char. */
  function DigitChar(v: nat): char {
    (('0' as int + v) % 256) as char
  }

  /** The line of section 7.27.3.1 of ISO/IEC 9899:2011, from its parts. */
  function Layout(wday: seq<char>, mon: seq<char>, mday: seq<char>, hour: seq<char>, min: seq<char>, sec: seq<char>,
                  year: seq<char>): seq<char> {
    wday + [' '] + mon + mday + [' '] + hour + [':'] + min + [':'] + sec + [' '] + year + ['\n', '\0']
  }

  function TwoDigits(v: nat): seq<char> {
    [DigitChar(v / 10), DigitChar(v % 10)]
  }

  /** The day of the month as asctime writes it. */
  function DayColumns(mday: nat): seq<char> {
    [' ', if mday >= 10 then DigitChar(mday / 10) else ' ', DigitChar(mday % 10)]
  }

  function YearColumns(y: nat): seq<char> {
    [DigitChar(y / 1000), DigitChar(y / 100 % 10), DigitChar(y / 10 % 10), DigitChar(y % 10)]
  }

  /** The 26 characters asctime stores. */
  function AscText(tm: Tm): (s: seq<char>)
    requires 0 <= tm.wday && 0 <= tm.mon && 0 <= tm.mday && 0 <= tm.hour && 0 <= tm.min && 0 <= tm.sec && 0 <= tm.year
  {
    Layout(WdayName(tm.wday % 7), MonName(tm.mon % 12),
           DayColumns(tm.mday),
           TwoDigits(tm.hour), TwoDigits(tm.min), TwoDigits(tm.sec), YearColumns(tm.year + 1900))
  }

  const WEEKDAYS: string := "SunMonTueWedThuFriSat"
  const MONTHS: string := "JanFebMarAprMayJun" + "JulAugSepOctNovDec"

  /** The line of section 7.27.3.1 of ISO/IEC 9899:2011, "%.3s %.3s%3d %.2d:%.2d:%.2d %d\n" of the
      weekday's and the month's name, the day, the time and the year, and its NUL. */
  function StandardText(tm: Tm): seq<char>
    requires InRange(tm) && 0 <= tm.wday < 7
  {
    WEEKDAYS[3 * tm.wday..3 * tm.wday + 3] + " " + MONTHS[3 * tm.mon..3 * tm.mon + 3]
    + PadLeft(Decimal(tm.mday), 3, ' ') + " " + PadLeft(Decimal(tm.hour), 2, '0') + ":" + PadLeft(Decimal(tm.min), 2, '0')
    + ":" + PadLeft(Decimal(tm.sec), 2, '0') + " " + Decimal(tm.year + 1900) + "\n\0"
  }

  /** The tables hold the three-letter names. */
  lemma NamesInTables()
    ensures forall i: nat :: i < 7 ==> WdayName(i) == WEEKDAYS[3 * i..3 * i + 3]
    ensures forall i: nat :: i < 12 ==> MonName(i) == MONTHS[3 * i..3 * i + 3]
  {
    forall i: nat | i < 7 ensures WdayName(i) == WEEKDAYS[3 * i..3 * i + 3] { WdayInTable(i); }
    forall i: nat | i < 12 ensures MonName(i) == MONTHS[3 * i..3 * i + 3] { MonInTable(i); }
  }

  lemma WdayInTable(i: nat)
    requires i < 7
    ensures WdayName(i) == WEEKDAYS[3 * i..3 * i + 3]
  {
    var t := WEEKDAYS[3 * i..3 * i + 3];
    assert t == [WEEKDAYS[3 * i], WEEKDAYS[3 * i + 1], WEEKDAYS[3 * i + 2]];
    if i == 0 {} else if i == 1 {} else if i == 2 {} else if i == 3 {} else if i == 4 {} else if i == 5 {} else {}
  }

  lemma MonInTable(i: nat)
    requires i < 12
    ensures MonName(i) == MONTHS[3 * i..3 * i + 3]
  {
    var t := MONTHS[3 * i..3 * i + 3];
    assert t == [MONTHS[3 * i], MONTHS[3 * i + 1], MONTHS[3 * i + 2]];
    if i == 0 {} else if i == 1 {} else if i == 2 {} else if i == 3 {} else if i == 4 {} else if i == 5 {}
    else if i == 6 {} else if i == 7 {} else if i == 8 {} else if i == 9 {} else if i == 10 {} else {}
  }

  lemma SmallDecimal(v: nat)
    ensures v < 10 ==> Decimal(v) == [DigitChar(v)]
    ensures 10 <= v < 100 ==> Decimal(v) == [DigitChar(v / 10), DigitChar(v % 10)]
  {
    if v < 100 {
      DigitHasValue(v / 10, false);
      DigitHasValue(v % 10, false);
      assert v / 10 < 10 && Numeral(v / 10, 10, false) == [Digit(v / 10, false)];
      assert v >= 10 ==> Numeral(v, 10, false) == Numeral(v / 10, 10, false) + [Digit(v % 10, false)];
    }
  }

  lemma OneMoreDigit(v: nat)
    requires v >= 10
    ensures Decimal(v) == Decimal(v / 10) + [DigitChar(v % 10)]
  {
    DigitHasValue(v % 10, false);
    hide Digit;
  }

  lemma YearDecimal(y: nat)
    requires 1000 <= y <= 9999
    ensures Decimal(y) == YearColumns(y)
  {
    DivTwice(y);
    OneMoreDigit(y);
    OneMoreDigit(y / 10);
    SmallDecimal(y / 100);
    hide Decimal, DigitChar;
  }

  lemma TwoColumns(v: nat)
    requires v < 100
    ensures PadLeft(Decimal(v), 2, '0') == TwoDigits(v)
    ensures PadLeft(Decimal(v), 3, ' ') == DayColumns(v)
  {
    SmallDecimal(v);
  }

  /** Up to the year 9999, asctime's text is the standard's. */
  lemma AscTextIsStandard(tm: Tm)
    requires InRange(tm) && 0 <= tm.wday < 7 && tm.year <= 8099
    ensures AscText(tm) == StandardText(tm)
  {
    hide Decimal, DigitChar, TwoDigits, DayColumns, YearColumns, PadLeft, WdayName, MonName, WEEKDAYS, MONTHS;
    SmallMonth(tm);
    NamesInTables();
    TwoColumns(tm.mday);
    TwoColumns(tm.hour);
    TwoColumns(tm.min);
    TwoColumns(tm.sec);
    YearDecimal(tm.year + 1900);
  }

  lemma SmallMonth(tm: Tm)
    requires InRange(tm)
    ensures tm.mday <= 31
  {
  }

  function MonthIndex(name: seq<char>, m: nat): nat
    requires m <= 12
    decreases 12 - m
  {
    if m == 12 || MONTHS[3 * m..3 * m + 3] == name then m else MonthIndex(name, m + 1)
  }

  function TwoAt(s: seq<char>, i: nat): int
    requires i + 1 < |s|
  {
    10 * CharValue(s[i]) + CharValue(s[i + 1])
  }

  /** Read the columns of the text back into seconds. */
  function Decode(s: seq<char>): int
    requires |s| == 26
  {
    var year := 100 * TwoAt(s, 20) + TwoAt(s, 22);
    var mon, mday := MonthIndex(s[4..7], 0), TwoAt(s, 8);
    var yday := if mon < 12 then DaysBefore(IsLeap(year), mon) + mday - 1 else 0;
    PosixSeconds(Tm(TwoAt(s, 17), TwoAt(s, 14), TwoAt(s, 11), mday, mon, year - 1900, 0, yday, 0))
  }

  lemma MonthFound(m: nat)
    requires m < 12
    ensures MonthIndex(MonName(m), 0) == m
  {
    NamesInTables();
    NamesDiffer();
    hide MonName, MONTHS;
    MonthFoundFrom(m, 0);
  }

  lemma {:induction false} MonthFoundFrom(m: nat, k: nat)
    requires k <= m < 12 && MonName(m) == MONTHS[3 * m..3 * m + 3]
    requires forall i: nat :: i < m ==> MonName(i) != MonName(m) && MonName(i) == MONTHS[3 * i..3 * i + 3]
    ensures MonthIndex(MonName(m), k) == m
    decreases m - k
  {
    hide MonName, MONTHS;
    assert MonName(k) != MonName(m) || k == m;
    if k < m {
      MonthFoundFrom(m, k + 1);
    }
  }

  /** The month names differ in their last two letters. */
  lemma NamesDiffer()
    ensures forall i: nat, j: nat :: i < j < 12 ==> MonName(i) != MonName(j)
  {
    forall i: nat, j: nat | i < j < 12 ensures MonName(i) != MonName(j) {
      assert MonName(i)[1] != MonName(j)[1] || MonName(i)[2] != MonName(j)[2];
    }
  }

  /** Where the parts of the line stand. */
  lemma Columns(wday: seq<char>, mon: seq<char>, mday: seq<char>, hour: seq<char>, min: seq<char>, sec: seq<char>, year: seq<char>)
    requires |wday| == |mon| == |mday| == 3 && |hour| == |min| == |sec| == 2 && |year| == 4
    ensures var s := Layout(wday, mon, mday, hour, min, sec, year);
      && |s| == 26 && s[4..7] == mon && s[8] == mday[1] && s[9] == mday[2]
      && s[11] == hour[0] && s[12] == hour[1] && s[14] == min[0] && s[15] == min[1]
      && s[17] == sec[0] && s[18] == sec[1]
      && s[20] == year[0] && s[21] == year[1] && s[22] == year[2] && s[23] == year[3]
  {
  }

  function CharValue(c: char): int {
    if c == ' ' then 0 else c as int - '0' as int
  }

  lemma CharValueOfDigit(v: nat)
    requires v < 10
    ensures CharValue(DigitChar(v)) == v
  {
  }

  lemma TwoDigitsValue(v: nat)
    requires v < 100
    ensures 10 * CharValue(TwoDigits(v)[0]) + CharValue(TwoDigits(v)[1]) == v
    ensures 10 * CharValue(DayColumns(v)[1]) + CharValue(DayColumns(v)[2]) == v
  {
    CharValueOfDigit(v / 10);
    CharValueOfDigit(v % 10);
  }

  lemma DivTwice(y: nat)
    ensures y / 100 == y / 10 / 10 && y / 1000 == y / 100 / 10
  {
  }

  lemma YearColumnsValue(y: nat)
    requires y <= 9999
    ensures var c := YearColumns(y);
      100 * (10 * CharValue(c[0]) + CharValue(c[1])) + (10 * CharValue(c[2]) + CharValue(c[3])) == y
  {
    DivTwice(y);
    var a, b, c := y / 10, y / 100, y / 1000;
    assert y == 10 * a + y % 10 && a == 10 * b + a % 10 && b == 10 * c + b % 10;
    CharValueOfDigit(c);
    CharValueOfDigit(b % 10);
    CharValueOfDigit(a % 10);
    CharValueOfDigit(y % 10);
    hide CharValue, DigitChar;
  }

  /** The columns of asctime's text hold the fields. */
  lemma ReadColumns(tm: Tm)
    requires InRange(tm) && 0 <= tm.wday < 7 && tm.year <= 8099
    ensures var s := AscText(tm);
      && |s| == 26 && MonthIndex(s[4..7], 0) == tm.mon
      && TwoAt(s, 8) == tm.mday && TwoAt(s, 11) == tm.hour && TwoAt(s, 14) == tm.min && TwoAt(s, 17) == tm.sec
      && 100 * TwoAt(s, 20) + TwoAt(s, 22) == tm.year + 1900
  {
    hide Layout, DayColumns, TwoDigits, YearColumns, CharValue, WdayName, MonName, MonthIndex, DigitChar;
    SmallMonth(tm);
    ColumnLengths(tm);
    Columns(WdayName(tm.wday % 7), MonName(tm.mon % 12), DayColumns(tm.mday), TwoDigits(tm.hour), TwoDigits(tm.min),
            TwoDigits(tm.sec), YearColumns(tm.year + 1900));
    TwoDigitsValue(tm.mday);
    TwoDigitsValue(tm.hour);
    TwoDigitsValue(tm.min);
    TwoDigitsValue(tm.sec);
    YearColumnsValue(tm.year + 1900);
    MonthFound(tm.mon);
  }

  /** The names in the text, and what stands between the fields. */
  lemma AscNames(tm: Tm)
    requires InRange(tm) && 0 <= tm.wday < 7
    ensures var s := AscText(tm);
      && |s| == 26
      && s[0..3] == WEEKDAYS[3 * tm.wday..3 * tm.wday + 3]
      && s[4..7] == MONTHS[3 * tm.mon..3 * tm.mon + 3]
      && s[3] == s[7] == s[10] == s[19] == ' ' && s[13] == s[16] == ':' && s[24] == '\n' && s[25] == '\0'
  {
    hide Layout, TwoDigits, YearColumns, WdayName, MonName, DigitChar, MONTHS, WEEKDAYS, DaysBefore, MonthDays, IsLeap;
    NamesInTables();
    ColumnLengths(tm);
    Separators(WdayName(tm.wday % 7), MonName(tm.mon % 12), DayColumns(tm.mday), TwoDigits(tm.hour), TwoDigits(tm.min),
               TwoDigits(tm.sec), YearColumns(tm.year + 1900));
    assert DayColumns(tm.mday)[0] == ' ';
  }

  lemma Separators(wday: seq<char>, mon: seq<char>, mday: seq<char>, hour: seq<char>, min: seq<char>, sec: seq<char>, year: seq<char>)
    requires |wday| == |mon| == |mday| == 3 && |hour| == |min| == |sec| == 2 && |year| == 4
    ensures var s := Layout(wday, mon, mday, hour, min, sec, year);
      && |s| == 26 && s[0..3] == wday && s[4..7] == mon && s[7] == mday[0]
      && s[3] == s[10] == s[19] == ' ' && s[13] == s[16] == ':' && s[24] == '\n' && s[25] == '\0'
  {
  }

  lemma DigitCharRange(v: nat)
    requires v < 10
    ensures '0' <= DigitChar(v) <= '9'
  {
  }

  /** The columns between: digits, but for the blank before a day of one digit. */
  lemma AscDigits(tm: Tm)
    requires InRange(tm) && 0 <= tm.wday < 7 && tm.year <= 8099
    ensures var s := AscText(tm);
      && |s| == 26 && (if tm.mday < 10 then s[8] == ' ' else '0' <= s[8] <= '9') && '0' <= s[9] <= '9'
      && '0' <= s[11] <= '9' && '0' <= s[12] <= '9' && '0' <= s[14] <= '9' && '0' <= s[15] <= '9'
      && '0' <= s[17] <= '9' && '0' <= s[18] <= '9'
      && '0' <= s[20] <= '9' && '0' <= s[21] <= '9' && '0' <= s[22] <= '9' && '0' <= s[23] <= '9'
  {
    SmallMonth(tm);
    ColumnLengths(tm);
    var y := tm.year + 1900;
    Columns(WdayName(tm.wday % 7), MonName(tm.mon % 12), DayColumns(tm.mday), TwoDigits(tm.hour), TwoDigits(tm.min),
            TwoDigits(tm.sec), YearColumns(y));
    hide Layout, DigitChar, WdayName, MonName;
    forall v: nat | v < 10 ensures '0' <= DigitChar(v) <= '9' { DigitCharRange(v); }
    DivTwice(y);
  }

  lemma ColumnLengths(tm: Tm)
    requires 0 <= tm.mday && 0 <= tm.hour && 0 <= tm.min && 0 <= tm.sec && 0 <= tm.year
    ensures |DayColumns(tm.mday)| == 3 && |YearColumns(tm.year + 1900)| == 4
    ensures |TwoDigits(tm.hour)| == 2 && |TwoDigits(tm.min)| == 2 && |TwoDigits(tm.sec)| == 2
  {
  }

  /** The text of a second up to the year 9999 tells which second it was. */
  lemma DecodeRecovers(t: int, tm: Tm)
    requires IsBrokenDown(t, tm) && tm.year <= 8099
    ensures 0 <= tm.wday < 7 && |AscText(tm)| == 26 && Decode(AscText(tm)) == t
  {
    hide AscText, TwoAt, MonthIndex, DaysBefore, IsLeap;
    ReadColumns(tm);
  }

  // ----- asctime and ctime -----

  /** localtime's and asctime's static buffers. */
  class Clock {
    const tm: TmBuffer
    const buf: array<char>

    constructor ()
      ensures buf.Length == 26 && fresh(buf) && fresh(tm)
    {
      tm := new TmBuffer;
      buf := new char[26];
    }

    /** *p++ = c, for each character of text. */
    method Append(p: nat, text: seq<char>) returns (p': nat)
      requires p + |text| <= buf.Length
      modifies buf
      ensures p' == p + |text| && buf[..p'] == old(buf[..p]) + text
    {
      p' := p;
      for i := 0 to |text|
        invariant p' == p + i && buf[..p'] == old(buf[..p]) + text[..i]
      {
        buf[p'] := text[i];
        p' := p' + 1;
      }
    }

    method Asctime(t: Tm)
      requires buf.Length == 26
      requires 0 <= t.wday && 0 <= t.mon && 0 <= t.mday && 0 <= t.hour && 0 <= t.min && 0 <= t.sec && 0 <= t.year
      modifies buf
      ensures buf[..] == AscText(t)
    {
      hide WdayName, MonName, DigitChar;
      var year := t.year + 1900;
      assert buf[..0] == [];
      var p := Append(0, WdayName(t.wday % 7));
      p := Append(p, [' ']);
      p := Append(p, MonName(t.mon % 12));
      p := Append(p, [' ', if t.mday >= 10 then DigitChar(t.mday / 10) else ' ', DigitChar(t.mday % 10)]);
      p := Append(p, [' ']);
      p := Append(p, [DigitChar(t.hour / 10), DigitChar(t.hour % 10)]);
      p := Append(p, [':']);
      p := Append(p, [DigitChar(t.min / 10), DigitChar(t.min % 10)]);
      p := Append(p, [':']);
      p := Append(p, [DigitChar(t.sec / 10), DigitChar(t.sec % 10)]);
      p := Append(p, [' ']);
      p := Append(p, [DigitChar(year / 1000), DigitChar(year / 100 % 10), DigitChar(year / 10 % 10), DigitChar(year % 10)]);
      p := Append(p, ['\n', '\0']);
      assert buf[..] == buf[..p];
      SameLayout(t, buf[..]);
    }

    lemma SameLayout(t: Tm, s: seq<char>)
      requires 0 <= t.wday && 0 <= t.mon && 0 <= t.mday && 0 <= t.hour && 0 <= t.min && 0 <= t.sec && 0 <= t.year
      requires s == [] + WdayName(t.wday % 7) + [' '] + MonName(t.mon % 12) + DayColumns(t.mday) + [' ']
        + TwoDigits(t.hour) + [':'] + TwoDigits(t.min) + [':'] + TwoDigits(t.sec) + [' ']
        + YearColumns(t.year + 1900) + ['\n', '\0']
      ensures s == AscText(t)
    {
      hide WdayName, MonName, DayColumns, TwoDigits, YearColumns;
      assert [] + WdayName(t.wday % 7) == WdayName(t.wday % 7);
    }

    method Ctime(t: Int64)
      requires buf.Length == 26 && 0 <= t && t / DAY < YearStart(INT_MAX + 1)
      modifies tm, buf
      ensures IsBrokenDown(t, tm.Value()) && buf[..] == AscText(tm.Value())
      ensures tm.Value().year <= 8099 ==> Decode(buf[..]) == t
    {
      tm.TimeToTm(t);
      Asctime(tm.Value());
      if tm.Value().year <= 8099 { DecodeRecovers(t, tm.Value()); }
    }
  }
}
