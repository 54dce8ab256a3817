/** The calendar of the software real-time clock (src/driver/rtc/rtc-soft.c, src/driver/rtc/rtc.c). */
module Rtc {
  import opened Arith

  const DAY := 86400
  const NANO := 1_000_000_000

  datatype Time = Time(second: nat, minute: nat, hour: nat, week: nat, day: nat, month: nat, year: nat)

  predicate LeapYear(year: nat) {
    (year % 4 == 0 && year % 100 != 0) || year % 400 == 0
  }

  function Leap(year: nat): nat {
    if LeapYear(year) then 1 else 0
  }

  const DAYS_IN_MONTH: seq<nat> := [0, 31, 28, 31, 30, 31, 30, 31, 31, 30, 31, 30, 31]

  function MonthDays(year: nat, month: nat): nat {
    DAYS_IN_MONTH[if month > 12 then 0 else month] + if LeapYear(year) && month == 2 then 1 else 0
  }

  predicate IsValid(t: Time) {
    && t.year >= 1970 && 1 <= t.month <= 12 && 1 <= t.day <= MonthDays(t.year, t.month)
    && t.hour < 24 && t.minute < 60 && t.second < 60
  }

  // The calendar, counted day by day

  /** The days from the start of 1970 to the start of a year. */
  function YearStart(year: nat): nat {
    if year <= 1970 then 0 else YearStart(year - 1) + 365 + Leap(year - 1)
  }

  /** The days from the start of a year to the start of a month. */
  function MonthStart(year: nat, month: nat): nat {
    if month <= 1 then 0 else MonthStart(year, month - 1) + MonthDays(year, month - 1)
  }

  function DayNumber(t: Time): int {
    YearStart(t.year) + MonthStart(t.year, t.month) + t.day - 1
  }

  /** The seconds since the start of 1970. */
  function SecondsOf(t: Time): int {
    ((DayNumber(t) * 24 + t.hour) * 60 + t.minute) * 60 + t.second
  }

  /** The day of the week, Sunday being 0, after `n` days; the first of January 1970 was a Thursday. */
  function Weekday(n: nat): (w: nat)
    ensures w < 7
  {
    if n == 0 then 4 else if Weekday(n - 1) == 6 then 0 else Weekday(n - 1) + 1
  }

  lemma {:induction false} WeekdayIs(n: nat)
    ensures Weekday(n) == (n + 4) % 7
  {
    if n > 0 { WeekdayIs(n - 1); }
  }

  /** The leap years up to the end of a year. */
  function LeapsThruEnd(year: nat): int {
    year / 4 - year / 100 + year / 400
  }

  lemma LeapsNext(year: nat)
    requires year > 0
    ensures LeapsThruEnd(year) == LeapsThruEnd(year - 1) + Leap(year)
  {
    QuotientNext(year, 4);
    QuotientNext(year, 100);
    QuotientNext(year, 400);
    LeapRules(year);
  }

  lemma LeapRules(year: nat)
    ensures year % 100 == 0 ==> year % 4 == 0
    ensures year % 400 == 0 ==> year % 100 == 0
  {
    assert year == year / 100 * 100 + year % 100 && year == year / 400 * 400 + year % 400;
    if year % 100 == 0 { QuotientUnique(year, 4, year / 100 * 25, 0); }
    if year % 400 == 0 { QuotientUnique(year, 100, year / 400 * 4, 0); }
  }

  lemma QuotientNext(x: nat, d: nat)
    requires x > 0 && d > 0
    ensures x / d == (x - 1) / d + if x % d == 0 then 1 else 0
  {
    var q, r := x / d, x % d;
    assert x == q * d + r;
    if r == 0 {
      assert (q - 1) * d == q * d - d;
      QuotientUnique(x - 1, d, q - 1, d - 1);
    } else {
      QuotientUnique(x - 1, d, q, r - 1);
    }
  }

  lemma {:induction false} YearStartIs(year: nat)
    requires year >= 1970
    ensures YearStart(year) == (year - 1970) * 365 + LeapsThruEnd(year - 1) - 477
  {
    if year > 1970 {
      YearStartIs(year - 1);
      LeapsNext(year - 1);
    }
  }

  lemma LeapsBound(year: nat)
    requires 1970 <= year <= 2110
    ensures 0 <= LeapsThruEnd(year - 1) - 477 < 365
  {
  }

  /** The days before a month of a leap year or another year. */
  lemma MonthStartIs(year: nat, month: nat)
    requires 1 <= month <= 12
    ensures MonthStart(year, month)
      == [0, 31, 59, 90, 120, 151, 181, 212, 243, 273, 304, 334][month - 1] + if month > 2 then Leap(year) else 0
  {
    if month > 1 { MonthStartIs(year, month - 1); }
  }

  /** Every day of a year is in one of its months. */
  lemma YearEnd(year: nat)
    ensures MonthStart(year, 12) + MonthDays(year, 12) == 365 + Leap(year)
  {
    MonthStartIs(year, 12);
  }

  // From seconds to a date

  /** The month in which a day of a year falls, and the day in that month, both counted from the
      start. */
  method FindMonth(year: nat, days: nat) returns (month: nat, day: nat)
    requires days < 365 + Leap(year)
    ensures 1 <= month <= 12 && day < MonthDays(year, month) && MonthStart(year, month) + day == days
  {
    YearEnd(year);
    month, day := 1, days;
    while month < 12
      invariant 1 <= month <= 12 && MonthStart(year, month) + day == days
    {
      var newdays := day - MonthDays(year, month);
      if newdays < 0 {
        break;
      }
      day := newdays;
      month := month + 1;
    }
  }

  /** The year in which a day falls, and the day in that year. */
  method FindYear(number: nat) returns (year: nat, day: nat)
    requires number < 50000
    ensures year >= 1970 && day < 365 + Leap(year) && YearStart(year) + day == number
  {
    year := 1970 + number / 365;
    var days := number - ((year - 1970) * 365 + LeapsThruEnd(year - 1) - LeapsThruEnd(1970 - 1));
    YearStartIs(year);
    LeapsBound(year);
    if days < 0 {
      year := year - 1;
      days := days + 365 + Leap(year);
    }
    day := days;
  }

  method SecsToRtcTime(time: nat) returns (rt: Time)
    requires time < U32
    ensures IsValid(rt) && SecondsOf(rt) == time && rt.week == Weekday(time / DAY)
  {
    var days: int := time / DAY;
    var left := time - days * DAY;
    var week := (days + 4) % 7;
    WeekdayIs(days);
    var year;
    year, days := FindYear(days);
    var month;
    month, days := FindMonth(year, days);
    var hour := left / 3600;
    left := left - hour * 3600;
    var minute := left / 60;
    rt := Time(left - minute * 60, minute, hour, week, days + 1, month, year);
  }

  // From a date to seconds

  function Wrap32(x: int): (r: nat)
    ensures r < U32 && (0 <= x < U32 ==> r == x)
  {
    x % U32
  }

  /** The day number worked out with the year starting in March. */
  function DaysFrom(year: nat, month: nat, day: nat): int
    requires year > 0
  {
    var m, y := if month <= 2 then month + 10 else month - 2, if month <= 2 then year - 1 else year;
    y / 4 - y / 100 + y / 400 + 367 * m / 12 + day + y * 365 - 719499
  }

  /** In 32-bit arithmetic. */
  function RtcTimeToSecs(t: Time): (r: nat)
    requires t.year > 0
    ensures r < U32
  {
    Wrap32(Wrap32(Wrap32(Wrap32(DaysFrom(t.year, t.month, t.day)) * 24 + t.hour) * 60 + t.minute) * 60 + t.second)
  }

  lemma DaysFromIs(t: Time)
    requires IsValid(t)
    ensures DaysFrom(t.year, t.month, t.day) == DayNumber(t)
  {
    YearStartIs(t.year);
    LeapsNext(t.year);
    MonthStartIs(t.year, t.month);
    MarchFirst(t.month);
  }

  lemma MarchFirst(month: nat)
    requires 1 <= month <= 12
    ensures var days := [0, 31, 59, 90, 120, 151, 181, 212, 243, 273, 304, 334][month - 1];
      if month <= 2 then 367 * (month + 10) / 12 == days + 336 else 367 * (month - 2) / 12 == days - 29
  {
  }

  lemma WrapInside(x: int, k: nat, h: int)
    ensures Wrap32(Wrap32(x) * k + h) == Wrap32(x * k + h)
  {
    var q := x / U32;
    assert x == q * U32 + Wrap32(x);
    var y := Wrap32(x) * k + h;
    assert x * k + h == (q * k) * U32 + y;
    assert x * k + h == (q * k + y / U32) * U32 + y % U32;
    QuotientUnique(x * k + h, U32, q * k + y / U32, y % U32);
  }

  /** The conversion counts the seconds since 1970 modulo 2^32, for every valid date. */
  lemma RtcTimeToSecsCounts(t: Time)
    requires IsValid(t)
    ensures RtcTimeToSecs(t) == Wrap32(SecondsOf(t))
    ensures 0 <= SecondsOf(t) < U32 ==> RtcTimeToSecs(t) == SecondsOf(t)
  {
    DaysFromIs(t);
    SecsUnwrapped(t, DayNumber(t));
  }

  lemma SecsUnwrapped(t: Time, d: int)
    requires t.year > 0 && d == DaysFrom(t.year, t.month, t.day)
    ensures RtcTimeToSecs(t) == Wrap32(((d * 24 + t.hour) * 60 + t.minute) * 60 + t.second)
  {
    WrapChain(d, t.hour, t.minute, t.second);
  }

  lemma WrapChain(d: int, h: int, m: int, s: int)
    ensures Wrap32(Wrap32(Wrap32(Wrap32(d) * 24 + h) * 60 + m) * 60 + s) == Wrap32(((d * 24 + h) * 60 + m) * 60 + s)
  {
    WrapInside(d, 24, h);
    WrapInside(d * 24 + h, 60, m);
    WrapInside((d * 24 + h) * 60 + m, 60, s);
  }

  // Dates and seconds determine each other

  lemma {:induction false} YearsAscend(a: nat, b: nat)
    requires 1970 <= a < b
    ensures YearStart(a) + 365 + Leap(a) <= YearStart(b)
  {
    if a < b - 1 { YearsAscend(a, b - 1); }
  }

  lemma {:induction false} MonthsAscend(year: nat, a: nat, b: nat)
    requires 1 <= a < b <= 13
    ensures MonthStart(year, a) + MonthDays(year, a) <= MonthStart(year, b)
  {
    if a < b - 1 { MonthsAscend(year, a, b - 1); }
  }

  lemma DayOfYear(t: Time)
    requires IsValid(t)
    ensures YearStart(t.year) <= DayNumber(t) < YearStart(t.year) + 365 + Leap(t.year)
  {
    if t.month < 12 { MonthsAscend(t.year, t.month, 12); }
    YearEnd(t.year);
  }

  lemma SameDay(a: Time, b: Time)
    requires IsValid(a) && IsValid(b) && DayNumber(a) == DayNumber(b)
    ensures a.year == b.year && a.month == b.month && a.day == b.day
  {
    DayOfYear(a);
    DayOfYear(b);
    if a.year < b.year { YearsAscend(a.year, b.year); }
    if b.year < a.year { YearsAscend(b.year, a.year); }
    if a.month < b.month { MonthsAscend(a.year, a.month, b.month); }
    if b.month < a.month { MonthsAscend(a.year, b.month, a.month); }
  }

  /** Two valid dates of the same second are the same but for the day of the week. */
  lemma SameSecond(a: Time, b: Time)
    requires IsValid(a) && IsValid(b) && SecondsOf(a) == SecondsOf(b)
    ensures a == b.(week := a.week)
  {
    hide DayNumber;
    assert DayNumber(a) == DayNumber(b) && a.hour == b.hour && a.minute == b.minute && a.second == b.second;
    SameDay(a, b);
  }

  /** Seconds become a date and then the same seconds again. */
  method SecsRoundTrip(time: nat) returns (rt: Time, again: nat)
    requires time < U32
    ensures IsValid(rt) && again == time
  {
    rt := SecsToRtcTime(time);
    RtcTimeToSecsCounts(rt);
    again := RtcTimeToSecs(rt);
  }

  /** A date becomes seconds and then the same date again, with its day of the week put right. */
  method DateRoundTrip(t: Time) returns (again: Time)
    requires IsValid(t) && SecondsOf(t) < U32
    ensures again == t.(week := again.week) && DayNumber(t) >= 0 && again.week == Weekday(DayNumber(t))
  {
    RtcTimeToSecsCounts(t);
    again := SecsToRtcTime(RtcTimeToSecs(t));
    SameSecond(t, again);
  }

  // The clock

  /** A 64-bit value read as signed. */
  function Signed(x: nat): int {
    if x < U64 / 2 then x else x - U64
  }

  lemma SignedIs(x: int)
    requires -U64 / 2 <= x < U64 / 2
    ensures Signed(x % U64) == x
  {
    QuotientUnique(x, U64, if x < 0 then -1 else 0, if x < 0 then x + U64 else x);
  }

  class RtcSoft {
    /** The nanoseconds since 1970 less those of the kernel clock. */
    var adjust: int

    constructor (adjust: int)
      ensures this.adjust == adjust
    {
      this.adjust := adjust;
    }

    /** Sets the clock to a valid date; `ns` is the kernel clock. */
    method SetTime(t: Time, ns: nat) returns (ok: bool)
      requires ns < U64 / 2
      modifies this
      ensures ok <==> IsValid(t)
      ensures ok ==> adjust == RtcTimeToSecs(t) * NANO - ns
      ensures !ok ==> adjust == old(adjust)
    {
      if !IsValid(t) {
        return false;
      }
      SignedIs(RtcTimeToSecs(t) * NANO - ns);
      adjust := Signed((RtcTimeToSecs(t) * NANO - ns) % U64);
      ok := true;
    }

    /** The seconds shown when the kernel clock is `ns`. */
    function Shown(ns: nat): nat
      reads this
    {
      (ns + adjust) % U64 / NANO % U32
    }

    method GetTime(ns: nat) returns (t: Time)
      ensures IsValid(t) && SecondsOf(t) == Shown(ns)
    {
      t := SecsToRtcTime((ns + adjust) % U64 / NANO % U32);
    }

    /** After the clock has been set it shows the date of exactly the whole seconds that have
        passed since. */
    method SetThenGet(t: Time, ns: nat, later: nat) returns (shown: Time)
      requires IsValid(t) && ns <= later < U64 / 2 && SecondsOf(t) + (later - ns) / NANO < U32
      modifies this
      ensures IsValid(shown) && SecondsOf(shown) == SecondsOf(t) + (later - ns) / NANO
      ensures later - ns < NANO ==> shown == t.(week := shown.week)
    {
      hide MonthDays, YearStart, MonthStart;
      RtcTimeToSecsCounts(t);
      DayOfYear(t);
      var ok := SetTime(t, ns);
      Elapsed(RtcTimeToSecs(t), ns, later);
      shown := GetTime(later);
      if later - ns < NANO { SameSecond(t, shown); }
    }
  }

  lemma Elapsed(secs: nat, ns: nat, later: nat)
    requires ns <= later < U64 / 2 && secs + (later - ns) / NANO < U32
    ensures (later + (secs * NANO - ns)) % U64 / NANO % U32 == secs + (later - ns) / NANO
  {
    assert U32 * NANO < U64;
    QuotientUnique(later + (secs * NANO - ns), NANO, secs + (later - ns) / NANO, (later - ns) % NANO);
  }
}
