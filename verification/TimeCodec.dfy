/** time.c: exFAT timestamps, packed calendar fields in local time with every fourth year leap. */
module TimeCodec {
  import opened Arithmetic

  /** Seconds from 1970 to 1980, counting two leap days. */
  const EPOCH_DIFF_SEC: int := 3652 * 86400
  /** Days in the 128 years a timestamp can name. */
  const RANGE_DAYS: int := 128 * 365 + 32

  const DAYS_IN_YEAR: seq<int> := [0, 0, 31, 59, 90, 120, 151, 181, 212, 243, 273, 304, 334]

  /** LEAP_YEARS. */
  function LeapYears(year: nat): int {
    (1980 + year - 1) / 4 - 1979 / 4
  }

  predicate IsLeapYear(year: nat) {
    (1980 + year) % 4 == 0
  }

  /** Days from the exFAT epoch to the first day of a year. */
  function YearStart(year: nat): int {
    365 * year + LeapYears(year)
  }

  /** Days from the first day of a year to the first day of a month. */
  function MonthStart(year: nat, month: nat): int
    requires 1 <= month <= 12
  {
    DAYS_IN_YEAR[month] + if IsLeapYear(year) && month > 2 then 1 else 0
  }

  function YearLength(year: nat): int {
    if IsLeapYear(year) then 366 else 365
  }

  /** First day, counted from the start of the year, that is past the month. */
  function MonthEnd(year: nat, month: nat): int
    requires 1 <= month <= 12
  {
    if month == 12 then YearLength(year) else MonthStart(year, month + 1)
  }

  datatype Stamp = Stamp(date: nat, time: nat, centisec: nat)

  function Day(s: Stamp): nat { s.date % 32 }
  function Month(s: Stamp): nat { s.date / 32 % 16 }
  function Year(s: Stamp): nat { s.date / 512 }
  function TwoSec(s: Stamp): nat { s.time % 32 }
  function Minute(s: Stamp): nat { s.time / 32 % 64 }
  function Hour(s: Stamp): nat { s.time / 2048 }

  /** The range checks of exfat_exfat2unix. */
  predicate Readable(s: Stamp) {
    && 1 <= Day(s) && 1 <= Month(s) <= 12 && Hour(s) <= 23 && Minute(s) <= 59 && TwoSec(s) <= 29 && s.centisec <= 199
  }

  /** A date of the calendar: the day is within its month. */
  predicate OnCalendar(s: Stamp) {
    && s.date < 0x10000 && s.time < 0x10000 && Readable(s)
    && MonthStart(Year(s), Month(s)) + Day(s) <= MonthEnd(Year(s), Month(s))
  }

  /** Days from the exFAT epoch. */
  function Days(s: Stamp): (d: nat)
    requires Readable(s)
  {
    YearStart(Year(s)) + MonthStart(Year(s), Month(s)) + Day(s) - 1
  }

  /** Seconds since midnight. */
  function Clock(s: Stamp): nat {
    Hour(s) * 3600 + Minute(s) * 60 + TwoSec(s) * 2 + s.centisec / 100
  }

  /** exfat_exfat2unix. */
  function ToUnix(s: Stamp, tz: int): int {
    if !Readable(s) then 0 else EPOCH_DIFF_SEC + Days(s) * 86400 + Clock(s) + tz
  }

  /** The month loop of exfat_unix2exfat, from month i on. */
  function MonthOf(year: nat, days: int, i: nat): (m: nat)
    requires 1 <= i <= 12
    ensures i <= m <= 12
    decreases 12 - i
  {
    var leapDay := if IsLeapYear(year) && i == 2 then 1 else 0;
    var leapSub := if IsLeapYear(year) && i >= 3 then 1 else 0;
    if i == 12 || days - leapSub < DAYS_IN_YEAR[i + 1] + leapDay then i else MonthOf(year, days, i + 1)
  }

  /** The loop stops in the month that holds the day. */
  lemma {:induction false} MonthHolds(year: nat, days: int, i: nat)
    requires 1 <= i <= 12 && MonthStart(year, i) <= days < YearLength(year)
    ensures var m := MonthOf(year, days, i); MonthStart(year, m) <= days < MonthEnd(year, m)
    decreases 12 - i
  {
    if i < 12 && days >= MonthStart(year, i + 1) {
      MonthHolds(year, days, i + 1);
    }
  }

  lemma MonthIsOne(year: nat, days: int, m: nat, n: nat)
    requires 1 <= m <= 12 && 1 <= n <= 12
    requires MonthStart(year, m) <= days < MonthEnd(year, m) && MonthStart(year, n) <= days < MonthEnd(year, n)
    ensures m == n
  {}

  /** The year formula of exfat_unix2exfat. */
  function YearOf(days: nat): nat {
    4 * days / 1461
  }

  /** It finds the year that holds the day. */
  lemma YearHolds(days: nat)
    ensures YearStart(YearOf(days)) <= days < YearStart(YearOf(days) + 1)
  {}

  lemma YearsFollow(y: nat, z: nat)
    ensures y < z ==> YearStart(y + 1) <= YearStart(z)
  {}

  lemma YearLengthIs(y: nat)
    ensures YearStart(y + 1) == YearStart(y) + YearLength(y)
  {}

  /** Days since the start of the year. */
  function InYear(days: nat): int {
    days - YearStart(YearOf(days))
  }

  function MonthIn(days: nat): (m: nat)
    ensures 1 <= m <= 12
  {
    MonthOf(YearOf(days), InYear(days), 1)
  }

  /** Days since the start of the month. */
  function InMonth(days: nat): int {
    InYear(days) - MonthStart(YearOf(days), MonthIn(days))
  }

  /** The date fields of a day, packed into 16 bits, so years past 127 lose their top bits. */
  function DateOf(days: nat): nat {
    Packed(InMonth(days) + 1, MonthIn(days), YearOf(days))
  }

  /** day | (month << 5) | (year << 9) in 16 bits. */
  function Packed(day: int, month: nat, year: nat): nat {
    (day + month * 32 + year * 512) % 0x10000
  }

  /** The time fields of a second. */
  function TimeOf(u: nat): nat {
    u % 60 / 2 + u % 3600 / 60 * 32 + u % 86400 / 3600 * 2048
  }

  /** exfat_unix2exfat as a function. */
  function FromUnix(t: int, tz: int): Stamp {
    var shift := EPOCH_DIFF_SEC + tz;
    var u: nat := if t < shift then 0 else t - shift;
    Stamp(DateOf(u / 86400), TimeOf(u), u % 2 * 100)
  }

  lemma Nested(u: nat)
    ensures u % 86400 % 3600 == u % 3600 && u % 3600 % 60 == u % 60 && u % 60 % 2 == u % 2
  {
    Mod3600(u);
    Mod60(u);
    Mod2(u);
  }

  lemma Mod2(u: nat)
    ensures u % 60 % 2 == u % 2
  {
    var q, r := u / 60, u % 60;
    assert u == (30 * q + r / 2) * 2 + r % 2;
  }

  lemma Mod3600(u: nat)
    ensures u % 86400 % 3600 == u % 3600
  {
    var q, c := u / 86400, u % 86400;
    var h, r := c / 3600, c % 3600;
    assert u == (24 * q + h) * 3600 + r;
    DivModUnique(24 * q + h, r, 3600);
  }

  lemma Mod60(u: nat)
    ensures u % 3600 % 60 == u % 60
  {
    var q, c := u / 3600, u % 3600;
    var h, r := c / 60, c % 60;
    assert u == (60 * q + h) * 60 + r;
    DivModUnique(60 * q + h, r, 60);
  }

  /** The fields a second splits into, and the second they make up again. */
  lemma ClockFields(u: nat)
    ensures u % 86400 == u % 86400 / 3600 * 3600 + u % 3600 / 60 * 60 + u % 60 / 2 * 2 + u % 2
    ensures u % 60 / 2 < 30 && u % 3600 / 60 < 60 && u % 86400 / 3600 < 24
  {
    Nested(u);
  }

  lemma UnpackDate(day: nat, month: nat, year: nat)
    requires day < 32 && month < 16
    ensures var date := Packed(day, month, year);
            date < 0x10000 && date % 32 == day && date / 32 % 16 == month && date / 512 == year % 128
  {
    WrapYear(day + month * 32, year);
  }

  lemma WrapYear(low: nat, year: nat)
    requires low < 512
    ensures (low + year * 512) % 0x10000 == low + year % 128 * 512
  {
    var q, r := year / 128, year % 128;
    DivModUnique(q, low + r * 512, 0x10000);
    assert low + year * 512 == q * 0x10000 + (low + r * 512);
  }

  lemma UnpackTime(twosec: nat, min: nat, hour: nat)
    requires twosec < 32 && min < 64 && hour < 32
    ensures var time := twosec + min * 32 + hour * 2048;
            time % 32 == twosec && time / 32 % 64 == min && time / 2048 == hour
  {}

  /** The calendar day of a second. */
  lemma DayFields(days: nat)
    ensures MonthStart(YearOf(days), MonthIn(days)) <= InYear(days) < MonthEnd(YearOf(days), MonthIn(days))
    ensures 0 <= InMonth(days) < 31 && (days < RANGE_DAYS ==> YearOf(days) < 128)
  {
    hide MonthOf;
    YearHolds(days);
    YearLengthIs(YearOf(days));
    MonthHolds(YearOf(days), InYear(days), 1);
  }

  /** The fields of a date that was written. */
  lemma DateParts(s: Stamp, day: nat, month: nat, year: nat)
    requires s.date == Packed(day, month, year) && day < 32 && month < 16
    ensures s.date < 0x10000 && Year(s) == year % 128 && Month(s) == month && Day(s) == day
  {
    UnpackDate(day, month, year);
  }

  lemma PackedFields(days: nat)
    ensures DateOf(days) == Packed(InMonth(days) + 1, MonthIn(days), YearOf(days))
  {}

  /** Years 128 apart have the same months. */
  lemma SameMonths(y: nat, m: nat)
    requires 1 <= m <= 12
    ensures MonthStart(y % 128, m) == MonthStart(y, m) && MonthEnd(y % 128, m) == MonthEnd(y, m)
  {
    assert (1980 + y) % 4 == (1980 + y % 128) % 4;
  }

  lemma TimeReads(u: nat, s: Stamp)
    requires s.time == TimeOf(u) && s.centisec == u % 2 * 100
    ensures Clock(s) == u % 86400 && Hour(s) <= 23 && Minute(s) <= 59 && TwoSec(s) <= 29 && s.time < 0x10000
  {
    ClockFields(u);
    UnpackTime(u % 60 / 2, u % 3600 / 60, u % 86400 / 3600);
  }

  /** No timestamp names a second outside the 128 years. */
  lemma Bounded(s: Stamp, tz: int)
    requires s.date < 0x10000
    ensures ToUnix(s, tz) < EPOCH_DIFF_SEC + tz + RANGE_DAYS * 86400 || ToUnix(s, tz) == 0
  {}

  /** Whatever is written names a date of the calendar. */
  lemma WritesCalendar(t: int, tz: int)
    ensures OnCalendar(FromUnix(t, tz))
  {
    hide DateOf, TimeOf, YearOf, MonthIn, InYear, YearStart, MonthStart, MonthEnd, Clock, Day, Month, Year, Hour,
         Minute, TwoSec, Packed;
    var shift := EPOCH_DIFF_SEC + tz;
    var u: nat := if t < shift then 0 else t - shift;
    var days, s := u / 86400, FromUnix(t, tz);
    DayFields(days);
    PackedFields(days);
    DateParts(s, InMonth(days) + 1, MonthIn(days), YearOf(days));
    SameMonths(YearOf(days), MonthIn(days));
    TimeReads(u, s);
  }

  lemma CalendarIsReadable(s: Stamp)
    ensures OnCalendar(s) ==> Readable(s) && s.date < 0x10000
  {}

  /** Every second of the 128 representable years survives, and no other one does. */
  lemma UnixRoundTrip(t: int, tz: int)
    requires EPOCH_DIFF_SEC + tz > 0
    ensures ToUnix(FromUnix(t, tz), tz) == t
            <==> EPOCH_DIFF_SEC + tz <= t < EPOCH_DIFF_SEC + tz + RANGE_DAYS * 86400
    decreases EPOCH_DIFF_SEC + tz - t
  {
    hide DateOf, TimeOf, YearOf, MonthIn, YearStart, MonthStart, MonthEnd, OnCalendar, Clock, Day, Month, Year,
         Readable, Packed;
    var shift, s := EPOCH_DIFF_SEC + tz, FromUnix(t, tz);
    if t < shift {
      assert s == FromUnix(shift, tz);
      UnixRoundTrip(shift, tz);
    } else if t < shift + RANGE_DAYS * 86400 {
      var u: nat := t - shift;
      DayFields(u / 86400);
      PackedFields(u / 86400);
      DateParts(s, InMonth(u / 86400) + 1, MonthIn(u / 86400), YearOf(u / 86400));
      TimeReads(u, s);
      CalendarIsReadable(s);
      WritesCalendar(t, tz);
    } else {
      WritesCalendar(t, tz);
      CalendarIsReadable(s);
      Bounded(s, tz);
    }
  }

  /** r is s, but for centiseconds that make no whole second. */
  predicate Kept(s: Stamp, r: Stamp) {
    r.date == s.date && r.time == s.time && r.centisec == s.centisec / 100 * 100
  }

  /** Reading and writing a timestamp keeps date and time, and cuts centiseconds to whole seconds, exactly when it is
      a date and time of the calendar. */
  lemma StampRoundTrip(s: Stamp, tz: int)
    requires s.date < 0x10000 && s.time < 0x10000
    ensures Kept(s, FromUnix(ToUnix(s, tz), tz)) <==> OnCalendar(s)
  {
    hide DateOf, TimeOf, YearStart, MonthStart, MonthEnd, Clock, Day, Month, Year, Hour, Minute, TwoSec;
    if OnCalendar(s) {
      ClockBelow(s);
      SplitSecond(Days(s), Clock(s));
      DateWrites(Year(s), Month(s), Day(s));
      RepackDate(s);
      TimeWrites(s, Days(s));
    } else {
      var r := FromUnix(ToUnix(s, tz), tz);
      WritesCalendar(ToUnix(s, tz), tz);
      SameFields(r, s);
    }
  }

  lemma SameFields(r: Stamp, s: Stamp)
    ensures r.date == s.date ==> Day(r) == Day(s) && Month(r) == Month(s) && Year(r) == Year(s)
    ensures r.time == s.time ==> TwoSec(r) == TwoSec(s) && Minute(r) == Minute(s) && Hour(r) == Hour(s)
  {}

  lemma ClockBelow(s: Stamp)
    requires Readable(s)
    ensures Clock(s) < 86400
  {}

  lemma SplitSecond(days: nat, clock: nat)
    requires clock < 86400
    ensures (days * 86400 + clock) / 86400 == days && (days * 86400 + clock) % 86400 == clock
  {}

  lemma DateWrites(y: nat, m: nat, day: nat)
    requires 1 <= m <= 12 && 1 <= day && MonthStart(y, m) + day <= MonthEnd(y, m)
    ensures 0 <= YearStart(y) && 0 <= MonthStart(y, m)
    ensures DateOf(YearStart(y) + MonthStart(y, m) + day - 1) == Packed(day, m, y)
  {
    hide MonthOf, YearOf, YearStart, YearLength, MonthStart, MonthEnd, Packed;
    FirstMonth(y);
    MonthWithinYear(y, m);
    var d := MonthStart(y, m) + day - 1;
    var days := YearStart(y) + d;
    YearHolds(days);
    YearLengthIs(y);
    YearsFollow(y, YearOf(days));
    YearsFollow(YearOf(days), y);
    MonthHolds(y, d, 1);
    MonthIsOne(y, d, m, MonthOf(y, d, 1));
  }

  lemma FirstMonth(y: nat)
    ensures MonthStart(y, 1) == 0 <= YearStart(y)
  {}

  lemma MonthWithinYear(y: nat, m: nat)
    requires 1 <= m <= 12
    ensures 0 <= MonthStart(y, m) < MonthEnd(y, m) <= YearLength(y)
  {}

  lemma RepackDate(s: Stamp)
    requires s.date < 0x10000
    ensures s.date == Day(s) + Month(s) * 32 + Year(s) * 512
  {}

  lemma TimeWrites(s: Stamp, days: nat)
    requires Hour(s) < 24 && Minute(s) < 60 && TwoSec(s) < 30 && s.centisec < 200
    ensures var u := days * 86400 + Clock(s); TimeOf(u) == s.time && u % 2 * 100 == s.centisec / 100 * 100
  {
    ClockUnique(days, Hour(s), Minute(s), TwoSec(s), s.centisec / 100);
    RepackTime(s);
  }

  lemma RepackTime(s: Stamp)
    ensures s.time == TwoSec(s) + Minute(s) * 32 + Hour(s) * 2048
  {}

  lemma ClockUnique(days: nat, hour: nat, min: nat, twosec: nat, odd: nat)
    requires hour < 24 && min < 60 && twosec < 30 && odd < 2
    ensures var u := days * 86400 + hour * 3600 + min * 60 + twosec * 2 + odd;
            && u / 86400 == days && u % 86400 / 3600 == hour && u % 3600 / 60 == min
            && u % 60 / 2 == twosec && u % 2 == odd
  {
    var c := hour * 3600 + min * 60 + twosec * 2 + odd;
    var u := days * 86400 + c;
    SplitSecond(days, c);
    Nested(u);
    assert c % 3600 == min * 60 + twosec * 2 + odd && c % 3600 % 60 == twosec * 2 + odd;
    hide *;
  }

  /** exfat_unix2exfat's month loop. */
  method FindMonth(year: nat, days: int) returns (month: nat, left: int)
    ensures month == MonthOf(year, days, 1) && left == days - MonthStart(year, month)
  {
    month, left := 0, days;
    var i := 1;
    while month == 0
      invariant 1 <= i <= 12
      invariant if month == 0 then left == days && MonthOf(year, days, 1) == MonthOf(year, days, i)
                else month == MonthOf(year, days, 1) && left == days - MonthStart(year, month)
      decreases 12 - i, if month == 0 then 1 else 0
    {
      var leapDay := if IsLeapYear(year) && i == 2 then 1 else 0;
      var leapSub := if IsLeapYear(year) && i >= 3 then 1 else 0;
      if i == 12 || left - leapSub < DAYS_IN_YEAR[i + 1] + leapDay {
        month := i;
        left := left - (DAYS_IN_YEAR[i] + leapSub);
      } else {
        i := i + 1;
      }
    }
  }

  /** exfat_unix2exfat, for years that fit its 16-bit variable. */
  method UnixToExfat(t: int, tz: int) returns (s: Stamp)
    requires t < EPOCH_DIFF_SEC + tz + 0x10000 * 365 * 86400
    ensures s == FromUnix(t, tz)
  {
    hide MonthOf, MonthStart, TimeOf, DateOf, YearStart;
    var shift := EPOCH_DIFF_SEC + tz;
    var u: nat := if t < shift then 0 else t - shift;
    var days := u / 86400;
    var year := YearOf(days);
    var month, left := FindMonth(year, days - YearStart(year));
    var date := Packed(left + 1, month, year);
    DateIsPacked(days, month, left);
    s := Stamp(date, TimeOf(u), u % 2 * 100);
  }

  lemma DateIsPacked(days: nat, month: nat, left: int)
    requires month == MonthIn(days) && left == InMonth(days)
    ensures DateOf(days) == Packed(left + 1, month, YearOf(days))
  {
    hide MonthIn, InMonth;
  }
}
