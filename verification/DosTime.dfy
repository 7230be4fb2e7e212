/**
 * ZIP time stamps: Unix seconds to MS-DOS date and time fields and back. The source computes
 * with double-precision constants; here they are exact rationals.
 */
module DosTime {
  import opened Remainders

  type u16 = n: int | 0 <= n < 0x1_0000
  type u32 = n: int | 0 <= n < 0x1_0000_0000

  /** The two time fields of a directory record. */
  datatype Stamp = Stamp(mTime: u16, mDate: u16)

  /** The conversion (int)x of C. */
  function Truncate(x: real): int {
    if x >= 0.0 then x.Floor else -(-x).Floor
  }

  /** zipfileMtime. */
  function Mtime(s: Stamp): u32 {
    UnixTime(1980 + s.mDate / 0x200 % 0x80, s.mDate / 0x20 % 0x10, s.mDate % 0x20,
             s.mTime / 0x800 % 0x20, s.mTime / 0x20 % 0x40, s.mTime % 0x20 * 2)
  }

  /** The part of zipfileMtime after the fields are taken apart. */
  function UnixTime(y0: int, m0: int, d: int, hr: int, min: int, sec: int): u32 {
    var b := -13;
    var (y, m) := if m0 < 3 then (y0 - 1, m0 + 12) else (y0, m0);
    var jd := 24 * 60 * 60 * (Truncate(365.25 * (y + 4716) as real) + Truncate(30.6001 * (m + 1) as real)
                              + d + b - 1524)
              + (hr - 12) * 3600 + min * 60 + sec;
    (jd - 24405875 * 24 * 60 * 6) % 0x1_0000_0000
  }

  /** The calendar numbers that zipfileMtimeToDos computes on its way. */
  datatype Date = Date(a: int, b: int, c: int, d: int, e: int)

  function Calendar(t: u32): Date {
    var jd := 2440588 + t / (24 * 60 * 60);
    var a0 := Truncate((jd as real - 1867216.25) / 36524.25);
    var a := jd + 1 + a0 - a0 / 4;
    var b := a + 1524;
    var c := Truncate((b as real - 122.1) / 365.25);
    var d := 36525 * (c % 32768) / 100;
    Date(a, b, c, d, Truncate((b - d) as real / 30.6001))
  }

  function Day(x: Date): int {
    x.b - x.d - Truncate(30.6001 * x.e as real)
  }

  function Month(x: Date): int {
    if x.e < 14 then x.e - 1 else x.e - 13
  }

  function Year(x: Date): int {
    if Month(x) > 2 then x.c - 4716 else x.c - 4715
  }

  /** 13 days apart up to the end of February 2100, 14 from then on. */
  lemma CenturyShift(t: u32)
    ensures var x := Calendar(t);
            x.b == 2440588 + t / 86400 + (if t < 4107542400 then 1537 else 1538)
  {
  }

  /** Where the numbers lie for every 32-bit time. */
  lemma CalendarBounds(t: u32)
    ensures var x := Calendar(t);
            && 6600 < x.c < 6900 && x.d == Truncate(365.25 * x.c as real)
            && 4 <= x.e <= 15 && 1 <= Day(x) <= 31
  {
    CenturyShift(t);
    var x := Calendar(t);
    YearBounds(x.b);
    MonthBounds(x.b - x.d);
  }

  lemma YearBounds(b: int)
    requires 2442125 <= b <= 2491836
    ensures var c := Truncate((b as real - 122.1) / 365.25);
            var d := 36525 * (c % 32768) / 100;
            6600 < c < 6900 && d == Truncate(365.25 * c as real) && 123 <= b - d <= 488
  {
  }

  lemma MonthBounds(n: int)
    requires 123 <= n <= 488
    ensures var e := Truncate(n as real / 30.6001);
            4 <= e <= 15 && 1 <= n - Truncate(30.6001 * e as real) <= 31
  {
  }

  function PackTime(s: int, m: int, h: int): u16 {
    (s + m * 0x20 + h * 0x800) % 0x1_0000
  }

  function PackDate(d: int, m: int, y: int): u16 {
    (d + m * 0x20 + y * 0x200) % 0x1_0000
  }

  /** zipfileMtimeToDos. */
  function ToDos(t: u32): (s: Stamp) {
    var x := Calendar(t);
    var hr := t % (24 * 60 * 60) / (60 * 60);
    var min := t % (60 * 60) / 60;
    var sec := t % 60;
    if Year(x) >= 1980 then
      Stamp(PackTime(sec / 2, min, hr), PackDate(Day(x), Month(x), Year(x) - 1980))
    else Stamp(0, 0)
  }

  lemma YearStart(t: u32)
    ensures Year(Calendar(t)) >= 1980 <==> t >= 315532800
    ensures Year(Calendar(t)) < 1980 + 128
  {
    CenturyShift(t);
    CalendarBounds(t);
  }

  lemma DateRange(t: u32)
    requires t >= 315532800
    ensures var x := Calendar(t);
            1 <= Day(x) <= 31 && 1 <= Month(x) <= 14 && 1980 <= Year(x) < 1980 + 128
  {
    hide Calendar, Day, Year, Truncate;
    YearStart(t);
    CalendarBounds(t);
  }

  /** Every packed field fits its bits and is unpacked as it was packed. */
  lemma FieldsFit(t: u32)
    requires t >= 315532800
    ensures var x := Calendar(t);
            var s := ToDos(t);
            && s.mDate % 0x20 == Day(x) && s.mDate / 0x20 % 0x10 == Month(x) && s.mDate / 0x200 % 0x80 == Year(x) - 1980
            && s.mTime % 0x20 == t % 60 / 2 && s.mTime / 0x20 % 0x40 == t % 3600 / 60
            && s.mTime / 0x800 % 0x20 == t % 86400 / 3600
  {
    hide Calendar, Day, Month, Year, PackDate, PackTime;
    YearStart(t);
    DateRange(t);
    TimeRange(t);
    var x := Calendar(t);
    DatePacked(Day(x), Month(x), Year(x) - 1980);
    TimePacked(t % 60 / 2, t % 3600 / 60, t % 86400 / 3600);
  }

  lemma TimeRange(t: u32)
    ensures 0 <= t % 60 / 2 < 0x20 && 0 <= t % 3600 / 60 < 0x40 && 0 <= t % 86400 / 3600 < 0x20
  {
  }

  lemma DatePacked(d: int, m: int, y: int)
    requires 0 <= d < 0x20 && 0 <= m < 0x10 && 0 <= y < 0x80
    ensures var n := PackDate(d, m, y);
            n % 0x20 == d && n / 0x20 % 0x10 == m && n / 0x200 % 0x80 == y
  {
    hide PackDate;
    ThreeFields(d, m, y, 0x20, 0x10);
    DateSmall(d, m, y);
    SmallRemainder(y, 0x80);
  }

  lemma DateSmall(d: int, m: int, y: int)
    requires 0 <= d < 0x20 && 0 <= m < 0x10 && 0 <= y < 0x80
    ensures PackDate(d, m, y) == d + 0x20 * (m + 0x10 * y)
  {
    SmallRemainder(d + m * 0x20 + y * 0x200, 0x1_0000);
  }

  lemma TimePacked(s: int, m: int, h: int)
    requires 0 <= s < 0x20 && 0 <= m < 0x40 && 0 <= h < 0x20
    ensures var n := PackTime(s, m, h);
            n % 0x20 == s && n / 0x20 % 0x40 == m && n / 0x800 % 0x20 == h
  {
    hide PackTime;
    ThreeFields(s, m, h, 0x20, 0x40);
    TimeSmall(s, m, h);
    SmallRemainder(h, 0x20);
  }

  lemma TimeSmall(s: int, m: int, h: int)
    requires 0 <= s < 0x20 && 0 <= m < 0x40 && 0 <= h < 0x20
    ensures PackTime(s, m, h) == s + 0x20 * (m + 0x40 * h)
  {
    SmallRemainder(s + m * 0x20 + h * 0x800, 0x1_0000);
  }

  /** Three numbers in one, the first below p and the second below q. */
  lemma ThreeFields(a: int, b: int, c: int, p: int, q: int)
    requires 0 <= a < p && 0 <= b < q && p * q > 0
    ensures var n := a + p * (b + q * c);
            n % p == a && n / p % q == b && n / (p * q) == c
  {
    var n := a + p * (b + q * c);
    TwoFields(a, b + q * c, p);
    TwoFields(b, c, q);
    assert n == (a + p * b) + (p * q) * c;
    ProductBound(a, b, p, q);
    TwoFields(a + p * b, c, p * q);
  }

  lemma TwoFields(a: int, b: int, p: int)
    requires 0 <= a < p
    ensures (a + p * b) % p == a && (a + p * b) / p == b
  {
    var n := a + p * b;
    assert n == b * p + a;
    RemainderUnique(n, b, p, a);
    Division(n, p);
    assert (n / p - b) * p == 0;
  }

  lemma ProductBound(a: int, b: int, p: int, q: int)
    requires 0 <= a < p && 0 <= b < q
    ensures 0 <= a + p * b < p * q
  {
    NonNegativeProduct(b, p);
    NonNegativeProduct(q - 1 - b, p);
    assert p * q == p * b + p + (q - 1 - b) * p;
  }

  /** The day count that zipfileMtime builds from the fields is the one they came from. */
  lemma DayNumber(t: u32)
    ensures var x := Calendar(t);
            var (y, m) := if Month(x) < 3 then (Year(x) - 1, Month(x) + 12) else (Year(x), Month(x));
            Truncate(365.25 * (y + 4716) as real) + Truncate(30.6001 * (m + 1) as real) + Day(x) == x.b
  {
    CalendarBounds(t);
    var x := Calendar(t);
    hide Calendar;
    var (y, m) := if Month(x) < 3 then (Year(x) - 1, Month(x) + 12) else (Year(x), Month(x));
    assert y + 4716 == x.c && m + 1 == x.e;
  }

  /** The time survives to the even second up to 2100-02-28, and is a day late from then on. */
  lemma TimeRoundTrip(t: u32)
    ensures 315532800 <= t < 4107542400 ==> Mtime(ToDos(t)) == t - t % 2
    ensures 4107542400 <= t ==> Mtime(ToDos(t)) == (t - t % 2 + 86400) % 0x1_0000_0000
    ensures t < 315532800 ==> Mtime(ToDos(t)) == 312768000
  {
    hide *;
    if t >= 315532800 {
      PackedRoundTrip(t);
      assert 0 <= t - t % 2 < 0x1_0000_0000;
    } else {
      EarlyStamp(t);
      ZeroStamp();
    }
  }

  /** The assertion at the end of zipfileMtimeToDos. */
  predicate Asserted(t: u32) {
    || t < 315507600
    || t == Mtime(ToDos(t))
    || (t % 2 != 0 && t - 1 == Mtime(ToDos(t)))
  }

  /** It fails for the last seven hours of 1979, whose stamp is empty, and from March 2100 on. */
  lemma AssertedExactly(t: u32)
    ensures Asserted(t) <==> t < 315507600 || 315532800 <= t < 4107542400
  {
    hide Mtime, ToDos;
    TimeRoundTrip(t);
  }

  lemma EarlyStamp(t: u32)
    requires t < 315532800
    ensures ToDos(t) == Stamp(0, 0)
  {
    YearStart(t);
    hide Calendar, Year, Day, Month;
  }

  lemma ZeroStamp()
    ensures Mtime(Stamp(0, 0)) == 312768000
  {
    assert 365.25 * 6695 as real == 2445348.75;
    assert 30.6001 * 13 as real == 397.8013;
    assert UnixTime(1980, 0, 0, 0, 0, 0) == 312768000;
    hide UnixTime;
  }

  lemma PackedRoundTrip(t: u32)
    requires t >= 315532800
    ensures Mtime(ToDos(t)) == ((if t < 4107542400 then 0 else 86400) + t - t % 2) % 0x1_0000_0000
  {
    hide Calendar, ToDos, Truncate, Day, Month, Year, UnixTime, Mtime;
    Unpacked(t);
    DayNumber(t);
    CenturyShift(t);
    var x := Calendar(t);
    FromDayNumber(Year(x), Month(x), Day(x), x.b, t);
  }

  lemma Unpacked(t: u32)
    requires t >= 315532800
    ensures var x := Calendar(t);
            Mtime(ToDos(t)) == UnixTime(Year(x), Month(x), Day(x), t % 86400 / 3600, t % 3600 / 60, t % 60 / 2 * 2)
  {
    hide Calendar, ToDos, Day, Month, Year, UnixTime;
    FieldsFit(t);
  }

  /** zipfileMtime on fields that spell day number n and the time of day of t. */
  lemma FromDayNumber(y0: int, m0: int, d: int, n: int, t: u32)
    requires var (y, m) := if m0 < 3 then (y0 - 1, m0 + 12) else (y0, m0);
             Truncate(365.25 * (y + 4716) as real) + Truncate(30.6001 * (m + 1) as real) + d == n
    ensures UnixTime(y0, m0, d, t % 86400 / 3600, t % 3600 / 60, t % 60 / 2 * 2)
         == (86400 * (n - 2440588 - 1537 - t / 86400) + t - t % 2) % 0x1_0000_0000
  {
    hide Truncate;
    SecondsOfDay(t);
  }

  lemma SecondsOfDay(t: u32)
    ensures t / 86400 * 86400 + t % 86400 / 3600 * 3600 + t % 3600 / 60 * 60 + t % 60 / 2 * 2 == t - t % 2
  {
    NestedRemainder(t, 24, 3600);
    NestedRemainder(t, 60, 60);
    NestedRemainder(t, 30, 2);
    var h, m, s := t % 86400, t % 3600, t % 60;
    assert h == h / 3600 * 3600 + h % 3600;
    assert m == m / 60 * 60 + m % 60;
    assert s == s / 2 * 2 + s % 2;
  }

  lemma NestedRemainder(t: int, a: int, b: int)
    requires a > 0 && b > 0
    ensures a * b > 0 && t % (a * b) % b == t % b
  {
    NonNegativeProduct(a - 1, b);
    assert a * b == (a - 1) * b + b;
    Division(t, a * b);
    Division(t % (a * b), b);
    var q, r := t / (a * b), t % (a * b);
    assert t == (q * a + r / b) * b + r % b;
    RemainderUnique(t, q * a + r / b, b, r % b);
  }

  // ----- the calendar

  predicate IsLeap(y: int) {
    y % 4 == 0 && (y % 100 != 0 || y % 400 == 0)
  }

  function DaysInMonth(y: int, m: int): nat {
    if m == 2 then (if IsLeap(y) then 29 else 28) else if m == 4 || m == 6 || m == 9 || m == 11 then 30 else 31
  }

  /** Days from the first of January 1970 to the first of January of y. */
  function DaysBeforeYear(y: int): nat
    requires y >= 1970
  {
    if y == 1970 then 0 else DaysBeforeYear(y - 1) + if IsLeap(y - 1) then 366 else 365
  }

  /** Days from the first of January to the first of month m. */
  function DaysBeforeMonth(y: int, m: int): nat
    requires m >= 1
  {
    if m == 1 then 0 else DaysBeforeMonth(y, m - 1) + DaysInMonth(y, m - 1)
  }

  lemma {:induction false} YearDays(y: int)
    requires 1970 <= y <= 2108
    ensures DaysBeforeYear(y) == 365 * (y - 1970) + (y - 1969) / 4 - if y > 2100 then 1 else 0
  {
    hide IsLeap;
    if y > 1970 {
      YearDays(y - 1);
      LeapYears(y - 1);
    }
  }

  lemma MonthDays(y: int, m: int)
    requires 1 <= m <= 12
    ensures DaysBeforeMonth(y, m)
         == [0, 0, 31, 59, 90, 120, 151, 181, 212, 243, 273, 304, 334][m] + if m > 2 && IsLeap(y) then 1 else 0
  {
    hide IsLeap;
    if m > 1 {
      MonthDays(y, m - 1);
    }
  }

  lemma MonthTruncated(n: int)
    requires 4 <= n <= 15
    ensures Truncate(30.6001 * n as real) == [122, 153, 183, 214, 244, 275, 306, 336, 367, 397, 428, 459][n - 4]
  {
  }

  lemma YearTruncated(n: int)
    requires n >= 0
    ensures Truncate(365.25 * n as real) == 1461 * n / 4
  {
    assert 4.0 * (365.25 * n as real) == (1461 * n) as real;
  }

  /** The day number of a date, 2442125 for the first of January 1970; years start in March. */
  lemma DateNumber(y0: int, m0: int, d: int)
    requires 1980 <= y0 < 2108 && 1 <= m0 <= 12
    ensures var (y, m) := if m0 < 3 then (y0 - 1, m0 + 12) else (y0, m0);
            Truncate(365.25 * (y + 4716) as real) + Truncate(30.6001 * (m + 1) as real) + d
            == 2442125 + DaysBeforeYear(y0) + DaysBeforeMonth(y0, m0) + d - 1
               + if y0 > 2100 || (y0 == 2100 && m0 > 2) then 1 else 0
  {
    hide Truncate, DaysBeforeYear, DaysBeforeMonth, IsLeap;
    YearDays(y0);
    MonthDays(y0, m0);
    LeapYears(y0);
    var (y, m) := if m0 < 3 then (y0 - 1, m0 + 12) else (y0, m0);
    YearTruncated(y + 4716);
    MonthTruncated(m + 1);
    YearsInQuarters(y0);
    if m0 < 3 {
      assert y + 4716 == y0 + 4715;
    } else {
      assert y + 4716 == y0 + 4716;
    }
  }

  lemma LeapYears(y: int)
    requires 1970 <= y <= 2108
    ensures IsLeap(y) <==> y % 4 == 0 && y != 2100
  {
  }

  lemma YearsInQuarters(y: int)
    requires y >= 1980
    ensures 1461 * (y + 4715) / 4 == 365 * (y + 4715) + (y + 4715) / 4
    ensures 1461 * (y + 4716) / 4 == 365 * (y + 4716) + (y + 4716) / 4
    ensures (y + 4715) / 4 == (y - 1969) / 4 + 1671 && (y + 4716) / 4 == (y + 4715) / 4 + if y % 4 == 0 then 1 else 0
  {
  }

  /** A stamp whose month is one of twelve. */
  predicate NamesMonth(s: Stamp) {
    1 <= s.mDate / 0x20 % 0x10 <= 12
  }

  /**
   * The time of a stamp by the calendar: the year since 1980 in seven bits, the month in four and the day in
   * five; the hour in five bits, the minute in six and half the second in five. From March 2100 on, a year that
   * the rule for four years takes for a leap year, the time is a day late.
   */
  lemma CalendarTime(s: Stamp)
    requires NamesMonth(s)
    ensures var y, m, d := 1980 + s.mDate / 0x200, s.mDate / 0x20 % 0x10, s.mDate % 0x20;
            var days := DaysBeforeYear(y) + DaysBeforeMonth(y, m) + d - 1;
            var late := if y > 2100 || (y == 2100 && m > 2) then 1 else 0;
            Mtime(s)
            == (86400 * (days + late) + 3600 * (s.mTime / 0x800) + 60 * (s.mTime / 0x20 % 0x40) + 2 * (s.mTime % 0x20))
               % 0x1_0000_0000
  {
    hide Truncate, DaysBeforeYear, DaysBeforeMonth;
    var y, m, d := 1980 + s.mDate / 0x200, s.mDate / 0x20 % 0x10, s.mDate % 0x20;
    SmallRemainder(s.mDate / 0x200, 0x80);
    SmallRemainder(s.mTime / 0x800, 0x20);
    DateNumber(y, m, d);
  }

  lemma YearSpan(b: int)
    requires b >= 123
    ensures var c := Truncate((b as real - 122.1) / 365.25);
            c >= 0 && 40 * b - 4884 < 14610 * (c + 1)
  {
    var x := (b as real - 122.1) / 365.25;
    assert x >= 0.0 && x < (x.Floor + 1) as real;
    assert (40 * b - 4884) as real == 14610.0 * x;
  }

  /** The last February day of a year by the rule for four years. */
  lemma FebruaryEnd(b: int)
    requires 2442125 <= b <= 2491836
    ensures var c := Truncate((b as real - 122.1) / 365.25);
            b - 1461 * c / 4 <= if c % 4 == 3 then 488 else 487
  {
    hide Truncate;
    YearSpan(b);
    QuarterDays(Truncate((b as real - 122.1) / 365.25), b);
  }

  lemma QuarterDays(c: int, b: int)
    requires c >= 0 && 40 * b - 4884 < 14610 * (c + 1)
    ensures b - 1461 * c / 4 <= if c % 4 == 3 then 488 else 487
  {
    var k, q := c / 4, c % 4;
    assert c == 4 * k + q && 1461 * c == 4 * (1461 * k) + 1461 * q;
    assert 1461 * c / 4 == 1461 * k + 1461 * q / 4;
  }

  /** Days 123 to 488 of a year that starts in March, as months and days. */
  lemma MonthFits(n: int)
    requires 123 <= n <= 488
    ensures var e := Truncate(n as real / 30.6001);
            var d := n - Truncate(30.6001 * e as real);
            && 4 <= e <= 15 && 1 <= d <= 31 && (e == 5 || e == 7 || e == 10 || e == 12 ==> d <= 30)
            && (e == 15 ==> d <= n - 459)
  {
    var e := Truncate(n as real / 30.6001);
    MonthBounds(n);
    MonthTruncated(e);
    assert n as real < 30.6001 * (e + 1) as real;
  }

  /** The stamp of a time from 1980 on is a date of the calendar. */
  lemma StampIsDate(t: u32)
    requires t >= 315532800
    ensures var s := ToDos(t);
            NamesMonth(s) && 1 <= s.mDate % 0x20 <= DaysInMonth(1980 + s.mDate / 0x200, s.mDate / 0x20 % 0x10)
  {
    hide Calendar, ToDos;
    FieldsFit(t);
    YearStart(t);
    SmallRemainder(ToDos(t).mDate / 0x200, 0x80);
    CenturyShift(t);
    CalendarBounds(t);
    DayFits(t);
  }

  lemma DayFits(t: u32)
    ensures var x := Calendar(t);
            1 <= Month(x) <= 12 && 1 <= Day(x) <= DaysInMonth(Year(x), Month(x))
  {
    CenturyShift(t);
    CalendarBounds(t);
    var x := Calendar(t);
    FebruaryEnd(x.b);
    YearTruncated(x.c);
    MonthFits(x.b - x.d);
  }
}
