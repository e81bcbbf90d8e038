/**
  Broken-down time: convert_tm, gmtime_r, localtime_r of time_r.c and timegm, mktime of time_conv.c.
  time_t is a 64-bit and int a 32-bit two's complement integer.
 */
module Calendar {
  import Division

  const INT_LIMIT: int := 0x8000_0000
  const TIME_LIMIT: int := 0x8000_0000_0000_0000

  datatype Tm = Tm(sec: int, min: int, hour: int, mday: int, mon: int, year: int, wday: int, yday: int, isdst: int)

  /** Conversion to int. */
  function Int(x: int): (r: int)
    ensures -0x8000_0000 <= r < 0x8000_0000 && (r - x) % 0x1_0000_0000 == 0
  {
    (x + 0x8000_0000) % 0x1_0000_0000 - 0x8000_0000
  }

  /** The remainder operator of C: less than the divisor and with the sign of the dividend. */
  function Rem(x: int, d: int): (r: int)
    requires d > 0
    ensures -d < r < d && (x - r) % d == 0 && (x >= 0 ==> r >= 0) && (x <= 0 ==> r <= 0)
  {
    RemIsCongruent(x, d);
    if x >= 0 then x % d else -(-x % d)
  }

  lemma RemIsCongruent(x: int, d: int)
    requires d > 0
    ensures x >= 0 ==> (x - x % d) % d == 0
    ensures x < 0 ==> (x + (-x) % d) % d == 0
  {
    if x >= 0 {
      var q := x / d;
      Division.Unique(x - x % d, d, q, 0);
    } else {
      var q := (-x) / d;
      assert d * -q == -(d * q);
      Division.Unique(x + (-x) % d, d, -q, 0);
    }
  }

  predicate IsLeap(year: int) {
    year % 4 == 0 && (year % 100 != 0 || year % 400 == 0)
  }

  function YearLength(year: int): int {
    if IsLeap(year) then 366 else 365
  }

  /** days_per_month. */
  function MonthLength(leap: bool, month: int): int {
    if month == 1 then (if leap then 29 else 28)
    else if month == 3 || month == 5 || month == 8 || month == 10 then 30
    else 31
  }

  // ---------------------------------------------------------------------------------------
  // The Gregorian calendar in closed form, without a table of months

  /** The leap years up to and including year `y`. */
  function LeapYears(y: int): int {
    y / 4 - y / 100 + y / 400
  }

  /** Days from 1 January 1970 to 1 January of the year. */
  function DaysBeforeYear(year: int): int {
    365 * (year - 1970) + LeapYears(year - 1) - LeapYears(1969)
  }

  /** Days from 1 January to the first of the month, months counted from 0: from March on by fifths of 153 days. */
  function DaysBeforeMonth(year: int, month: int): int {
    if month < 2 then 31 * month else (153 * (month - 2) + 2) / 5 + 59 + LeapYears(year) - LeapYears(year - 1)
  }

  /** is_leap and days_per_month agree with it. */
  lemma LeapYearRule(year: int)
    ensures LeapYears(year) - LeapYears(year - 1) == if IsLeap(year) then 1 else 0
    ensures DaysBeforeYear(year + 1) == DaysBeforeYear(year) + YearLength(year)
  {
    NextQuotients(year);
    Multiples(year);
  }

  lemma NextQuotients(x: int)
    ensures x / 4 == (x - 1) / 4 + if x % 4 == 0 then 1 else 0
    ensures x / 100 == (x - 1) / 100 + if x % 100 == 0 then 1 else 0
    ensures x / 400 == (x - 1) / 400 + if x % 400 == 0 then 1 else 0
  {
  }

  lemma Multiples(x: int)
    ensures x % 400 == 0 ==> x % 100 == 0
    ensures x % 100 == 0 ==> x % 4 == 0
  {
  }

  lemma MonthTable(year: int, month: int)
    requires 0 <= month < 12
    ensures DaysBeforeMonth(year, month + 1) == DaysBeforeMonth(year, month) + MonthLength(IsLeap(year), month)
    ensures DaysBeforeMonth(year, 0) == 0 && DaysBeforeMonth(year, 12) == YearLength(year)
  {
    hide LeapYears;
    LeapYearRule(year);
  }

  lemma {:induction false} MonthsGrow(year: int, m: nat, n: nat)
    requires m < n <= 12
    ensures DaysBeforeMonth(year, m) + MonthLength(IsLeap(year), m) <= DaysBeforeMonth(year, n)
  {
    hide DaysBeforeMonth, IsLeap;
    MonthTable(year, n - 1);
    if m + 1 < n {
      MonthsGrow(year, m, n - 1);
    }
  }

  lemma {:induction false} YearsGrow(y: int, z: int)
    requires y < z
    ensures DaysBeforeYear(y) + YearLength(y) <= DaysBeforeYear(z)
    ensures DaysBeforeYear(z) >= DaysBeforeYear(y) + 365 * (z - y)
    decreases z - y
  {
    hide DaysBeforeYear, IsLeap;
    LeapYearRule(z - 1);
    if y + 1 < z {
      YearsGrow(y, z - 1);
    }
  }

  lemma EpochYear()
    ensures DaysBeforeYear(1970) == 0
  {
  }

  lemma YearsFromEpoch(y: int)
    requires y >= 1970
    ensures DaysBeforeYear(y) >= 365 * (y - 1970) && DaysBeforeYear(1970) == 0
  {
    hide DaysBeforeYear;
    EpochYear();
    if y > 1970 {
      YearsGrow(1970, y);
    }
  }

  // ---------------------------------------------------------------------------------------
  // Dates

  /** The fields name a day of the calendar, from 1970 on: before the first of the next month. */
  ghost predicate IsDate(year: int, mon: int, mday: int) {
    year >= 1970 && 0 <= mon < 12 && 1 <= mday <= DaysBeforeMonth(year, mon + 1) - DaysBeforeMonth(year, mon)
  }

  function DayOfYear(year: int, mon: int, mday: int): int {
    (if mon < 0 then 0 else DaysBeforeMonth(year, mon)) + mday - 1
  }

  /** The sum timegm and mktime form, for any fields. */
  function DayNumber(year: int, mon: int, mday: int): int {
    (if year < 1970 then 0 else DaysBeforeYear(year)) + DayOfYear(year, mon, mday)
  }

  lemma DayInYear(year: int, mon: int, mday: int)
    requires IsDate(year, mon, mday)
    ensures 0 <= DayOfYear(year, mon, mday) < YearLength(year)
  {
    hide DaysBeforeMonth, IsLeap;
    MonthTable(year, mon);
    MonthTable(year, 0);
    if mon > 0 {
      MonthsGrow(year, 0, mon);
    }
    MonthsGrow(year, mon, 12);
  }

  /** Different days have different numbers, in calendar order. */
  lemma DayNumberOrder(y: int, m: int, d: int, z: int, n: int, e: int)
    requires IsDate(y, m, d) && IsDate(z, n, e)
    ensures DayNumber(y, m, d) < DayNumber(z, n, e) <==> y < z || (y == z && (m < n || (m == n && d < e)))
  {
    hide DaysBeforeYear, DaysBeforeMonth, MonthLength, IsLeap;
    DayInYear(y, m, d);
    DayInYear(z, n, e);
    if y < z {
      YearsGrow(y, z);
    } else if z < y {
      YearsGrow(z, y);
    } else if m < n {
      MonthTable(y, m);
      MonthsGrow(y, m, n);
    } else if n < m {
      MonthTable(y, n);
      MonthsGrow(y, n, m);
    }
  }

  lemma DateIsUnique(y: int, m: int, d: int, z: int, n: int, e: int)
    requires IsDate(y, m, d) && IsDate(z, n, e) && DayNumber(y, m, d) == DayNumber(z, n, e)
    ensures y == z && m == n && d == e
  {
    hide DayNumber, MonthLength, IsLeap;
    DayNumberOrder(y, m, d, z, n, e);
    DayNumberOrder(z, n, e, y, m, d);
  }

  /** The fields of tm describe second `s` of day number `d`. */
  ghost predicate Describes(tm: Tm, d: int, s: int) {
    && 0 <= tm.sec < 60 && 0 <= tm.min < 60 && 0 <= tm.hour < 24
    && tm.hour * 3600 + tm.min * 60 + tm.sec == s
    && tm.wday == Rem(Int(d + 4), 7) && tm.isdst == 0
    && DayNumber(tm.year + 1900, tm.mon, tm.mday) == d
    && tm.yday == DayOfYear(tm.year + 1900, tm.mon, tm.mday)
    && if d >= 0 then IsDate(tm.year + 1900, tm.mon, tm.mday) else tm.year == 70 && tm.mon == 0
  }

  /** A day and a second of the day have one description. */
  lemma OneDescription(a: Tm, b: Tm, d: int, s: int)
    requires Describes(a, d, s) && Describes(b, d, s)
    ensures a == b
  {
    hide DayNumber, MonthLength, IsLeap, Int;
    if d >= 0 {
      DateIsUnique(a.year + 1900, a.mon, a.mday, b.year + 1900, b.mon, b.mday);
    } else {
      EpochDay(a);
      EpochDay(b);
    }
  }

  lemma EpochDay(tm: Tm)
    requires tm.year == 70 && tm.mon == 0
    ensures DayNumber(tm.year + 1900, tm.mon, tm.mday) == tm.mday - 1
  {
  }

  /** The last day before a leap day, the first half of 1970, and the last day of 32-bit time. */
  lemma KnownDays()
    ensures DayNumber(1970, 6, 1) == 181 && DayNumber(2000, 1, 28) == 11015 && DayNumber(2038, 0, 19) == 24855
  {
  }

  // ---------------------------------------------------------------------------------------
  // The code

  /** Times before the epoch are taken as the epoch. */
  function Clamp(t: int): int {
    if t < 0 then 0 else t
  }

  method ConvertTm(time: int) returns (tm: Tm)
    requires -TIME_LIMIT <= time < TIME_LIMIT
    ensures Describes(tm, Int(Clamp(time) / 86400), Clamp(time) % 86400)
  {
    var t := time;
    if t < 0 {
      t := 0;
    }
    var sec := t % 60;
    t := t / 60;
    var min := t % 60;
    t := t / 60;
    var hour := t % 24;
    t := t / 24;
    ClockSplit(Clamp(time));
    var days := Int(t);
    var wday := Rem(Int(days + 4), 7);
    var year, yday := FindYear(days);
    var mon, rest := FindMonth(year, yday);
    var mday := rest + 1;
    tm := Tm(sec, min, hour, mday, mon, year - 1900, wday, yday, 0);
    hide DaysBeforeYear, DaysBeforeMonth, MonthLength, IsLeap, Int, Rem;
  }

  /** The first loop of convert_tm: whole years are taken off the day count. */
  method FindYear(d: int) returns (year: int, days: int)
    ensures year >= 1970
    ensures if d < 0 then year == 1970 && days == d
            else 0 <= days < YearLength(year) && DaysBeforeYear(year) + days == d
  {
    year, days := 1970, d;
    while true
      invariant year >= 1970
      invariant if d < 0 then year == 1970 && days == d else days >= 0 && DaysBeforeYear(year) + days == d
      decreases days
    {
      LeapYearRule(year);
      var ydays := YearLength(year);
      if days >= ydays {
        days := days - ydays;
        year := year + 1;
      } else {
        break;
      }
    }
  }

  /** The second loop: whole months; the table is not overrun. */
  method FindMonth(year: int, yday: int) returns (mon: nat, days: int)
    requires yday < YearLength(year)
    ensures if yday < 0 then mon == 0 && days == yday
            else mon < 12 && 0 <= days == yday - DaysBeforeMonth(year, mon) && yday < DaysBeforeMonth(year, mon + 1)
  {
    hide DaysBeforeMonth, IsLeap;
    mon, days := 0, yday;
    MonthTable(year, 0);
    while days >= MonthLength(IsLeap(year), mon)
      invariant mon < 12 && DaysBeforeMonth(year, mon) + days == yday
      invariant if yday < 0 then mon == 0 else days >= 0
      decreases 12 - mon
    {
      MonthTable(year, mon);
      days := days - MonthLength(IsLeap(year), mon);
      mon := mon + 1;
    }
    MonthTable(year, mon);
  }

  lemma ClockSplit(t: nat)
    ensures t / 60 / 60 / 24 == t / 86400
    ensures t / 60 / 60 % 24 * 3600 + t / 60 % 60 * 60 + t % 60 == t % 86400
  {
  }

  method GmtimeR(t: int) returns (tm: Tm)
    requires -TIME_LIMIT <= t < TIME_LIMIT
    ensures Describes(tm, Int(Clamp(t) / 86400), Clamp(t) % 86400)
  {
    tm := ConvertTm(t);
  }

  method LocaltimeR(t: int, tzoff: int) returns (tm: Tm)
    requires -TIME_LIMIT <= t + tzoff < TIME_LIMIT
    ensures Describes(tm, Int(Clamp(t + tzoff) / 86400), Clamp(t + tzoff) % 86400)
  {
    tm := ConvertTm(t + tzoff);
  }

  /** The products and sums in int do not overflow, and the month table is not overrun. */
  predicate Computable(tm: Tm) {
    && tm.mon <= 12 && tm.year + 1900 < INT_LIMIT && tm.mday - 1 >= -INT_LIMIT
    && -INT_LIMIT <= tm.hour * 3600 < INT_LIMIT && -INT_LIMIT <= tm.min * 60 < INT_LIMIT
  }

  /** timegm: the time, and the structure as it is left. */
  method Timegm(tm: Tm) returns (t: int, tm': Tm)
    requires Computable(tm)
    ensures t == DayNumber(tm.year + 1900, tm.mon, tm.mday) * 86400 + tm.hour * 3600 + tm.min * 60 + tm.sec
    ensures var d := DayNumber(tm.year + 1900, tm.mon, tm.mday);
            tm' == tm.(yday := Int(d), wday := Int(Rem(d + 4, 7)), isdst := 0)
  {
    var year := tm.year + 1900;
    var days := 0;
    var y := 1970;
    while y < year
      invariant 1970 <= y && (y <= year || y == 1970) && days == DaysBeforeYear(y)
    {
      LeapYearRule(y);
      days := days + YearLength(y);
      y := y + 1;
    }
    var m := 0;
    ghost var before := days;
    while m < tm.mon
      invariant 0 <= m && (m <= tm.mon || m == 0) && days == before + DaysBeforeMonth(year, m)
    {
      MonthTable(year, m);
      days := days + MonthLength(IsLeap(year), m);
      m := m + 1;
    }
    days := days + (tm.mday - 1);
    tm' := tm.(yday := Int(days), wday := Int(Rem(days + 4, 7)), isdst := 0);
    t := days * 86400 + tm.hour * 3600 + tm.min * 60 + tm.sec;
  }

  /** mktime is the same computation less the zone offset. */
  method Mktime(tm: Tm, tzoff: int) returns (t: int, tm': Tm)
    requires Computable(tm)
    ensures t == DayNumber(tm.year + 1900, tm.mon, tm.mday) * 86400 + tm.hour * 3600 + tm.min * 60 + tm.sec - tzoff
    ensures var d := DayNumber(tm.year + 1900, tm.mon, tm.mday);
            tm' == tm.(yday := Int(d), wday := Int(Rem(d + 4, 7)), isdst := 0)
  {
    t, tm' := Timegm(tm);
    t := t - tzoff;
  }

  // ---------------------------------------------------------------------------------------
  // Round trips

  lemma DescribedComputable(tm: Tm, d: int, s: int)
    requires Describes(tm, d, s) && -INT_LIMIT <= d < INT_LIMIT
    ensures Computable(tm)
  {
    if d >= 0 {
      var y := tm.year + 1900;
      YearsFromEpoch(y);
      DayInYear(y, tm.mon, tm.mday);
    } else {
      EpochDay(tm);
    }
  }

  lemma TimeOfDay(t: int)
    ensures Int(Clamp(t) / 86400) * 86400 + Clamp(t) % 86400 == t <==> 0 <= t && t / 86400 < INT_LIMIT
  {
    var c := Clamp(t);
    var d := c / 86400;
    assert c == d * 86400 + c % 86400;
    assert Int(d) == d <==> d < INT_LIMIT;
  }

  /** timegm undoes gmtime_r exactly from the epoch on as long as the day count fits an int. */
  method GmtimeThenTimegm(t: int) returns (r: int, tm: Tm, tm': Tm)
    requires -TIME_LIMIT <= t < TIME_LIMIT
    ensures r == t <==> 0 <= t && t / 86400 < INT_LIMIT
    ensures 0 <= t && t / 86400 < INT_LIMIT ==> (tm'.yday == tm.yday <==> tm.year == 70)
  {
    tm := GmtimeR(t);
    ghost var d := Int(Clamp(t) / 86400);
    DescribedComputable(tm, d, Clamp(t) % 86400);
    r, tm' := Timegm(tm);
    TimeOfDay(t);
    if 0 <= t && t / 86400 < INT_LIMIT {
      YearStart(tm, d, t % 86400);
    }
  }

  lemma YearStart(tm: Tm, d: int, s: int)
    requires Describes(tm, d, s) && 0 <= d < INT_LIMIT
    ensures Int(d) == tm.yday <==> tm.year == 70
  {
    var y := tm.year + 1900;
    YearsFromEpoch(y);
    DayInYear(y, tm.mon, tm.mday);
  }

  /** mktime undoes localtime_r under the same condition on the shifted time. */
  method LocaltimeThenMktime(t: int, tzoff: int) returns (r: int)
    requires -TIME_LIMIT <= t + tzoff < TIME_LIMIT
    ensures r == t <==> 0 <= t + tzoff && (t + tzoff) / 86400 < INT_LIMIT
  {
    var tm := LocaltimeR(t, tzoff);
    DescribedComputable(tm, Int(Clamp(t + tzoff) / 86400), Clamp(t + tzoff) % 86400);
    var tm';
    r, tm' := Mktime(tm, tzoff);
    TimeOfDay(t + tzoff);
  }

  /** gmtime_r undoes timegm on every date and time of day whose day number fits an int. */
  method TimegmThenGmtime(tm: Tm) returns (r: Tm)
    requires IsDate(tm.year + 1900, tm.mon, tm.mday) && DayNumber(tm.year + 1900, tm.mon, tm.mday) < INT_LIMIT
    requires 0 <= tm.sec < 60 && 0 <= tm.min < 60 && 0 <= tm.hour < 24
    ensures r == tm.(wday := r.wday, yday := DayOfYear(tm.year + 1900, tm.mon, tm.mday), isdst := 0)
    ensures DayNumber(tm.year + 1900, tm.mon, tm.mday) + 4 < INT_LIMIT ==>
              r.wday == (DayNumber(tm.year + 1900, tm.mon, tm.mday) + 4) % 7
  {
    hide DayNumber, DayOfYear, MonthLength, IsLeap, Int, Rem;
    ghost var d := DayNumber(tm.year + 1900, tm.mon, tm.mday);
    ghost var s := tm.hour * 3600 + tm.min * 60 + tm.sec;
    ghost var want := tm.(wday := Rem(Int(d + 4), 7), yday := DayOfYear(tm.year + 1900, tm.mon, tm.mday), isdst := 0);
    DateDescribed(tm, d, s);
    DescribedComputable(want, d, s);
    var t, _ := Timegm(tm);
    DayAndSecond(t, d, s);
    r := GmtimeR(t);
    OneDescription(r, want, d, s);
  }

  lemma DateDescribed(tm: Tm, d: int, s: int)
    requires IsDate(tm.year + 1900, tm.mon, tm.mday) && d == DayNumber(tm.year + 1900, tm.mon, tm.mday)
    requires 0 <= tm.sec < 60 && 0 <= tm.min < 60 && 0 <= tm.hour < 24 && s == tm.hour * 3600 + tm.min * 60 + tm.sec
    ensures d >= 0 && 0 <= s < 86400 && (d + 4 < INT_LIMIT ==> Rem(Int(d + 4), 7) == (d + 4) % 7)
    ensures Describes(tm.(wday := Rem(Int(d + 4), 7), yday := DayOfYear(tm.year + 1900, tm.mon, tm.mday), isdst := 0), d, s)
  {
    DayInYear(tm.year + 1900, tm.mon, tm.mday);
  }

  lemma DayAndSecond(t: int, d: int, s: int)
    requires t == d * 86400 + s && 0 <= s < 86400 && 0 <= d < INT_LIMIT
    ensures 0 <= t < TIME_LIMIT && Int(Clamp(t) / 86400) == d && Clamp(t) % 86400 == s
  {
  }
}
