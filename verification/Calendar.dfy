/**
 Julian day numbers (`date2j` in ext/pg_binary_encoder.c, `j2date` in ext/pg_binary_decoder.c) against the proleptic
 Gregorian calendar, and the binary date format built on them.
 */
module Calendar {
  import opened Bytes

  datatype Date = Date(year: int, month: int, day: int)

  // ---------------------------------------------------------------- the calendar

  /** The leap rule of appendix C of RFC 3339. */
  predicate IsLeap(year: int) {
    year % 4 == 0 && (year % 100 != 0 || year % 400 == 0)
  }

  /** The month lengths of section 5.7 of RFC 3339. */
  function DaysInMonth(year: int, month: int): int {
    if month == 2 then if IsLeap(year) then 29 else 28
    else if month == 4 || month == 6 || month == 9 || month == 11 then 30
    else 31
  }

  predicate IsDate(d: Date) {
    1 <= d.month <= 12 && 1 <= d.day <= DaysInMonth(d.year, d.month)
  }

  function NextDay(d: Date): Date {
    if d.day < DaysInMonth(d.year, d.month) then d.(day := d.day + 1)
    else if d.month < 12 then Date(d.year, d.month + 1, 1)
    else Date(d.year + 1, 1, 1)
  }

  /** On or after 1 March of the year -4800. */
  predicate SinceFirst(d: Date) {
    d.year > -4800 || (d.year == -4800 && d.month > 2)
  }

  // ---------------------------------------------------------------- what the two functions compute

  /** C division: towards zero. */
  function Quotient(x: int, d: int): int
    requires d > 0
  {
    if x >= 0 then x / d else -(-x / d)
  }

  /** Days up to a year that begins in March. */
  function YearDays(year: int): int {
    var century := Quotient(year, 100);
    year * 365 - 32167 + (Quotient(year, 4) - century + Quotient(century, 4))
  }

  /** Days up to a month, where March is 4. */
  function MonthDays(month: int): int {
    7834 * month / 256
  }

  /** `date2j`. */
  function Julian(d: Date): int {
    if d.month > 2 then YearDays(d.year + 4800) + (MonthDays(d.month + 1) + d.day)
    else YearDays(d.year + 4799) + (MonthDays(d.month + 13) + d.day)
  }

  /** The number of 1 March -4800. */
  const FIRST_DAY := -32044

  /** The day number of 1 January 2000. */
  const EPOCH := 2451545

  /** The month, counted so that March is 4, of a day counted from 1 March. */
  function MonthOf(m: nat): nat { (m + 123) * 2141 / 65536 }

  /** The days of the year up to the month `q`, plus 123. */
  function DaysBefore(q: nat): nat { MonthDays(q) }

  /** The day `m` of the year that begins on 1 March of the year `y` - 4800. */
  function Assemble(y: nat, m: nat): Date {
    var q := MonthOf(m);
    Date(y - 4800 + (if q >= 14 then 1 else 0), (q + 10) % 12 + 1, m + 123 - DaysBefore(q))
  }

  /** `j2date` where nothing wraps around. */
  function DateOf(jd: int): Date
    requires jd >= FIRST_DAY
  {
    var n := jd - FIRST_DAY;
    var quad := n / 146097;
    var extra := (n - quad * 146097) * 4 + 3;
    FromLinear(n + 60 + quad * 3 + extra / 146097)
  }

  /** The rest of it: the date of a day counted from 1 January -4800, when every fourth year is a leap year. */
  function FromLinear(n: nat): Date {
    var quad := n / 1461;
    var t := n - quad * 1461;
    var y := t * 4 / 1461;
    var m := if y != 0 then (t + 305) % 365 else (t + 306) % 366;
    var q := MonthOf(m);
    Date(y + quad * 4 - 4800, (q + 10) % 12 + 1, m + 123 - DaysBefore(q))
  }

  // ---------------------------------------------------------------- years that begin in March

  /** A day `m` of the year that begins on 1 March of `y` - 4800; its last February may be a leap month. */
  predicate InYear(y: nat, m: nat) {
    m < 365 || (m == 365 && IsLeap(y + 1))
  }

  /** The days from 1 March -4800 on. */
  function Count(y: nat, m: nat): nat {
    365 * y + (y / 4 - y / 100 + y / 400) + m
  }

  /** The months' table is inverted by the multiplication. */
  lemma Months(m: nat)
    requires m <= 365
    ensures 4 <= MonthOf(m) <= 15
    ensures DaysBefore(MonthOf(m)) < m + 123 <= DaysBefore(MonthOf(m) + 1)
    ensures m >= 306 <==> MonthOf(m) >= 14
  {
    var x, q := (m + 123) * 2141, MonthOf(m);
    assert 65536 * q <= x < 65536 * q + 65536;
  }

  lemma MonthsOnlyOne(m: nat, q: nat)
    requires 4 <= q <= 15 && DaysBefore(q) < m + 123 <= DaysBefore(q + 1) && m <= 365
    ensures MonthOf(m) == q
  {
    hide MonthOf;
    Months(m);
    var p := MonthOf(m);
    if p < q {
      TableGrows(p + 1, q);
    } else if q < p {
      TableGrows(q + 1, p);
    }
  }

  lemma TableGrows(p: nat, q: nat)
    requires p <= q
    ensures DaysBefore(p) <= DaysBefore(q)
  {
  }

  /** The table's months have the calendar's lengths, apart from the last one, February. */
  lemma MonthLengths(q: nat, year: int)
    requires 4 <= q <= 15
    ensures q < 15 ==> DaysBefore(q + 1) - DaysBefore(q) == DaysInMonth(year, (q + 10) % 12 + 1)
    ensures q == 15 ==> DaysBefore(q) == 459
  {
  }

  lemma LeapShift(y: int)
    ensures IsLeap(y - 4800) == IsLeap(y)
  {
    assert (y - 4800) % 4 == y % 4;
    assert (y - 4800) % 100 == y % 100;
    assert (y - 4800) % 400 == y % 400;
  }

  /** Every day of such a year is a date of the calendar. */
  lemma AssembleIsDate(y: nat, m: nat)
    requires InYear(y, m)
    ensures IsDate(Assemble(y, m)) && SinceFirst(Assemble(y, m))
  {
    hide MonthOf, DaysBefore, IsLeap;
    Months(m);
    var d, q := Assemble(y, m), MonthOf(m);
    MonthLengths(q, d.year);
    LeapShift(y + 1);
  }

  /** Every date from 1 March -4800 on is a day of such a year. */
  lemma DateInYear(d: Date) returns (y: nat, m: nat)
    requires IsDate(d) && SinceFirst(d)
    ensures InYear(y, m) && d == Assemble(y, m)
  {
    hide IsLeap;
    var q := if d.month > 2 then d.month + 1 else d.month + 13;
    y := if d.month > 2 then d.year + 4800 else d.year + 4799;
    m := DaysBefore(q) + d.day - 123;
    MonthLengths(q, d.year);
    LeapShift(y + 1);
    assert m <= 365;
    MonthsOnlyOne(m, q);
    assert (q + 10) % 12 + 1 == d.month;
  }

  /** The day after: one more in the year, or the first of the next year. */
  lemma NextInYear(y: nat, m: nat)
    requires InYear(y, m)
    ensures NextDay(Assemble(y, m)) == if InYear(y, m + 1) then Assemble(y, m + 1) else Assemble(y + 1, 0)
  {
    hide Assemble, NextDay, MonthOf;
    Months(m);
    if !InYear(y, m + 1) {
      NextYear(y, m);
    } else if m + 123 < DaysBefore(MonthOf(m) + 1) {
      NextInMonth(y, m);
    } else {
      NextMonth(y, m);
    }
  }

  lemma NextInMonth(y: nat, m: nat)
    requires InYear(y, m) && InYear(y, m + 1) && m + 123 < DaysBefore(MonthOf(m) + 1)
    ensures NextDay(Assemble(y, m)) == Assemble(y, m + 1)
  {
    hide MonthOf, DaysBefore, IsLeap, DaysInMonth;
    Months(m);
    MonthsOnlyOne(m + 1, MonthOf(m));
    AssembleIsDate(y, m);
    LastOfMonth(y, m);
  }

  lemma NextMonth(y: nat, m: nat)
    requires InYear(y, m) && InYear(y, m + 1) && m + 123 == DaysBefore(MonthOf(m) + 1)
    ensures NextDay(Assemble(y, m)) == Assemble(y, m + 1)
  {
    hide MonthOf, DaysBefore, IsLeap, DaysInMonth;
    var q := MonthOf(m);
    Months(m);
    LastOfMonth(y, m);
    TableGrowsStrictly(q + 1);
    MonthsOnlyOne(m + 1, q + 1);
  }

  lemma NextYear(y: nat, m: nat)
    requires InYear(y, m) && !InYear(y, m + 1)
    ensures NextDay(Assemble(y, m)) == Assemble(y + 1, 0)
  {
    hide MonthOf, DaysBefore, IsLeap, DaysInMonth;
    LastOfMonth(y, m);
    FirstOfMarch();
  }

  /** The last day of a month, in the table and in the calendar. */
  lemma LastOfMonth(y: nat, m: nat)
    requires InYear(y, m)
    ensures var d, q := Assemble(y, m), MonthOf(m);
            && (d.day == DaysInMonth(d.year, d.month) <==>
                if q < 15 then m + 123 == DaysBefore(q + 1) else !InYear(y, m + 1))
            && (q == 15 <==> d.month == 2)
            && (q == 15 ==> d.year == y + 1 - 4800 && m <= 365 && m + 123 < DaysBefore(q + 1))
            && (!InYear(y, m + 1) ==> q == 15)
  {
    var d, q := Assemble(y, m), MonthOf(m);
    Months(m);
    MonthLengths(q, d.year);
    LeapShift(y + 1);
    if m >= 364 {
      MonthsOnlyOne(m, 15);
    }
    assert DaysBefore(16) == 489;
    hide MonthOf, DaysBefore, IsLeap;
  }

  lemma FirstOfMarch()
    ensures MonthOf(0) == 4 && DaysBefore(4) == 122
  {
  }

  lemma TableGrowsStrictly(q: nat)
    ensures DaysBefore(q) + 30 <= DaysBefore(q + 1)
  {
  }

  lemma CountNext(y: nat, m: nat)
    requires InYear(y, m)
    ensures Count(y, m) + 1 == if InYear(y, m + 1) then Count(y, m + 1) else Count(y + 1, 0)
  {
    if !InYear(y, m + 1) {
      LeapDays(y);
    }
  }

  lemma LeapDays(y: nat)
    ensures (y + 1) / 4 - (y + 1) / 100 + (y + 1) / 400 == y / 4 - y / 100 + y / 400 + (if IsLeap(y + 1) then 1 else 0)
  {
    StepOfQuotient(y, 4);
    StepOfQuotient(y, 100);
    StepOfQuotient(y, 400);
    assert (y + 1) % 400 == 0 ==> (y + 1) % 100 == 0;
    assert (y + 1) % 100 == 0 ==> (y + 1) % 4 == 0;
  }

  lemma StepOfQuotient(y: nat, d: nat)
    requires d > 1
    ensures (y + 1) / d == y / d + (if (y + 1) % d == 0 then 1 else 0)
  {
    var q, r := y / d, y % d;
    assert y == q * d + r;
    if r + 1 == d {
      assert (q + 1) * d == q * d + d;
      DivIs(y + 1, d, q + 1, 0);
    } else {
      DivIs(y + 1, d, q, r + 1);
    }
  }

  // ---------------------------------------------------------------- the two functions on such years

  lemma PartsAre(y: nat, c: nat, h: nat, f: nat, r: nat)
    requires y == 400 * c + 100 * h + 4 * f + r && h <= 3 && f <= 24 && r <= 3
    ensures y / 4 == 100 * c + 25 * h + f && y / 100 == 4 * c + h && y / 400 == c
    ensures IsLeap(y + 1) <==> r == 3 && (f < 24 || h == 3)
  {
    DivIs(y, 400, c, 100 * h + 4 * f + r);
    DivIs(y, 100, 4 * c + h, 4 * f + r);
    DivIs(y, 4, 100 * c + 25 * h + f, r);
    StepOfQuotient(y, 4);
    StepOfQuotient(y, 100);
    StepOfQuotient(y, 400);
  }

  /** The parts a year is made of: cycles of 400 years, centuries, cycles of four years, and years. */
  lemma YearParts(y: nat) returns (c: nat, h: nat, f: nat, r: nat)
    ensures y == 400 * c + 100 * h + 4 * f + r && h <= 3 && f <= 24 && r <= 3
    ensures y / 4 == 100 * c + 25 * h + f && y / 100 == 4 * c + h && y / 400 == c
    ensures IsLeap(y + 1) <==> r == 3 && (f < 24 || h == 3)
  {
    hide IsLeap;
    c := y / 400;
    var y1 := y - 400 * c;
    h := y1 / 100;
    var y2 := y1 - 100 * h;
    f := y2 / 4;
    r := y2 - 4 * f;
    PartsAre(y, c, h, f, r);
  }

  /** `date2j` counts the days. */
  lemma JulianOfAssemble(y: nat, m: nat)
    requires InYear(y, m)
    ensures Julian(Assemble(y, m)) == Count(y, m) + FIRST_DAY
  {
    Months(m);
    var d, q := Assemble(y, m), MonthOf(m);
    hide MonthOf, InYear;
    assert y / 100 / 4 == y / 400 by { QuotientOfQuotient(y); }
    assert q == if d.month > 2 then d.month + 1 else d.month + 13;
    assert y == if d.month > 2 then d.year + 4800 else d.year + 4799;
    hide MonthDays;
  }

  lemma QuotientOfQuotient(y: nat)
    ensures y / 100 / 4 == y / 400
  {
    DivIs(y, 400, y / 100 / 4, y / 100 % 4 * 100 + y % 100);
  }

  /** Four years from a leap year's March on, in the count where every fourth year is a leap year. */
  lemma FourYears(k: nat, r: nat, m: nat)
    requires r <= 3 && m <= 365 && (m == 365 ==> r == 3)
    ensures FromLinear(1461 * k + 365 * r + m + 60) == Assemble(4 * k + r, m)
  {
    hide MonthOf, DaysBefore, FromLinear;
    Months(m);
    var s := 365 * r + m + 60;
    if s < 1461 {
      WithinFour(r, m);
      LinearParts(k, s, if m >= 306 then r + 1 else r, m);
    } else {
      DivIs(s - 1461 + 306, 366, 0, m);
      DivIs((s - 1461) * 4, 1461, 0, (s - 1461) * 4);
      LinearParts(k + 1, s - 1461, 0, m);
    }
  }

  lemma LinearParts(k: nat, t: nat, y: nat, m: nat)
    requires t < 1461 && y == t * 4 / 1461 && m == if y != 0 then (t + 305) % 365 else (t + 306) % 366
    ensures var q := MonthOf(m);
            FromLinear(1461 * k + t) == Date(4 * k + y - 4800, (q + 10) % 12 + 1, m + 123 - DaysBefore(q))
  {
    hide MonthOf, DaysBefore;
    DivIs(1461 * k + t, 1461, k, t);
  }

  lemma WithinFour(r: nat, m: nat)
    requires r <= 3 && m <= 365 && (m == 365 ==> r == 3) && 365 * r + m + 60 < 1461
    ensures var t := 365 * r + m + 60; var y := t * 4 / 1461;
            && y == (if m >= 306 then r + 1 else r)
            && m == if y != 0 then (t + 305) % 365 else (t + 306) % 366
  {
    var t := 365 * r + m + 60;
    if m >= 306 {
      DivIs(t + 305, 365, r + 1, m);
    } else if r > 0 {
      DivIs(t + 305, 365, r + 1, m);
    } else {
      DivIs(t + 306, 366, 1, m);
    }
  }

  /** The cycles of 400 years, and the centuries in one, that `j2date` takes off. */
  lemma Centuries(c: nat, h: nat, x: nat)
    requires h <= 3 && x <= 36524 && (x == 36524 ==> h == 3)
    ensures var n := 146097 * c + 36524 * h + x;
            DateOf(n + FIRST_DAY) == FromLinear(1461 * (100 * c + 25 * h) + x + 60)
  {
    hide FromLinear;
    var rest := 36524 * h + x;
    var n := 146097 * c + rest;
    DivIs(n, 146097, c, rest);
    DivIs(rest * 4 + 3, 146097, h, 4 * x + 3 - h);
    assert n + 60 + c * 3 + h == 1461 * (100 * c + 25 * h) + x + 60;
  }

  /** `j2date` finds the day of a year that begins in March. */
  lemma DateOfCount(y: nat, m: nat)
    requires InYear(y, m)
    ensures DateOf(Count(y, m) + FIRST_DAY) == Assemble(y, m)
  {
    hide IsLeap, FromLinear, Assemble, DateOf;
    var c, h, f, r := YearParts(y);
    Centuries(c, h, 1461 * f + 365 * r + m);
    FourYears(100 * c + 25 * h + f, r, m);
  }

  /** Every day is one of such a year. */
  lemma DayInYear(n: nat) returns (y: nat, m: nat)
    ensures InYear(y, m) && Count(y, m) == n
  {
    var c, n1 := n / 146097, n % 146097;
    var h := if n1 / 36524 > 3 then 3 else n1 / 36524;
    var n2 := n1 - 36524 * h;
    var f, n3 := n2 / 1461, n2 % 1461;
    var r := if n3 / 365 > 3 then 3 else n3 / 365;
    m := n3 - 365 * r;
    y := 400 * c + 100 * h + 4 * f + r;
    assert n2 <= 36524 && (n2 == 36524 ==> h == 3) && f <= 24;
    PartsAre(y, c, h, f, r);
  }

  // ---------------------------------------------------------------- the calendar laws

  /** Every day number from that of 1 March -4800 on is the date of the calendar that it comes from. */
  lemma JulianDateOf(jd: int)
    requires jd >= FIRST_DAY
    ensures IsDate(DateOf(jd)) && SinceFirst(DateOf(jd)) && Julian(DateOf(jd)) == jd
  {
    hide DateOf, Julian, Count, InYear, Assemble;
    var y, m := DayInYear(jd - FIRST_DAY);
    DateOfCount(y, m);
    JulianOfAssemble(y, m);
    AssembleIsDate(y, m);
  }

  /** And every date of the calendar from 1 March -4800 on comes back from its day number. */
  lemma DateOfJulian(d: Date)
    requires IsDate(d) && SinceFirst(d)
    ensures Julian(d) >= FIRST_DAY && DateOf(Julian(d)) == d
  {
    hide DateOf, Julian, InYear, Assemble, IsDate, SinceFirst;
    var y, m := DateInYear(d);
    DateOfCount(y, m);
    JulianOfAssemble(y, m);
  }

  /** Day by day: the next number is the next day. */
  lemma DayByDay(jd: int)
    requires jd >= FIRST_DAY
    ensures DateOf(jd + 1) == NextDay(DateOf(jd))
  {
    hide DateOf, Count, InYear, Assemble, NextDay;
    var y, m := DayInYear(jd - FIRST_DAY);
    DateOfCount(y, m);
    NextInYear(y, m);
    CountNext(y, m);
    if InYear(y, m + 1) {
      DateOfCount(y, m + 1);
    } else {
      assert InYear(y + 1, 0) by { FirstInYear(y + 1); }
      DateOfCount(y + 1, 0);
    }
  }

  lemma FirstInYear(y: nat)
    ensures InYear(y, 0)
  {
  }

  /** `date2j` of the next day is one more. */
  lemma NextDayIsOneMore(d: Date)
    requires IsDate(d) && SinceFirst(d)
    ensures Julian(NextDay(d)) == Julian(d) + 1
  {
    hide DateOf, Julian, NextDay, IsDate, SinceFirst;
    DateOfJulian(d);
    DayByDay(Julian(d));
    JulianDateOf(Julian(d) + 1);
  }

  /** Where the two counts are tied to the calendar. */
  lemma Epoch()
    ensures DateOf(FIRST_DAY) == Date(-4800, 3, 1)
    ensures DateOf(2451545) == Date(2000, 1, 1)
  {
    assert Julian(Date(-4800, 3, 1)) == FIRST_DAY;
    assert Julian(Date(2000, 1, 1)) == 2451545;
    hide Julian, DateOf;
    DateOfJulian(Date(-4800, 3, 1));
    DateOfJulian(Date(2000, 1, 1));
  }

  // ---------------------------------------------------------------- 32 bits

  /** The count that `j2date` goes by, in unsigned 32-bit integers. */
  function Shifted(jd: int): (r: nat)
    ensures r < 0x1_0000_0000
  {
    var n := U32(jd + 32044);
    var quad := n / 146097;
    var extra := (n - quad * 146097) * 4 + 3;
    U32(n + 60 + quad * 3 + extra / 146097)
  }

  /** What `j2date` finds for any number, wrapping around where C does. */
  function J2DateOf(jd: int): Date {
    FromLinear(Shifted(jd))
  }

  /** How far the count is ahead of the plain number of days. */
  lemma Ahead(n: nat)
    ensures var c := n / 146097;
            3 * c <= c * 3 + ((n - c * 146097) * 4 + 3) / 146097 <= 3 * c + 3
  {
  }

  /** Nothing wraps around from 1 March -4800 up to the last 32-bit number. */
  lemma J2DateInRange(jd: int)
    requires FIRST_DAY <= jd <= INT32_MAX
    ensures J2DateOf(jd) == DateOf(jd)
  {
    hide FromLinear, U32;
    var n := jd - FIRST_DAY;
    Ahead(n);
    Fits(n);
    Fits(n + 60 + n / 146097 * 3 + ((n - n / 146097 * 146097) * 4 + 3) / 146097);
  }

  lemma FarFromZero(n: nat)
    ensures Julian(FromLinear(n)) >= 1460 * (n / 1461) - 32410
  {
    var d := FromLinear(n);
    var t := n % 1461;
    assert t == n - n / 1461 * 1461;
    var y := t * 4 / 1461;
    var m := if y != 0 then (t + 305) % 365 else (t + 306) % 366;
    assert m <= 365;
    Months(m);
    hide MonthOf, DaysBefore, FromLinear;
    assert d.year + 4800 >= 4 * (n / 1461) && d.day >= 1 && 1 <= d.month <= 12;
    JulianAtLeast(d);
  }

  lemma JulianAtLeast(d: Date)
    requires 1 <= d.month <= 12 && d.day >= 1 && d.year >= -4800
    ensures Julian(d) >= 365 * (d.year + 4799) - 32045
  {
    hide Quotient, MonthDays;
    MonthDaysRange(if d.month > 2 then d.month + 1 else d.month + 13);
    var y := if d.month > 2 then d.year + 4800 else d.year + 4799;
    LeapsInRange(y);
  }

  lemma MonthDaysRange(month: int)
    requires 4 <= month <= 15
    ensures 122 <= MonthDays(month) <= 460
  {
  }

  /** The last number for which the shifted count stays below 2^32. */
  const LAST_UNWRAPPED := -120297

  /** Up to there the count is that of a day 2^32 days later, past every 32-bit number. */
  lemma FarBeforeFirst(jd: int)
    requires INT32_MIN <= jd <= LAST_UNWRAPPED
    ensures J2DateOf(jd) == DateOf(jd + 0x1_0000_0000)
    ensures Julian(J2DateOf(jd)) == jd + 0x1_0000_0000 > INT32_MAX
  {
    hide FromLinear, Julian, U32;
    var n := jd + 0x1_0000_0000 - FIRST_DAY;
    UnsignedIs(jd + 32044, n);
    AheadUpTo(n);
    Fits(n + 60 + n / 146097 * 3 + ((n - n / 146097 * 146097) * 4 + 3) / 146097);
    JulianDateOf(jd + 0x1_0000_0000);
  }

  lemma UnsignedIs(x: int, n: nat)
    requires n < 0x1_0000_0000 && x == n - 0x1_0000_0000
    ensures U32(x) == n
  {
  }

  /** For the last day that does not wrap around the correction is 88252 days; later it is not less. */
  lemma AheadUpTo(n: nat)
    requires n < 0x1_0000_0000
    ensures var ahead := 60 + n / 146097 * 3 + ((n - n / 146097 * 146097) * 4 + 3) / 146097;
            if n <= 0x1_0000_0000 + LAST_UNWRAPPED - FIRST_DAY then n + ahead < 0x1_0000_0000
            else 0 <= n + ahead - 0x1_0000_0000 < 88260
  {
    var c := n / 146097;
    var rest := n - c * 146097;
    assert c <= 29398 && 0 <= rest < 146097;
    assert c == 29397 && rest >= 65535 ==> (rest * 4 + 3) / 146097 >= 1;
  }

  /** From there to 1 March -4800 it wraps around to a date soon after -4800, which has another number. */
  lemma ShortlyBeforeFirst(jd: int)
    requires LAST_UNWRAPPED < jd < FIRST_DAY
    ensures INT32_MIN + EPOCH <= Julian(J2DateOf(jd)) <= INT32_MAX && Julian(J2DateOf(jd)) != jd
  {
    hide FromLinear, Julian, U32;
    var n := jd + 0x1_0000_0000 - FIRST_DAY;
    UnsignedIs(jd + 32044, n);
    AheadUpTo(n);
    var ahead := 60 + n / 146097 * 3 + ((n - n / 146097 * 146097) * 4 + 3) / 146097;
    WrappedOnce(n + ahead);
    NearZero(Shifted(jd));
  }

  lemma WrappedOnce(x: int)
    requires 0x1_0000_0000 <= x < 0x2_0000_0000
    ensures U32(x) == x - 0x1_0000_0000
  {
  }

  /** The dates up to 88260 days after 1 January -4800 have numbers between -32410 and 60000. */
  lemma NearZero(n: nat)
    requires n < 88260
    ensures -32410 <= Julian(FromLinear(n)) <= 100000
    ensures Julian(FromLinear(n)) >= n - 34000
  {
    FarFromZero(n);
    LinearFacts(n);
    hide FromLinear, Julian;
    JulianAtMost(FromLinear(n));
  }

  lemma LinearFacts(n: nat)
    ensures var d := FromLinear(n);
            && 4 * (n / 1461) <= d.year + 4800 <= 4 * (n / 1461) + 3
            && 1 <= d.month <= 12 && 1 <= d.day <= 31
  {
  }

  lemma JulianAtMost(d: Date)
    requires 1 <= d.month <= 12 && d.day <= 31 && -4800 <= d.year
    ensures Julian(d) <= 366 * (d.year + 4801) - 32167 + 491
  {
    hide Quotient, MonthDays;
    MonthDaysRange(if d.month > 2 then d.month + 1 else d.month + 13);
    LeapsInRange(if d.month > 2 then d.year + 4800 else d.year + 4799);
  }

  /** Before 1 March -4800 `j2date` never finds the date that has the number it is given. */
  lemma BeforeFirst(jd: int)
    requires INT32_MIN <= jd < FIRST_DAY
    ensures Julian(J2DateOf(jd)) != jd
  {
    hide J2DateOf, Julian, DateOf;
    if jd <= LAST_UNWRAPPED {
      FarBeforeFirst(jd);
    } else {
      ShortlyBeforeFirst(jd);
    }
  }

  /**
   In 32-bit arithmetic that wraps around, `date2j` undoes `j2date` from 1 March -4800 on, and again for numbers so
   low that the date is 2^32 days too late and its number too large by as much; it fails exactly in between.
   */
  lemma J2DateExact(jd: int)
    requires INT32_MIN <= jd <= INT32_MAX
    ensures Truncate32(Julian(J2DateOf(jd))) == jd <==> jd >= FIRST_DAY || jd <= LAST_UNWRAPPED
  {
    hide DateOf, J2DateOf, Julian, Truncate32;
    if jd >= FIRST_DAY {
      J2DateInRange(jd);
      JulianDateOf(jd);
      TruncateFinds(jd);
    } else if jd <= LAST_UNWRAPPED {
      FarBeforeFirst(jd);
      TruncateTurn(jd);
    } else {
      ShortlyBeforeFirst(jd);
      TruncateFinds(Julian(J2DateOf(jd)));
    }
  }

  lemma TruncateTurn(x: int)
    requires INT32_MIN <= x <= INT32_MAX
    ensures Truncate32(x + 0x1_0000_0000) == x
  {
  }

  /** As a date of the calendar the number is only right from 1 March -4800 on. */
  lemma J2DateRight(jd: int)
    requires INT32_MIN <= jd <= INT32_MAX
    ensures Julian(J2DateOf(jd)) == jd <==> jd >= FIRST_DAY
  {
    hide DateOf, J2DateOf, Julian;
    if jd >= FIRST_DAY {
      J2DateInRange(jd);
      JulianDateOf(jd);
    } else {
      BeforeFirst(jd);
    }
  }

  /** And for the calendar's dates from then on. */
  lemma Date2JExact(d: Date)
    requires IsDate(d) && INT32_MIN <= Julian(d) <= INT32_MAX
    ensures J2DateOf(Julian(d)) == d <==> SinceFirst(d)
  {
    hide DateOf, J2DateOf, Julian, IsDate;
    var jd := Julian(d);
    if jd >= FIRST_DAY {
      J2DateInRange(jd);
      JulianDateOf(jd);
      if SinceFirst(d) {
        DateOfJulian(d);
      }
    } else {
      BeforeFirst(jd);
      if SinceFirst(d) {
        DateOfJulian(d);
      }
    }
  }

  /** Truncating division makes 29 February -4800 run into 1 March. */
  lemma LeapDayCollides()
    ensures IsDate(Date(-4800, 2, 29)) && Julian(Date(-4800, 2, 29)) == Julian(Date(-4800, 3, 1))
  {
  }

  type int32 = x: int | INT32_MIN <= x <= INT32_MAX

  /** One step of signed 32-bit arithmetic; `exact` as long as none has wrapped around. */
  method Step(x: int, ghost exact: bool) returns (r: int32, ghost kept: bool)
    ensures r == Truncate32(x) && kept == (exact && INT32_MIN <= x <= INT32_MAX)
    ensures INT32_MIN <= x <= INT32_MAX ==> r == x
  {
    TruncateFinds(x);
    r, kept := Truncate32(x), exact && INT32_MIN <= x <= INT32_MAX;
  }

  /**
   `date2j` in 32-bit integers: it wraps around to the day number, for every year to which 4800 can be added, and
   no step wraps around where the caller can count the days from the year 2000.
   */
  method Date2J(d: Date) returns (julian: int32, ghost exact: bool)
    requires INT32_MIN <= d.year <= INT32_MAX && 1 <= d.month <= 12 && 1 <= d.day <= 31
    ensures d.year <= INT32_MAX - 4800 ==> julian == Truncate32(Julian(d))
    ensures INT32_MIN + EPOCH <= Julian(d) <= INT32_MAX ==> exact && julian == Julian(d)
  {
    hide YearInRange, YearDays, MonthDays, Truncate32;
    if INT32_MIN + EPOCH <= Julian(d) <= INT32_MAX {
      InRange(d);
    }
    TruncateFinds(Julian(d));
    var year: int32, month: int32 := d.year, d.month;
    exact := true;
    if month > 2 {
      month := month + 1;
      year, exact := Step(year + 4800, exact);
    } else {
      month := month + 13;
      year, exact := Step(year + 4799, exact);
    }
    julian, exact := DayNumber(year, month, d.day, exact);
  }

  /** The common rest of it, on a year that begins in March. */
  method DayNumber(year: int32, month: int32, day: int32, ghost before: bool) returns (julian: int32, ghost exact: bool)
    requires 4 <= month <= 15 && 1 <= day <= 31
    ensures julian == Truncate32(YearDays(year) + (MonthDays(month) + day))
    ensures before && YearInRange(year) && YearDays(year) + (MonthDays(month) + day) <= INT32_MAX ==> exact
  {
    hide YearDays, MonthDays, Truncate32, Quotient;
    MonthDaysRange(month);
    julian, exact := DaysBeforeYear(year, before);
    var days := DaysBeforeMonth(month);
    days := days + day;
    TruncateSum(YearDays(year), days);
    TruncateFinds(YearDays(year));
    julian, exact := Step(julian + days, exact);
  }

  method DaysBeforeMonth(month: int32) returns (days: int32)
    requires 4 <= month <= 15
    ensures days == MonthDays(month)
  {
    days := 7834 * month;
    days := days / 256;
  }

  /** The middle of it. */
  method DaysBeforeYear(year: int32, ghost before: bool) returns (julian: int32, ghost exact: bool)
    ensures julian == Truncate32(YearDays(year))
    ensures before && YearInRange(year) ==> exact
  {
    hide Quotient, Truncate32;
    LeapsInRange(year);
    LeapsInRange(Quotient(year, 100));
    var century: int32 := Quotient(year, 100);
    var days: int32, leaps: int32;
    days, exact := Step(year * 365, before);
    julian, exact := Step(days - 32167, exact);
    TruncateSum(year * 365, -32167);
    leaps, exact := Step(Quotient(year, 4) - century, exact);
    TruncateSum(Quotient(year, 4) - century, Quotient(century, 4));
    leaps, exact := Step(leaps + Quotient(century, 4), exact);
    TruncateBoth(year * 365 - 32167, Quotient(year, 4) - century + Quotient(century, 4));
    julian, exact := Step(julian + leaps, exact);
  }

  lemma InRange(d: Date)
    requires 1 <= d.month <= 12 && 1 <= d.day <= 31 && INT32_MIN + EPOCH <= Julian(d) <= INT32_MAX
    ensures YearInRange(if d.month > 2 then d.year + 4800 else d.year + 4799)
    ensures -6_010_000 <= d.year <= 6_010_000
  {
    var y := if d.month > 2 then d.year + 4800 else d.year + 4799;
    LeapsInRange(y);
    MonthDaysRange(if d.month > 2 then d.month + 1 else d.month + 13);
    hide Quotient, MonthDays;
  }

  /** Each of the terms that make up the days before a year is a 32-bit integer. */
  predicate YearInRange(y: int) {
    var century := Quotient(y, 100);
    && -6_000_000 <= y <= 6_000_000
    && INT32_MIN <= y * 365 - 32167 && y * 365 <= INT32_MAX
    && -6_000_000 <= Quotient(y, 4) <= 6_000_000
    && -6_000_000 <= century <= 6_000_000
    && -6_000_000 <= Quotient(century, 4) <= 6_000_000
    && INT32_MIN <= YearDays(y) <= INT32_MAX
  }

  lemma LeapsInRange(y: int)
    ensures var century := Quotient(y, 100);
            var leaps := Quotient(y, 4) - century + Quotient(century, 4);
            && (y >= 0 ==> 0 <= Quotient(y, 4) <= y && 0 <= Quotient(century, 4) <= century <= y && 0 <= leaps <= y)
            && (y <= 0 ==> y <= Quotient(y, 4) <= 0 && y <= century <= Quotient(century, 4) <= 0 && y <= leaps <= 0)
  {
    LeapsOf(if y >= 0 then y else -y);
  }

  lemma LeapsOf(y: nat)
    ensures 0 <= y / 100 / 4 <= y / 100 <= y / 4 <= y
    ensures 0 <= y / 4 - y / 100 + y / 100 / 4 <= y
  {
    var q := y / 100;
    assert q / 4 <= q;
  }

  lemma Fits(x: int)
    requires 0 <= x < 0x1_0000_0000
    ensures U32(x) == x
  {
  }

  /** `j2date`, with every unsigned step cut to 32 bits. */
  method J2Date(jd: int32) returns (year: int, month: int, day: int)
    ensures Date(year, month, day) == J2DateOf(jd)
  {
    hide FromLinear, U32;
    var julian := U32(jd);
    julian := U32(julian + 32044);
    WrapTwice(jd, 32044);
    var quad := julian / 146097;
    Fits(quad * 146097);
    Fits(julian - quad * 146097);
    Fits((julian - quad * 146097) * 4 + 3);
    var extra := U32(U32(julian - U32(quad * 146097)) * 4 + 3);
    Fits(quad * 3);
    Ahead(julian);
    Fits(60 + quad * 3 + extra / 146097);
    julian := U32(julian + U32(60 + U32(quad * 3) + extra / 146097));
    year, month, day := FourYearCycle(julian);
  }

  lemma WrapTwice(x: int, y: int)
    ensures U32(U32(x) + y) == U32(x + y)
  {
    var q := x / 0x1_0000_0000;
    var z := (U32(x) + y) / 0x1_0000_0000;
    DivIs(x + y, 0x1_0000_0000, q + z, U32(U32(x) + y));
  }

  /** The second half of it. */
  method FourYearCycle(count: nat) returns (year: int, month: int, day: int)
    requires count < 0x1_0000_0000
    ensures Date(year, month, day) == FromLinear(count)
  {
    hide U32;
    var julian, quad := count, count / 1461;
    Fits(quad * 1461);
    Fits(julian - quad * 1461);
    julian := U32(julian - U32(quad * 1461));
    Fits(julian * 4);
    var y := U32(julian * 4) / 1461;
    ghost var m := if y != 0 then (julian + 305) % 365 else (julian + 306) % 366;
    Fits(m + 123);
    julian := U32((if y != 0 then (julian + 305) % 365 else (julian + 306) % 366) + 123);
    Fits(quad * 4);
    Fits(y + quad * 4);
    y := U32(y + U32(quad * 4));
    year := y - 4800;
    Months(m);
    Fits(julian * 2141);
    quad := U32(julian * 2141) / 65536;
    Fits(7834 * quad);
    day := julian - U32(7834 * quad) / 256;
    month := (quad + 10) % 12 + 1;
  }

  // ---------------------------------------------------------------- the binary format

  datatype Value = Infinity | MinusInfinity | Day(date: Date)

  /** `pg_bin_enc_date`. */
  function EncodeDate(v: Value): seq<byte> {
    match v
    case Infinity => Nbo32(INT32_MAX)
    case MinusInfinity => Nbo32(INT32_MIN)
    case Day(d) => Nbo32(Julian(d) - EPOCH)
  }

  /** `pg_bin_dec_date`. */
  function DecodeDate(s: seq<byte>): Result<Value> {
    if |s| != 4 then Err(WrongType)
    else
      var date := ReadNbo32(s);
      if date == INT32_MAX then Ok(Infinity)
      else if date == INT32_MIN then Ok(MinusInfinity)
      else Ok(Day(J2DateOf(date + EPOCH)))
  }

  /** The round trip: infinities, and exactly the dates from 1 March -4800 on. */
  lemma DecodeEncodeDate(v: Value)
    requires v.Day? ==> IsDate(v.date) && INT32_MIN + EPOCH <= Julian(v.date) <= INT32_MAX
    ensures DecodeDate(EncodeDate(v)) == Ok(v) <==> (v.Day? ==> SinceFirst(v.date))
  {
    hide Julian, J2DateOf, IsDate, SinceFirst, Nbo32, ReadNbo32;
    Nbo32RoundTrip(INT32_MAX);
    Nbo32RoundTrip(INT32_MIN);
    if v.Day? {
      Nbo32RoundTrip(Julian(v.date) - EPOCH);
      Date2JExact(v.date);
      if SinceFirst(v.date) {
        DateOfJulian(v.date);
      }
    }
  }

  /** The date `n` days later. */
  function Later(d: Date, n: nat): Date
    decreases n
  {
    if n == 0 then d else Later(NextDay(d), n - 1)
  }

  lemma {:induction false} JulianLater(d: Date, n: nat)
    requires IsDate(d) && SinceFirst(d)
    ensures Julian(Later(d, n)) == Julian(d) + n
    decreases n
  {
    hide Julian, IsLeap;
    if n > 0 {
      NextDayIsOneMore(d);
      NextIsDate(d);
      JulianLater(NextDay(d), n - 1);
    }
  }

  lemma NextIsDate(d: Date)
    requires IsDate(d) && SinceFirst(d)
    ensures IsDate(NextDay(d)) && SinceFirst(NextDay(d))
  {
  }

  /**
   A date is sent as the number of days from 1 January 2000 to it, over the calendar: positive after that day and
   negative before it. The infinities are the largest and the smallest number.
   */
  lemma DaysAreSent(d: Date, n: nat)
    requires IsDate(d) && SinceFirst(d)
    ensures EncodeDate(Day(Later(Date(2000, 1, 1), n))) == Nbo32(n)
    ensures Later(d, n) == Date(2000, 1, 1) ==> EncodeDate(Day(d)) == Nbo32(-(n as int))
    ensures EncodeDate(Infinity) == [127, 255, 255, 255]
    ensures EncodeDate(MinusInfinity) == [128, 0, 0, 0]
  {
    hide Julian, Nbo32, IsDate, SinceFirst;
    Millennium();
    JulianLater(Date(2000, 1, 1), n);
    JulianLater(d, n);
    Extremes();
  }

  lemma Millennium()
    ensures IsDate(Date(2000, 1, 1)) && SinceFirst(Date(2000, 1, 1)) && Julian(Date(2000, 1, 1)) == EPOCH
  {
  }

  lemma Extremes()
    ensures Nbo32(INT32_MAX) == [127, 255, 255, 255] && Nbo32(INT32_MIN) == [128, 0, 0, 0]
  {
  }

  /** What is received: four bytes, with these two for the infinities, or the day so many days from 1 January 2000. */
  lemma DaysAreReceived(s: seq<byte>, n: nat)
    ensures |s| != 4 ==> DecodeDate(s).Err?
    ensures DecodeDate([127, 255, 255, 255]) == Ok(Infinity) && DecodeDate([128, 0, 0, 0]) == Ok(MinusInfinity)
    ensures n <= INT32_MAX - EPOCH ==> DecodeDate(Nbo32(n)) == Ok(Day(Later(Date(2000, 1, 1), n)))
  {
    hide Julian, J2DateOf, Later, ReadNbo32;
    Extremes();
    hide Nbo32;
    Nbo32RoundTrip(INT32_MAX);
    Nbo32RoundTrip(INT32_MIN);
    if n <= INT32_MAX - EPOCH {
      Nbo32RoundTrip(n);
      Millennium();
      JulianLater(Date(2000, 1, 1), n);
      LaterIsDate(Date(2000, 1, 1), n);
      J2DateInRange(n + EPOCH);
      DateOfJulian(Later(Date(2000, 1, 1), n));
    }
  }

  lemma {:induction false} LaterIsDate(d: Date, n: nat)
    requires IsDate(d) && SinceFirst(d)
    ensures IsDate(Later(d, n)) && SinceFirst(Later(d, n))
    decreases n
  {
    if n > 0 {
      NextIsDate(d);
      LaterIsDate(NextDay(d), n - 1);
    }
  }
}
