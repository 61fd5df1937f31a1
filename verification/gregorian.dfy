/** The proleptic Gregorian calendar behind `timegm` and `gmtime_r`.

    A year is numbered as `tm_year` numbers it, from 1900; a day is numbered from 1970-01-01.
    `YearStart` is the closed form of IEEE Std 1003.1-2017, Base Definitions section 4.16.
 */
module Gregorian {

  predicate IsLeap(y: int) {
    (y % 4 == 0 && y % 100 != 0) || (y + 300) % 400 == 0
  }

  /** Number of the first day of year `1900 + y`. */
  function YearStart(y: int): int {
    (y - 70) * 365 + (y - 69) / 4 - (y - 1) / 100 + (y + 299) / 400
  }

  function YearLength(y: int): int {
    if IsLeap(y) then 366 else 365
  }

  function MonthLength(y: int, m: int): int {
    if m == 1 then (if IsLeap(y) then 29 else 28)
    else if m == 3 || m == 5 || m == 8 || m == 10 then 30
    else 31
  }

  /** Days of year `y` before its month `m`; `m == 12` gives the length of the year. */
  function MonthStart(y: int, m: int): int {
    (if m <= 0 then 0
     else if m == 1 then 31
     else if m == 2 then 59
     else if m == 3 then 90
     else if m == 4 then 120
     else if m == 5 then 151
     else if m == 6 then 181
     else if m == 7 then 212
     else if m == 8 then 243
     else if m == 9 then 273
     else if m == 10 then 304
     else if m == 11 then 334
     else 365) + (if m >= 2 && IsLeap(y) then 1 else 0)
  }

  /** `timegm` on the date fields: months outside 0..11 and days outside the month carry over. */
  function DayNumber(y: int, m: int, d: int): int {
    YearStart(y + m / 12) + MonthStart(y + m / 12, m % 12) + d - 1
  }

  lemma YearStartStep(y: int)
    ensures YearStart(y + 1) == YearStart(y) + YearLength(y)
  {
    assert (y - 68) / 4 - (y - 69) / 4 == if y % 4 == 0 then 1 else 0;
    assert y / 100 - (y - 1) / 100 == if y % 100 == 0 then 1 else 0;
    assert (y + 300) / 400 - (y + 299) / 400 == if (y + 300) % 400 == 0 then 1 else 0;
  }

  lemma {:induction false} YearStartGrows(y: int, z: int)
    requires y <= z
    ensures YearStart(y) + 365 * (z - y) <= YearStart(z) <= YearStart(y) + 366 * (z - y)
    decreases z - y
  {
    if y < z {
      YearStartStep(y);
      YearStartGrows(y + 1, z);
    }
  }

  function YearSearch(n: int, y: int): (r: int)
    requires YearStart(y) <= n
    ensures YearStart(r) <= n < YearStart(r + 1)
    decreases n - YearStart(y)
  {
    YearStartStep(y);
    if n < YearStart(y + 1) then y else YearSearch(n, y + 1)
  }

  /** `tm_year` of day `n`. */
  function YearOf(n: int): (y: int)
    ensures YearStart(y) <= n < YearStart(y + 1)
  {
    assert YearStart(70) == 0;
    if n >= 0 then YearSearch(n, 70)
    else
      YearStartGrows(70 + n, 70);
      YearSearch(n, 70 + n)
  }

  function MonthSearch(y: int, yday: int, m: int): (r: int)
    requires 0 <= m < 12 && MonthStart(y, m) <= yday < YearLength(y)
    ensures 0 <= r < 12 && MonthStart(y, r) <= yday < MonthStart(y, r + 1)
    decreases 12 - m
  {
    if yday < MonthStart(y, m + 1) then m else MonthSearch(y, yday, m + 1)
  }

  /** `tm_mon` of day `n`. */
  function MonthOf(n: int): (m: int)
    ensures 0 <= m < 12
    ensures MonthStart(YearOf(n), m) <= n - YearStart(YearOf(n)) < MonthStart(YearOf(n), m + 1)
  {
    hide YearStart, IsLeap;
    YearStartStep(YearOf(n));
    MonthSearch(YearOf(n), n - YearStart(YearOf(n)), 0)
  }

  /** `tm_mday` of day `n`. */
  function MDayOf(n: int): (d: int)
    ensures 1 <= d <= MonthLength(YearOf(n), MonthOf(n))
  {
    hide YearStart, IsLeap;
    MonthStartStep(YearOf(n), MonthOf(n));
    n - YearStart(YearOf(n)) - MonthStart(YearOf(n), MonthOf(n)) + 1
  }

  /** `tm_wday` of day `n`: 1970-01-01 was a Thursday. */
  function WeekdayOf(n: int): (w: int)
    ensures 0 <= w < 7
  {
    (n + 4) % 7
  }

  predicate ValidDate(y: int, m: int, d: int) {
    0 <= m < 12 && 1 <= d <= MonthLength(y, m)
  }

  lemma MonthStartStep(y: int, m: int)
    ensures 0 <= m < 12 ==> MonthStart(y, m) + MonthLength(y, m) == MonthStart(y, m + 1)
    ensures MonthStart(y, 0) == 0 && MonthStart(y, 12) == YearLength(y)
    ensures 28 <= MonthLength(y, m) <= 31
  {
    hide IsLeap;
  }

  lemma MonthStartGrows(y: int, m: int, k: int)
    ensures m <= k ==> MonthStart(y, m) <= MonthStart(y, k)
  {
    hide IsLeap;
  }

  lemma NormalDayNumber(y: int, m: int, d: int)
    requires 0 <= m < 12
    ensures DayNumber(y, m, d) == YearStart(y) + MonthStart(y, m) + d - 1
  {
    hide YearStart, MonthStart;
    assert m / 12 == 0 && m % 12 == m;
  }

  lemma YearUnique(n: int, y: int)
    requires YearStart(y) <= n < YearStart(y + 1)
    ensures YearOf(n) == y
  {
    hide YearStart, YearOf;
    var z := YearOf(n);
    if z < y {
      YearStartGrows(z + 1, y);
    } else if y < z {
      YearStartGrows(y + 1, z);
    }
  }

  /** `gmtime_r` undoes `timegm` on every normalised date. */
  lemma DateRoundTrip(y: int, m: int, d: int)
    requires ValidDate(y, m, d)
    ensures YearOf(DayNumber(y, m, d)) == y
    ensures MonthOf(DayNumber(y, m, d)) == m
    ensures MDayOf(DayNumber(y, m, d)) == d
  {
    hide YearStart, IsLeap, MonthStart, MonthLength, YearLength, DayNumber, YearOf, MonthOf;
    var n := DayNumber(y, m, d);
    NormalDayNumber(y, m, d);
    YearStartStep(y);
    MonthStartStep(y, m);
    MonthStartGrows(y, 0, m);
    MonthStartGrows(y, m + 1, 12);
    YearUnique(n, y);
    MonthStartGrows(y, MonthOf(n) + 1, m);
    MonthStartGrows(y, m + 1, MonthOf(n));
  }

  /** `timegm` undoes `gmtime_r` on every day. */
  lemma DayRoundTrip(n: int)
    ensures DayNumber(YearOf(n), MonthOf(n), MDayOf(n)) == n
    ensures ValidDate(YearOf(n), MonthOf(n), MDayOf(n))
  {
    hide YearStart, IsLeap, MonthStart, MonthLength, DayNumber, YearOf, MonthOf;
    NormalDayNumber(YearOf(n), MonthOf(n), MDayOf(n));
  }

  /** Calendar dates are ordered as their day numbers are. */
  lemma DateOrder(a: int, b: int)
    requires a < b
    ensures YearOf(a) < YearOf(b)
         || (YearOf(a) == YearOf(b) && (MonthOf(a) < MonthOf(b)
             || (MonthOf(a) == MonthOf(b) && MDayOf(a) < MDayOf(b))))
  {
    hide YearStart, IsLeap, MonthStart, MonthLength, YearOf, MonthOf;
    var y, z := YearOf(a), YearOf(b);
    if z < y {
      YearStartGrows(z + 1, y);
    }
    if y == z {
      MonthStartGrows(y, MonthOf(b) + 1, MonthOf(a));
    }
  }

  /** The date `k` days after day `n`, for `k` at most 28. */
  lemma DaysLater(n: int, k: int)
    requires 0 <= k <= 28
    ensures DayNumber(YearOf(n), MonthOf(n), MDayOf(n) + k) == n + k
    ensures var y, m, d := YearOf(n), MonthOf(n), MDayOf(n) + k;
            if d <= MonthLength(y, m) then YearOf(n + k) == y && MonthOf(n + k) == m && MDayOf(n + k) == d
            else if m < 11 then
              YearOf(n + k) == y && MonthOf(n + k) == m + 1 && MDayOf(n + k) == d - MonthLength(y, m)
            else YearOf(n + k) == y + 1 && MonthOf(n + k) == 0 && MDayOf(n + k) == d - MonthLength(y, m)
  {
    hide YearStart, IsLeap, MonthStart, MonthLength, YearLength, DayNumber, YearOf, MonthOf, MDayOf;
    var y, m, d := YearOf(n), MonthOf(n), MDayOf(n) + k;
    DayRoundTrip(n);
    NormalDayNumber(y, m, d - k);
    NormalDayNumber(y, m, d);
    MonthStartStep(y, m);
    MonthStartStep(y, m + 1);
    MonthStartStep(y + 1, 0);
    YearStartStep(y);
    if d <= MonthLength(y, m) {
      DateRoundTrip(y, m, d);
    } else if m < 11 {
      NormalDayNumber(y, m + 1, d - MonthLength(y, m));
      DateRoundTrip(y, m + 1, d - MonthLength(y, m));
    } else {
      NormalDayNumber(y + 1, 0, d - MonthLength(y, m));
      DateRoundTrip(y + 1, 0, d - MonthLength(y, m));
    }
  }

  /** Adding one to `tm_mday` moves to the next date, across every month and leap-year end. */
  lemma NextDay(n: int)
    ensures WeekdayOf(n + 1) == (WeekdayOf(n) + 1) % 7
    ensures DayNumber(YearOf(n), MonthOf(n), MDayOf(n) + 1) == n + 1
    ensures if MDayOf(n) < MonthLength(YearOf(n), MonthOf(n)) then
              YearOf(n + 1) == YearOf(n) && MonthOf(n + 1) == MonthOf(n) && MDayOf(n + 1) == MDayOf(n) + 1
            else if MonthOf(n) < 11 then
              YearOf(n + 1) == YearOf(n) && MonthOf(n + 1) == MonthOf(n) + 1 && MDayOf(n + 1) == 1
            else
              YearOf(n + 1) == YearOf(n) + 1 && MonthOf(n + 1) == 0 && MDayOf(n + 1) == 1
  {
    hide YearStart, IsLeap, MonthStart, MonthLength, DayNumber, YearOf, MonthOf, MDayOf;
    DaysLater(n, 1);
  }

  /** The same day of the month comes back no sooner than 28 days later. */
  lemma SameMDayIsFar(a: int, b: int)
    requires a < b < a + 28
    ensures MDayOf(a) != MDayOf(b)
  {
    hide YearStart, IsLeap, MonthStart, MonthLength, DayNumber, YearOf, MonthOf, MDayOf;
    DaysLater(a, b - a);
    MonthStartStep(YearOf(a), MonthOf(a));
  }

  lemma QuotientShift(x: int, q: int, d: int)
    requires d > 0
    ensures (x + d * q) / d == x / d + q
    ensures (x + d * q) % d == x % d
  {
    var a, b := x / d + q, (x + d * q) / d;
    assert x + d * q == d * a + x % d;
    assert x + d * q == d * b + (x + d * q) % d;
    assert d * (a - b) == (x + d * q) % d - x % d;
    SmallMultiple(d, a - b);
  }

  lemma SmallMultiple(d: int, k: int)
    requires -d < d * k < d
    ensures k == 0
  {
    assert k >= 1 ==> d * k >= d;
    assert k <= -1 ==> d * k <= -d;
  }

  lemma YearStartPeriod(y: int, k: int)
    ensures YearStart(y + 400 * k) == YearStart(y) + 146097 * k
    ensures IsLeap(y + 400 * k) == IsLeap(y)
  {
    QuotientShift(y - 69, 100 * k, 4);
    QuotientShift(y - 1, 4 * k, 100);
    QuotientShift(y + 299, k, 400);
    QuotientShift(y, 100 * k, 4);
    QuotientShift(y, 4 * k, 100);
    QuotientShift(y + 300, k, 400);
  }

  /** Every date recurs, on the same weekday, after the 146097 days of 400 years. */
  lemma FourCenturies(n: int)
    ensures YearOf(n + 146097) == YearOf(n) + 400
    ensures MonthOf(n + 146097) == MonthOf(n)
    ensures MDayOf(n + 146097) == MDayOf(n)
    ensures WeekdayOf(n + 146097) == WeekdayOf(n)
  {
    hide YearStart, IsLeap, DayNumber, YearOf, MonthOf, MDayOf;
    var y, m, d := YearOf(n), MonthOf(n), MDayOf(n);
    DayRoundTrip(n);
    YearStartPeriod(y, 1);
    NormalDayNumber(y, m, d);
    NormalDayNumber(y + 400, m, d);
    DateRoundTrip(y + 400, m, d);
  }

  lemma WeekdayPeriod(n: int, k: int)
    ensures WeekdayOf(n + 146097 * k) == WeekdayOf(n)
  {
    QuotientShift(n + 4, 20871 * k, 7);
  }

  /** 2001..2006 and 2010 start on Monday, Tuesday, Wednesday, Thursday, Saturday, Sunday and Friday. */
  lemma KnownJanuaries()
    ensures YearStart(101) == 11323 && YearStart(102) == 11688 && YearStart(103) == 12053
    ensures YearStart(104) == 12418 && YearStart(105) == 12784 && YearStart(106) == 13149
    ensures YearStart(110) == 14610
  {
  }

  /** Some year after `y` has its January 1 on weekday `w`. */
  lemma JanuaryFirstOn(y: int, w: int) returns (z: int)
    requires 0 <= w < 7
    ensures y < z && WeekdayOf(YearStart(z)) == w
  {
    hide YearStart;
    KnownJanuaries();
    var b := if w == 0 then 106 else if w == 5 then 110 else if w == 6 then 105 else 100 + w;
    var k := (if y < 0 then 0 else y) + 1;
    YearStartPeriod(b, k);
    WeekdayPeriod(YearStart(b), k);
    z := b + 400 * k;
  }

  /** Every day of the month from 1 to 31 falls on every weekday after any given day. */
  lemma EveryDateComes(n: int, d: int, w: int) returns (k: int)
    requires 1 <= d <= 31 && 0 <= w < 7
    ensures n <= k && MDayOf(k) == d && WeekdayOf(k) == w
  {
    hide YearStart, IsLeap, YearOf, MonthOf, MDayOf, DayNumber;
    var z := JanuaryFirstOn(YearOf(n) + 1, (w - (d - 1)) % 7);
    k := DayNumber(z, 0, d);
    NormalDayNumber(z, 0, d);
    MonthStartStep(z, 0);
    assert k == YearStart(z) + (d - 1);
    DateRoundTrip(z, 0, d);
    YearStartGrows(YearOf(n) + 1, z);
    assert (YearStart(z) + 4 + (d - 1)) % 7 == ((YearStart(z) + 4) % 7 + (d - 1)) % 7;
  }

  // The calendar without a table of months

  lemma YearFromMarch(y: int)
    ensures var z := y + 1899;
            YearStart(y) == 365 * z + z / 4 - z / 100 + z / 400 + 306 - 719468
    ensures IsLeap(y) <==> (y + 1900) % 4 == 0 && ((y + 1900) % 100 != 0 || (y + 1900) % 400 == 0)
  {
    QuotientShift(y - 69, 492, 4);
    QuotientShift(y - 1, 19, 100);
    QuotientShift(y + 299, 4, 400);
    QuotientShift(y, 19, 100);
    QuotientShift(y, 475, 4);
    QuotientShift(y + 300, 4, 400);
  }

  /** The day number counted from 1 March, where the months run in turns of 153 days in five months. */
  lemma DayNumberLaw(y: int, m: int, d: int)
    requires 0 <= m < 12
    ensures var z := if m < 2 then y + 1899 else y + 1900;
            DayNumber(y, m, d) == 365 * z + z / 4 - z / 100 + z / 400
                                  + (153 * ((m + 10) % 12) + 2) / 5 + d - 719469
  {
    hide YearStart, IsLeap;
    YearFromMarch(y);
    YearFromMarch(y + 1);
    YearStartStep(y);
    assert y + m / 12 == y;
  }
}
