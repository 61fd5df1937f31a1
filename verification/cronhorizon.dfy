/** The promise of the search in full: what it takes that it never gives up although a match comes later. */
module CronHorizon {
  import opened Options
  import opened Gregorian
  import opened CronSearch
  import opened CronTheorems
  import opened CronExact
  import opened CronRegimes

  // Real dates

  /** The day masks and the months mask accept day `n`. */
  predicate RealDate(e: Expr, n: int) {
    DayOk(e, n) && MonthOf(n) in e.months
  }

  ghost predicate NeverReal(e: Expr) {
    forall n: nat :: !RealDate(e, n)
  }

  /** Some real date lies in the four years from `y` on. */
  ghost predicate InFourYears(e: Expr, y: int) {
    exists n :: YearStart(y) <= n < YearStart(y + 4) && RealDate(e, n)
  }

  /** Every four consecutive years have a real date. */
  ghost predicate EveryFourYears(e: Expr) {
    forall y :: 70 <= y ==> InFourYears(e, y)
  }

  lemma RealPeriod(e: Expr, n: int)
    ensures RealDate(e, n + 146097) == RealDate(e, n)
  {
    hide DayTarget, LooksUnchanged, YearOf, MonthOf, DayOk;
    DayPeriod(e, n);
  }

  /** A real date comes back after any day. */
  lemma {:induction false} RealAgain(e: Expr, x: int, n: int) returns (r: int)
    requires RealDate(e, x)
    ensures n < r && RealDate(e, r)
    decreases n - x
  {
    hide RealDate;
    if n < x {
      r := x;
    } else {
      RealPeriod(e, x);
      r := RealAgain(e, x + 146097, n);
    }
  }

  // Enough for the promise

  /** With safe steps, and real dates in every four consecutive years or never, the promise is kept in full,
      for every accepted expression and every date. */
  lemma SafeIsCorrect(e: Expr, date: nat)
    requires Accepted(e) && SecondStepSafe(e) && DayStepSafe(e) && MonthStepSafe(e)
    requires NeverReal(e) || EveryFourYears(e)
    ensures CorrectAt(e, date)
  {
    hide Accepted, SecondStepSafe, DayStepSafe, MonthStepSafe, NextFire, MatchesAt, YearStart, YearOf;
    SafeIsCorrectToHorizon(e, date);
    if NextFire(e, date) == INVALID {
      forall t | date < t
        ensures !MatchesAt(e, t)
      {
        if MatchesAt(e, t) {
          MatchIsReal(e, t);
          var m := MatchInTime(e, date);
        }
      }
    }
  }

  lemma MatchIsReal(e: Expr, t: nat)
    requires MatchesAt(e, t)
    ensures !NeverReal(e)
  {
    hide DayOk, MonthOf;
    AtIsInstant(t);
    assert RealDate(e, t / 86400);
  }

  /** A match after `date` and before the fifth year after its year. */
  lemma MatchInTime(e: Expr, date: nat) returns (t: int)
    requires Accepted(e) && EveryFourYears(e)
    ensures date < t < YearStart(YearOf(date / 86400) + 5) * 86400 && MatchesAt(e, t)
  {
    hide Accepted, YearStart, YearOf, DayOk, MonthOf, Instant, At;
    var day := date / 86400;
    var y := YearOf(day);
    YearOfNatural(day);
    assert InFourYears(e, y + 1);
    var x :| YearStart(y + 1) <= x < YearStart(y + 1 + 4) && RealDate(e, x);
    var s := AcceptedTime(e, x);
    t := Instant(s);
    MatchAtInstant(e, s);
    AtIsInstant(date);
    BeforeInTime(At(date), s);
    BeforeInTime(s, s);
    assert Instant(At(date)) == date && day < x;
  }

  lemma YearOfNatural(n: nat)
    ensures 70 <= YearOf(n) && YearStart(YearOf(n)) <= n < YearStart(YearOf(n) + 1)
  {
    hide YearStart;
    assert YearStart(70) == 0 by { YearStartOf70(); }
    if YearOf(n) < 70 {
      YearStartGrows(YearOf(n) + 1, 70);
    }
  }

  // Needed for the promise

  /** An expression that is served correctly from every date has safe steps. */
  lemma CorrectIsSafe(e: Expr)
    requires Accepted(e) && forall date: nat :: CorrectAt(e, date)
    ensures SecondStepSafe(e) && DayStepSafe(e) && MonthStepSafe(e)
  {
    hide Accepted, SecondStepSafe, DayStepSafe, MonthStepSafe, NextFire, MatchesAt, YearStart, YearOf;
    forall date: nat
      ensures CorrectToHorizon(e, date)
    {
      assert CorrectAt(e, date);
    }
    CorrectToHorizonIffSafe(e);
  }

  /** It never has a real date, or from every day on one before the search stops looking: by the first day that
      the day masks accept in or after the fifth year. */
  lemma CorrectIsInReach(e: Expr, n: nat)
    requires Accepted(e) && CorrectAt(e, n * 86400) && !NeverReal(e)
    ensures exists x :: n <= x <= Horizon(e, YearOf(n)) && RealDate(e, x)
  {
    hide Accepted, YearStart, YearOf, DayOk, MonthOf, At, Ahead, Instant, Horizon, RealDate;
    var x0: nat :| RealDate(e, x0);
    var x := RealAgain(e, x0, n);
    var s := AcceptedTime(e, x);
    var date := n * 86400;
    RealMatches(e, s);
    MatchAtInstant(e, s);
    BeforeInTime(s, s);
    assert n * 86400 < x * 86400 <= Instant(s);
    ResultInReach(e, n);
  }

  lemma RealMatches(e: Expr, s: Stamp)
    requires RealDate(e, s.day) && s.sec in e.seconds && s.min in e.minutes && s.hour in e.hours
    ensures Matches(e, s)
  {
    hide DayOk, MonthOf;
  }

  lemma ResultInReach(e: Expr, n: nat)
    requires Accepted(e) && NextFire(e, n * 86400) != INVALID && MatchesAt(e, NextFire(e, n * 86400))
    ensures exists x :: n <= x <= Horizon(e, YearOf(n)) && RealDate(e, x)
  {
    hide Accepted, YearStart, YearOf, DayOk, MonthOf, Search, Horizon, Low, CarryFree, Before, At, Matches;
    AtIsInstant(n * 86400);
    var s := At(n * 86400);
    assert s == Stamp(n, 0, 0, 0) by { Midnight(n); }
    var q := AddSecond(s);
    assert q == Stamp(n, 0, 0, 1) by { Midnight(n); }
    StartIsAhead(e, s);
    StartIsAhead(e, q);
    var v := if SearchFrom(e, s) == Some(s) then SearchFrom(e, q).value else SearchFrom(e, s).value;
    assert v.day <= Horizon(e, YearOf(n));
    assert !(v.day < n) by { NotBefore(v, s); NotBefore(v, q); }
    InstantIsAt(v);
    MatchedDay(e, v);
  }

  lemma Midnight(n: int)
    ensures At(n * 86400) == Stamp(n, 0, 0, 0) && AddSecond(Stamp(n, 0, 0, 0)) == Stamp(n, 0, 0, 1)
  {
    InstantIsAt(Stamp(n, 0, 0, 0));
    InstantIsAt(Stamp(n, 0, 0, 1));
  }

  lemma NotBefore(v: Stamp, s: Stamp)
    ensures !Before(v, s) ==> s.day <= v.day
  {
  }

  lemma MatchedDay(e: Expr, v: Stamp)
    ensures Matches(e, v) ==> RealDate(e, v.day)
  {
    hide DayOk, MonthOf;
  }

  // With at most one day mask restricted

  /** The only dates are the leap days. */
  predicate LeapDayOnly(e: Expr) {
    e.months == {1} && 29 in e.daysOfMonth && forall d <- e.daysOfMonth :: 29 <= d
  }

  /** Some month and day of the masks exist in every year. */
  predicate YearlyDate(e: Expr, m: int, d: int) {
    m in e.months && d in e.daysOfMonth && d <= (if m == 1 then 28 else MonthLength(0, m))
  }

  lemma YearlyIsEveryFour(e: Expr, m: int, d: int)
    requires Accepted(e) && AllDaysOfWeek(e) && YearlyDate(e, m, d)
    ensures EveryFourYears(e)
  {
    hide YearStart, YearOf, MonthOf, MDayOf, DayNumber, WeekdayOf, IsLeap;
    forall y | 70 <= y
      ensures InFourYears(e, y)
    {
      var x := DayNumber(y, m, d);
      DateRoundTrip(y, m, d);
      WeekdayIn(e, x);
      InItsYear(x, y);
      assert RealDate(e, x);
    }
  }

  lemma InItsYear(x: int, y: int)
    requires YearOf(x) == y
    ensures YearStart(y) <= x < YearStart(y + 4)
  {
    hide YearStart;
    YearStartGrows(y + 1, y + 4);
  }

  lemma WeekdayIsEveryFour(e: Expr)
    requires Accepted(e) && AllDaysOfMonth(e)
    ensures EveryFourYears(e)
  {
    hide YearStart, YearOf, MonthOf, MDayOf, DayNumber, WeekdayOf, IsLeap;
    Inhabited(e.months);
    Inhabited(e.daysOfWeek);
    var m :| m in e.months;
    var w :| w in e.daysOfWeek;
    forall y | 70 <= y
      ensures InFourYears(e, y)
    {
      var x := WeekdayInMonth(y, m, w);
      AnyDayIn(e, x);
      InItsYear(x, y);
      assert RealDate(e, x);
    }
  }

  lemma WeekdayInMonth(y: int, m: int, w: int) returns (x: int)
    requires 0 <= m < 12 && 0 <= w < 7
    ensures YearOf(x) == y && MonthOf(x) == m && WeekdayOf(x) == w
  {
    hide YearStart, YearOf, MonthOf, MDayOf, DayNumber, IsLeap;
    var first := DayNumber(y, m, 1);
    var k := (w - WeekdayOf(first)) % 7;
    x := first + k;
    DateRoundTrip(y, m, 1);
    DaysLater(first, k);
  }

  /** Unless the only dates are leap days, a real date comes in every four years or never. */
  lemma RealUnlessLeapDay(e: Expr)
    requires Accepted(e) && AtMostOneDayMaskRestricted(e) && !LeapDayOnly(e) && !NeverReal(e)
    ensures EveryFourYears(e)
  {
    hide YearOf, MonthOf, MDayOf, EveryFourYears;
    if AllDaysOfMonth(e) {
      WeekdayIsEveryFour(e);
    } else {
      var n: nat :| RealDate(e, n);
      DayRoundTrip(n);
      var m, d := AnotherDate(e, YearOf(n), MonthOf(n), MDayOf(n));
      YearlyIsEveryFour(e, m, d);
    }
  }

  /** From a date of the masks to one that every year has. */
  lemma AnotherDate(e: Expr, y: int, m: int, d: int) returns (k: int, c: int)
    requires Accepted(e) && !LeapDayOnly(e)
    requires m in e.months && d in e.daysOfMonth && d <= MonthLength(y, m)
    ensures YearlyDate(e, k, c)
  {
    hide IsLeap;
    k, c := m, d;
    if !YearlyDate(e, m, d) {
      assert m == 1 && d == 29;
      if e.months != {1} {
        assert (forall x <- e.months :: x == 1) ==> e.months == {1};
        k :| k in e.months && k != 1;
      } else {
        c :| c in e.daysOfMonth && c < 29;
      }
    }
  }

  // Leap days

  /** From 1 March 2096 to 29 January 2101 there is no 29 February. */
  lemma NoLeapDay(x: int)
    requires 46081 <= x <= 47875
    ensures !(MonthOf(x) == 1 && MDayOf(x) == 29)
  {
    hide YearOf, MonthOf, MDayOf, YearStart;
    assert DayNumber(196, 2, 1) == 46081 && DayNumber(201, 0, 29) == 47875 by { LeapDayNumbers(); }
    DateRoundTrip(196, 2, 1);
    DateRoundTrip(201, 0, 29);
    if MonthOf(x) == 1 && MDayOf(x) == 29 {
      DayRoundTrip(x);
      assert IsLeap(YearOf(x));
      if x != 46081 { DateOrder(46081, x); }
      if x != 47875 { DateOrder(x, 47875); }
    }
  }

  lemma LeapDayNumbers()
    ensures DayNumber(196, 2, 1) == 46081 && DayNumber(201, 0, 29) == 47875 && DayNumber(100, 1, 29) == 11016
    ensures DayNumber(204, 1, 29) == 49001
  {
  }

  lemma LeapDayIsReal(e: Expr)
    requires LeapDayOnly(e) && AllDaysOfWeek(e)
    ensures !NeverReal(e)
  {
    hide YearOf, MonthOf, MDayOf, DayNumber, WeekdayOf;
    LeapDayNumbers();
    DateRoundTrip(100, 1, 29);
    WeekdayIn(e, 11016);
    assert RealDate(e, 11016);
  }

  /** From 1 March 2096 the search for a leap day gives up: the next one is eight years ahead. */
  lemma LeapDayOutOfReach(e: Expr)
    requires Accepted(e) && LeapDayOnly(e) && AllDaysOfWeek(e)
    ensures !exists x :: 46081 <= x <= Horizon(e, YearOf(46081)) && RealDate(e, x)
  {
    hide YearOf, MonthOf, MDayOf, YearStart, DayNumber, Horizon, WeekdayOf;
    LeapDayNumbers();
    DateRoundTrip(196, 2, 1);
    DateRoundTrip(201, 0, 29);
    WeekdayIn(e, 47875);
    assert DayOk(e, 47875);
    InItsYear(47875, 201);
    assert Horizon(e, 196) <= 47875;
    forall x | 46081 <= x <= Horizon(e, 196)
      ensures !RealDate(e, x)
    {
      NoLeapDay(x);
      if RealDate(e, x) {
        OnlyLeapDays(e, x);
      }
    }
  }

  lemma OnlyLeapDays(e: Expr, x: int)
    requires LeapDayOnly(e) && RealDate(e, x)
    ensures MonthOf(x) == 1 && MDayOf(x) == 29
  {
    hide YearOf, MonthOf, MDayOf, WeekdayOf;
    DayRoundTrip(x);
  }

  /** The exact condition with at most one day mask restricted: the three steps are safe, and the masks do not
      ask for leap days only. */
  lemma CorrectIff(e: Expr)
    requires Accepted(e) && AtMostOneDayMaskRestricted(e)
    ensures (forall date: nat :: CorrectAt(e, date))
       <==> SecondStepSafe(e) && DayStepSafe(e) && MonthStepSafe(e) && !LeapDayOnly(e)
  {
    hide Accepted, AtMostOneDayMaskRestricted, LeapDayOnly, CorrectAt, SecondStepSafe, DayStepSafe, MonthStepSafe,
      NeverReal, EveryFourYears, YearOf, Horizon, RealDate;
    if forall date: nat :: CorrectAt(e, date) {
      CorrectIsSafe(e);
      if LeapDayOnly(e) {
        AllWeekdays(e);
        LeapDayIsReal(e);
        assert CorrectAt(e, 46081 * 86400);
        CorrectIsInReach(e, 46081);
        LeapDayOutOfReach(e);
      }
    }
    if SecondStepSafe(e) && DayStepSafe(e) && MonthStepSafe(e) && !LeapDayOnly(e) {
      if !NeverReal(e) {
        RealUnlessLeapDay(e);
      }
      forall date: nat
        ensures CorrectAt(e, date)
      {
        SafeIsCorrect(e, date);
      }
    }
  }

  lemma AllWeekdays(e: Expr)
    requires AtMostOneDayMaskRestricted(e) && LeapDayOnly(e)
    ensures AllDaysOfWeek(e)
  {
    assert AllDaysOfMonth(e) ==> 1 in e.daysOfMonth;
  }

  // One 400-year cycle is enough

  lemma FourYearsPeriod(e: Expr, y: int)
    ensures InFourYears(e, y) ==> InFourYears(e, y + 400)
  {
    hide YearStart, IsLeap, RealDate;
    YearStartPeriod(y, 1);
    YearStartPeriod(y + 4, 1);
    assert y + 400 + 4 == y + 4 + 400;
    if InFourYears(e, y) {
      var n :| YearStart(y) <= n < YearStart(y + 4) && RealDate(e, n);
      RealPeriod(e, n);
      assert RealDate(e, n + 146097);
    }
  }

  lemma {:induction false} FourYearsEverywhere(e: Expr, y: int)
    requires 70 <= y && forall z :: 70 <= z < 470 ==> InFourYears(e, z)
    ensures InFourYears(e, y)
    decreases y
  {
    hide InFourYears;
    if 470 <= y {
      FourYearsEverywhere(e, y - 400);
      FourYearsPeriod(e, y - 400);
    }
  }

  lemma {:induction false} NeverEverywhere(e: Expr, n: nat)
    requires forall k: nat :: k < 146097 ==> !RealDate(e, k)
    ensures !RealDate(e, n)
    decreases n
  {
    hide RealDate;
    if 146097 <= n {
      NeverEverywhere(e, n - 146097);
      RealPeriod(e, n - 146097);
    }
  }

  /** Whether real dates come in every four years, and whether they ever come, can be read off one cycle. */
  lemma RealDatesAreFinite(e: Expr)
    ensures EveryFourYears(e) <==> forall y :: 70 <= y < 470 ==> InFourYears(e, y)
    ensures NeverReal(e) <==> forall n: nat :: n < 146097 ==> !RealDate(e, n)
  {
    hide InFourYears, RealDate;
    if forall y :: 70 <= y < 470 ==> InFourYears(e, y) {
      forall y | 70 <= y
        ensures InFourYears(e, y)
      {
        FourYearsEverywhere(e, y);
      }
    }
    if forall n: nat :: n < 146097 ==> !RealDate(e, n) {
      forall n: nat
        ensures !RealDate(e, n)
      {
        NeverEverywhere(e, n);
      }
    }
  }
}
