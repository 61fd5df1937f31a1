/** Conditions read off the masks that put an expression in the safe regime, the finite form of the exact
    conditions, and expressions outside the regime on which the search goes wrong. */
module CronRegimes {
  import opened Options
  import opened Gregorian
  import opened CronSearch
  import opened CronTheorems
  import opened CronExact

  const EVERY_WEEKDAY := {0, 1, 2, 3, 4, 5, 6}

  predicate AllDaysOfMonth(e: Expr) {
    forall d :: 1 <= d <= 31 ==> d in e.daysOfMonth
  }

  predicate AllDaysOfWeek(e: Expr) {
    forall w :: 0 <= w < 7 ==> w in e.daysOfWeek
  }

  predicate AllMonths(e: Expr) {
    forall m :: 0 <= m < 12 ==> m in e.months
  }

  predicate AtMostOneDayMaskRestricted(e: Expr) {
    AllDaysOfMonth(e) || AllDaysOfWeek(e)
  }

  predicate DaysInEveryMonth(e: Expr) {
    AllDaysOfWeek(e) && forall d <- e.daysOfMonth :: d <= 28
  }

  /** With at most one day mask restricted, a day step that moves is always seen to move. */
  lemma OneRestrictedIsDayStepSafe(e: Expr)
    requires Accepted(e) && AtMostOneDayMaskRestricted(e)
    ensures DayStepSafe(e)
  {
    hide Accepted, MDayOf, MonthOf, WeekdayOf, DayTarget, AllDaysOfMonth, AllDaysOfWeek;
    forall k: nat
      ensures DayStepSafeAt(e, k)
    {
      DayTargetBounds(e, k);
      if !DayOk(e, k) {
        if AllDaysOfMonth(e) {
          WeekdayComes(e, k);
          SameMDayIsFar(k, DayTarget(e, k));
        } else {
          DayComes(e, k);
          WeekdayIn(e, k);
        }
      }
    }
  }

  lemma WeekdayIn(e: Expr, n: int)
    requires AllDaysOfWeek(e)
    ensures WeekdayOf(n) in e.daysOfWeek
  {
  }

  lemma WeekdayComes(e: Expr, k: int)
    requires Accepted(e) && AllDaysOfMonth(e)
    ensures DayTarget(e, k) < k + 28 && DayOk(e, DayTarget(e, k))
  {
    hide MDayOf, MonthOf, YearOf, DayTarget;
    Inhabited(e.daysOfWeek);
    var w :| w in e.daysOfWeek;
    var x := k + (w - WeekdayOf(k)) % 7;
    assert WeekdayOf(x) == w;
    AnyDayIn(e, x);
    DayTargetIsFirst(e, k, x);
  }

  lemma AnyDayIn(e: Expr, n: int)
    requires AllDaysOfMonth(e)
    ensures MDayOf(n) in e.daysOfMonth
  {
    hide MDayOf, MonthOf, YearOf, IsLeap;
    MonthStartStep(YearOf(n), MonthOf(n));
  }

  /** Every day of the month comes, at the latest in the next January, within 366 days. */
  lemma JanuaryComes(n: int, d: int) returns (x: int)
    requires 1 <= d <= 31
    ensures n <= x <= n + 366 && MDayOf(x) == d
  {
    hide YearStart, YearOf, MonthOf, MDayOf, DayNumber;
    var y := YearOf(n);
    YearStartStep(y);
    NormalDayNumber(y, 0, d);
    NormalDayNumber(y + 1, 0, d);
    DateRoundTrip(y, 0, d);
    DateRoundTrip(y + 1, 0, d);
    x := if n <= DayNumber(y, 0, d) then DayNumber(y, 0, d) else DayNumber(y + 1, 0, d);
  }

  lemma DayTargetIsFirst(e: Expr, k: int, x: int)
    requires k <= x <= k + 366 && DayOk(e, x)
    ensures DayOk(e, DayTarget(e, k)) && DayTarget(e, k) <= x
  {
    hide DayOk;
  }

  lemma DayComes(e: Expr, k: int)
    requires Accepted(e) && AllDaysOfWeek(e)
    ensures DayOk(e, DayTarget(e, k))
  {
    hide MDayOf, MonthOf, WeekdayOf, DayTarget;
    Inhabited(e.daysOfMonth);
    var d :| d in e.daysOfMonth;
    var x := JanuaryComes(k, d);
    WeekdayIn(e, x);
    DayTargetIsFirst(e, k, x);
  }

  /** With all months accepted, or only days that every month has, no month step overflows. */
  lemma RegimeIsMonthStepSafe(e: Expr)
    requires Accepted(e) && (AllMonths(e) || DaysInEveryMonth(e))
    ensures MonthStepSafe(e)
  {
    hide Accepted, DayOk, YearOf, MonthOf, MDayOf, DayTarget, MonthGoal;
    forall k: nat, x: int | LooksUnchanged(e, k)
      ensures !OverflowsInto(e, DayTarget(e, k), x)
    {
      if !AllMonths(e) {
        DayComes(e, k);
        NoOverflow(e, DayTarget(e, k));
      }
    }
  }

  lemma NoOverflow(e: Expr, n: int)
    requires Accepted(e) && DaysInEveryMonth(e) && DayOk(e, n)
    ensures MonthOf(n) !in e.months ==> !Overflows(e, n)
  {
    hide YearStart, YearOf, MonthOf, DayNumber, IsLeap, MDayOf, WeekdayOf;
    if MonthOf(n) !in e.months {
      MonthGoalFacts(e, n);
      var y, m, d := YearOf(n), MonthOf(n), MDayOf(n);
      MonthStartStep(y + 1, m);
      DateRoundTrip(y + 1, m, d);
      DateRoundTrip(y + 1, 0, d);
    }
  }

  // Totality: in these regimes the search never gives up

  lemma MatchComesSoon(e: Expr, n: int) returns (x: int)
    requires Accepted(e) && AtMostOneDayMaskRestricted(e) && (AllMonths(e) || DaysInEveryMonth(e))
    ensures n < x && YearOf(x) <= YearOf(n) + 2 && DayOk(e, x) && MonthOf(x) in e.months
  {
    hide YearStart, YearOf, MonthOf, MDayOf, DayNumber, WeekdayOf, DayTarget;
    var y := YearOf(n);
    if AllMonths(e) {
      x := DayTarget(e, n + 1);
      if AllDaysOfMonth(e) { WeekdayComes(e, n + 1); } else { DayComes(e, n + 1); }
      DayTargetBounds(e, n + 1);
      YearAfter(n, x);
    } else {
      Inhabited(e.daysOfMonth);
      Inhabited(e.months);
      var d :| d in e.daysOfMonth;
      var m :| m in e.months;
      MonthStartStep(y + 1, m);
      DateRoundTrip(y + 1, m, d);
      x := DayNumber(y + 1, m, d);
      WeekdayIn(e, x);
      if x <= n { SameOrEarlier(x, n); }
    }
  }

  lemma SameOrEarlier(a: int, b: int)
    requires a <= b
    ensures YearOf(a) <= YearOf(b)
  {
    hide YearStart, YearOf;
    if a < b { DateOrder(a, b); }
  }

  lemma YearAfter(n: int, x: int)
    requires n < x <= n + 367
    ensures YearOf(x) <= YearOf(n) + 2
  {
    hide YearStart, YearOf;
    var y := YearOf(n);
    YearStartStep(y);
    YearStartStep(y + 1);
    YearStartGrows(y + 1, y + 3);
    if y + 2 < YearOf(x) {
      YearStartGrows(y + 3, YearOf(x));
    }
  }

  /** The five-field promise: with at most one day mask restricted, and all months accepted or only days
      that every month has, the result is the least match after `date`, and there always is one. */
  lemma LeastFire(e: Expr, date: nat)
    requires Accepted(e) && e.seconds == {0} && AtMostOneDayMaskRestricted(e)
    requires AllMonths(e) || DaysInEveryMonth(e)
    ensures var r := NextFire(e, date);
            date < r && MatchesAt(e, r) && forall t :: date < t < r ==> !MatchesAt(e, t)
  {
    hide Accepted, AtMostOneDayMaskRestricted, AllMonths, DaysInEveryMonth, NextFire, At, YearStart, YearOf,
      DayStepSafe, MonthStepSafe, DayOk, MonthOf, Instant;
    OneRestrictedIsDayStepSafe(e);
    RegimeIsMonthStepSafe(e);
    NextFireIsLeast(e, date);
    var x := MatchComesSoon(e, date / 86400);
    var s := AcceptedTime(e, x);
    MatchAtInstant(e, s);
    BeforeInTime(s, s);
    AtIsInstant(date);
    EarlyMatch(date, s);
  }

  lemma EarlyMatch(date: nat, s: Stamp)
    requires Valid(s) && date / 86400 < s.day && YearOf(s.day) <= YearOf(date / 86400) + 2
    ensures date < Instant(s) < YearStart(YearOf(date / 86400) + 5) * 86400
  {
    hide YearStart, YearOf;
    YearStartGrows(YearOf(s.day) + 1, YearOf(date / 86400) + 5);
  }

  /** An expression without any real date, such as February 30, is given up from every date. */
  lemma NoRealDate(e: Expr, date: nat)
    requires Accepted(e) && DayStepSafe(e) && forall n: nat :: DayOk(e, n) ==> MonthOf(n) !in e.months
    ensures NextFire(e, date) == INVALID
  {
    hide Accepted, DayStepSafe, NextFire, DayOk, MonthOf, At;
    NextFireIsSound(e, date);
    Progress(e, date);
    if NextFire(e, date) != INVALID {
      AtIsInstant(NextFire(e, date));
    }
  }

  lemma February30(e: Expr, date: nat)
    requires Accepted(e) && AllDaysOfWeek(e) && e.months == {1} && forall d <- e.daysOfMonth :: 30 <= d
    ensures NextFire(e, date) == -1
  {
    hide Accepted, NextFire, MonthOf, MDayOf, YearOf, WeekdayOf, IsLeap;
    forall n: nat | DayOk(e, n)
      ensures MonthOf(n) !in e.months
    {
      assert MDayOf(n) <= MonthLength(YearOf(n), MonthOf(n));
    }
    OneRestrictedIsDayStepSafe(e);
    NoRealDate(e, date);
  }

  // The exact conditions can be checked on one 400-year cycle

  lemma {:induction false} ScanPeriod(e: Expr, n: int, fuel: nat)
    ensures DayScan(e, n + 146097, fuel) == DayScan(e, n, fuel) + 146097
    decreases fuel
  {
    hide MDayOf, WeekdayOf, YearOf, MonthOf;
    FourCenturies(n);
    if !DayOk(e, n) && fuel > 0 {
      ScanPeriod(e, n + 1, fuel - 1);
    }
  }

  lemma DayPeriod(e: Expr, k: int)
    ensures DayOk(e, k + 146097) == DayOk(e, k) && MonthOf(k + 146097) == MonthOf(k)
    ensures DayTarget(e, k + 146097) == DayTarget(e, k) + 146097
    ensures LooksUnchanged(e, k + 146097) == LooksUnchanged(e, k)
  {
    hide MDayOf, WeekdayOf, YearOf, MonthOf, DayScan;
    FourCenturies(k);
    ScanPeriod(e, k, 366);
    FourCenturies(DayTarget(e, k));
  }

  lemma {:induction false} DayStepSafePeriod(e: Expr, k: nat)
    requires forall j: nat :: j < 146097 ==> DayStepSafeAt(e, j)
    ensures DayStepSafeAt(e, k)
    decreases k
  {
    hide YearOf, MonthOf, DayOk, DayTarget, LooksUnchanged;
    if k >= 146097 {
      var j := k - 146097;
      DayStepSafePeriod(e, j);
      DayPeriod(e, j);
      DayPeriod(e, DayTarget(e, j));
    }
  }

  /** Whether the day step is safe can be checked on one 400-year cycle. */
  lemma DayStepSafeIsFinite(e: Expr)
    ensures DayStepSafe(e) <==> forall k: nat :: k < 146097 ==> DayStepSafeAt(e, k)
  {
    hide DayStepSafeAt;
    if forall k: nat :: k < 146097 ==> DayStepSafeAt(e, k) {
      forall k: nat
        ensures DayStepSafeAt(e, k)
      {
        DayStepSafePeriod(e, k);
      }
    }
  }

  lemma DatePeriod(y: int, m: int, d: int)
    ensures DayNumber(y + 400, m, d) == DayNumber(y, m, d) + 146097
    ensures MonthLength(y + 400, m) == MonthLength(y, m)
  {
    hide YearStart, IsLeap;
    YearStartPeriod(y + m / 12, 1);
    YearStartPeriod(y, 1);
    assert y + 400 + m / 12 == y + m / 12 + 400;
  }

  lemma GoalPeriod(e: Expr, n: int)
    ensures var (y, m, d) := MonthGoal(e, n);
            MonthGoal(e, n + 146097) == (y + 400, m, d) && Overflows(e, n + 146097) == Overflows(e, n)
  {
    hide YearStart, YearOf, MonthOf, MDayOf, DayNumber, MonthLength;
    FourCenturies(n);
    var n1 := DayNumber(YearOf(n) + 1, MonthOf(n), MDayOf(n));
    DatePeriod(YearOf(n) + 1, MonthOf(n), MDayOf(n));
    FourCenturies(n1);
    DatePeriod(YearOf(n1), 0, MDayOf(n1));
    FourCenturies(DayNumber(YearOf(n1), 0, MDayOf(n1)));
    var (y, m, d) := MonthGoal(e, n);
    DatePeriod(y, m, d);
  }

  predicate MonthStepSafeAt(e: Expr, k: int, x: int) {
    LooksUnchanged(e, k) && OverflowsInto(e, DayTarget(e, k), x) ==> !DayOk(e, x)
  }

  lemma MonthStepPeriod(e: Expr, k: int, x: int)
    ensures MonthStepSafeAt(e, k + 146097, x + 146097) == MonthStepSafeAt(e, k, x)
  {
    hide YearOf, MonthOf, DayOk, DayTarget, LooksUnchanged, MonthGoal, Overflows;
    DayPeriod(e, k);
    DayPeriod(e, x);
    FourCenturies(x);
    GoalPeriod(e, DayTarget(e, k));
    FourCenturies(DayTarget(e, k));
  }

  lemma {:induction false} MonthStepSafeEverywhere(e: Expr, k: nat, x: int)
    requires forall j: nat, z: int :: j < 146097 ==> MonthStepSafeAt(e, j, z)
    ensures MonthStepSafeAt(e, k, x)
    decreases k
  {
    hide MonthStepSafeAt;
    if k >= 146097 {
      MonthStepSafeEverywhere(e, k - 146097, x - 146097);
      MonthStepPeriod(e, k - 146097, x - 146097);
    }
  }

  /** Whether the month step is safe can be checked from the days of one 400-year cycle. */
  lemma MonthStepSafeIsFinite(e: Expr)
    ensures MonthStepSafe(e) <==> forall k: nat, x: int :: k < 146097 ==> MonthStepSafeAt(e, k, x)
  {
    hide LooksUnchanged, OverflowsInto, DayOk, DayTarget;
    if forall k: nat, x: int :: k < 146097 ==> MonthStepSafeAt(e, k, x) {
      forall k: nat, x: int | LooksUnchanged(e, k) && OverflowsInto(e, DayTarget(e, k), x)
        ensures !DayOk(e, x)
      {
        MonthStepSafeEverywhere(e, k, x);
      }
    } else {
      var k: nat, x: int :| k < 146097 && !MonthStepSafeAt(e, k, x);
      assert LooksUnchanged(e, k) && OverflowsInto(e, DayTarget(e, k), x) && DayOk(e, x);
    }
  }

  // The seconds step, read off the masks

  /** The masks but the seconds mask are full. */
  predicate EveryMinuteAccepted(e: Expr) {
    && (forall m :: 0 <= m < 60 ==> m in e.minutes)
    && (forall h :: 0 <= h < 24 ==> h in e.hours)
    && AllDaysOfMonth(e) && AllDaysOfWeek(e) && AllMonths(e)
  }

  lemma FullMasks(e: Expr, u: Stamp)
    requires EveryMinuteAccepted(e) && Valid(u)
    ensures MinuteOk(e, u)
  {
    hide MDayOf, MonthOf, YearOf, WeekdayOf;
    AnyDayIn(e, u.day);
    WeekdayIn(e, u.day);
  }

  lemma MasksAreFull(e: Expr)
    requires forall u: Stamp :: Valid(u) && 0 <= u.day ==> MinuteOk(e, u)
    ensures EveryMinuteAccepted(e)
  {
    hide MDayOf, MonthOf, YearOf, WeekdayOf, YearStart, DayNumber;
    forall m | 0 <= m < 60
      ensures m in e.minutes
    {
      assert MinuteOk(e, Stamp(0, 0, m, 0));
    }
    forall h | 0 <= h < 24
      ensures h in e.hours
    {
      assert MinuteOk(e, Stamp(0, h, 0, 0));
    }
    forall d | 1 <= d <= 31
      ensures d in e.daysOfMonth
    {
      var x := JanuaryComes(0, d);
      assert MinuteOk(e, Stamp(x, 0, 0, 0));
    }
    forall w | 0 <= w < 7
      ensures w in e.daysOfWeek
    {
      var x := EveryDateComes(0, 1, w);
      assert MinuteOk(e, Stamp(x, 0, 0, 0));
    }
    forall m | 0 <= m < 12
      ensures m in e.months
    {
      var x := DayNumber(70, m, 1);
      DateRoundTrip(70, m, 1);
      FirstOfMonthIn1970(m);
      assert MinuteOk(e, Stamp(x, 0, 0, 0));
    }
  }

  lemma FirstOfMonthIn1970(m: int)
    requires 0 <= m < 12
    ensures 0 <= DayNumber(70, m, 1)
  {
    hide YearStart, IsLeap;
    YearStartOf70();
    assert m / 12 == 0;
  }

  lemma YearStartOf70()
    ensures YearStart(70) == 0
  {
  }

  /** The seconds step is safe exactly when the accepted seconds are one interval, the other masks are full, or
      the expression has no real date. */
  lemma SecondStepSafeIff(e: Expr)
    requires Accepted(e)
    ensures SecondStepSafe(e)
       <==> Contiguous(e.seconds) || EveryMinuteAccepted(e)
            || forall n: nat :: DayOk(e, n) ==> MonthOf(n) !in e.months
  {
    hide Contiguous, DayOk, MonthOf, EveryMinuteAccepted;
    if EveryMinuteAccepted(e) {
      forall u: Stamp | Valid(u) && 0 <= u.day
        ensures MinuteOk(e, u)
      {
        FullMasks(e, u);
      }
    }
    if forall u: Stamp :: Valid(u) && 0 <= u.day ==> MinuteOk(e, u) {
      MasksAreFull(e);
    }
    Inhabited(e.minutes);
    Inhabited(e.hours);
    var m :| m in e.minutes;
    var h :| h in e.hours;
    if forall u: Stamp :: Valid(u) && 0 <= u.day ==> !MinuteOk(e, u) {
      forall n: nat | DayOk(e, n)
        ensures MonthOf(n) !in e.months
      {
        assert !MinuteOk(e, Stamp(n, h, m, 0));
      }
    }
  }
}
