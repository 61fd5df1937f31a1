/** Four accepted expressions outside the safe regime, each with a date on which the search goes wrong. */
module CronExamples {
  import opened Options
  import opened Gregorian
  import opened CronSearch
  import opened CronTheorems
  import opened CronExact
  import opened CronRegimes
  import opened CronHorizon

  const EVERY_HOUR := set h | 0 <= h < 24 :: h
  const EVERY_DAY := set d | 1 <= d < 32 :: d
  const EVERY_MONTH := set m | 0 <= m < 12 :: m

  /** `0 5 13 * 5`: five o'clock on every Friday the 13th. */
  const FRIDAY_13TH := Expr({0}, {0}, {5}, {13}, EVERY_MONTH, {5})

  /** `0 0 5,31 2 *`: midnight on February 5 (there is no February 31). */
  const FEBRUARY_5TH := Expr({0}, {0}, {0}, {5, 31}, {1}, EVERY_WEEKDAY)

  /** `0,30 0 * * * *`: the first second and the half of minute 0 of every hour. */
  const TWICE_HOURLY := Expr({0, 30}, {0}, EVERY_HOUR, EVERY_DAY, EVERY_MONTH, EVERY_WEEKDAY)

  /** `0 0 29 2 *`: midnight on every leap day. */
  const LEAP_DAY := Expr({0}, {0}, {0}, {29}, {1}, EVERY_WEEKDAY)

  lemma ExamplesAreAccepted()
    ensures Accepted(FRIDAY_13TH) && Accepted(FEBRUARY_5TH) && Accepted(TWICE_HOURLY) && Accepted(LEAP_DAY)
  {
    assert 0 in EVERY_HOUR && 1 in EVERY_DAY && 0 in EVERY_MONTH && 0 in EVERY_WEEKDAY;
  }

  /** The thirteenths of January and February 2015, a Tuesday and a Friday. */
  lemma TwoThirteenths()
    ensures MDayOf(16448) == 13 && WeekdayOf(16448) == 2 && MonthOf(16448) == 0 && YearOf(16448) == 115
    ensures MDayOf(16479) == 13 && WeekdayOf(16479) == 5 && MonthOf(16479) == 1
    ensures forall x :: 16448 < x < 16479 ==> MDayOf(x) != 13
  {
    hide YearOf, MonthOf, MDayOf;
    assert DayNumber(115, 0, 13) == 16448 && DayNumber(115, 1, 13) == 16479;
    DateRoundTrip(115, 0, 13);
    DateRoundTrip(115, 1, 13);
    forall x | 16448 < x < 16479
      ensures MDayOf(x) != 13
    {
      if x < 16448 + 28 { SameMDayIsFar(16448, x); } else { SameMDayIsFar(x, 16479); }
    }
  }

  /** From 05:00 on Tuesday 13 January 2015 the search returns midnight of Friday 13 February: it sees the
      same day of the month, does not search again, and leaves the hour it had cleared. */
  lemma FridayThirteenthAtMidnight()
    ensures Accepted(FRIDAY_13TH)
    ensures NextFire(FRIDAY_13TH, 1421125200) == 1423785600
    ensures !MatchesAt(FRIDAY_13TH, 1423785600)
  {
    hide YearOf, MonthOf, MDayOf, YearStart, Ahead, Low, DayTarget, DayOk, Search, Instant, At;
    ExamplesAreAccepted();
    TwoThirteenths();
    var e := FRIDAY_13TH;
    var s, r := Stamp(16448, 5, 0, 0), Stamp(16479, 0, 0, 0);
    FridayTarget(e);
    assert 1 in EVERY_MONTH;
    StartIsAhead(e, s);
    StraightToDay(e, s, YearOf(16448));
    assert DayStep(e, s, true, true, true) == r;
    InstantsOf(s, r);
    InstantIsAt(s);
    InstantIsAt(r);
  }

  lemma InstantsOf(s: Stamp, r: Stamp)
    requires s == Stamp(16448, 5, 0, 0) && r == Stamp(16479, 0, 0, 0)
    ensures Instant(s) == 1421125200 && Instant(r) == 1423785600
  {
  }

  lemma FridayTarget(e: Expr)
    requires e.daysOfMonth == {13} && e.daysOfWeek == {5}
    ensures DayTarget(e, 16448) == 16479
  {
    hide MDayOf, WeekdayOf, MonthOf, YearOf, DayTarget;
    TwoThirteenths();
    DayTargetIsFirst(e, 16448, 16479);
    DayTargetFrom(e, 16448);
    var t := DayTarget(e, 16448);
    assert MDayOf(t) == 13 && WeekdayOf(t) == 5;
    assert 16448 <= t <= 16479;
  }

  lemma DayTargetFrom(e: Expr, k: int)
    ensures k <= DayTarget(e, k)
  {
    hide DayOk;
  }

  /** From midnight of 31 January 2015 the search passes over the match at midnight of 5 February. */
  lemma FebruarySkipped()
    ensures Accepted(FEBRUARY_5TH)
    ensures MatchesAt(FEBRUARY_5TH, 1423094400)
    ensures NextFire(FEBRUARY_5TH, 1422662400) == INVALID || 1423094400 < NextFire(FEBRUARY_5TH, 1422662400)
  {
    hide YearOf, MonthOf, MDayOf, YearStart, Ahead, Low, DayTarget, Search, Instant, At, MonthTarget, WeekdayOf, FromDay,
      Before, Accepted;
    ExamplesAreAccepted();
    var e := FEBRUARY_5TH;
    var s, m := Stamp(16466, 0, 0, 0), Stamp(16471, 0, 0, 0);
    January31();
    WeekdayIsListed(16466);
    WeekdayIsListed(16471);
    DayTargetIsFirst(e, 16466, 16466);
    DayTargetFrom(e, 16466);
    StartIsAhead(e, s);
    StraightToDay(e, s, YearOf(16466));
    LandsAfter(e, s, 16466, FromDay(e, s, true, true, true, YearOf(16466)));
    FebruaryInstants(s, m);
    InstantIsAt(s);
    MatchAtInstant(e, m);
    var r := SearchFrom(e, s);
    if r.Some? {
      BeforeInTime(m, r.value);
    }
  }

  lemma WeekdayIsListed(n: int)
    ensures WeekdayOf(n) in EVERY_WEEKDAY
  {
  }

  lemma FebruaryInstants(s: Stamp, m: Stamp)
    requires s == Stamp(16466, 0, 0, 0) && m == Stamp(16471, 0, 0, 0)
    ensures Instant(s) == 1422662400 && Instant(m) == 1423094400
  {
  }

  lemma January31()
    ensures MDayOf(16466) == 31 && MonthOf(16466) == 0 && MDayOf(16471) == 5 && MonthOf(16471) == 1
    ensures MonthTarget(FEBRUARY_5TH, 16466) == 16495
  {
    hide YearOf, MonthOf, MDayOf;
    assert DayNumber(115, 0, 31) == 16466 && DayNumber(115, 1, 5) == 16471 && DayNumber(115, 2, 1) == 16495;
    assert DayNumber(115, 1, 31) == DayNumber(115, 2, 3);
    DateRoundTrip(115, 0, 31);
    DateRoundTrip(115, 1, 5);
    DateRoundTrip(115, 2, 3);
  }

  /** From 00:01:15 the search returns 01:00:30, although 01:00:00 is earlier and matches. */
  lemma FirstSecondSkipped()
    ensures Accepted(TWICE_HOURLY)
    ensures NextFire(TWICE_HOURLY, 75) == 3630 && MatchesAt(TWICE_HOURLY, 3600)
  {
    hide YearOf, MonthOf, MDayOf, YearStart, Ahead, Low, DayTarget, Search, Instant, WeekdayOf, Accepted, DayOk;
    ExamplesAreAccepted();
    EveryDayIsOk(0);
    var s, r, m := Stamp(0, 0, 1, 15), Stamp(0, 1, 0, 30), Stamp(0, 1, 0, 0);
    KeptHere(s, r);
    ExampleInstants(s, r, m);
    InstantIsAt(s);
    InstantIsAt(m);
  }

  lemma EveryDayIsOk(n: int)
    ensures DayOk(TWICE_HOURLY, n) && MonthOf(n) in TWICE_HOURLY.months
  {
    hide YearOf, MonthOf, MDayOf, IsLeap;
    MonthStartStep(YearOf(n), MonthOf(n));
  }

  lemma ExampleInstants(s: Stamp, r: Stamp, m: Stamp)
    requires s == Stamp(0, 0, 1, 15) && r == Stamp(0, 1, 0, 30) && m == Stamp(0, 1, 0, 0)
    ensures Instant(s) == 75 && Instant(r) == 3630 && Instant(m) == 3600
  {
  }

  lemma KeptHere(s: Stamp, r: Stamp)
    requires Accepted(TWICE_HOURLY) && s == Stamp(0, 0, 1, 15) && r == Stamp(0, 1, 0, 30)
    ensures SearchFrom(TWICE_HOURLY, s) == Some(r)
  {
    hide YearOf, MonthOf, MDayOf, YearStart, Ahead, Low, DayTarget, WeekdayOf, Accepted, DayOk, FromHour;
    var e, dot := TWICE_HOURLY, YearOf(0);
    EveryDayIsOk(0);
    StartIsAhead(e, s);
    StartIsAhead(e, r);
    assert NextIn(e.seconds, 60, 15) == Some(30);
    assert NextIn(e.minutes, 60, 1) == None && NextIn(e.minutes, 60, 0) == Some(0);
    assert 1 in EVERY_HOUR;
    assert Matches(e, r);
    Settled(e, r, false, false, false, dot);
  }

  /** The month step to February from the 29th of another month asks for the 29th. */
  lemma LeapDayMonthStep(e: Expr)
    requires Accepted(e) && AllDaysOfWeek(e) && e.daysOfMonth == {29} && e.months == {1}
    ensures MonthStepSafe(e)
  {
    hide Accepted, YearOf, MonthOf, MDayOf, DayTarget, MonthGoal, YearStart, LooksUnchanged, WeekdayOf;
    forall k: nat, x: int | LooksUnchanged(e, k) && OverflowsInto(e, DayTarget(e, k), x)
      ensures !DayOk(e, x)
    {
      var n := DayTarget(e, k);
      DayComes(e, k);
      LeapDayGoal(e, n);
      DayRoundTrip(x);
    }
  }

  lemma LeapDayGoal(e: Expr, n: int)
    requires Accepted(e) && MDayOf(n) == 29 && MonthOf(n) !in e.months && e.months == {1}
    ensures MonthGoal(e, n).2 == 29
  {
    hide Accepted, YearOf, MonthOf, MDayOf, YearStart, DayNumber, IsLeap, WeekdayOf;
    var y, m := YearOf(n), MonthOf(n);
    assert m != 1;
    DateRoundTrip(y + 1, m, 29);
    DateRoundTrip(y + 1, 0, 29);
  }

  /** From midnight of 1 March 2096 the search gives up, although the leap day of 2104 matches. Its three steps
      are safe: it is the look-ahead of four years that is too short. */
  lemma LeapDayGivenUp()
    ensures Accepted(LEAP_DAY)
    ensures SecondStepSafe(LEAP_DAY) && DayStepSafe(LEAP_DAY) && MonthStepSafe(LEAP_DAY)
    ensures NextFire(LEAP_DAY, 3981398400) == INVALID && MatchesAt(LEAP_DAY, 4233686400)
  {
    hide YearOf, MonthOf, MDayOf, YearStart, NextFire, WeekdayOf, Horizon, DayOk, DayStepSafe, MonthStepSafe, Accepted,
      Instant, At, RealDate, DayNumber;
    var e := LEAP_DAY;
    ExamplesAreAccepted();
    forall w | 0 <= w < 7
      ensures w in EVERY_WEEKDAY
    {
    }
    OneRestrictedIsDayStepSafe(e);
    LeapDayMonthStep(e);
    if NextFire(e, 3981398400) != INVALID {
      NextFireIsSound(e, 3981398400);
      ResultInReach(e, 46081);
      LeapDayOutOfReach(e);
    }
    LeapDay2104(e);
  }

  lemma LeapDay2104(e: Expr)
    requires e == LEAP_DAY
    ensures MatchesAt(e, 4233686400)
  {
    hide YearOf, MonthOf, MDayOf, YearStart, WeekdayOf, At, DayNumber;
    var s := Stamp(49001, 0, 0, 0);
    LeapDayNumbers();
    DateRoundTrip(204, 1, 29);
    WeekdayIsListed(49001);
    MatchAtInstant(e, s);
  }
}
