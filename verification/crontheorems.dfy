/** What the next-fire search computes, for every accepted expression and every date. */
module CronTheorems {
  import opened Options
  import opened Gregorian
  import opened CronSearch

  // Instants

  function At(t: int): Stamp {
    Stamp(t / 86400, t / 3600 % 24, t / 60 % 60, t % 60)
  }

  lemma AtIsInstant(t: int)
    ensures Valid(At(t)) && Instant(At(t)) == t && At(t).day == t / 86400
  {
    assert t / 60 == t / 60 / 60 * 60 + t / 60 % 60;
    assert t / 60 / 60 == t / 3600;
    assert t / 3600 == t / 3600 / 24 * 24 + t / 3600 % 24;
    assert t / 3600 / 24 == t / 86400;
  }

  lemma InstantIsAt(s: Stamp)
    requires Valid(s)
    ensures At(Instant(s)) == s
  {
    hide At;
    AtIsInstant(Instant(s));
    BeforeIsLess(s, At(Instant(s)));
  }

  /** The UTC fields of instant `t` are all in the masks of `e`. */
  predicate MatchesAt(e: Expr, t: int) {
    Matches(e, At(t))
  }

  // The search as a function from instants to instants

  const INVALID := -1

  lemma StartIsAhead(e: Expr, s: Stamp)
    requires Accepted(e)
    ensures Ahead(e, s, YearOf(s.day))
  {
    hide YearStart, DayOk, YearOf, CarryFree;
    YearStartGrows(YearOf(s.day) + 1, YearOf(s.day) + 5);
  }

  ghost function SearchFrom(e: Expr, s: Stamp): (r: Option<Stamp>)
    requires Accepted(e) && Valid(s)
    ensures r.Some? ==> Valid(r.value) && !Before(r.value, s)
  {
    hide YearStart, YearOf, Ahead, Low, Accepted, Before;
    StartIsAhead(e, s);
    Search(e, s, YearOf(s.day))
  }

  /** `dcmCronParseGetNext`: search from `date`; when `date` itself is found, search from the next second. */
  ghost function NextFire(e: Expr, date: int): (t: int)
    requires Accepted(e)
  {
    hide At, Accepted, Before, Instant, Valid;
    AtIsInstant(date);
    match SearchFrom(e, At(date))
    case None => INVALID
    case Some(r) =>
      if r != At(date) then Instant(r)
      else
        AddSecondFacts(r);
        match SearchFrom(e, AddSecond(r))
        case None => INVALID
        case Some(q) => Instant(q)
  }

  // The guards of the two steps that can go wrong

  /** The day step looks unchanged, because it compares days of the month only. */
  predicate LooksUnchanged(e: Expr, k: int) {
    MDayOf(DayTarget(e, k)) == MDayOf(k)
  }

  /** When the day step moves from `k` but looks unchanged, the month step repairs it, or there is
      nothing to repair: the day is accepted and so is midnight. */
  predicate DayStepSafeAt(e: Expr, k: int) {
    LooksUnchanged(e, k) && !DayOk(e, k) ==>
      || MonthOf(DayTarget(e, k)) !in e.months
      || (DayOk(e, DayTarget(e, k)) && 0 in e.seconds && 0 in e.minutes && 0 in e.hours)
  }

  ghost predicate DayStepSafe(e: Expr) {
    forall k: nat :: DayStepSafeAt(e, k)
  }

  /** Whenever the month step asks for a day that its target month lacks, that month has no accepted day. */
  ghost predicate MonthStepSafe(e: Expr) {
    forall k: nat, x: int :: LooksUnchanged(e, k) && OverflowsInto(e, DayTarget(e, k), x) ==> !DayOk(e, x)
  }

  predicate OverflowsInto(e: Expr, n: int, x: int) {
    && MonthOf(n) !in e.months
    && Overflows(e, n)
    && YearOf(x) == MonthGoal(e, n).0
    && MonthOf(x) == MonthGoal(e, n).1
  }

  /** The accepted seconds are one interval; so they are for every five-field expression. */
  predicate Contiguous(b: set<int>) {
    forall x <- b, y <- b, z: int :: x <= z <= y ==> z in b
  }

  // Soundness

  /** An instant that matches is a fixed point of every part of the search. */
  lemma Settled(e: Expr, s: Stamp, ks: bool, km: bool, kh: bool, dot: int)
    requires Accepted(e) && Valid(s) && Ahead(e, s, dot) && Matches(e, s)
    ensures Low(e, s)
    ensures Search(e, s, dot) == FromHour(e, s, ks, km, dot) == FromDay(e, s, ks, km, kh, dot) == Some(s)
  {
    hide YearStart, DayOk, MonthOf, MDayOf, Ahead;
    assert NextIn(e.seconds, 60, s.sec) == Some(s.sec);
    assert NextIn(e.minutes, 60, s.min) == Some(s.min);
    assert NextIn(e.hours, 24, s.hour) == Some(s.hour);
    assert FromDay(e, s, ks, km, kh, dot) == Some(s);
    assert FromDay(e, s, ks, km, true, dot) == Some(s);
    assert FromDay(e, s, true, true, true, dot) == Some(s);
    assert FromHour(e, s, true, true, dot) == Some(s);
  }

  ghost predicate Good(e: Expr, r: Option<Stamp>) {
    r.Some? ==> Matches(e, r.value)
  }

  lemma {:induction false} SearchIsSound(e: Expr, s: Stamp, dot: int)
    requires Accepted(e) && Valid(s) && 0 <= s.day && Ahead(e, s, dot) && DayStepSafe(e)
    ensures Good(e, Search(e, s, dot))
    decreases Left(e, s, dot), 3
  {
    hide Accepted, Valid, Ahead, Left, Before, Max, SecondStep, MinuteStep, MonthOf, DayStepSafe, DayOk, FromHour;
    var s1 := SecondStep(e, s);
    var ks := s1.sec == s.sec;
    var s2 := MinuteStep(e, s1, ks);
    SearchTools(e, s, s1, s2, dot);
    SecondMinuteMatch(e, s, s1, s2, dot);
    if s2.min == s1.min {
      FromHourIsSound(e, s2, ks, dot);
    } else {
      SearchIsSound(e, s2, dot);
      var q := Search(e, s2, dot);
      if q.Some? {
        Onward(e, s, s2, q.value, dot);
        Settled(e, q.value, ks, false, false, dot);
      }
    }
  }

  lemma SecondMinuteMatch(e: Expr, s: Stamp, s1: Stamp, s2: Stamp, dot: int)
    requires Accepted(e) && Valid(s) && Ahead(e, s, dot)
    requires s1 == SecondStep(e, s) && s2 == MinuteStep(e, s1, s1.sec == s.sec)
    ensures s.day <= s2.day
    ensures s2.min == s1.min ==> s2.sec in e.seconds && s2.min in e.minutes
  {
    hide YearStart, DayOk, Ahead, SecondStep, MinuteStep;
    SecondStepFacts(e, s, dot);
    MinuteStepFacts(e, s1, s1.sec == s.sec, dot);
  }

  lemma {:induction false} FromHourIsSound(e: Expr, s: Stamp, ks: bool, dot: int)
    requires Accepted(e) && Valid(s) && 0 <= s.day && Ahead(e, s, dot) && DayStepSafe(e)
    requires s.sec in e.seconds && s.min in e.minutes
    requires s.sec <= Max(e.seconds) && s.min <= Max(e.minutes)
    ensures Good(e, FromHour(e, s, ks, true, dot))
    decreases Left(e, s, dot), 2
  {
    hide Accepted, Valid, Ahead, Left, Before, Max, HourStep, MonthOf, DayStepSafe, DayOk, Search, FromDay;
    var s1 := HourStep(e, s, ks, true);
    HourTools(e, s, s1, ks, true, dot);
    HourMatch(e, s, s1, ks, dot);
    if s1.hour == s.hour {
      FromDayIsSound(e, s1, ks, dot);
    } else {
      SearchIsSound(e, s1, dot);
      var q := Search(e, s1, dot);
      if q.Some? {
        Onward(e, s, s1, q.value, dot);
        Settled(e, q.value, ks, true, false, dot);
      }
    }
  }

  lemma HourMatch(e: Expr, s: Stamp, s1: Stamp, ks: bool, dot: int)
    requires Accepted(e) && Valid(s) && Ahead(e, s, dot)
    requires s.sec <= Max(e.seconds) && s.min <= Max(e.minutes)
    requires s1 == HourStep(e, s, ks, true)
    ensures s.day <= s1.day && s1.hour in e.hours && (s1.hour == s.hour ==> s1 == s)
  {
    hide YearStart, DayOk, Ahead, HourStep;
    HourStepFacts(e, s, ks, true, dot);
  }

  lemma {:induction false} FromDayIsSound(e: Expr, s: Stamp, ks: bool, dot: int)
    requires Accepted(e) && Valid(s) && 0 <= s.day && Ahead(e, s, dot) && Low(e, s) && DayStepSafe(e)
    requires s.sec in e.seconds && s.min in e.minutes && s.hour in e.hours
    ensures Good(e, FromDay(e, s, ks, true, true, dot))
    decreases Left(e, s, dot), 1
  {
    hide Accepted, Valid, Ahead, Left, Before, Max, Low, MonthOf, MDayOf, Search, DayStep, DayStepSafe, Matches,
      YearOf, MonthStep;
    var s1 := DayStep(e, s, ks, true, true);
    DayTools(e, s, s1, ks, true, true, dot);
    DayStepMatches(e, s, s1, ks);
    if MDayOf(s1.day) != MDayOf(s.day) {
      SearchIsSound(e, s1, dot);
    } else if MonthOf(s1.day) !in e.months {
      var s2 := MonthStep(e, s1, ks, true, true);
      if YearOf(s2.day) - dot <= 4 {
        MonthTools(e, s1, s2, ks, true, true, dot);
        MonthStepDay(e, s1, ks);
        SearchIsSound(e, s2, dot);
      }
    }
  }

  /** When the day step looks unchanged and the month is accepted, everything is. */
  lemma DayStepMatches(e: Expr, s: Stamp, s1: Stamp, ks: bool)
    requires Accepted(e) && 0 <= s.day && DayStepSafe(e)
    requires s.sec in e.seconds && s.min in e.minutes && s.hour in e.hours
    requires s1 == DayStep(e, s, ks, true, true)
    ensures s.day <= s1.day && (!ks ==> s1.sec == s.sec)
    ensures MDayOf(s1.day) == MDayOf(s.day) && MonthOf(s1.day) in e.months ==> Matches(e, s1)
  {
    hide Accepted, MonthOf, MDayOf, DayOk;
    assert s1.day == DayTarget(e, s.day);
    assert DayStepSafeAt(e, s.day);
  }

  lemma MonthStepDay(e: Expr, s: Stamp, ks: bool)
    requires Accepted(e) && MonthOf(s.day) !in e.months
    ensures MonthStep(e, s, ks, true, true)
         == Stamp(MonthTarget(e, s.day), 0, 0, if ks then 0 else s.sec)
    ensures s.day < MonthTarget(e, s.day)
  {
    hide Accepted, MonthOf, MonthTarget;
    MonthTargetFacts(e, s.day);
  }

  /** Every mask accepts the instant that the search returns, for every start, exactly when the day
      step is safe. */
  lemma SoundIffDayStepSafe(e: Expr)
    requires Accepted(e)
    ensures (forall date: nat :: NextFire(e, date) != INVALID ==> MatchesAt(e, NextFire(e, date)))
       <==> DayStepSafe(e)
  {
    hide Accepted, DayStepSafe, NextFire, MatchesAt;
    if DayStepSafe(e) {
      forall date: nat | NextFire(e, date) != INVALID
        ensures MatchesAt(e, NextFire(e, date))
      {
        NextFireIsSound(e, date);
      }
    } else {
      var date := UnsoundDate(e);
    }
  }

  lemma NextFireIsSound(e: Expr, date: nat)
    requires Accepted(e) && DayStepSafe(e)
    ensures NextFire(e, date) != INVALID ==> MatchesAt(e, NextFire(e, date))
  {
    hide At, Accepted, DayStepSafe, Matches, Search, Before, YearOf, Ahead, Instant, Valid;
    AtIsInstant(date);
    var s := At(date);
    StartIsAhead(e, s);
    SearchIsSound(e, s, YearOf(s.day));
    var r := SearchFrom(e, s);
    if r.Some? {
      InstantIsAt(r.value);
      if r.value == s {
        var q := AddSecond(s);
        AddSecondFacts(s);
        StartIsAhead(e, q);
        SearchIsSound(e, q, YearOf(q.day));
        if SearchFrom(e, q).Some? {
          InstantIsAt(SearchFrom(e, q).value);
        }
      }
    }
  }

  lemma AddSecondFacts(s: Stamp)
    requires Valid(s)
    ensures Valid(AddSecond(s)) && Instant(AddSecond(s)) == Instant(s) + 1 && Before(s, AddSecond(s))
    ensures s.day <= AddSecond(s).day
    ensures forall x: Stamp :: Valid(x) && Before(s, x) ==> !Before(x, AddSecond(s))
  {
  }

  /** A time of day accepted by the three time masks. */
  lemma AcceptedTime(e: Expr, k: int) returns (s: Stamp)
    requires Accepted(e)
    ensures Valid(s) && s.day == k && s.sec in e.seconds && s.min in e.minutes && s.hour in e.hours
  {
    s := Stamp(k, First(e.hours, 24), First(e.minutes, 60), First(e.seconds, 60));
    FirstIsLeast(e.hours, 24);
    FirstIsLeast(e.minutes, 60);
    FirstIsLeast(e.seconds, 60);
  }

  /** From an accepted time of day the search goes straight to its day step. */
  lemma StraightToDay(e: Expr, s: Stamp, dot: int)
    requires Accepted(e) && Valid(s) && Ahead(e, s, dot)
    requires s.sec in e.seconds && s.min in e.minutes && s.hour in e.hours
    ensures Low(e, s) && Search(e, s, dot) == FromDay(e, s, true, true, true, dot)
  {
    hide YearStart, DayOk, MonthOf, MDayOf, Ahead, FromDay;
    assert NextIn(e.seconds, 60, s.sec) == Some(s.sec);
    assert NextIn(e.minutes, 60, s.min) == Some(s.min);
    assert NextIn(e.hours, 24, s.hour) == Some(s.hour);
  }

  /** Where the day step is not safe, the search returns an instant that some mask rejects. */
  lemma UnsoundDate(e: Expr) returns (date: nat)
    requires Accepted(e) && !DayStepSafe(e)
    ensures NextFire(e, date) != INVALID && !MatchesAt(e, NextFire(e, date))
  {
    hide YearStart, DayOk, MonthOf, MDayOf, Ahead, At, Accepted, YearOf, Search, DayTarget, Low;
    var k: nat :| !DayStepSafeAt(e, k);
    var s := AcceptedTime(e, k);
    var n := DayTarget(e, k);
    DayTargetMoves(e, k);
    var dot := YearOf(k);
    StartIsAhead(e, s);
    StraightToDay(e, s, dot);
    var r := Stamp(n, 0, 0, 0);
    assert DayStep(e, s, true, true, true) == r;
    assert Search(e, s, dot) == Some(r);
    date := Instant(s);
    InstantIsAt(s);
    InstantIsAt(r);
  }

  lemma DayTargetMoves(e: Expr, k: int)
    requires !DayOk(e, k)
    ensures k < DayTarget(e, k)
  {
    hide DayOk;
  }

  // Minimality

  ghost predicate Quiet(e: Expr, a: Stamp, b: Stamp) {
    forall x: Stamp :: Valid(x) && !Before(x, a) && Before(x, b) ==> !Matches(e, x)
  }

  /** `r` is the first match from `s` on; without one, there is none before the year `dot + 5`. */
  ghost predicate Least(e: Expr, s: Stamp, r: Option<Stamp>, dot: int) {
    match r
    case Some(v) => Matches(e, v) && Quiet(e, s, v)
    case None => forall x: Stamp :: Valid(x) && !Before(x, s) && x.day < YearStart(dot + 5) ==> !Matches(e, x)
  }

  lemma LeastFrom(e: Expr, a: Stamp, b: Stamp, r: Option<Stamp>, dot: int)
    requires Quiet(e, a, b) && Least(e, b, r, dot)
    ensures Least(e, a, r, dot)
  {
    hide YearStart, Matches, Before;
  }

  /** The seconds field after its step is unchanged, or the least accepted second. */
  lemma SecondLeast(e: Expr, s: Stamp)
    requires Accepted(e) && Valid(s) && Contiguous(e.seconds)
    ensures var r := SecondStep(e, s);
            r.sec in e.seconds && (r.sec == s.sec || forall x <- e.seconds :: r.sec <= x)
  {
    FirstIsLeast(e.seconds, 60);
  }

  lemma SecondQuiet(e: Expr, s: Stamp)
    requires Accepted(e) && Valid(s)
    ensures Quiet(e, s, SecondStep(e, s))
  {
    hide YearStart, DayOk, MonthOf;
    FirstIsLeast(e.seconds, 60);
  }

  lemma MinuteQuiet(e: Expr, s: Stamp, ks: bool)
    requires Accepted(e) && Valid(s) && (ks || forall x <- e.seconds :: s.sec <= x)
    ensures Quiet(e, s, MinuteStep(e, s, ks))
  {
    hide YearStart, DayOk, MonthOf;
    FirstIsLeast(e.minutes, 60);
    FirstIsLeast(e.seconds, 60);
  }

  lemma HourQuiet(e: Expr, s: Stamp, ks: bool)
    requires Accepted(e) && Valid(s) && (ks || forall x <- e.seconds :: s.sec <= x)
    ensures Quiet(e, s, HourStep(e, s, ks, true))
  {
    hide YearStart, DayOk, MonthOf;
    FirstIsLeast(e.hours, 24);
    FirstIsLeast(e.minutes, 60);
    FirstIsLeast(e.seconds, 60);
  }

  lemma DayQuiet(e: Expr, s: Stamp, ks: bool)
    requires Accepted(e) && Valid(s) && (ks || forall x <- e.seconds :: s.sec <= x)
    ensures Quiet(e, s, DayStep(e, s, ks, true, true))
  {
    hide YearStart, DayOk, MonthOf;
    FirstIsLeast(e.hours, 24);
    FirstIsLeast(e.minutes, 60);
    FirstIsLeast(e.seconds, 60);
  }

  lemma MonthQuiet(e: Expr, k: nat, s: Stamp, ks: bool)
    requires Accepted(e) && Valid(s) && (ks || forall x <- e.seconds :: s.sec <= x)
    requires MonthStepSafe(e) && s.day == DayTarget(e, k) && LooksUnchanged(e, k) && MonthOf(s.day) !in e.months
    ensures Quiet(e, s, MonthStep(e, s, ks, true, true))
  {
    hide YearStart, DayOk, MonthOf, MonthTarget, YearOf, DayTarget, MonthGoal, LooksUnchanged, Overflows, Accepted;
    MonthTargetFacts(e, s.day);
    var t := MonthTarget(e, s.day);
    forall x: int | s.day <= x < t && MonthOf(x) in e.months
      ensures !DayOk(e, x)
    {
      assert OverflowsInto(e, DayTarget(e, k), x);
    }
    forall x: Stamp | Valid(x) && !Before(x, s) && Before(x, MonthStep(e, s, ks, true, true))
      ensures !Matches(e, x)
    {
      if x.day == t {
        TimeBeforeFirst(e, x, if ks then 0 else s.sec);
      }
    }
  }

  lemma TimeBeforeFirst(e: Expr, x: Stamp, sec: int)
    requires Accepted(e) && Valid(x) && x.hour == x.min == 0 && x.sec < sec && forall y <- e.seconds :: sec <= y
    ensures !Matches(e, x)
  {
  }

  ghost predicate Safe(e: Expr) {
    Contiguous(e.seconds) && DayStepSafe(e) && MonthStepSafe(e)
  }

  lemma {:induction false} SearchIsLeast(e: Expr, s: Stamp, dot: int)
    requires Accepted(e) && Valid(s) && 0 <= s.day && Ahead(e, s, dot) && Safe(e)
    ensures Least(e, s, Search(e, s, dot), dot)
    decreases Left(e, s, dot), 3
  {
    hide Accepted, Valid, Ahead, Left, Before, Max, SecondStep, MinuteStep, MonthOf, DayStepSafe, MonthStepSafe,
      Contiguous, Matches, FromHour, Quiet, Least, YearStart;
    var s1 := SecondStep(e, s);
    var ks := s1.sec == s.sec;
    var s2 := MinuteStep(e, s1, ks);
    SearchTools(e, s, s1, s2, dot);
    SecondMinuteMatch(e, s, s1, s2, dot);
    SecondMinuteQuiet(e, s, s1, s2, dot);
    if s2.min == s1.min {
      FromHourIsLeast(e, s2, ks, dot);
      LeastFrom(e, s, s2, FromHour(e, s2, ks, true, dot), dot);
    } else {
      SearchIsLeast(e, s2, dot);
      var q := Search(e, s2, dot);
      LeastFrom(e, s, s2, q, dot);
      if q.Some? {
        Onward(e, s, s2, q.value, dot);
        LeastMatches(e, s2, q.value, dot);
        Settled(e, q.value, ks, false, false, dot);
      }
    }
  }

  lemma LeastMatches(e: Expr, s: Stamp, v: Stamp, dot: int)
    requires Least(e, s, Some(v), dot)
    ensures Matches(e, v)
  {
    hide Matches;
  }

  lemma SecondMinuteQuiet(e: Expr, s: Stamp, s1: Stamp, s2: Stamp, dot: int)
    requires Accepted(e) && Valid(s) && Ahead(e, s, dot) && Contiguous(e.seconds)
    requires s1 == SecondStep(e, s) && s2 == MinuteStep(e, s1, s1.sec == s.sec)
    ensures Quiet(e, s, s2)
    ensures s2.min == s1.min ==> s1.sec == s.sec || forall x <- e.seconds :: s2.sec <= x
  {
    hide YearStart, DayOk, Ahead, SecondStep, MinuteStep, Matches, Before, Contiguous, Valid, Accepted;
    SecondLeast(e, s);
    SecondQuiet(e, s);
    SecondStepFacts(e, s, dot);
    MinuteQuiet(e, s1, s1.sec == s.sec);
    MinuteStepFacts(e, s1, s1.sec == s.sec, dot);
  }

  lemma {:induction false} FromHourIsLeast(e: Expr, s: Stamp, ks: bool, dot: int)
    requires Accepted(e) && Valid(s) && 0 <= s.day && Ahead(e, s, dot) && Safe(e)
    requires s.sec in e.seconds && s.min in e.minutes && (ks || forall x <- e.seconds :: s.sec <= x)
    requires s.sec <= Max(e.seconds) && s.min <= Max(e.minutes)
    ensures Least(e, s, FromHour(e, s, ks, true, dot), dot)
    decreases Left(e, s, dot), 2
  {
    hide Accepted, Valid, Ahead, Left, Before, Max, HourStep, MonthOf, DayStepSafe, MonthStepSafe, Contiguous,
      Matches, Search, FromDay, Quiet, Least, YearStart;
    var s1 := HourStep(e, s, ks, true);
    HourTools(e, s, s1, ks, true, dot);
    HourMatch(e, s, s1, ks, dot);
    HourQuiet(e, s, ks);
    if s1.hour == s.hour {
      FromDayIsLeast(e, s1, ks, dot);
      LeastFrom(e, s, s1, FromDay(e, s1, ks, true, true, dot), dot);
    } else {
      SearchIsLeast(e, s1, dot);
      var q := Search(e, s1, dot);
      LeastFrom(e, s, s1, q, dot);
      if q.Some? {
        Onward(e, s, s1, q.value, dot);
        LeastMatches(e, s1, q.value, dot);
        Settled(e, q.value, ks, true, false, dot);
      }
    }
  }

  lemma {:induction false} FromDayIsLeast(e: Expr, s: Stamp, ks: bool, dot: int)
    requires Accepted(e) && Valid(s) && 0 <= s.day && Ahead(e, s, dot) && Low(e, s) && Safe(e)
    requires s.sec in e.seconds && s.min in e.minutes && s.hour in e.hours && (ks || forall x <- e.seconds :: s.sec <= x)
    ensures Least(e, s, FromDay(e, s, ks, true, true, dot), dot)
    decreases Left(e, s, dot), 1
  {
    hide Accepted, Valid, Ahead, Left, Before, Max, Low, MonthOf, MDayOf, Search, DayStep, DayStepSafe,
      MonthStepSafe, Contiguous, Matches, YearOf, MonthStep, Quiet, Least, YearStart;
    var s1 := DayStep(e, s, ks, true, true);
    DayTools(e, s, s1, ks, true, true, dot);
    DayStepMatches(e, s, s1, ks);
    DayQuiet(e, s, ks);
    if MDayOf(s1.day) != MDayOf(s.day) {
      SearchIsLeast(e, s1, dot);
      LeastFrom(e, s, s1, Search(e, s1, dot), dot);
    } else if MonthOf(s1.day) in e.months {
      QuietUntil(e, s, s1, dot);
    } else {
      FromMonthIsLeast(e, s, s1, ks, dot);
      LeastFrom(e, s, s1, FromMonth(e, s1, ks, true, true, dot), dot);
    }
  }

  lemma QuietUntil(e: Expr, s: Stamp, r: Stamp, dot: int)
    requires Quiet(e, s, r) && Matches(e, r)
    ensures Least(e, s, Some(r), dot)
  {
    hide Matches;
  }

  lemma {:induction false} FromMonthIsLeast(e: Expr, s: Stamp, s1: Stamp, ks: bool, dot: int)
    requires Accepted(e) && Valid(s1) && 0 <= s.day <= s1.day && Ahead(e, s1, dot) && Low(e, s1) && Safe(e)
    requires s1 == DayStep(e, s, ks, true, true) && MDayOf(s1.day) == MDayOf(s.day)
    requires MonthOf(s1.day) !in e.months && (ks || forall x <- e.seconds :: s1.sec <= x)
    ensures Least(e, s1, FromMonth(e, s1, ks, true, true, dot), dot)
    decreases Left(e, s1, dot), 0
  {
    hide Accepted, Valid, Ahead, Left, Before, Max, Low, MonthOf, MDayOf, Search, DayStepSafe, MonthStepSafe,
      Contiguous, Matches, YearOf, MonthStep, Quiet, Least, YearStart, DayTarget;
    var s2 := MonthStep(e, s1, ks, true, true);
    MonthQuiet(e, s.day, s1, ks);
    MonthStepDay(e, s1, ks);
    if YearOf(s2.day) - dot <= 4 {
      MonthTools(e, s1, s2, ks, true, true, dot);
      SearchIsLeast(e, s2, dot);
      LeastFrom(e, s1, s2, Search(e, s2, dot), dot);
    } else {
      QuietPastHorizon(e, s1, s2, dot);
    }
  }

  lemma QuietPastHorizon(e: Expr, a: Stamp, b: Stamp, dot: int)
    requires Quiet(e, a, b) && YearOf(b.day) - dot > 4
    ensures Least(e, a, None, dot)
  {
    hide YearStart, Matches, YearOf;
    YearStartGrows(dot + 5, YearOf(b.day));
  }

  // The theorems on instants

  /** What the search promises from `date`: the least later match, or to give up when there is none. */
  ghost predicate CorrectAt(e: Expr, date: int)
    requires Accepted(e)
  {
    var r := NextFire(e, date);
    if r != INVALID then
      date < r && MatchesAt(e, r) && forall t :: date < t < r ==> !MatchesAt(e, t)
    else
      forall t :: date < t ==> !MatchesAt(e, t)
  }

  /** The same, but giving up is excused when no match comes before the fifth year after the year of `date`,
      where the search stops looking. */
  ghost predicate CorrectToHorizon(e: Expr, date: int)
    requires Accepted(e)
  {
    var r := NextFire(e, date);
    if r != INVALID then
      date < r && MatchesAt(e, r) && forall t :: date < t < r ==> !MatchesAt(e, t)
    else
      forall t :: date < t < YearStart(YearOf(date / 86400) + 5) * 86400 ==> !MatchesAt(e, t)
  }

  /** Every result is the give-up value or later than `date`, for every accepted expression. */
  lemma Progress(e: Expr, date: nat)
    requires Accepted(e)
    ensures NextFire(e, date) == -1 || date < NextFire(e, date)
  {
    hide At, Accepted, SearchFrom, Instant;
    AtIsInstant(date);
    var s := At(date);
    var r := SearchFrom(e, s);
    if r.Some? {
      BeforeIsLess(s, r.value);
      BeforeIsLess(r.value, s);
      AddSecondFacts(s);
      var q := SearchFrom(e, AddSecond(s));
      if r.value == s && q.Some? {
        BeforeIsLess(q.value, AddSecond(s));
      }
    }
  }

  lemma LeastNotFound(e: Expr, s: Stamp, t: int)
    requires Least(e, s, None, YearOf(s.day)) && Valid(s) && Instant(s) <= t
    requires t < YearStart(YearOf(s.day) + 5) * 86400
    ensures !MatchesAt(e, t)
  {
    hide At, YearStart, YearOf, Matches;
    AtIsInstant(t);
    BeforeIsLess(At(t), s);
  }

  lemma LeastFound(e: Expr, s: Stamp, v: Stamp, t: int)
    requires Least(e, s, Some(v), YearOf(s.day)) && Valid(s) && Valid(v)
    ensures MatchesAt(e, Instant(v))
    ensures Instant(s) <= t < Instant(v) ==> !MatchesAt(e, t)
  {
    hide At, YearOf, Matches;
    InstantIsAt(v);
    AtIsInstant(t);
    BeforeIsLess(At(t), s);
    BeforeIsLess(At(t), v);
  }

  lemma NextFireIsLeast(e: Expr, date: nat)
    requires Accepted(e) && Safe(e)
    ensures CorrectToHorizon(e, date)
  {
    hide At, Accepted, Safe, Search, Least, Matches, MatchesAt, YearOf, YearStart, Ahead, Instant, Before;
    AtIsInstant(date);
    var s := At(date);
    StartIsAhead(e, s);
    SearchIsLeast(e, s, YearOf(s.day));
    var q := AddSecond(s);
    AddSecondFacts(s);
    StartIsAhead(e, q);
    SearchIsLeast(e, q, YearOf(q.day));
    NextFireIsLeastFrom(e, date);
  }

  /** Two least searches, from `date` and from the next second, make the result correct. */
  lemma NextFireIsLeastFrom(e: Expr, date: nat)
    requires Accepted(e) && Valid(At(date)) && Valid(AddSecond(At(date)))
    requires Least(e, At(date), SearchFrom(e, At(date)), YearOf(At(date).day))
    requires Least(e, AddSecond(At(date)), SearchFrom(e, AddSecond(At(date))), YearOf(AddSecond(At(date)).day))
    ensures CorrectToHorizon(e, date)
  {
    hide At, Accepted, Search, SearchFrom, Least, Matches, MatchesAt, YearOf, YearStart, Ahead, Instant, Before,
      AddSecond;
    Progress(e, date);
    AtIsInstant(date);
    var s := At(date);
    var q := AddSecond(s);
    AddSecondFacts(s);
    var r := NextFire(e, date);
    LaterYear(s.day, q.day);
    forall t | date < t && (if r != INVALID then t < r else t < YearStart(YearOf(date / 86400) + 5) * 86400)
      ensures !MatchesAt(e, t)
    {
      NoMatchBetween(e, s, q, date, r, t);
    }
    if r != INVALID {
      FoundMatches(e, s, q, date, r);
    }
  }

  lemma LaterYear(a: int, b: int)
    requires a <= b
    ensures YearStart(YearOf(a) + 5) <= YearStart(YearOf(b) + 5)
  {
    hide YearStart, YearOf;
    if a < b {
      DateOrder(a, b);
    }
    YearStartGrows(YearOf(a) + 5, YearOf(b) + 5);
  }

  lemma FoundMatches(e: Expr, s: Stamp, q: Stamp, date: nat, r: int)
    requires Accepted(e) && Valid(s) && Valid(q) && s == At(date) && q == AddSecond(s)
    requires r == NextFire(e, date) != INVALID
    requires Least(e, s, SearchFrom(e, s), YearOf(s.day)) && Least(e, q, SearchFrom(e, q), YearOf(q.day))
    ensures MatchesAt(e, r)
  {
    hide At, Accepted, SearchFrom, Least, MatchesAt, YearOf, Instant;
    var f, g := SearchFrom(e, s), SearchFrom(e, q);
    if f.value != s {
      LeastFound(e, s, f.value, r);
    } else {
      LeastFound(e, q, g.value, r);
    }
  }

  lemma NoMatchBetween(e: Expr, s: Stamp, q: Stamp, date: nat, r: int, t: int)
    requires Accepted(e) && Valid(s) && Valid(q) && s == At(date) && q == AddSecond(s)
    requires Instant(s) == date && Instant(q) == date + 1 && s.day == date / 86400
    requires YearStart(YearOf(s.day) + 5) <= YearStart(YearOf(q.day) + 5)
    requires Least(e, s, SearchFrom(e, s), YearOf(s.day)) && Least(e, q, SearchFrom(e, q), YearOf(q.day))
    requires r == NextFire(e, date) && date < t
    requires if r != INVALID then t < r else t < YearStart(YearOf(date / 86400) + 5) * 86400
    ensures !MatchesAt(e, t)
  {
    hide At, Accepted, SearchFrom, Least, MatchesAt, YearOf, YearStart, Instant;
    var f, g := SearchFrom(e, s), SearchFrom(e, q);
    if f.None? {
      LeastNotFound(e, s, t);
    } else if f.value != s {
      InstantIsNatural(f.value, s);
      LeastFound(e, s, f.value, t);
    } else if g.None? {
      LeastNotFound(e, q, t);
    } else {
      InstantIsNatural(g.value, q);
      LeastFound(e, q, g.value, t);
    }
  }

  lemma InstantIsNatural(v: Stamp, s: Stamp)
    requires Valid(v) && Valid(s) && !Before(v, s) && 0 <= Instant(s)
    ensures 0 <= Instant(v)
  {
    BeforeIsLess(v, s);
  }
}
