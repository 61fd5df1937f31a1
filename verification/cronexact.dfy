/** Exactly which expressions the next-fire search serves correctly from every date, as far as it looks ahead. */
module CronExact {
  import opened Options
  import opened Gregorian
  import opened CronSearch
  import opened CronTheorems

  // The seconds step

  /** All masks but the seconds mask accept the minute of `s`. */
  predicate MinuteOk(e: Expr, s: Stamp) {
    s.min in e.minutes && s.hour in e.hours && DayOk(e, s.day) && MonthOf(s.day) in e.months
  }

  /** The seconds step never restarts the search. That is harmless when the accepted seconds are one
      interval, or when the other masks accept every minute or none. */
  ghost predicate SecondStepSafe(e: Expr) {
    || Contiguous(e.seconds)
    || (forall u: Stamp :: Valid(u) && 0 <= u.day ==> MinuteOk(e, u))
    || (forall u: Stamp :: Valid(u) && 0 <= u.day ==> !MinuteOk(e, u))
  }

  // Each guard is needed

  /** An overflowing month step passes an accepted day of the month it overflows. */
  lemma SkippedMonth(e: Expr) returns (date: nat)
    requires Accepted(e) && !MonthStepSafe(e)
    ensures !CorrectToHorizon(e, date)
  {
    hide YearStart, DayOk, MonthOf, MDayOf, Ahead, At, Accepted, YearOf, Search, DayTarget, Low, Instant,
      MonthTarget, MonthGoal, CorrectToHorizon, Overflows, Before;
    var k: nat, x: int :| LooksUnchanged(e, k) && OverflowsInto(e, DayTarget(e, k), x) && DayOk(e, x);
    var s := AcceptedTime(e, k);
    var n := DayTarget(e, k);
    DayTargetBounds(e, k);
    StartIsAhead(e, s);
    StraightToDay(e, s, YearOf(k));
    OverflowLanding(e, n, x);
    var m := AcceptedTime(e, x);
    date := SkippedDate(e, s, n, m);
  }

  lemma DayTargetBounds(e: Expr, k: int)
    ensures k <= DayTarget(e, k) <= k + 366
    ensures DayOk(e, k) <==> DayTarget(e, k) == k
  {
    hide DayOk;
  }

  lemma OverflowLanding(e: Expr, n: int, x: int)
    requires Accepted(e) && OverflowsInto(e, n, x)
    ensures n < x < MonthTarget(e, n) && MonthOf(x) in e.months && YearOf(x) <= YearOf(n) + 1
  {
    hide YearStart, IsLeap, DayNumber, YearOf, MonthOf, MDayOf, MonthStart, MonthLength, DayOk, MonthGoal, FirstOfMonth;
    var (y, m, d) := MonthGoal(e, n);
    MonthGoalFacts(e, n);
    MonthLanding(y, m, d);
    var t := MonthTarget(e, n);
    if x < n { DateOrder(x, n); }
    if t < x { DateOrder(t, x); }
  }

  lemma SkippedDate(e: Expr, s: Stamp, n: int, m: Stamp) returns (date: nat)
    requires Accepted(e) && Valid(s) && Valid(m) && 0 <= s.day <= n <= s.day + 366
    requires Ahead(e, s, YearOf(s.day)) && Low(e, s)
    requires Search(e, s, YearOf(s.day)) == FromDay(e, s, true, true, true, YearOf(s.day))
    requires n == DayTarget(e, s.day) && MDayOf(n) == MDayOf(s.day) && MonthOf(n) !in e.months
    requires n < m.day < MonthTarget(e, n) && Matches(e, m) && YearOf(m.day) <= YearOf(n) + 1
    ensures !CorrectToHorizon(e, date)
  {
    hide YearStart, DayOk, MonthOf, MDayOf, Ahead, At, Accepted, YearOf, Search, DayTarget, Low,
      MonthTarget, MonthGoal, Matches, CorrectToHorizon, Instant, Before;
    date := InstantAsNat(s);
    InstantIsAt(s);
    var t := Instant(m);
    BeforeInTime(s, m);
    MatchAtInstant(e, m);
    WithinFiveYears(s.day, n, m.day);
    var r := SearchFrom(e, s);
    assert r == FromDay(e, s, true, true, true, YearOf(s.day));
    LandsAfter(e, s, n, r);
    if r.Some? {
      BeforeInTime(m, r.value);
    }
    NotCorrect(e, s, r, m);
  }

  lemma InstantAsNat(s: Stamp) returns (t: nat)
    requires Valid(s) && 0 <= s.day
    ensures t == Instant(s)
  {
    t := Instant(s);
  }

  lemma BeforeInTime(a: Stamp, b: Stamp)
    requires Valid(a) && Valid(b)
    ensures a.day < b.day ==> Instant(a) < Instant(b)
    ensures Before(a, b) ==> Instant(a) < Instant(b)
    ensures b.day < (Instant(a) / 86400) ==> Instant(b) < Instant(a)
    ensures Instant(a) / 86400 == a.day && Instant(a) < (a.day + 1) * 86400
    ensures 0 <= a.day ==> 0 <= Instant(a)
  {
  }

  lemma MatchAtInstant(e: Expr, s: Stamp)
    requires Valid(s)
    ensures MatchesAt(e, Instant(s)) <==> Matches(e, s)
  {
    hide At, Matches, Instant;
    InstantIsAt(s);
  }

  lemma WithinFiveYears(k: int, n: int, x: int)
    requires k <= n <= k + 366 && YearOf(x) <= YearOf(n) + 1
    ensures x < YearStart(YearOf(k) + 5)
  {
    hide YearStart, YearOf;
    var y := YearOf(k);
    YearStartStep(y);
    YearStartGrows(y + 1, y + 3);
    if y + 2 < YearOf(n) {
      YearStartGrows(y + 3, YearOf(n));
    }
    YearStartGrows(YearOf(x) + 1, y + 5);
  }

  /** From `s` the search leaves the month for the target of its month step, or gives up. */
  lemma LandsAfter(e: Expr, s: Stamp, n: int, r: Option<Stamp>)
    requires Accepted(e) && Valid(s) && Ahead(e, s, YearOf(s.day)) && Low(e, s)
    requires r == FromDay(e, s, true, true, true, YearOf(s.day))
    requires n == DayTarget(e, s.day) && MDayOf(n) == MDayOf(s.day) && MonthOf(n) !in e.months
    ensures r.Some? ==> Valid(r.value) && MonthTarget(e, n) <= r.value.day
  {
    hide YearStart, DayOk, MonthOf, MDayOf, Ahead, Accepted, YearOf, Search, DayTarget, Low, MonthTarget, MonthGoal;
    var dot := YearOf(s.day);
    var s1 := DayStep(e, s, true, true, true);
    DayTools(e, s, s1, true, true, true, dot);
    var s2 := MonthStep(e, s1, true, true, true);
    if YearOf(s2.day) - dot <= 4 {
      MonthTools(e, s1, s2, true, true, true, dot);
    }
  }

  /** A match passed over, inside the horizon, refutes the promise. */
  lemma NotCorrect(e: Expr, s: Stamp, r: Option<Stamp>, m: Stamp)
    requires Accepted(e) && Valid(s) && 0 <= s.day && Valid(m) && Matches(e, m)
    requires r == SearchFrom(e, s) && m.day < YearStart(YearOf(s.day) + 5)
    requires Instant(s) < Instant(m) && (r.Some? ==> Instant(m) < Instant(r.value))
    ensures !CorrectToHorizon(e, Instant(s))
  {
    hide YearStart, At, Accepted, YearOf, SearchFrom, Matches, MatchesAt, Instant, Before;
    InstantIsAt(s);
    MatchAtInstant(e, m);
    BeforeInTime(s, m);
    BeforeInTime(m, s);
    var date, t := Instant(s), Instant(m);
    assert MatchesAt(e, t);
    assert date < t;
  }

  /** A date from which the seconds step passes over the least match. */
  lemma SkippedSecond(e: Expr) returns (date: nat)
    requires Accepted(e) && !SecondStepSafe(e) && MonthStepSafe(e)
    ensures !CorrectToHorizon(e, date)
  {
    hide YearStart, DayOk, MonthOf, MDayOf, Ahead, At, Accepted, YearOf, Search, Low, Instant, Matches, CorrectToHorizon,
      Before, MinuteOk, MonthStepSafe;
    var a, b, g :| a in e.seconds && b in e.seconds && a <= g <= b && g !in e.seconds;
    var u: Stamp :| Valid(u) && 0 <= u.day && !MinuteOk(e, u);
    var w: Stamp :| Valid(w) && 0 <= w.day && MinuteOk(e, w);
    var c := Opening(e, u, w);
    date := SecondKept(e, c, a, g, b);
  }

  function MinuteStamp(q: int): Stamp {
    Stamp(q / 1440, q / 60 % 24, q % 60, 0)
  }

  lemma MinuteStampFacts(q: int)
    ensures Valid(MinuteStamp(q)) && AddMinute(MinuteStamp(q)) == MinuteStamp(q + 1)
  {
    assert q / 60 / 24 == q / 1440;
  }

  lemma MinuteStampOf(e: Expr, s: Stamp) returns (q: int)
    requires Valid(s)
    ensures MinuteStamp(q) == s.(sec := 0)
    ensures MinuteOk(e, MinuteStamp(q)) == MinuteOk(e, s)
    ensures q / 1440 == s.day
  {
    hide DayOk, MonthOf;
    q := (s.day * 24 + s.hour) * 60 + s.min;
    assert q / 60 == s.day * 24 + s.hour;
    assert q / 60 / 24 == q / 1440;
  }

  /** 400 years later a minute is accepted as it is now. */
  lemma RecursOnce(e: Expr, s: Stamp)
    ensures MinuteOk(e, s.(day := s.day + 146097)) == MinuteOk(e, s)
  {
    hide MonthOf, MDayOf, WeekdayOf, YearOf;
    FourCenturies(s.day);
  }

  lemma {:induction false} Recurs(e: Expr, s: Stamp, k: nat)
    ensures MinuteOk(e, s.(day := s.day + 146097 * k)) == MinuteOk(e, s)
    decreases k
  {
    hide MinuteOk;
    if k > 0 {
      var r := s.(day := s.day + 146097);
      RecursOnce(e, s);
      Recurs(e, r, k - 1);
      assert s.(day := s.day + 146097 * k) == r.(day := r.day + 146097 * (k - 1));
    }
  }

  lemma {:induction false} LastClosed(e: Expr, p: int, q: int) returns (c: int)
    requires p < q && !MinuteOk(e, MinuteStamp(p)) && MinuteOk(e, MinuteStamp(q))
    ensures p <= c < q && !MinuteOk(e, MinuteStamp(c)) && MinuteOk(e, MinuteStamp(c + 1))
    decreases q - p
  {
    hide MinuteOk, MinuteStamp;
    if MinuteOk(e, MinuteStamp(q - 1)) {
      c := LastClosed(e, p, q - 1);
    } else {
      c := q - 1;
    }
  }

  /** A rejected minute right before an accepted one. */
  lemma Opening(e: Expr, u: Stamp, w: Stamp) returns (c: Stamp)
    requires Valid(u) && 0 <= u.day && !MinuteOk(e, u)
    requires Valid(w) && 0 <= w.day && MinuteOk(e, w)
    ensures Valid(c) && 0 <= c.day && !MinuteOk(e, c) && MinuteOk(e, AddMinute(c))
  {
    hide MinuteOk, MinuteStamp;
    var p := MinuteStampOf(e, u);
    var w' := w.(day := w.day + 146097 * (u.day + 1));
    Recurs(e, w, u.day + 1);
    var q := MinuteStampOf(e, w');
    DayOrderInMinutes(p, q);
    var k := LastClosed(e, p, q);
    c := MinuteStamp(k);
    MinuteStampFacts(k);
    DayOrderInMinutes(p, k);
    MinuteStampDay(k);
  }

  lemma MinuteStampDay(q: int)
    ensures MinuteStamp(q).day == q / 1440
  {
  }

  lemma DayOrderInMinutes(p: int, q: int)
    ensures p / 1440 < q / 1440 ==> p < q
    ensures p <= q ==> p / 1440 <= q / 1440
  {
  }

  lemma EarlyIsAhead(e: Expr, s: Stamp, dot: int)
    requires Accepted(e) && YearOf(s.day) < dot + 5
    ensures Ahead(e, s, dot)
  {
    hide YearStart, DayOk, YearOf, CarryFree;
    YearStartGrows(YearOf(s.day) + 1, dot + 5);
  }

  lemma NextDayYear(n: int)
    ensures YearOf(n) <= YearOf(n + 1) <= YearOf(n) + 1 && MDayOf(n + 1) != MDayOf(n)
  {
    hide YearStart, IsLeap, MonthStart, MonthLength, DayNumber, YearOf, MonthOf, MDayOf;
    NextDay(n);
    SameMDayIsFar(n, n + 1);
  }

  /** Between two accepted days the month step moves to the next day. */
  lemma MonthTargetIsTomorrow(e: Expr, n: nat)
    requires Accepted(e) && MonthStepSafe(e) && MonthOf(n) !in e.months && MonthOf(n + 1) in e.months
    requires DayOk(e, n) && DayOk(e, n + 1)
    ensures MonthTarget(e, n) == n + 1
  {
    hide YearStart, DayOk, MonthOf, MDayOf, YearOf, MonthTarget, MonthGoal, Accepted, Overflows, DayTarget;
    MonthTargetFacts(e, n);
    DayTargetBounds(e, n);
    assert n + 1 < MonthTarget(e, n) ==> OverflowsInto(e, DayTarget(e, n), n + 1);
  }

  /** From the last rejected minute, one step reaches the next minute and leaves the seconds alone. */
  lemma MinuteKeeps(e: Expr, c: Stamp, v: int)
    requires Accepted(e) && Valid(c) && !MinuteOk(e, c) && MinuteOk(e, AddMinute(c)) && 0 <= v < 60
    ensures var s, w := c.(sec := v), AddMinute(c).(sec := v);
            || MinuteStep(e, s, false) == w
            || (c.min == 59 && c.min in e.minutes && MinuteStep(e, s, false) == s)
    ensures AddMinute(c).min != c.min
  {
    hide DayOk, MonthOf;
    var w := AddMinute(c);
    if c.min < 59 {
      assert c.min !in e.minutes && NextIn(e.minutes, 60, c.min) == Some(c.min + 1);
    } else if 59 !in e.minutes {
      assert NextIn(e.minutes, 60, 59) == None && NextIn(e.minutes, 60, 0) == Some(0);
    }
  }

  lemma HourKeeps(e: Expr, c: Stamp, v: int)
    requires Accepted(e) && Valid(c) && !MinuteOk(e, c) && MinuteOk(e, AddMinute(c)) && 0 <= v < 60
    requires c.min == 59 && c.min in e.minutes
    ensures var s, w := c.(sec := v), AddMinute(c).(sec := v);
            || HourStep(e, s, false, true) == w
            || (c.hour == 23 && c.hour in e.hours && HourStep(e, s, false, true) == s)
    ensures AddMinute(c).hour != c.hour
  {
    hide DayOk, MonthOf;
    var w := AddMinute(c);
    if c.hour < 23 {
      assert c.hour !in e.hours && NextIn(e.hours, 24, c.hour) == Some(c.hour + 1);
    } else if 23 !in e.hours {
      assert NextIn(e.hours, 24, 23) == None && NextIn(e.hours, 24, 0) == Some(0);
    }
  }

  lemma DayKeeps(e: Expr, c: Stamp, v: int)
    requires Accepted(e) && MonthStepSafe(e)
    requires Valid(c) && 0 <= c.day && !MinuteOk(e, c) && MinuteOk(e, AddMinute(c)) && 0 <= v < 60
    requires c.min == 59 && c.min in e.minutes && c.hour == 23 && c.hour in e.hours
    ensures var s, w := c.(sec := v), AddMinute(c).(sec := v);
            if !DayOk(e, c.day) then DayStep(e, s, false, true, true) == w
            else DayStep(e, s, false, true, true) == s && MonthOf(c.day) !in e.months
                 && MonthStep(e, s, false, true, true) == w
    ensures AddMinute(c).day == c.day + 1
  {
    hide DayOk, MonthOf, MDayOf, YearOf, Accepted, MonthTarget, MonthStepSafe, DayTarget;
    DayTargetBounds(e, c.day);
    if DayOk(e, c.day) {
      MonthTargetIsTomorrow(e, c.day);
    } else {
      ScanOne(e, c.day);
    }
  }

  lemma ScanOne(e: Expr, n: int)
    requires !DayOk(e, n) && DayOk(e, n + 1)
    ensures DayTarget(e, n) == n + 1
  {
    hide DayOk;
  }

  lemma KeepsSecond(e: Expr, c: Stamp, g: int, v: int)
    requires Accepted(e) && MonthStepSafe(e)
    requires Valid(c) && 0 <= c.day && !MinuteOk(e, c) && MinuteOk(e, AddMinute(c))
    requires 0 <= g < 60 && g !in e.seconds && NextIn(e.seconds, 60, g) == Some(v)
    ensures SearchFrom(e, c.(sec := g)) == Some(AddMinute(c).(sec := v))
  {
    hide Accepted, Left, YearStart, DayOk, MonthOf, MDayOf, YearOf, Ahead, Low, MinuteStep, MonthStepSafe, MinuteOk,
      AddMinute, Matches, Before, FromHour;
    var s, s1, w := c.(sec := g), c.(sec := v), AddMinute(c).(sec := v);
    var dot := YearOf(c.day);
    StartIsAhead(e, s);
    StartIsAhead(e, s1);
    OpenedMinute(e, c, v);
    NextDayYear(c.day);
    EarlyIsAhead(e, w, dot);
    Settled(e, w, false, false, false, dot);
    MinuteKeeps(e, c, v);
    if MinuteStep(e, s1, false) != w {
      FromHourKeeps(e, c, v);
    }
  }

  lemma FromHourKeeps(e: Expr, c: Stamp, v: int)
    requires Accepted(e) && MonthStepSafe(e)
    requires Valid(c) && 0 <= c.day && !MinuteOk(e, c) && MinuteOk(e, AddMinute(c))
    requires v in e.seconds && 0 <= v < 60 && c.min == 59 && c.min in e.minutes
    ensures var s1 := c.(sec := v);
            && Ahead(e, s1, YearOf(c.day)) && s1.sec <= Max(e.seconds) && s1.min <= Max(e.minutes)
            && FromHour(e, s1, false, true, YearOf(c.day)) == Some(AddMinute(c).(sec := v))
  {
    hide Left, YearStart, DayOk, MonthOf, MDayOf, YearOf, Ahead, HourStep, MonthStepSafe, MinuteOk, AddMinute, Matches,
      Before, Search, FromDay, Accepted;
    var s1, w := c.(sec := v), AddMinute(c).(sec := v);
    var dot := YearOf(c.day);
    StartIsAhead(e, s1);
    OpenedMinute(e, c, v);
    NextDayYear(c.day);
    EarlyIsAhead(e, w, dot);
    Settled(e, w, false, true, false, dot);
    HourKeeps(e, c, v);
    HourTools(e, s1, HourStep(e, s1, false, true), false, true, dot);
    if HourStep(e, s1, false, true) != w {
      FromDayKeeps(e, c, v);
    }
  }

  lemma FromDayKeeps(e: Expr, c: Stamp, v: int)
    requires Accepted(e) && MonthStepSafe(e)
    requires Valid(c) && 0 <= c.day && !MinuteOk(e, c) && MinuteOk(e, AddMinute(c))
    requires v in e.seconds && 0 <= v < 60
    requires c.min == 59 && c.min in e.minutes && c.hour == 23 && c.hour in e.hours
    ensures var s1 := c.(sec := v);
            && Ahead(e, s1, YearOf(c.day)) && Low(e, s1)
            && FromDay(e, s1, false, true, true, YearOf(c.day)) == Some(AddMinute(c).(sec := v))
  {
    hide Left, YearStart, DayOk, MonthOf, MDayOf, YearOf, Ahead, DayStep, MonthStep, MonthStepSafe, MinuteOk, AddMinute,
      Matches, Before, Search, Accepted;
    var s1, w := c.(sec := v), AddMinute(c).(sec := v);
    var dot := YearOf(c.day);
    StartIsAhead(e, s1);
    OpenedMinute(e, c, v);
    NextDayYear(c.day);
    EarlyIsAhead(e, w, dot);
    Settled(e, w, false, true, true, dot);
    DayKeeps(e, c, v);
  }

  lemma OpenedMinute(e: Expr, c: Stamp, v: int)
    requires Valid(c) && MinuteOk(e, AddMinute(c)) && v in e.seconds && 0 <= v < 60
    ensures var w := AddMinute(c).(sec := v);
            && Valid(w) && Matches(e, w) && c.day <= w.day <= c.day + 1
            && Instant(c.(sec := 0)) + 60 + v == Instant(w)
  {
    hide DayOk, MonthOf;
  }

  lemma SecondKept(e: Expr, c: Stamp, a: int, g: int, b: int) returns (date: nat)
    requires Accepted(e) && MonthStepSafe(e)
    requires Valid(c) && 0 <= c.day && !MinuteOk(e, c) && MinuteOk(e, AddMinute(c))
    requires a in e.seconds && b in e.seconds && a <= g <= b && g !in e.seconds
    ensures !CorrectToHorizon(e, date)
  {
    hide YearStart, DayOk, MonthOf, MDayOf, YearOf, Matches, CorrectToHorizon, Before, SearchFrom, MonthStepSafe, MinuteOk,
      AddMinute, Instant;
    FirstIsLeast(e.seconds, 60);
    var f := First(e.seconds, 60);
    var next := NextIn(e.seconds, 60, g);
    assert next.Some? && f < g < next.value;
    var s, m, r := c.(sec := g), AddMinute(c).(sec := f), AddMinute(c).(sec := next.value);
    KeepsSecond(e, c, g, next.value);
    OpenedMinute(e, c, f);
    OpenedMinute(e, c, next.value);
    SecondsInOrder(c, g, f);
    NextDayYear(c.day);
    EarlyDay(m.day, c.day);
    date := InstantAsNat(s);
    NotCorrect(e, s, Some(r), m);
  }

  lemma SecondsInOrder(c: Stamp, g: int, f: int)
    requires 0 <= f < g < 60 && Valid(c)
    ensures Instant(c.(sec := g)) < Instant(c.(sec := 0)) + 60 + f
  {
  }

  lemma EarlyDay(a: int, b: int)
    requires YearOf(a) <= YearOf(b) + 1
    ensures a < YearStart(YearOf(b) + 5)
  {
    hide YearStart, YearOf;
    YearStartGrows(YearOf(a) + 1, YearOf(b) + 5);
  }

  // The exact condition

  /** As far as it looks ahead the search is correct from every date exactly when its three steps are safe. */
  lemma CorrectToHorizonIffSafe(e: Expr)
    requires Accepted(e)
    ensures (forall date: nat :: CorrectToHorizon(e, date))
       <==> SecondStepSafe(e) && DayStepSafe(e) && MonthStepSafe(e)
  {
    hide Accepted, DayStepSafe, MonthStepSafe, SecondStepSafe, NextFire, MatchesAt;
    if SecondStepSafe(e) && DayStepSafe(e) && MonthStepSafe(e) {
      forall date: nat
        ensures CorrectToHorizon(e, date)
      {
        SafeIsCorrectToHorizon(e, date);
      }
    } else if !DayStepSafe(e) {
      var date := UnsoundDate(e);
      assert !CorrectToHorizon(e, date);
    } else if !MonthStepSafe(e) {
      var date := SkippedMonth(e);
    } else {
      var date := SkippedSecond(e);
    }
  }

  lemma SafeIsCorrectToHorizon(e: Expr, date: nat)
    requires Accepted(e) && SecondStepSafe(e) && DayStepSafe(e) && MonthStepSafe(e)
    ensures CorrectToHorizon(e, date)
  {
    hide Accepted, DayStepSafe, MonthStepSafe, NextFire, MatchesAt, MinuteOk;
    if Contiguous(e.seconds) {
      NextFireIsLeast(e, date);
    } else if forall u: Stamp :: Valid(u) && 0 <= u.day ==> MinuteOk(e, u) {
      EveryMinute(e, date);
    } else {
      NoMinute(e, date);
    }
  }

  lemma NoMinute(e: Expr, date: nat)
    requires Accepted(e) && DayStepSafe(e)
    requires forall u: Stamp :: Valid(u) && 0 <= u.day ==> !MinuteOk(e, u)
    ensures NextFire(e, date) == INVALID && CorrectToHorizon(e, date)
  {
    hide Accepted, DayStepSafe, NextFire, At, DayOk, MonthOf, YearStart, YearOf;
    NextFireIsSound(e, date);
    Progress(e, date);
    forall t: nat
      ensures !MatchesAt(e, t)
    {
      AtIsInstant(t);
    }
  }

  /** When every minute is accepted, only the seconds step moves. */
  lemma EveryMinute(e: Expr, date: nat)
    requires Accepted(e)
    requires forall u: Stamp :: Valid(u) && 0 <= u.day ==> MinuteOk(e, u)
    ensures CorrectToHorizon(e, date)
  {
    hide Accepted, NextFire, At, DayOk, MonthOf, YearStart, YearOf, SecondStep, Least, SearchFrom, Instant, MinuteOk;
    AtIsInstant(date);
    var s := At(date);
    EveryMinuteLeast(e, s);
    AddSecondFacts(s);
    EveryMinuteLeast(e, AddSecond(s));
    Progress(e, date);
    NextFireIsLeastFrom(e, date);
  }

  lemma EveryMinuteLeast(e: Expr, s: Stamp)
    requires Accepted(e) && Valid(s) && 0 <= s.day
    requires forall u: Stamp :: Valid(u) && 0 <= u.day ==> MinuteOk(e, u)
    ensures Least(e, s, SearchFrom(e, s), YearOf(s.day))
  {
    hide Accepted, DayOk, MonthOf, YearStart, YearOf, Ahead, SecondStep, MinuteStep, FromHour, Before, MDayOf;
    var dot := YearOf(s.day);
    StartIsAhead(e, s);
    var r := SecondStep(e, s);
    SecondStepFacts(e, s, dot);
    SecondStepDay(e, s, r);
    assert MinuteOk(e, r);
    Settled(e, r, r.sec == s.sec, true, true, dot);
    AcceptedMinuteStays(e, r, r.sec == s.sec);
    SecondQuiet(e, s);
  }

  lemma AcceptedMinuteStays(e: Expr, s: Stamp, ks: bool)
    requires Accepted(e) && Valid(s) && s.min in e.minutes
    ensures MinuteStep(e, s, ks) == s
  {
    hide DayOk, MonthOf;
    assert NextIn(e.minutes, 60, s.min) == Some(s.min);
  }

  lemma SecondStepDay(e: Expr, s: Stamp, r: Stamp)
    requires r == SecondStep(e, s)
    ensures s.day <= r.day
  {
  }
}
