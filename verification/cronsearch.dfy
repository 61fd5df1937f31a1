/** The next-fire search, as a function on instants.

    Every calendar update of the search ends in `timegm`, so between two updates the broken-down
    time is normalised and stands for one instant. A `Stamp` is that instant: a day number and a
    time of day. The methods that update a broken-down time in place are proved equal to these
    functions in module `CronEngine`.
 */
module CronSearch {
  import opened Options
  import opened Gregorian

  /** The six masks of a compiled expression, as the sets of their set bits. */
  datatype Expr = Expr(seconds: set<int>, minutes: set<int>, hours: set<int>,
                       daysOfMonth: set<int>, months: set<int>, daysOfWeek: set<int>)

  ghost predicate Within(b: set<int>, lo: int, hi: int) {
    b != {} && forall x <- b :: lo <= x < hi
  }

  /** What the compiler of expressions guarantees of every expression it accepts. */
  ghost predicate Accepted(e: Expr) {
    && Within(e.seconds, 0, 60)
    && Within(e.minutes, 0, 60)
    && Within(e.hours, 0, 24)
    && Within(e.daysOfMonth, 1, 32)
    && Within(e.months, 0, 12)
    && Within(e.daysOfWeek, 0, 7)
  }

  /** A second of time: the day number since 1970-01-01 and the time of day. */
  datatype Stamp = Stamp(day: int, hour: int, min: int, sec: int)

  predicate Valid(s: Stamp) {
    0 <= s.hour < 24 && 0 <= s.min < 60 && 0 <= s.sec < 60
  }

  function Instant(s: Stamp): int {
    ((s.day * 24 + s.hour) * 60 + s.min) * 60 + s.sec
  }

  predicate Before(a: Stamp, b: Stamp) {
    || a.day < b.day
    || (a.day == b.day && a.hour < b.hour)
    || (a.day == b.day && a.hour == b.hour && a.min < b.min)
    || (a.day == b.day && a.hour == b.hour && a.min == b.min && a.sec < b.sec)
  }

  predicate DayOk(e: Expr, n: int) {
    MDayOf(n) in e.daysOfMonth && WeekdayOf(n) in e.daysOfWeek
  }

  /** All six masks accept the UTC fields of `s`. */
  predicate Matches(e: Expr, s: Stamp) {
    && s.sec in e.seconds
    && s.min in e.minutes
    && s.hour in e.hours
    && DayOk(e, s.day)
    && MonthOf(s.day) in e.months
  }

  // Searching a mask

  function NextIn(b: set<int>, max: int, from: int): (r: Option<int>)
    ensures r.Some? ==> from <= r.value < max && r.value in b
    ensures r.Some? ==> forall x :: from <= x < r.value ==> x !in b
    ensures r.None? ==> forall x :: from <= x < max ==> x !in b
    decreases max - from
  {
    if from >= max then None
    else if from in b then Some(from)
    else NextIn(b, max, from + 1)
  }

  function First(b: set<int>, max: int): int {
    match NextIn(b, max, 0)
    case Some(v) => v
    case None => 0
  }

  lemma Inhabited(b: set<int>)
    requires b != {}
    ensures exists x :: x in b
  {
    assert (forall x :: x !in b) ==> b == {};
  }

  lemma FirstIsLeast(b: set<int>, max: int)
    requires Within(b, 0, max)
    ensures First(b, max) in b && forall x <- b :: First(b, max) <= x < max
  {
    Inhabited(b);
    var x :| x in b;
    assert 0 <= x < max;
  }

  ghost function Max(b: set<int>): (m: int)
    requires b != {}
    ensures m in b && forall x <- b :: x <= m
  {
    MaxExists(b);
    var m :| m in b && forall x <- b :: x <= m;
    m
  }

  lemma {:induction false} MaxExists(b: set<int>)
    requires b != {}
    ensures exists m :: m in b && forall x <- b :: x <= m
    decreases |b|
  {
    Inhabited(b);
    var x :| x in b;
    if b != {x} {
      var c := b - {x};
      assert c == {} ==> b == {x};
      MaxExists(c);
      var m :| m in c && forall y <- c :: y <= m;
      var k := if x <= m then m else x;
      assert forall y <- b :: y == x || y in c;
      assert k in b && forall y <- b :: y <= k;
    }
  }

  // One step per calendar field

  function AddDay(s: Stamp): Stamp {
    s.(day := s.day + 1)
  }

  function AddHour(s: Stamp): Stamp {
    if s.hour < 23 then s.(hour := s.hour + 1) else AddDay(s.(hour := 0))
  }

  function AddMinute(s: Stamp): Stamp {
    if s.min < 59 then s.(min := s.min + 1) else AddHour(s.(min := 0))
  }

  function AddSecond(s: Stamp): Stamp {
    if s.sec < 59 then s.(sec := s.sec + 1) else AddMinute(s.(sec := 0))
  }

  /** Clears the fields that an earlier step left unchanged. */
  function Reset(s: Stamp, sec: bool, min: bool, hour: bool): Stamp {
    s.(sec := if sec then 0 else s.sec, min := if min then 0 else s.min, hour := if hour then 0 else s.hour)
  }

  function SecondStep(e: Expr, s: Stamp): Stamp {
    match NextIn(e.seconds, 60, s.sec)
    case Some(v) => s.(sec := v)
    case None => AddMinute(s).(sec := First(e.seconds, 60))
  }

  function MinuteStep(e: Expr, s: Stamp, ks: bool): Stamp {
    match NextIn(e.minutes, 60, s.min)
    case Some(v) => if v == s.min then s else Reset(s.(min := v), ks, false, false)
    case None => Reset(AddHour(s).(min := First(e.minutes, 60)), ks, false, false)
  }

  function HourStep(e: Expr, s: Stamp, ks: bool, km: bool): Stamp {
    match NextIn(e.hours, 24, s.hour)
    case Some(v) => if v == s.hour then s else Reset(s.(hour := v), ks, km, false)
    case None => Reset(AddDay(s).(hour := First(e.hours, 24)), ks, km, false)
  }

  /** The first day accepted by both day masks, or `fuel` days on when there is none so soon. */
  function DayScan(e: Expr, n: int, fuel: nat): (r: int)
    ensures n <= r <= n + fuel
    ensures forall x :: n <= x < r ==> !DayOk(e, x)
    ensures DayOk(e, r) || r == n + fuel
    decreases fuel
  {
    hide DayOk;
    if DayOk(e, n) || fuel == 0 then n else DayScan(e, n + 1, fuel - 1)
  }

  function DayTarget(e: Expr, n: int): int {
    DayScan(e, n, 366)
  }

  function DayStep(e: Expr, s: Stamp, ks: bool, km: bool, kh: bool): Stamp {
    var n := DayTarget(e, s.day);
    if n == s.day then s else Reset(s.(day := n), ks, km, kh)
  }

  /** The year, month and day that the month step asks `timegm` for. */
  function MonthGoal(e: Expr, n: int): (int, int, int) {
    match NextIn(e.months, 12, MonthOf(n))
    case Some(v) => (YearOf(n), v, MDayOf(n))
    case None =>
      var n1 := DayNumber(YearOf(n) + 1, MonthOf(n), MDayOf(n));
      var n2 := DayNumber(YearOf(n1), 0, MDayOf(n1));
      (YearOf(n2), First(e.months, 12), MDayOf(n2))
  }

  function FirstOfMonth(n: int): int {
    DayNumber(YearOf(n), MonthOf(n), 1)
  }

  function MonthTarget(e: Expr, n: int): int {
    var (y, m, d) := MonthGoal(e, n);
    FirstOfMonth(DayNumber(y, m, d))
  }

  function MonthStep(e: Expr, s: Stamp, ks: bool, km: bool, kh: bool): Stamp {
    Reset(s.(day := MonthTarget(e, s.day)), ks, km, kh)
  }

  // The horizon that bounds the search

  lemma Live(e: Expr, n: int) returns (k: int)
    requires Accepted(e)
    ensures n <= k && DayOk(e, k)
  {
    Inhabited(e.daysOfMonth);
    Inhabited(e.daysOfWeek);
    var d :| d in e.daysOfMonth;
    var w :| w in e.daysOfWeek;
    k := EveryDateComes(n, d, w);
  }

  /** The first day from `n` on that the day masks accept, when `k` is one. */
  ghost function FirstDayOk(e: Expr, n: int, k: int): (r: int)
    requires n <= k && DayOk(e, k)
    ensures n <= r <= k && DayOk(e, r) && forall x :: n <= x < r ==> !DayOk(e, x)
    decreases k - n
  {
    hide DayOk;
    if DayOk(e, n) then n else FirstDayOk(e, n + 1, k)
  }

  lemma HorizonExists(e: Expr, dot: int)
    requires Accepted(e)
    ensures exists n :: YearStart(dot + 5) <= n && DayOk(e, n)
  {
    hide YearStart, DayOk;
    var n := Live(e, YearStart(dot + 5));
  }

  /** The first day accepted by the day masks after the last year the search may move to. */
  ghost function Horizon(e: Expr, dot: int): (n: int)
    requires Accepted(e)
    ensures YearStart(dot + 5) <= n && DayOk(e, n) && forall x :: YearStart(dot + 5) <= x < n ==> !DayOk(e, x)
  {
    hide YearStart, DayOk;
    HorizonExists(e, dot);
    var n :| YearStart(dot + 5) <= n && DayOk(e, n);
    FirstDayOk(e, YearStart(dot + 5), n)
  }

  /** No field is past the greatest value its mask accepts. */
  ghost predicate Low(e: Expr, s: Stamp)
    requires Accepted(e)
  {
    s.sec <= Max(e.seconds) && s.min <= Max(e.minutes) && s.hour <= Max(e.hours)
  }

  /** The time of day is not past the last accepted one. */
  ghost predicate CarryFree(e: Expr, s: Stamp)
    requires Accepted(e)
  {
    || s.hour < Max(e.hours)
    || (s.hour == Max(e.hours) && s.min < Max(e.minutes))
    || (s.hour == Max(e.hours) && s.min == Max(e.minutes) && s.sec <= Max(e.seconds))
  }

  ghost predicate Ahead(e: Expr, s: Stamp, dot: int)
    requires Accepted(e)
  {
    s.day <= Horizon(e, dot) && (YearStart(dot + 5) <= s.day ==> CarryFree(e, s))
  }

  /** Strictly decreases along the recursion: seconds left to the end of the horizon day. */
  ghost function Left(e: Expr, s: Stamp, dot: int): int
    requires Accepted(e)
  {
    (Horizon(e, dot) + 1) * 86400 - Instant(s)
  }

  lemma BeforeIsLess(a: Stamp, b: Stamp)
    requires Valid(a) && Valid(b)
    ensures Before(a, b) <==> Instant(a) < Instant(b)
    ensures Instant(a) == Instant(b) <==> a == b
  {
  }

  lemma BeforeIsTransitive(a: Stamp, b: Stamp, c: Stamp)
    ensures !Before(b, a) && !Before(c, b) ==> !Before(c, a)
    ensures !Before(b, a) && Before(b, c) ==> Before(a, c)
    ensures Before(a, b) && !Before(c, b) ==> Before(a, c)
    ensures Before(a, b) ==> !Before(b, a)
  {
  }

  lemma CloserToHorizon(e: Expr, a: Stamp, b: Stamp, dot: int)
    requires Accepted(e) && Valid(a) && Valid(b) && Ahead(e, b, dot)
    ensures 0 <= Left(e, b, dot)
    ensures !Before(b, a) ==> Left(e, b, dot) <= Left(e, a, dot)
    ensures Before(a, b) ==> Left(e, b, dot) < Left(e, a, dot)
  {
    hide YearStart, DayOk, CarryFree;
  }

  lemma SecondStepFacts(e: Expr, s: Stamp, dot: int)
    requires Accepted(e) && Valid(s) && Ahead(e, s, dot)
    ensures var r := SecondStep(e, s);
            && Valid(r) && Ahead(e, r, dot) && !Before(r, s)
            && r.sec in e.seconds && (r.sec == s.sec ==> r == s)
  {
    hide YearStart, DayOk;
    FirstIsLeast(e.seconds, 60);
    assert Max(e.seconds) < 60 && Max(e.minutes) < 60 && Max(e.hours) < 24;
    assert Max(e.minutes) >= 0 && Max(e.hours) >= 0;
  }

  lemma MinuteStepFacts(e: Expr, s: Stamp, ks: bool, dot: int)
    requires Accepted(e) && Valid(s) && Ahead(e, s, dot) && s.sec <= Max(e.seconds)
    ensures var r := MinuteStep(e, s, ks);
            && Valid(r) && Ahead(e, r, dot) && r.sec <= Max(e.seconds) && r.min in e.minutes
            && (r.min == s.min ==> r == s) && (r.min != s.min ==> Before(s, r))
  {
    hide YearStart, DayOk;
    FirstIsLeast(e.minutes, 60);
    assert Max(e.minutes) < 60 && Max(e.hours) < 24;
    assert Max(e.seconds) >= 0 && Max(e.hours) >= 0;
  }

  lemma HourStepFacts(e: Expr, s: Stamp, ks: bool, km: bool, dot: int)
    requires Accepted(e) && Valid(s) && Ahead(e, s, dot)
    requires s.sec <= Max(e.seconds) && s.min <= Max(e.minutes)
    ensures var r := HourStep(e, s, ks, km);
            && Valid(r) && Ahead(e, r, dot) && Low(e, r) && r.hour in e.hours
            && (r.hour == s.hour ==> r == s) && (r.hour != s.hour ==> Before(s, r))
  {
    hide YearStart, DayOk;
    FirstIsLeast(e.hours, 24);
    assert Max(e.hours) < 24;
    assert Max(e.seconds) >= 0 && Max(e.minutes) >= 0;
  }

  lemma DayStepFacts(e: Expr, s: Stamp, ks: bool, km: bool, kh: bool, dot: int)
    requires Accepted(e) && Valid(s) && Ahead(e, s, dot) && Low(e, s)
    ensures var r := DayStep(e, s, ks, km, kh);
            && Valid(r) && Ahead(e, r, dot) && Low(e, r) && r.day == DayTarget(e, s.day)
            && (r.day == s.day ==> r == s) && (r.day != s.day ==> Before(s, r))
  {
    hide YearStart, DayOk;
    assert Max(e.seconds) >= 0 && Max(e.minutes) >= 0 && Max(e.hours) >= 0;
  }

  // The month step

  /** The day the month step asks for does not exist in the month it asks for. */
  predicate Overflows(e: Expr, n: int) {
    var (y, m, d) := MonthGoal(e, n);
    d > MonthLength(y, m)
  }

  lemma MonthGoalFacts(e: Expr, n: int)
    requires Accepted(e) && MonthOf(n) !in e.months
    ensures var (y, m, d) := MonthGoal(e, n);
            && m in e.months && 0 <= m < 12 && 1 <= d <= 31
            && ((y == YearOf(n) && MonthOf(n) < m && forall k :: MonthOf(n) <= k < m ==> k !in e.months)
                || (y == YearOf(n) + 1 && (forall k :: MonthOf(n) <= k < 12 ==> k !in e.months)
                    && forall k :: 0 <= k < m ==> k !in e.months))
  {
    hide YearStart, IsLeap, DayOk, MonthStart, DayNumber, YearOf, MonthOf, MDayOf;
    var y, m, d := YearOf(n), MonthOf(n), MDayOf(n);
    MonthStartStep(y, m);
    match NextIn(e.months, 12, m)
    case Some(v) =>
    case None =>
      FirstIsLeast(e.months, 12);
      LeapDayNextYear(n);
      var n1 := DayNumber(y + 1, m, d);
      MonthStartStep(YearOf(n1), MonthOf(n1));
      MonthStartStep(y + 1, 0);
      DateRoundTrip(y + 1, 0, MDayOf(n1));
  }

  /** One year later is still in the next year: only February 29 moves, to March 1. */
  lemma LeapDayNextYear(n: int)
    ensures YearOf(DayNumber(YearOf(n) + 1, MonthOf(n), MDayOf(n))) == YearOf(n) + 1
  {
    hide YearStart, DayNumber, YearOf, MonthOf, MDayOf, MonthStart;
    var y, m, d := YearOf(n), MonthOf(n), MDayOf(n);
    if d <= MonthLength(y + 1, m) {
      DateRoundTrip(y + 1, m, d);
    } else {
      NormalDayNumber(y + 1, m, d);
      NormalDayNumber(y + 1, 2, 1);
      MonthStartStep(y + 1, 1);
      DateRoundTrip(y + 1, 2, 1);
    }
  }

  /** The month step lands on the first of the month it asks for, or of the month after it. */
  lemma MonthLanding(y: int, m: int, d: int)
    requires 0 <= m < 12 && 1 <= d <= 31
    ensures var t := FirstOfMonth(DayNumber(y, m, d));
            && MDayOf(t) == 1
            && if d <= MonthLength(y, m) then YearOf(t) == y && MonthOf(t) == m
               else YearOf(t) == y && MonthOf(t) == m + 1 < 12
  {
    hide YearStart, IsLeap, DayNumber, YearOf, MonthOf, MDayOf, MonthStart;
    MonthStartStep(y, m);
    if d <= MonthLength(y, m) {
      DateRoundTrip(y, m, d);
      DateRoundTrip(y, m, 1);
    } else {
      MonthStartStep(y, m + 1);
      NormalDayNumber(y, m, d);
      NormalDayNumber(y, m + 1, d - MonthLength(y, m));
      DateRoundTrip(y, m + 1, d - MonthLength(y, m));
      DateRoundTrip(y, m + 1, 1);
    }
  }

  /** The month step moves forward, and passes no accepted month but the one it overflows. */
  lemma MonthTargetFacts(e: Expr, n: int)
    requires Accepted(e) && MonthOf(n) !in e.months
    ensures n < MonthTarget(e, n) && MDayOf(MonthTarget(e, n)) == 1
    ensures !Overflows(e, n) ==> MonthOf(MonthTarget(e, n)) in e.months
    ensures forall x :: n <= x < MonthTarget(e, n) && MonthOf(x) in e.months ==>
              Overflows(e, n) && YearOf(x) == MonthGoal(e, n).0 && MonthOf(x) == MonthGoal(e, n).1
    ensures YearOf(MonthTarget(e, n)) <= YearOf(n) + 1
  {
    hide YearStart, IsLeap, DayNumber, YearOf, MonthOf, MDayOf, MonthStart, MonthLength, DayOk, MonthGoal, FirstOfMonth;
    var (y, m, d) := MonthGoal(e, n);
    MonthGoalFacts(e, n);
    MonthLanding(y, m, d);
    var t := MonthTarget(e, n);
    if t < n {
      DateOrder(t, n);
    }
    forall x | n <= x < t && MonthOf(x) in e.months
      ensures Overflows(e, n) && YearOf(x) == y && MonthOf(x) == m
    {
      if n < x { DateOrder(n, x); }
      DateOrder(x, t);
    }
  }

  lemma MonthStepFacts(e: Expr, s: Stamp, ks: bool, km: bool, kh: bool, dot: int)
    requires Accepted(e) && Valid(s) && Low(e, s) && MonthOf(s.day) !in e.months
    requires YearOf(MonthTarget(e, s.day)) - dot <= 4
    ensures var r := MonthStep(e, s, ks, km, kh);
            && Valid(r) && Ahead(e, r, dot) && Low(e, r) && Before(s, r) && r.day == MonthTarget(e, s.day)
  {
    hide YearStart, IsLeap, DayNumber, YearOf, MonthOf, MDayOf, MonthTarget;
    MonthTargetFacts(e, s.day);
    YearStartGrows(YearOf(MonthTarget(e, s.day)) + 1, dot + 5);
    assert Max(e.seconds) >= 0 && Max(e.minutes) >= 0 && Max(e.hours) >= 0;
  }

  // The search

  ghost predicate Arrived(e: Expr, s: Stamp, r: Stamp, dot: int)
    requires Accepted(e)
  {
    Valid(r) && Ahead(e, r, dot) && Low(e, r) && !Before(r, s) && MonthOf(r.day) in e.months
  }

  /** The whole search from instant `s`. It gives up when a month change leaves it more than four
      years past `dot`. The flags say which fields are in the list of fields to clear. */
  ghost function Search(e: Expr, s: Stamp, dot: int): (r: Option<Stamp>)
    requires Accepted(e) && Valid(s) && Ahead(e, s, dot)
    ensures r.Some? ==> Arrived(e, s, r.value, dot)
    decreases Left(e, s, dot), 3
  {
    hide Arrived, Accepted, Valid, Ahead, Low, Left, Before, Max, SecondStep, MinuteStep, MonthOf;
    var s1 := SecondStep(e, s);
    var ks := s1.sec == s.sec;
    var s2 := MinuteStep(e, s1, ks);
    SearchTools(e, s, s1, s2, dot);
    if s2.min == s1.min then
      var r := FromHour(e, s2, ks, true, dot);
      OnwardAny(e, s, s2, r, dot);
      r
    else
      match Search(e, s2, dot)
      case None => None
      case Some(s3) =>
        Onward(e, s, s2, s3, dot);
        var r := FromHour(e, s3, ks, false, dot);
        OnwardAny(e, s, s3, r, dot);
        r
  }

  lemma SearchTools(e: Expr, s: Stamp, s1: Stamp, s2: Stamp, dot: int)
    requires Accepted(e) && Valid(s) && Ahead(e, s, dot)
    requires s1 == SecondStep(e, s) && s2 == MinuteStep(e, s1, s1.sec == s.sec)
    ensures Valid(s2) && Ahead(e, s2, dot) && s2.sec <= Max(e.seconds) && s2.min <= Max(e.minutes)
    ensures !Before(s2, s) && 0 <= Left(e, s2, dot) <= Left(e, s, dot)
    ensures s2.min != s1.min ==> Left(e, s2, dot) < Left(e, s, dot)
  {
    hide YearStart, DayOk, Ahead, Left, SecondStep, MinuteStep;
    SecondStepFacts(e, s, dot);
    MinuteStepFacts(e, s1, s1.sec == s.sec, dot);
    BeforeIsTransitive(s, s1, s2);
    CloserToHorizon(e, s, s2, dot);
  }

  lemma Onward(e: Expr, a: Stamp, b: Stamp, c: Stamp, dot: int)
    requires Accepted(e) && Valid(a) && Valid(b) && !Before(b, a) && Arrived(e, b, c, dot)
    ensures !Before(c, a) && 0 <= Left(e, c, dot) <= Left(e, a, dot)
    ensures Valid(c) && Ahead(e, c, dot) && Low(e, c) && Arrived(e, a, c, dot)
    ensures c.sec <= Max(e.seconds) && c.min <= Max(e.minutes)
  {
    hide YearStart, DayOk, Ahead, MonthOf, Left;
    BeforeIsTransitive(a, b, c);
    CloserToHorizon(e, a, c, dot);
  }

  lemma OnwardAny(e: Expr, a: Stamp, b: Stamp, r: Option<Stamp>, dot: int)
    requires Accepted(e) && Valid(a) && Valid(b) && !Before(b, a)
    requires r.Some? ==> Arrived(e, b, r.value, dot)
    ensures r.Some? ==> Arrived(e, a, r.value, dot)
  {
    hide Accepted, Valid, Before, Arrived;
    if r.Some? {
      Onward(e, a, b, r.value, dot);
    }
  }

  /** The search from the hour step on. */
  ghost function FromHour(e: Expr, s: Stamp, ks: bool, km: bool, dot: int): (r: Option<Stamp>)
    requires Accepted(e) && Valid(s) && Ahead(e, s, dot)
    requires s.sec <= Max(e.seconds) && s.min <= Max(e.minutes)
    ensures r.Some? ==> Arrived(e, s, r.value, dot)
    decreases Left(e, s, dot), 2
  {
    hide Arrived, Accepted, Valid, Ahead, Low, Left, Before, Max, HourStep, MonthOf;
    var s1 := HourStep(e, s, ks, km);
    HourTools(e, s, s1, ks, km, dot);
    if s1.hour == s.hour then
      var r := FromDay(e, s1, ks, km, true, dot);
      OnwardAny(e, s, s1, r, dot);
      r
    else
      match Search(e, s1, dot)
      case None => None
      case Some(s2) =>
        Onward(e, s, s1, s2, dot);
        var r := FromDay(e, s2, ks, km, false, dot);
        OnwardAny(e, s, s2, r, dot);
        r
  }

  lemma HourTools(e: Expr, s: Stamp, s1: Stamp, ks: bool, km: bool, dot: int)
    requires Accepted(e) && Valid(s) && Ahead(e, s, dot)
    requires s.sec <= Max(e.seconds) && s.min <= Max(e.minutes)
    requires s1 == HourStep(e, s, ks, km)
    ensures Valid(s1) && Ahead(e, s1, dot) && Low(e, s1)
    ensures !Before(s1, s) && 0 <= Left(e, s1, dot) <= Left(e, s, dot)
    ensures s1.hour != s.hour ==> Left(e, s1, dot) < Left(e, s, dot)
  {
    hide YearStart, DayOk, Ahead, Left, HourStep;
    HourStepFacts(e, s, ks, km, dot);
    CloserToHorizon(e, s, s1, dot);
  }

  /** The search from the day step on. Only the day of the month is compared to see a change. */
  ghost function FromDay(e: Expr, s: Stamp, ks: bool, km: bool, kh: bool, dot: int): (r: Option<Stamp>)
    requires Accepted(e) && Valid(s) && Ahead(e, s, dot) && Low(e, s)
    ensures r.Some? ==> Arrived(e, s, r.value, dot)
    decreases Left(e, s, dot), 1
  {
    hide Arrived, Accepted, Valid, Ahead, Low, Left, Before, DayStep, MonthOf, MDayOf;
    var s1 := DayStep(e, s, ks, km, kh);
    DayTools(e, s, s1, ks, km, kh, dot);
    if MDayOf(s1.day) == MDayOf(s.day) then
      var r := FromMonth(e, s1, ks, km, kh, dot);
      OnwardAny(e, s, s1, r, dot);
      r
    else
      // The search that follows leaves the month accepted, so the month step changes nothing.
      var r := Search(e, s1, dot);
      OnwardAny(e, s, s1, r, dot);
      r
  }

  lemma DayTools(e: Expr, s: Stamp, s1: Stamp, ks: bool, km: bool, kh: bool, dot: int)
    requires Accepted(e) && Valid(s) && Ahead(e, s, dot) && Low(e, s)
    requires s1 == DayStep(e, s, ks, km, kh)
    ensures Valid(s1) && Ahead(e, s1, dot) && Low(e, s1)
    ensures !Before(s1, s) && 0 <= Left(e, s1, dot) <= Left(e, s, dot)
    ensures s1.day != s.day ==> Left(e, s1, dot) < Left(e, s, dot)
  {
    hide YearStart, DayOk, Ahead, Left, DayStep;
    DayStepFacts(e, s, ks, km, kh, dot);
    CloserToHorizon(e, s, s1, dot);
  }

  /** The month step, with the day of the month in the list of fields to clear. */
  ghost function FromMonth(e: Expr, s: Stamp, ks: bool, km: bool, kh: bool, dot: int): (r: Option<Stamp>)
    requires Accepted(e) && Valid(s) && Ahead(e, s, dot) && Low(e, s)
    ensures r.Some? ==> Arrived(e, s, r.value, dot)
    decreases Left(e, s, dot), 0
  {
    hide Arrived, Accepted, Valid, Ahead, Low, Left, MonthOf, MonthStep, YearOf;
    if MonthOf(s.day) in e.months then Some(s)
    else
      var s1 := MonthStep(e, s, ks, km, kh);
      if YearOf(s1.day) - dot > 4 then None
      else
        MonthTools(e, s, s1, ks, km, kh, dot);
        var r := Search(e, s1, dot);
        OnwardAny(e, s, s1, r, dot);
        r
  }

  lemma MonthTools(e: Expr, s: Stamp, s1: Stamp, ks: bool, km: bool, kh: bool, dot: int)
    requires Accepted(e) && Valid(s) && Ahead(e, s, dot) && Low(e, s)
    requires MonthOf(s.day) !in e.months && s1 == MonthStep(e, s, ks, km, kh) && YearOf(s1.day) - dot <= 4
    ensures Valid(s1) && Ahead(e, s1, dot) && !Before(s1, s)
    ensures 0 <= Left(e, s1, dot) < Left(e, s, dot)
  {
    hide YearStart, DayOk, Ahead, Left, MonthTarget, YearOf, MonthOf;
    MonthStepFacts(e, s, ks, km, kh, dot);
    CloserToHorizon(e, s, s1, dot);
  }
}
