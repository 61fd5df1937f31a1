/** The next-fire search as the program runs it: broken-down time updated in place through `timegm`, masks
    in byte arrays, and a list of fields to clear. Each method is proved equal to the function of module
    `CronSearch` that specifies it. */
module CronEngine {
  import opened Options
  import opened Gregorian
  import opened BitSets
  import opened CronSearch
  import opened CronTheorems

  const SECOND := 0
  const MINUTE := 1
  const HOUR_OF_DAY := 2
  const DAY_OF_WEEK := 3
  const DAY_OF_MONTH := 4
  const MONTH := 5
  const YEAR := 6
  const FIELDS := 7

  // Broken-down time

  /** The value of a `struct tm`. */
  datatype Tm = Tm(sec: int, min: int, hour: int, mday: int, mon: int, year: int, wday: int)

  /** `gmtime_r` */
  function TmAt(s: Stamp): Tm {
    Tm(s.sec, s.min, s.hour, MDayOf(s.day), MonthOf(s.day), YearOf(s.day), WeekdayOf(s.day))
  }

  /** The instant that `timegm` computes: it ignores `tm_wday` and lets every other field carry. */
  function TmInstant(v: Tm): int {
    DayNumber(v.year, v.mon, v.mday) * 86400 + v.hour * 3600 + v.min * 60 + v.sec
  }

  /** What `timegm` leaves behind. */
  function Normalised(v: Tm): Tm {
    TmAt(At(TmInstant(v)))
  }

  lemma NormalisedIs(v: Tm, s: Stamp)
    requires Valid(s) && TmInstant(v) == Instant(s)
    ensures Normalised(v) == TmAt(s)
  {
    hide TmInstant, At, TmAt, Instant;
    InstantIsAt(s);
  }

  /** Normalising a normalised time changes nothing. */
  lemma NormalIsFixed(s: Stamp)
    requires Valid(s)
    ensures TmInstant(TmAt(s)) == Instant(s) && Normalised(TmAt(s)) == TmAt(s)
  {
    hide YearStart, DayNumber, YearOf, MonthOf, MDayOf, WeekdayOf, At, Normalised;
    DayRoundTrip(s.day);
    NormalisedIs(TmAt(s), s);
  }

  predicate KnownField(field: int) {
    0 <= field < FIELDS
  }

  function Put(v: Tm, field: int, x: int): Tm
    requires KnownField(field)
  {
    if field == SECOND then v.(sec := x)
    else if field == MINUTE then v.(min := x)
    else if field == HOUR_OF_DAY then v.(hour := x)
    else if field == DAY_OF_WEEK then v.(wday := x)
    else if field == DAY_OF_MONTH then v.(mday := x)
    else if field == MONTH then v.(mon := x)
    else v.(year := x)
  }

  /** Adding to the day of the week adds to the day of the month. */
  function Plus(v: Tm, field: int, x: int): Tm
    requires KnownField(field)
  {
    if field == SECOND then v.(sec := v.sec + x)
    else if field == MINUTE then v.(min := v.min + x)
    else if field == HOUR_OF_DAY then v.(hour := v.hour + x)
    else if field == DAY_OF_WEEK || field == DAY_OF_MONTH then v.(mday := v.mday + x)
    else if field == MONTH then v.(mon := v.mon + x)
    else v.(year := v.year + x)
  }

  function LowestOf(field: int): int {
    if field == DAY_OF_MONTH then 1 else 0
  }

  class Calendar {
    var tmSec: int
    var tmMin: int
    var tmHour: int
    var tmMday: int
    var tmMon: int
    var tmYear: int
    var tmWday: int

    ghost function Value(): Tm
      reads this
    {
      Tm(tmSec, tmMin, tmHour, tmMday, tmMon, tmYear, tmWday)
    }

    /** `gmtime_r` */
    constructor (date: int)
      ensures Value() == TmAt(At(date))
    {
      var s := At(date);
      tmSec, tmMin, tmHour := s.sec, s.min, s.hour;
      tmMday, tmMon, tmYear, tmWday := MDayOf(s.day), MonthOf(s.day), YearOf(s.day), WeekdayOf(s.day);
    }

    /** `timegm` */
    method Mktime() returns (t: int)
      modifies this
      ensures t == TmInstant(old(Value())) && Value() == Normalised(old(Value()))
    {
      t := TmInstant(Tm(tmSec, tmMin, tmHour, tmMday, tmMon, tmYear, tmWday));
      var s := At(t);
      tmSec, tmMin, tmHour := s.sec, s.min, s.hour;
      tmMday, tmMon, tmYear, tmWday := MDayOf(s.day), MonthOf(s.day), YearOf(s.day), WeekdayOf(s.day);
    }

    /** `dcmCronParseSetField` */
    method SetField(field: int, val: int) returns (err: int)
      modifies this
      ensures !KnownField(field) ==> err == 1 && Value() == old(Value())
      ensures KnownField(field) ==> Value() == Normalised(Put(old(Value()), field, val))
      ensures KnownField(field) ==> err == if TmInstant(Put(old(Value()), field, val)) == INVALID then 1 else 0
    {
      hide TmInstant, Normalised;
      if field == SECOND { tmSec := val; }
      else if field == MINUTE { tmMin := val; }
      else if field == HOUR_OF_DAY { tmHour := val; }
      else if field == DAY_OF_WEEK { tmWday := val; }
      else if field == DAY_OF_MONTH { tmMday := val; }
      else if field == MONTH { tmMon := val; }
      else if field == YEAR { tmYear := val; }
      else { return 1; }
      var res := Mktime();
      err := if res == INVALID then 1 else 0;
    }

    /** `dcmCronParseResetMin` */
    method ResetMin(field: int) returns (err: int)
      modifies this
      ensures !KnownField(field) ==> err == 1 && Value() == old(Value())
      ensures KnownField(field) ==> Value() == Normalised(Put(old(Value()), field, LowestOf(field)))
      ensures KnownField(field) ==> err == if TmInstant(Put(old(Value()), field, LowestOf(field))) == INVALID then 1 else 0
    {
      hide TmInstant, Normalised;
      if field == SECOND { tmSec := 0; }
      else if field == MINUTE { tmMin := 0; }
      else if field == HOUR_OF_DAY { tmHour := 0; }
      else if field == DAY_OF_WEEK { tmWday := 0; }
      else if field == DAY_OF_MONTH { tmMday := 1; }
      else if field == MONTH { tmMon := 0; }
      else if field == YEAR { tmYear := 0; }
      else { return 1; }
      var res := Mktime();
      err := if res == INVALID then 1 else 0;
    }

    /** `dcmCronParseAddToField` */
    method AddToField(field: int, val: int) returns (err: int)
      modifies this
      ensures !KnownField(field) ==> err == 1 && Value() == old(Value())
      ensures KnownField(field) ==> Value() == Normalised(Plus(old(Value()), field, val))
      ensures KnownField(field) ==> err == if TmInstant(Plus(old(Value()), field, val)) == INVALID then 1 else 0
    {
      hide TmInstant, Normalised;
      if field == SECOND { tmSec := tmSec + val; }
      else if field == MINUTE { tmMin := tmMin + val; }
      else if field == HOUR_OF_DAY { tmHour := tmHour + val; }
      else if field == DAY_OF_WEEK || field == DAY_OF_MONTH { tmMday := tmMday + val; }
      else if field == MONTH { tmMon := tmMon + val; }
      else if field == YEAR { tmYear := tmYear + val; }
      else { return 1; }
      var res := Mktime();
      err := if res == INVALID then 1 else 0;
    }
  }

  // The list of fields to clear

  /** The entries pushed so far, then -1 up to the length of the array. */
  ghost predicate Holds(a: seq<int>, p: seq<int>) {
    && |p| <= FIELDS == |a|
    && a[..|p|] == p
    && (forall i :: |p| <= i < FIELDS ==> a[i] == -1)
    && forall x <- p :: KnownField(x)
  }

  /** `dcmCronParsePushToFieldsArr` */
  method PushToFieldsArr(arr: array<int>, fi: int, ghost p: seq<int>)
    requires Holds(arr[..], p) && KnownField(fi) && |p| < FIELDS
    modifies arr
    ensures Holds(arr[..], if fi in p then p else p + [fi])
  {
    for i := 0 to FIELDS
      invariant forall j :: 0 <= j < i ==> arr[j] != fi
    {
      if arr[i] == fi {
        assert arr[i] == arr[..|p|][i];
        return;
      }
    }
    assert forall j :: 0 <= j < |p| ==> arr[..|p|][j] == arr[j];
    assert forall j :: 0 <= j < |p| ==> p[j] != fi;
    for i := 0 to FIELDS
      invariant i <= |p|
      invariant arr[..] == old(arr[..])
    {
      assert i < |p| ==> arr[i] == arr[..|p|][i] == p[i] && p[i] in p;
      if arr[i] == -1 {
        arr[i] := fi;
        assert arr[..|p|] == old(arr[..])[..|p|];
        assert arr[..i + 1] == p + [fi];
        return;
      }
    }
  }

  /** Clearing the listed fields one after the other, as far as no instant is -1. */
  ghost function Cleared(v: Tm, p: seq<int>): Option<Tm>
    requires forall x <- p :: KnownField(x)
    decreases |p|
  {
    hide TmInstant, Normalised;
    if p == [] then Some(v)
    else if TmInstant(Put(v, p[0], LowestOf(p[0]))) == INVALID then None
    else Cleared(Normalised(Put(v, p[0], LowestOf(p[0]))), p[1..])
  }

  function From<T>(p: seq<T>, i: nat): (r: seq<T>)
    ensures forall x <- r :: x in p
  {
    if i < |p| then p[i..] else []
  }

  /** `dcmCronParseResetAllMin` */
  method ResetAllMin(calendar: Calendar, fields: array<int>, ghost p: seq<int>) returns (res: int)
    requires Holds(fields[..], p)
    modifies calendar
    ensures var r := Cleared(old(calendar.Value()), p);
            if r.Some? then res == 0 && calendar.Value() == r.value else res == 1
  {
    hide TmInstant, Normalised;
    res := 0;
    assert From(p, 0) == p;
    for i := 0 to FIELDS
      invariant res == 0
      invariant Cleared(calendar.Value(), From(p, i)) == Cleared(old(calendar.Value()), p)
    {
      if i < |p| {
        assert fields[i] == fields[..|p|][i] == p[i] && p[i] in p;
        assert From(p, i)[0] == p[i] && From(p, i)[1..] == From(p, i + 1);
      }
      if fields[i] != -1 {
        res := calendar.ResetMin(fields[i]);
        if res != 0 { return; }
      }
    }
  }

  // One search step

  ghost function Settle(v: Tm, notfound: bool, next: int, value: int, field: int, p: seq<int>): Option<(Tm, int)>
    requires KnownField(field) && forall x <- p :: KnownField(x)
  {
    hide TmInstant, Normalised, Put, YearStart, MonthStart, MonthLength, IsLeap;
    if !notfound && next == value then Some((v, next))
    else if TmInstant(Put(v, field, next)) == INVALID then None
    else
      match Cleared(Normalised(Put(v, field, next)), p)
      case None => None
      case Some(w) => Some((w, next))
  }

  /** The calendar and the field value that one step leaves; none when some instant is -1. */
  ghost function Landing(v: Tm, b: set<int>, max: int, value: int, field: int, nextField: int, p: seq<int>):
      Option<(Tm, int)>
    requires KnownField(field) && KnownField(nextField) && forall x <- p :: KnownField(x)
  {
    hide TmInstant, Normalised, Put, Plus, YearStart, MonthStart, MonthLength, IsLeap;
    match NextIn(b, max, value)
    case Some(n) => Settle(v, false, n, value, field, p)
    case None =>
      var v1 := Plus(v, nextField, 1);
      if TmInstant(v1) == INVALID then None
      else
        var v2 := Put(Normalised(v1), field, LowestOf(field));
        if TmInstant(v2) == INVALID then None
        else Settle(Normalised(v2), NextIn(b, max, 0).None?, First(b, max), value, field, p)
  }

  /** `dcmCronParseFindNext` */
  method FindNext(bits: array<bv8>, max: int, value: int, calendar: Calendar, field: int, nextField: int,
                  lowerOrders: array<int>, ghost p: seq<int>) returns (next: int, resOut: int)
    requires 0 <= value && max <= 8 * bits.Length
    requires KnownField(field) && KnownField(nextField) && Holds(lowerOrders[..], p)
    modifies calendar
    ensures var r := Landing(old(calendar.Value()), BitSet(bits[..]), max, value, field, nextField, p);
            if r.Some? then resOut == 0 && calendar.Value() == r.value.0 && next == r.value.1
            else resOut == 1 && next == 0
  {
    hide TmInstant, Normalised, Put, Plus, Cleared, BitSet;
    resOut := 0;
    var notfound, err;
    next, notfound := NextSetBit(bits, max, value);
    if notfound {
      err := calendar.AddToField(nextField, 1);
      if err != 0 { return 0, 1; }
      err := calendar.ResetMin(field);
      if err != 0 { return 0, 1; }
      next, notfound := NextSetBit(bits, max, 0);
    }
    if notfound || next != value {
      err := calendar.SetField(field, next);
      if err != 0 { return 0, 1; }
      err := ResetAllMin(calendar, lowerOrders, p);
      if err != 0 { return 0, 1; }
    }
  }

  // The step of each field, on instants

  lemma Stepped(v: Tm, s: Stamp)
    requires Valid(s) && 0 <= s.day && TmInstant(v) == Instant(s)
    ensures TmInstant(v) != INVALID && Normalised(v) == TmAt(s)
  {
    hide TmInstant, At, TmAt;
    NormalisedIs(v, s);
  }

  /** Setting a time field of a normalised time. */
  lemma PutTime(s: Stamp, field: int, x: int)
    requires Valid(s) && 0 <= s.day && 0 <= x
    requires (field == SECOND && x < 60) || (field == MINUTE && x < 60) || (field == HOUR_OF_DAY && x < 24)
    ensures var v := Put(TmAt(s), field, x);
            var r := if field == SECOND then s.(sec := x) else if field == MINUTE then s.(min := x) else s.(hour := x);
            TmInstant(v) != INVALID && Normalised(v) == TmAt(r)
  {
    hide YearStart, DayNumber, YearOf, MonthOf, MDayOf, WeekdayOf, At, Normalised, MonthStart, MonthLength, IsLeap;
    DayRoundTrip(s.day);
    Stepped(Put(TmAt(s), field, x),
      if field == SECOND then s.(sec := x) else if field == MINUTE then s.(min := x) else s.(hour := x));
  }

  /** `s` with one added to a field of the time of day or to the day. */
  function Later(s: Stamp, field: int): Stamp {
    if field == SECOND then AddSecond(s)
    else if field == MINUTE then AddMinute(s)
    else if field == HOUR_OF_DAY then AddHour(s)
    else AddDay(s)
  }

  /** Adding one to a field of a normalised time carries into the higher fields. */
  lemma PlusOne(s: Stamp, field: int)
    requires Valid(s) && 0 <= s.day && SECOND <= field <= DAY_OF_MONTH
    ensures TmInstant(Plus(TmAt(s), field, 1)) != INVALID
    ensures Normalised(Plus(TmAt(s), field, 1)) == TmAt(Later(s, field)) && Valid(Later(s, field))
  {
    hide YearStart, DayNumber, YearOf, MonthOf, MDayOf, WeekdayOf, At, Normalised, MonthStart, MonthLength, IsLeap;
    DayRoundTrip(s.day);
    NextDayNumber(s.day);
    Stepped(Plus(TmAt(s), field, 1), Later(s, field));
  }

  lemma NextDayNumber(n: int)
    ensures DayNumber(YearOf(n), MonthOf(n), MDayOf(n) + 1) == n + 1
  {
    hide YearStart, DayNumber, YearOf, MonthOf, MDayOf, MonthLength;
    NextDay(n);
  }

  /** Setting a date field of a normalised time. */
  lemma PutDate(s: Stamp, v: Tm, n: int)
    requires Valid(s) && 0 <= n == DayNumber(v.year, v.mon, v.mday)
    requires v.sec == s.sec && v.min == s.min && v.hour == s.hour
    ensures TmInstant(v) != INVALID && Normalised(v) == TmAt(s.(day := n))
  {
    hide YearStart, DayNumber, YearOf, MonthOf, MDayOf, WeekdayOf, At, Normalised, TmAt;
    Stepped(v, s.(day := n));
  }

  ghost function List(ks: bool, km: bool, kh: bool, kd: bool): (p: seq<int>)
    ensures forall x <- p :: KnownField(x)
  {
    (if ks then [SECOND] else []) + (if km then [MINUTE] else []) + (if kh then [HOUR_OF_DAY] else [])
      + (if kd then [DAY_OF_MONTH] else [])
  }

  /** Clearing the listed time fields is `Reset`; the day of the month, when listed, becomes 1. */
  lemma ClearedIsReset(s: Stamp, ks: bool, km: bool, kh: bool, kd: bool)
    requires Valid(s) && 0 <= s.day && 0 <= FirstOfMonth(s.day)
    ensures var r := Reset(s, ks, km, kh);
            Cleared(TmAt(s), List(ks, km, kh, kd)) == Some(TmAt(if kd then r.(day := FirstOfMonth(s.day)) else r))
  {
    hide YearStart, DayNumber, TmAt, TmInstant, Normalised, Put, Valid, MonthStart, MonthLength, IsLeap;
    var p3 := List(false, false, false, kd);
    var p2 := List(false, false, kh, kd);
    var p1 := List(false, km, kh, kd);
    var p0 := List(ks, km, kh, kd);
    var s1 := Reset(s, ks, false, false);
    var s2 := Reset(s, ks, km, false);
    var s3 := Reset(s, ks, km, kh);
    ResetIsValid(s, ks, km, kh);
    if ks { PutTime(s, SECOND, 0); assert p0[0] == SECOND && p0[1..] == p1; } else { assert p0 == p1; }
    assert Cleared(TmAt(s), p0) == Cleared(TmAt(s1), p1);
    if km { PutTime(s1, MINUTE, 0); assert p1[0] == MINUTE && p1[1..] == p2; } else { assert p1 == p2; }
    assert Cleared(TmAt(s1), p1) == Cleared(TmAt(s2), p2);
    if kh { PutTime(s2, HOUR_OF_DAY, 0); assert p2[0] == HOUR_OF_DAY && p2[1..] == p3; } else { assert p2 == p3; }
    assert Cleared(TmAt(s2), p2) == Cleared(TmAt(s3), p3);
    if kd {
      ClearedDay(s3);
      assert p3 == [DAY_OF_MONTH] && p3[1..] == [];
      assert Cleared(Normalised(Put(TmAt(s3), DAY_OF_MONTH, 1)), []) == Some(TmAt(s3.(day := FirstOfMonth(s.day))));
    } else {
      assert p3 == [];
    }
  }

  lemma ResetIsValid(s: Stamp, ks: bool, km: bool, kh: bool)
    requires Valid(s)
    ensures Valid(Reset(s, ks, false, false)) && Valid(Reset(s, ks, km, false)) && Valid(Reset(s, ks, km, kh))
  {
  }

  lemma ClearedDay(s: Stamp)
    requires Valid(s) && 0 <= FirstOfMonth(s.day)
    ensures var v := Put(TmAt(s), DAY_OF_MONTH, 1);
            TmInstant(v) != INVALID && Normalised(v) == TmAt(s.(day := FirstOfMonth(s.day)))
  {
    hide YearStart, DayNumber, YearOf, MonthOf, MDayOf, WeekdayOf, At, Normalised, TmInstant;
    PutDate(s, Put(TmAt(s), DAY_OF_MONTH, 1), FirstOfMonth(s.day));
  }

  lemma FirstOfMonthIsNatural(n: nat)
    ensures 0 <= FirstOfMonth(n) <= n
  {
    hide YearStart, DayNumber, YearOf, MonthOf, MonthStart, MonthLength;
    DayRoundTrip(n);
    NormalDayNumber(YearOf(n), MonthOf(n), MDayOf(n));
    NormalDayNumber(YearOf(n), MonthOf(n), 1);
    MonthStartGrows(YearOf(n), 0, MonthOf(n));
    MonthStartStep(YearOf(n), 0);
    SeventyOn(n);
  }

  lemma SeventyOn(n: nat)
    ensures 70 <= YearOf(n) && 0 <= YearStart(YearOf(n))
  {
    hide YearOf;
    assert YearStart(70) == 0;
    if YearOf(n) < 70 {
      YearStartGrows(YearOf(n) + 1, 70);
    }
    YearStartGrows(70, YearOf(n));
  }

  function TimeField(s: Stamp, field: int): int {
    if field == SECOND then s.sec else if field == MINUTE then s.min else s.hour
  }

  function WithTime(s: Stamp, field: int, x: int): Stamp {
    if field == SECOND then s.(sec := x) else if field == MINUTE then s.(min := x) else s.(hour := x)
  }

  /** The second, minute and hour steps have one form. */
  function TimeStep(b: set<int>, max: int, s: Stamp, field: int, ks: bool, km: bool): Stamp {
    match NextIn(b, max, TimeField(s, field))
    case Some(v) => if v == TimeField(s, field) then s else Reset(WithTime(s, field, v), ks, km, false)
    case None => Reset(WithTime(Later(s, field + 1), field, First(b, max)), ks, km, false)
  }

  predicate TimeBound(field: int, max: int) {
    || (field == SECOND && max == 60)
    || (field == MINUTE && max == 60)
    || (field == HOUR_OF_DAY && max == 24)
  }

  lemma TimeLanding(s: Stamp, b: set<int>, max: int, field: int, ks: bool, km: bool)
    requires Valid(s) && 0 <= s.day && TimeBound(field, max) && Within(b, 0, max)
    requires (ks ==> MINUTE <= field) && (km ==> HOUR_OF_DAY <= field)
    ensures var r := TimeStep(b, max, s, field, ks, km);
            && Valid(r) && s.day <= r.day && TimeField(r, field) in b
            && Landing(TmAt(s), b, max, TimeField(s, field), field, field + 1, List(ks, km, false, false))
               == Some((TmAt(r), TimeField(r, field)))
  {
    hide TmAt, TmInstant, Normalised, Put, Plus, FirstOfMonth, Cleared, List, YearStart, MonthStart, MonthLength,
      IsLeap;
    FirstIsLeast(b, max);
    match NextIn(b, max, TimeField(s, field))
    case Some(v) =>
      if v != TimeField(s, field) {
        PutTime(s, field, v);
        TimeCleared(WithTime(s, field, v), ks, km);
      }
    case None =>
      PlusOne(s, field + 1);
      var s1 := Later(s, field + 1);
      PutTime(s1, field, 0);
      var s2 := WithTime(s1, field, 0);
      PutTime(s2, field, First(b, max));
      TimeCleared(WithTime(s2, field, First(b, max)), ks, km);
  }

  lemma TimeCleared(s: Stamp, ks: bool, km: bool)
    requires Valid(s) && 0 <= s.day
    ensures Cleared(TmAt(s), List(ks, km, false, false)) == Some(TmAt(Reset(s, ks, km, false)))
    ensures Valid(Reset(s, ks, km, false))
  {
    hide TmAt, FirstOfMonth, Cleared, List;
    FirstOfMonthIsNatural(s.day);
    ClearedIsReset(s, ks, km, false, false);
  }

  lemma DayNumberNatural(y: int, m: int, d: int)
    requires 70 <= y && 0 <= m < 12 && 1 <= d
    ensures 0 <= DayNumber(y, m, d)
  {
    hide YearStart, MonthStart, DayNumber;
    NormalDayNumber(y, m, d);
    YearStartGrows(70, y);
    assert YearStart(70) == 0 by { YearStartSeventy(); }
    MonthStartGrows(y, 0, m);
    MonthStartStep(y, 0);
  }

  lemma YearStartSeventy()
    ensures YearStart(70) == 0
  {
  }

  /** The month step on the broken-down time is `MonthStep` on instants. */
  lemma MonthStepLanding(e: Expr, s: Stamp, ks: bool, km: bool, kh: bool)
    requires Accepted(e) && Valid(s) && 0 <= s.day && MonthOf(s.day) !in e.months
    ensures var r := Landing(TmAt(s), e.months, 12, MonthOf(s.day), MONTH, YEAR, List(ks, km, kh, true));
            && r.Some? && r.value.0 == TmAt(MonthStep(e, s, ks, km, kh)) && r.value.1 != MonthOf(s.day)
  {
    hide YearStart, DayNumber, YearOf, MonthOf, MDayOf, TmInstant, Normalised, FirstOfMonth, Cleared, List,
      WeekdayOf, MonthStart, MonthLength, IsLeap;
    SeventyOn(s.day);
    FirstIsLeast(e.months, 12);
    var v := TmAt(s);
    match NextIn(e.months, 12, MonthOf(s.day))
    case Some(m) =>
      MonthPut(s, v, m, ks, km, kh);
    case None =>
      var n1 := DayNumber(v.year + 1, v.mon, v.mday);
      DayNumberNatural(v.year + 1, v.mon, v.mday);
      PutDate(s, Plus(v, YEAR, 1), n1);
      var s1 := s.(day := n1);
      SeventyOn(n1);
      var n2 := DayNumber(YearOf(n1), 0, MDayOf(n1));
      DayNumberNatural(YearOf(n1), 0, MDayOf(n1));
      PutDate(s1, Put(TmAt(s1), MONTH, 0), n2);
      var s2 := s1.(day := n2);
      SeventyOn(n2);
      MonthPut(s2, TmAt(s2), First(e.months, 12), ks, km, kh);
  }

  lemma MonthPut(s: Stamp, v: Tm, m: int, ks: bool, km: bool, kh: bool)
    requires Valid(s) && 0 <= s.day && v == TmAt(s) && 0 <= m < 12
    ensures var n := DayNumber(YearOf(s.day), m, MDayOf(s.day));
            && TmInstant(Put(v, MONTH, m)) != INVALID
            && Cleared(Normalised(Put(v, MONTH, m)), List(ks, km, kh, true))
               == Some(TmAt(Reset(s.(day := FirstOfMonth(n)), ks, km, kh)))
  {
    hide YearStart, DayNumber, YearOf, MonthOf, MDayOf, TmInstant, Normalised, FirstOfMonth, Cleared, List,
      WeekdayOf, MonthStart, MonthLength, IsLeap;
    SeventyOn(s.day);
    var n := DayNumber(YearOf(s.day), m, MDayOf(s.day));
    DayNumberNatural(YearOf(s.day), m, MDayOf(s.day));
    PutDate(s, Put(v, MONTH, m), n);
    FirstOfMonthIsNatural(n);
    ClearedIsReset(s.(day := n), ks, km, kh, true);
  }

  // The search

  /** `dcmCronExpr`: six masks of bytes. */
  class CronExpr {
    const seconds: array<bv8>
    const minutes: array<bv8>
    const hours: array<bv8>
    const daysOfWeek: array<bv8>
    const daysOfMonth: array<bv8>
    const months: array<bv8>

    constructor ()
      ensures Shape()
      ensures fresh(seconds) && fresh(minutes) && fresh(hours) && fresh(daysOfWeek) && fresh(daysOfMonth) && fresh(months)
    {
      seconds := new bv8[8](_ => 0);
      minutes := new bv8[8](_ => 0);
      hours := new bv8[3](_ => 0);
      daysOfWeek := new bv8[1](_ => 0);
      daysOfMonth := new bv8[4](_ => 0);
      months := new bv8[2](_ => 0);
    }

    /** The masks have their sizes and do not overlap. */
    ghost predicate Shape() {
      && seconds.Length == 8 && minutes.Length == 8 && hours.Length == 3
      && daysOfWeek.Length == 1 && daysOfMonth.Length == 4 && months.Length == 2
      && seconds != minutes
    }

    ghost function Masks(): Expr
      reads seconds, minutes, hours, daysOfWeek, daysOfMonth, months
    {
      Expr(BitSet(seconds[..]), BitSet(minutes[..]), BitSet(hours[..]),
           BitSet(daysOfMonth[..]), BitSet(months[..]), BitSet(daysOfWeek[..]))
    }
  }

  /** The instant of the calendar after `count` turns of the day loop. */
  function DayCursor(s: Stamp, count: nat, ks: bool, km: bool, kh: bool): Stamp {
    if count == 0 then s else Reset(s.(day := s.day + count), ks, km, kh)
  }

  lemma CursorTurns(s: Stamp, count: nat, ks: bool, km: bool, kh: bool)
    requires Valid(s) && 0 <= s.day
    ensures var c := DayCursor(s, count, ks, km, kh);
            var v := Plus(TmAt(c), DAY_OF_MONTH, 1);
            && TmInstant(v) != INVALID
            && Normalised(v).mday == MDayOf(s.day + count + 1) && Normalised(v).wday == WeekdayOf(s.day + count + 1)
            && Cleared(Normalised(v), List(ks, km, kh, false)) == Some(TmAt(DayCursor(s, count + 1, ks, km, kh)))
  {
    hide TmInstant, Normalised, Cleared, FirstOfMonth, List, YearOf, MonthOf, MDayOf, WeekdayOf, Plus, DayCursor,
      Reset, YearStart, MonthStart, MonthLength, IsLeap;
    var c := DayCursor(s, count, ks, km, kh);
    CursorFacts(s, count, ks, km, kh);
    PlusOne(c, DAY_OF_MONTH);
    FirstOfMonthIsNatural(c.day + 1);
    ClearedIsReset(AddDay(c), ks, km, kh, false);
  }

  lemma CursorFacts(s: Stamp, count: nat, ks: bool, km: bool, kh: bool)
    requires Valid(s)
    ensures var c := DayCursor(s, count, ks, km, kh);
            && Valid(c) && Valid(AddDay(c)) && c.day == s.day + count
            && Reset(AddDay(c), ks, km, kh) == DayCursor(s, count + 1, ks, km, kh)
  {
  }

  lemma ScanStep(e: Expr, n: int, fuel: nat)
    ensures DayOk(e, n) || fuel == 0 ==> DayScan(e, n, fuel) == n
    ensures !DayOk(e, n) && fuel > 0 ==> DayScan(e, n, fuel) == DayScan(e, n + 1, fuel - 1)
  {
    hide DayOk;
  }

  /** The body of the day loop: one more day, then the listed fields are cleared. */
  method TurnDay(calendar: Calendar, resets: array<int>, ghost s: Stamp, ghost count: nat,
                 ghost ks: bool, ghost km: bool, ghost kh: bool) returns (day: int, weekday: int)
    requires Valid(s) && 0 <= s.day && calendar.Value() == TmAt(DayCursor(s, count, ks, km, kh))
    requires Holds(resets[..], List(ks, km, kh, false))
    modifies calendar
    ensures calendar.Value() == TmAt(DayCursor(s, count + 1, ks, km, kh))
    ensures day == MDayOf(s.day + count + 1) && weekday == WeekdayOf(s.day + count + 1)
  {
    hide TmInstant, Normalised, Cleared, List, YearOf, MonthOf, MDayOf, WeekdayOf, Plus, Holds, DayCursor, Valid,
      TmAt, YearStart, MonthStart, MonthLength, IsLeap;
    CursorTurns(s, count, ks, km, kh);
    var err := calendar.AddToField(DAY_OF_MONTH, 1);
    assert err == 0;
    day := calendar.tmMday;
    weekday := calendar.tmWday;
    assert day == calendar.Value().mday && weekday == calendar.Value().wday;
    var ignored := ResetAllMin(calendar, resets, List(ks, km, kh, false));
  }

  /** `dcmCronParseFindNextDay` */
  method FindNextDay(calendar: Calendar, daysOfMonth: array<bv8>, dayOfMonth: int, daysOfWeek: array<bv8>,
                     dayOfWeek: int, resets: array<int>, ghost e: Expr, ghost s: Stamp,
                     ghost ks: bool, ghost km: bool, ghost kh: bool) returns (day: int, resOut: int)
    requires Valid(s) && 0 <= s.day && calendar.Value() == TmAt(s)
    requires daysOfMonth.Length == 4 && daysOfWeek.Length == 1
    requires BitSet(daysOfMonth[..]) == e.daysOfMonth && BitSet(daysOfWeek[..]) == e.daysOfWeek
    requires dayOfMonth == calendar.tmMday && dayOfWeek == calendar.tmWday
    requires Holds(resets[..], List(ks, km, kh, false))
    modifies calendar
    ensures resOut == 0 && calendar.Value() == TmAt(DayStep(e, s, ks, km, kh))
    ensures day == MDayOf(DayTarget(e, s.day))
  {
    hide TmInstant, Normalised, Cleared, BitSet, List, YearOf, MonthOf, MDayOf, WeekdayOf, Plus, DayScan, Holds,
      DayCursor, Reset, GetBit, Bit, Valid, TmAt, YearStart, MonthStart, MonthLength, IsLeap;
    resOut := 0;
    day := dayOfMonth;
    var weekday := dayOfWeek;
    var count, max := 0, 366;
    MDayRange(s.day);
    CursorStart(s, ks, km, kh);
    CalendarDate(calendar, s);
    while (!GetBit(daysOfMonth, day) || !GetBit(daysOfWeek, weekday)) && count < max
      invariant 0 <= count <= max && day == MDayOf(s.day + count) && weekday == WeekdayOf(s.day + count)
      invariant calendar.Value() == TmAt(DayCursor(s, count, ks, km, kh))
      invariant DayScan(e, s.day, 366) == DayScan(e, s.day + count, 366 - count)
      invariant 1 <= day <= 31 && 0 <= weekday < 7
    {
      ScanStep(e, s.day + count, 366 - count);
      MDayRange(s.day + count + 1);
      day, weekday := TurnDay(calendar, resets, s, count, ks, km, kh);
      count := count + 1;
    }
    ScanStep(e, s.day + count, 366 - count);
    CursorIsDayStep(e, s, count, ks, km, kh);
  }

  lemma CalendarDate(calendar: Calendar, s: Stamp)
    requires calendar.Value() == TmAt(s)
    ensures calendar.tmMday == MDayOf(s.day) && calendar.tmWday == WeekdayOf(s.day)
    ensures calendar.tmMon == MonthOf(s.day) && calendar.tmYear == YearOf(s.day)
    ensures calendar.tmHour == s.hour && calendar.tmMin == s.min && calendar.tmSec == s.sec
  {
    hide MDayOf, MonthOf, YearOf, WeekdayOf;
  }

  lemma CursorStart(s: Stamp, ks: bool, km: bool, kh: bool)
    ensures DayCursor(s, 0, ks, km, kh) == s
  {
  }

  lemma CursorIsDayStep(e: Expr, s: Stamp, count: nat, ks: bool, km: bool, kh: bool)
    requires DayTarget(e, s.day) == s.day + count
    ensures DayCursor(s, count, ks, km, kh) == DayStep(e, s, ks, km, kh)
  {
    hide DayTarget;
  }

  lemma MDayRange(n: int)
    ensures 1 <= MDayOf(n) <= 31 && 0 <= WeekdayOf(n) < 7
  {
    hide MDayOf, YearOf, MonthOf, IsLeap;
    MonthStartStep(YearOf(n), MonthOf(n));
  }

  // The steps of the search as the method takes them

  lemma SecondLanding(e: Expr, s: Stamp)
    requires Accepted(e) && Valid(s) && 0 <= s.day
    ensures var r := SecondStep(e, s);
            && Valid(r) && 0 <= r.day
            && Landing(TmAt(s), e.seconds, 60, s.sec, SECOND, MINUTE, []) == Some((TmAt(r), r.sec))
  {
    hide TmAt, Landing;
    assert List(false, false, false, false) == [];
    TimeLanding(s, e.seconds, 60, SECOND, false, false);
    assert TimeStep(e.seconds, 60, s, SECOND, false, false) == SecondStep(e, s);
  }

  lemma MinuteLanding(e: Expr, s: Stamp, ks: bool)
    requires Accepted(e) && Valid(s) && 0 <= s.day
    ensures var r := MinuteStep(e, s, ks);
            && Valid(r) && 0 <= r.day
            && Landing(TmAt(s), e.minutes, 60, s.min, MINUTE, HOUR_OF_DAY, List(ks, false, false, false))
               == Some((TmAt(r), r.min))
  {
    hide TmAt, Landing, List;
    TimeLanding(s, e.minutes, 60, MINUTE, ks, false);
    assert TimeStep(e.minutes, 60, s, MINUTE, ks, false) == MinuteStep(e, s, ks);
  }

  lemma HourLanding(e: Expr, s: Stamp, ks: bool, km: bool)
    requires Accepted(e) && Valid(s) && 0 <= s.day
    ensures var r := HourStep(e, s, ks, km);
            && Valid(r) && 0 <= r.day
            && Landing(TmAt(s), e.hours, 24, s.hour, HOUR_OF_DAY, DAY_OF_WEEK, List(ks, km, false, false))
               == Some((TmAt(r), r.hour))
  {
    hide TmAt, Landing, List;
    TimeLanding(s, e.hours, 24, HOUR_OF_DAY, ks, km);
    assert TimeStep(e.hours, 24, s, HOUR_OF_DAY, ks, km) == HourStep(e, s, ks, km);
  }

  lemma MonthStays(e: Expr, s: Stamp, p: seq<int>)
    requires MonthOf(s.day) in e.months && forall x <- p :: KnownField(x)
    ensures Landing(TmAt(s), e.months, 12, MonthOf(s.day), MONTH, YEAR, p) == Some((TmAt(s), MonthOf(s.day)))
  {
    hide YearOf, MonthOf, MDayOf, Cleared, TmInstant, Normalised, Put, Plus;
    assert NextIn(e.months, 12, MonthOf(s.day)) == Some(MonthOf(s.day));
  }

  lemma UnfoldSearch(e: Expr, s: Stamp, s1: Stamp, s2: Stamp, dot: int)
    requires Accepted(e) && Valid(s) && Ahead(e, s, dot)
    requires s1 == SecondStep(e, s) && s2 == MinuteStep(e, s1, s1.sec == s.sec)
    ensures Valid(s2) && Ahead(e, s2, dot) && s2.sec <= Max(e.seconds) && s2.min <= Max(e.minutes)
    ensures s2.min == s1.min ==> Search(e, s, dot) == FromHour(e, s2, s1.sec == s.sec, true, dot)
    ensures s2.min != s1.min ==>
              var q := Search(e, s2, dot);
              if q.None? then Search(e, s, dot) == None
              else
                && Settling(e, s2, q.value, dot)
                && Search(e, s, dot) == FromHour(e, q.value, s1.sec == s.sec, false, dot)
  {
    hide Accepted, Valid, Ahead, Low, Left, Before, Max, SecondStep, MinuteStep, MonthOf, FromHour, YearStart,
      MonthStart, MonthLength, IsLeap;
    SearchTools(e, s, s1, s2, dot);
    var q := Search(e, s2, dot);
    if q.Some? {
      LaterSettles(e, s2, q.value, dot);
    }
  }

  /** What a search that returns leaves behind. */
  ghost predicate Settling(e: Expr, s: Stamp, r: Stamp, dot: int)
    requires Accepted(e)
  {
    && Valid(r) && Ahead(e, r, dot) && Low(e, r)
    && r.sec <= Max(e.seconds) && r.min <= Max(e.minutes)
    && s.day <= r.day && MonthOf(r.day) in e.months && Left(e, r, dot) <= Left(e, s, dot)
  }

  lemma LaterSettles(e: Expr, s: Stamp, r: Stamp, dot: int)
    requires Accepted(e) && Valid(s) && Arrived(e, s, r, dot)
    ensures Settling(e, s, r, dot)
  {
    hide Ahead, MonthOf, Left;
    CloserToHorizon(e, s, r, dot);
  }

  lemma UnfoldHour(e: Expr, s: Stamp, s1: Stamp, ks: bool, km: bool, dot: int)
    requires Accepted(e) && Valid(s) && Ahead(e, s, dot) && s.sec <= Max(e.seconds) && s.min <= Max(e.minutes)
    requires s1 == HourStep(e, s, ks, km)
    ensures Valid(s1) && Ahead(e, s1, dot) && Low(e, s1)
    ensures s1.hour == s.hour ==> FromHour(e, s, ks, km, dot) == FromDay(e, s1, ks, km, true, dot)
    ensures s1.hour != s.hour ==>
              var q := Search(e, s1, dot);
              if q.None? then FromHour(e, s, ks, km, dot) == None
              else
                && Settling(e, s1, q.value, dot)
                && FromHour(e, s, ks, km, dot) == FromDay(e, q.value, ks, km, false, dot)
  {
    hide Accepted, Valid, Ahead, Low, Left, Before, Max, HourStep, MonthOf, FromDay, Search, YearStart, MonthStart,
      MonthLength, IsLeap;
    HourTools(e, s, s1, ks, km, dot);
    var q := Search(e, s1, dot);
    if q.Some? {
      LaterSettles(e, s1, q.value, dot);
    }
  }

  lemma UnfoldDay(e: Expr, s: Stamp, s1: Stamp, ks: bool, km: bool, kh: bool, dot: int)
    requires Accepted(e) && Valid(s) && Ahead(e, s, dot) && Low(e, s)
    requires s1 == DayStep(e, s, ks, km, kh)
    ensures Valid(s1) && Ahead(e, s1, dot) && Low(e, s1) && s.day <= s1.day == DayTarget(e, s.day)
    ensures 0 <= Left(e, s1, dot) <= Left(e, s, dot)
    ensures MDayOf(s1.day) == MDayOf(s.day) ==> FromDay(e, s, ks, km, kh, dot) == FromMonth(e, s1, ks, km, kh, dot)
    ensures MDayOf(s1.day) != MDayOf(s.day) ==> Left(e, s1, dot) < Left(e, s, dot)
    ensures MDayOf(s1.day) != MDayOf(s.day) ==>
              var q := Search(e, s1, dot);
              FromDay(e, s, ks, km, kh, dot) == q && (q.Some? ==> Settling(e, s1, q.value, dot))
  {
    hide Accepted, Valid, Ahead, Low, Left, Before, Max, DayStep, MonthOf, MDayOf, FromMonth, Search, YearStart,
      MonthStart, MonthLength, IsLeap;
    DayTools(e, s, s1, ks, km, kh, dot);
    DayStepDay(e, s, ks, km, kh);
    var q := Search(e, s1, dot);
    if q.Some? {
      LaterSettles(e, s1, q.value, dot);
    }
  }

  lemma DayStepDay(e: Expr, s: Stamp, ks: bool, km: bool, kh: bool)
    ensures s.day <= DayStep(e, s, ks, km, kh).day == DayTarget(e, s.day)
  {
    hide DayOk;
  }

  lemma UnfoldMonth(e: Expr, s: Stamp, s1: Stamp, ks: bool, km: bool, kh: bool, dot: int)
    requires Accepted(e) && Valid(s) && 0 <= s.day && Ahead(e, s, dot) && Low(e, s)
    requires MonthOf(s.day) !in e.months && s1 == MonthStep(e, s, ks, km, kh)
    ensures YearOf(s1.day) - dot > 4 ==> FromMonth(e, s, ks, km, kh, dot) == None
    ensures YearOf(s1.day) - dot <= 4 ==>
              && Valid(s1) && 0 <= s1.day && Ahead(e, s1, dot) && Left(e, s1, dot) < Left(e, s, dot)
              && FromMonth(e, s, ks, km, kh, dot) == Search(e, s1, dot)
  {
    hide Accepted, Valid, Ahead, Low, Left, MonthOf, MonthTarget, YearOf, Search, YearStart, MonthStart,
      MonthLength, IsLeap;
    if YearOf(s1.day) - dot <= 4 {
      MonthTools(e, s, s1, ks, km, kh, dot);
      MonthTargetFacts(e, s.day);
    }
  }

  /** `dcmCronParseDoNext` computes `Search`. Its body is split in three for the verifier: the seconds and
      minutes here, the hours in `DoHour`, the day and the month in `DoDay`. */
  method DoNext(expr: CronExpr, calendar: Calendar, dot: int, ghost s: Stamp) returns (res: int)
    requires expr.Shape() && Accepted(expr.Masks())
    requires Valid(s) && 0 <= s.day && Ahead(expr.Masks(), s, dot) && calendar.Value() == TmAt(s)
    modifies calendar
    ensures match Search(expr.Masks(), s, dot)
            case Some(r) => res == 0 && calendar.Value() == TmAt(r)
            case None => res == -1
    decreases Left(expr.Masks(), s, dot), 2
  {
    hide Accepted, Ahead, Left, Low, Max, Before, TmInstant, Normalised, Landing, BitSet, YearOf, MonthOf, MDayOf,
      WeekdayOf, Search, FromHour, FromDay, FromMonth, SecondStep, MinuteStep, HourStep, DayStep, MonthStep,
      DayTarget, YearStart, MonthStart, MonthLength, IsLeap;
    ghost var e := expr.Masks();
    var resets := new int[FIELDS](_ => -1);
    var emptyList := new int[FIELDS](_ => -1);

    var second := calendar.tmSec;
    SecondLanding(e, s);
    var updateSecond;
    updateSecond, res := FindNext(expr.seconds, 60, second, calendar, SECOND, MINUTE, emptyList, []);
    if res != 0 { return; }
    ghost var s1 := SecondStep(e, s);
    ghost var ks := s1.sec == s.sec;
    if second == updateSecond {
      PushToFieldsArr(resets, SECOND, []);
    }
    assert Holds(resets[..], List(ks, false, false, false));

    var minute := calendar.tmMin;
    MinuteLanding(e, s1, ks);
    var updateMinute;
    updateMinute, res := FindNext(expr.minutes, 60, minute, calendar, MINUTE, HOUR_OF_DAY, resets,
                                   List(ks, false, false, false));
    if res != 0 { return; }
    ghost var s2 := MinuteStep(e, s1, ks);
    ghost var km := s2.min == s1.min;
    SearchTools(e, s, s1, s2, dot);
    UnfoldSearch(e, s, s1, s2, dot);
    ghost var s3 := s2;
    if minute == updateMinute {
      PushToFieldsArr(resets, MINUTE, List(ks, false, false, false));
    } else {
      res := DoNext(expr, calendar, dot, s2);
      if res != 0 { return; }
      s3 := Search(e, s2, dot).value;
    }
    res := DoHour(expr, calendar, dot, resets, s3, ks, km);
  }

  /** The part of `dcmCronParseDoNext` from the hours on. */
  method DoHour(expr: CronExpr, calendar: Calendar, dot: int, resets: array<int>, ghost s: Stamp,
                ghost ks: bool, ghost km: bool) returns (res: int)
    requires expr.Shape() && Accepted(expr.Masks())
    requires Valid(s) && 0 <= s.day && Ahead(expr.Masks(), s, dot) && calendar.Value() == TmAt(s)
    requires s.sec <= Max(expr.Masks().seconds) && s.min <= Max(expr.Masks().minutes)
    requires Holds(resets[..], List(ks, km, false, false))
    modifies calendar, resets
    ensures match FromHour(expr.Masks(), s, ks, km, dot)
            case Some(r) => res == 0 && calendar.Value() == TmAt(r)
            case None => res == -1
    decreases Left(expr.Masks(), s, dot), 1
  {
    hide Accepted, Ahead, Left, Low, Max, Before, TmInstant, Normalised, Landing, BitSet, YearOf, MonthOf, MDayOf,
      WeekdayOf, Search, FromHour, FromDay, FromMonth, SecondStep, MinuteStep, HourStep, DayStep, MonthStep,
      DayTarget, YearStart, MonthStart, MonthLength, IsLeap;
    ghost var e := expr.Masks();
    var hour := calendar.tmHour;
    HourLanding(e, s, ks, km);
    var updateHour;
    updateHour, res := FindNext(expr.hours, 24, hour, calendar, HOUR_OF_DAY, DAY_OF_WEEK, resets,
                                 List(ks, km, false, false));
    if res != 0 { return; }
    ghost var s1 := HourStep(e, s, ks, km);
    HourTools(e, s, s1, ks, km, dot);
    UnfoldHour(e, s, s1, ks, km, dot);
    ghost var s2 := s1;
    if hour == updateHour {
      PushToFieldsArr(resets, HOUR_OF_DAY, List(ks, km, false, false));
    } else {
      res := DoNext(expr, calendar, dot, s1);
      if res != 0 { return; }
      s2 := Search(e, s1, dot).value;
    }
    res := DoDay(expr, calendar, dot, resets, s2, ks, km, s1.hour == s.hour);
  }

  /** The part of `dcmCronParseDoNext` from the day on. */
  method DoDay(expr: CronExpr, calendar: Calendar, dot: int, resets: array<int>, ghost s: Stamp,
               ghost ks: bool, ghost km: bool, ghost kh: bool) returns (res: int)
    requires expr.Shape() && Accepted(expr.Masks())
    requires Valid(s) && 0 <= s.day && Ahead(expr.Masks(), s, dot) && calendar.Value() == TmAt(s)
    requires Low(expr.Masks(), s)
    requires Holds(resets[..], List(ks, km, kh, false))
    modifies calendar, resets
    ensures match FromDay(expr.Masks(), s, ks, km, kh, dot)
            case Some(r) => res == 0 && calendar.Value() == TmAt(r)
            case None => res == -1
    decreases Left(expr.Masks(), s, dot), 0
  {
    hide Accepted, Ahead, Left, Low, Max, Before, TmInstant, Normalised, Landing, BitSet, YearOf, MonthOf, MDayOf,
      WeekdayOf, Search, FromHour, FromDay, FromMonth, SecondStep, MinuteStep, HourStep, DayStep, MonthStep,
      DayTarget, YearStart, MonthStart, MonthLength, IsLeap;
    ghost var e := expr.Masks();
    CloserToHorizon(e, s, s, dot);
    var dayOfWeek := calendar.tmWday;
    var dayOfMonth := calendar.tmMday;
    var updateDayOfMonth;
    updateDayOfMonth, res := FindNextDay(calendar, expr.daysOfMonth, dayOfMonth, expr.daysOfWeek, dayOfWeek,
                                            resets, e, s, ks, km, kh);
    if res != 0 { return; }
    ghost var s1 := DayStep(e, s, ks, km, kh);
    UnfoldDay(e, s, s1, ks, km, kh, dot);
    ghost var s2 := s1;
    ghost var kd := MDayOf(s1.day) == MDayOf(s.day);
    if dayOfMonth == updateDayOfMonth {
      PushToFieldsArr(resets, DAY_OF_MONTH, List(ks, km, kh, false));
    } else {
      res := DoNext(expr, calendar, dot, s1);
      if res != 0 { return; }
      s2 := Search(e, s1, dot).value;
    }

    var month := calendar.tmMon;
    MonthSteps(e, s2, ks, km, kh, kd, dot);
    var updateMonth;
    updateMonth, res := FindNext(expr.months, 12, month, calendar, MONTH, YEAR, resets, List(ks, km, kh, kd));
    if res != 0 { return; }
    if month != updateMonth {
      if calendar.tmYear - dot > 4 {
        res := -1;
        return;
      }
      ghost var s3 := MonthStep(e, s2, ks, km, kh);
      res := DoNext(expr, calendar, dot, s3);
    }
  }

  lemma MonthSteps(e: Expr, s: Stamp, ks: bool, km: bool, kh: bool, kd: bool, dot: int)
    requires Accepted(e) && Valid(s) && 0 <= s.day && Ahead(e, s, dot) && Low(e, s)
    requires kd || MonthOf(s.day) in e.months
    ensures MonthOf(s.day) in e.months ==>
              && Landing(TmAt(s), e.months, 12, MonthOf(s.day), MONTH, YEAR, List(ks, km, kh, kd))
                 == Some((TmAt(s), MonthOf(s.day)))
              && FromMonth(e, s, ks, km, kh, dot) == Some(s)
    ensures MonthOf(s.day) !in e.months ==>
              var s1 := MonthStep(e, s, ks, km, kh);
              var r := Landing(TmAt(s), e.months, 12, MonthOf(s.day), MONTH, YEAR, List(ks, km, kh, kd));
              && r.Some? && r.value.0 == TmAt(s1) && r.value.1 != MonthOf(s.day)
              && (YearOf(s1.day) - dot > 4 ==> FromMonth(e, s, ks, km, kh, dot) == None)
              && (YearOf(s1.day) - dot <= 4 ==>
                  && Valid(s1) && 0 <= s1.day && Ahead(e, s1, dot) && Left(e, s1, dot) < Left(e, s, dot)
                  && FromMonth(e, s, ks, km, kh, dot) == Search(e, s1, dot))
  {
    hide Accepted, Ahead, Low, Left, Valid, TmAt, Landing, YearOf, MonthOf, MonthStep, Search, List, YearStart,
      MonthStart, MonthLength, IsLeap;
    if MonthOf(s.day) in e.months {
      MonthStays(e, s, List(ks, km, kh, kd));
    } else {
      MonthStepLanding(e, s, ks, km, kh);
      UnfoldMonth(e, s, MonthStep(e, s, ks, km, kh), ks, km, kh, dot);
    }
  }

  /** `dcmCronParseGetNext` */
  method GetNext(expr: CronExpr, date: int) returns (t: int)
    requires expr.Shape() && Accepted(expr.Masks()) && 0 <= date
    ensures t == NextFire(expr.Masks(), date)
  {
    hide Accepted, TmInstant, Normalised, TmAt, At, Search, YearOf, MonthOf, MDayOf, WeekdayOf, YearStart, MonthStart,
      MonthLength, IsLeap, Valid, Instant, Before, Ahead, Plus, BitSet;
    ghost var e := expr.Masks();
    ghost var s := At(date);
    AtIsInstant(date);
    NormalIsFixed(s);
    StartIsAhead(e, s);
    var calendar := new Calendar(date);
    var original := calendar.Mktime();
    if original == INVALID { return INVALID; }

    CalendarDate(calendar, s);
    var res := DoNext(expr, calendar, calendar.tmYear, s);
    if res != 0 { return INVALID; }

    ghost var r := SearchFrom(e, s).value;
    AfterSearch(s, r);
    var calculated := calendar.Mktime();
    if calculated == INVALID { return INVALID; }
    if calculated == original {
      PlusOne(s, SECOND);
      AddSecondFacts(s);
      ghost var q := AddSecond(s);
      StartIsAhead(e, q);
      res := calendar.AddToField(SECOND, 1);
      if res != 0 { return INVALID; }
      CalendarDate(calendar, q);
      res := DoNext(expr, calendar, calendar.tmYear, q);
      if res != 0 { return INVALID; }
      AfterSearch(q, SearchFrom(e, q).value);
      NormalIsFixed(SearchFrom(e, q).value);
    }
    t := calendar.Mktime();
  }

  lemma AfterSearch(s: Stamp, r: Stamp)
    requires Valid(s) && Valid(r) && 0 <= s.day && !Before(r, s)
    ensures TmInstant(TmAt(r)) == Instant(r) && Normalised(TmAt(r)) == TmAt(r) && 0 <= Instant(r) && 0 <= r.day
    ensures Instant(r) == Instant(s) <==> r == s
  {
    hide TmInstant, Normalised, TmAt;
    NormalIsFixed(r);
    BeforeIsLess(r, s);
  }
}
