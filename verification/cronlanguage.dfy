/** What the text of a cron expression means, and the promise of the scheduler stated on that text. */
module CronLanguage {
  import opened Options
  import opened Gregorian
  import opened CronSearch
  import opened CronTheorems
  import opened CronRegimes
  import opened CronParse

  /** Part `k` of a field names the value `i`: it lies between the bounds, a whole number of steps on. */
  predicate Names(parts: seq<string>, min: int, max: int, k: int, i: int)
    requires 0 <= k < |parts|
  {
    match PartOf(parts[k], min, max)
    case None => false
    case Some((lo, hi, step)) => lo <= i <= hi && (i - lo) % step == 0
  }

  lemma {:induction false} PartsDenote(parts: seq<string>, min: int, max: int)
    ensures PartsSet(parts, min, max).0 <==> forall k :: 0 <= k < |parts| ==> PartOf(parts[k], min, max).Some?
    ensures PartsSet(parts, min, max).0 ==>
              forall i :: i in PartsSet(parts, min, max).1
                <==> exists k :: 0 <= k < |parts| && Names(parts, min, max, k, i)
    decreases |parts|
  {
    hide PartOf;
    if parts != [] {
      var tail := parts[1..];
      PartsDenote(tail, min, max);
      assert forall k :: 0 <= k < |tail| ==> tail[k] == parts[k + 1];
      if PartsSet(parts, min, max).0 {
        forall i
          ensures i in PartsSet(parts, min, max).1 <==> exists k :: 0 <= k < |parts| && Names(parts, min, max, k, i)
        {
          if k :| 0 <= k < |parts| && Names(parts, min, max, k, i) {
            assert k > 0 ==> Names(tail, min, max, k - 1, i);
          }
          if k :| 0 <= k < |tail| && Names(tail, min, max, k, i) {
            assert Names(parts, min, max, k + 1, i);
          }
          assert i in PartsSet(parts, min, max).1 <==> Names(parts, min, max, 0, i) || i in PartsSet(tail, min, max).1;
        }
      }
      assert (forall k :: 0 <= k < |parts| ==> PartOf(parts[k], min, max).Some?) ==>
          PartOf(parts[0], min, max).Some? && forall k :: 0 <= k < |tail| ==> PartOf(tail[k], min, max).Some?;
    }
  }

  /** A field is accepted when it is short enough, has parts and every part is well formed; its mask then holds exactly the
      values that some part names. */
  lemma FieldDenotes(value: string, min: int, max: int)
    ensures var parts := Tokens(value, ',');
            && (FieldSet(value, min, max).0
                <==> |value| < MAX_STR_LEN_TO_SPLIT && parts != []
                     && forall k :: 0 <= k < |parts| ==> PartOf(parts[k], min, max).Some?)
            && (FieldSet(value, min, max).0 ==>
                  forall i :: i in FieldSet(value, min, max).1
                    <==> exists k :: 0 <= k < |parts| && Names(parts, min, max, k, i))
  {
    hide PartOf, PartsSet;
    PartsDenote(Tokens(value, ','), min, max);
  }

  // The forms of a part

  predicate IsNumber(s: string) {
    s != "" && forall c <- s :: IsDigit(c)
  }

  /** The number that decimal digits write. */
  function Number(s: string): (n: nat)
    requires forall c <- s :: IsDigit(c)
  {
    if s == "" then 0
    else
      assert IsDigit(s[|s| - 1]);
      Number(s[..|s| - 1]) * 10 + (s[|s| - 1] as int - 48)
  }

  lemma {:induction false} DigitsAreRead(s: string, t: string)
    requires forall c <- s + t :: IsDigit(c)
    requires (forall c <- s :: IsDigit(c)) && (forall c <- t :: IsDigit(c))
    ensures DigitsValue(t, Number(s)) == Some(Number(s + t))
    decreases |t|
  {
    if t == "" {
      assert s + t == s;
    } else {
      var u := s + [t[0]];
      assert u[..|u| - 1] == s;
      assert u + t[1..] == s + t;
      assert forall c <- t[1..] :: c in t;
      DigitsAreRead(u, t[1..]);
    }
  }

  lemma NumberIsRead(s: string)
    requires IsNumber(s)
    ensures ParseUint(s) == if Number(s) <= 2147483647 then Some(Number(s)) else None
  {
    assert IsDigit(s[0]);
    assert !IsSpace(s[0]) && s[0] != '-' && s[0] != '+';
    assert SkipSpace(s) == s;
    assert "" + s == s;
    assert Number("") == 0;
    DigitsAreRead("", s);
    assert DigitsValue(s, 0) == Some(Number(s));
  }

  lemma {:induction false} TokensOfWord(s: string, rest: string, del: char, pending: string)
    requires (forall c <- s :: !IsSpace(c)) && del !in s
    ensures TokensFrom(s + rest, del, pending) == TokensFrom(rest, del, pending + s)
    decreases |s|
  {
    if s == "" {
      assert s + rest == rest && pending + s == pending;
    } else {
      assert s[0] in s;
      assert (s + rest)[1..] == s[1..] + rest;
      assert forall c <- s[1..] :: c in s;
      TokensOfWord(s[1..], rest, del, pending + [s[0]]);
      assert pending + [s[0]] + s[1..] == pending + s;
    }
  }

  lemma TwoTokens(a: string, b: string, del: char)
    requires a != "" && b != "" && del !in a && del !in b
    requires forall c <- a + b :: IsDigit(c) || c == '*' || c == '-'
    ensures Tokens(a + [del] + b, del) == [a, b]
  {
    assert forall c <- a :: c in a + b;
    assert forall c <- b :: c in a + b;
    var rest := [del] + b;
    assert a + [del] + b == a + rest;
    TokensOfWord(a, rest, del, "");
    assert "" + a == a && "" + b == b && rest[1..] == b && b + "" == b;
    TokensOfWord(b, "", del, "");
  }

  /** What each form of a part means, for numbers `a`, `b` and `n`: one value, a range, and either with a
      step. A step after one value runs to the end of the field. */
  lemma PartForms(a: string, b: string, n: string, min: int, max: int)
    requires IsNumber(a) && IsNumber(b) && IsNumber(n) && max <= 2147483647
    ensures PartOf(a, min, max) == if min <= Number(a) < max then Some((Number(a), Number(a), 1)) else None
    ensures PartOf(a + "-" + b, min, max)
         == if min <= Number(a) <= Number(b) < max then Some((Number(a), Number(b), 1)) else None
    ensures PartOf(a + "/" + n, min, max)
         == if min <= Number(a) < max && 0 < Number(n) <= 2147483647 then Some((Number(a), max - 1, Number(n)))
            else None
    ensures PartOf(a + "-" + b + "/" + n, min, max)
         == if min <= Number(a) <= Number(b) < max && 0 < Number(n) <= 2147483647 then
              Some((Number(a), Number(b), Number(n)))
            else None
    ensures PartOf("*/" + n, min, max)
         == if min < max && 0 < Number(n) <= 2147483647 then Some((min, max - 1, Number(n))) else None
  {
    hide ParseUint, Tokens, Number;
    assert forall c <- a + b + n :: IsDigit(c);
    NumberIsRead(a);
    NumberIsRead(b);
    NumberIsRead(n);
    NoMark(a);
    NoMark(b);
    NoMark(n);
    TwoTokens(a, b, '-');
    TwoTokens(a, n, '/');
    TwoTokens(a + "-" + b, n, '/');
    TwoTokens("*", n, '/');
    assert "*" + "/" + n == "*/" + n;
  }

  lemma NoMark(s: string)
    requires IsNumber(s)
    ensures '-' !in s && '/' !in s && s != "*"
  {
    assert IsDigit(s[0]);
  }

  /** `*` accepts every value of its field. */
  lemma StarIsAll(min: int, max: int)
    requires min < max
    ensures FieldSet("*", min, max).0
    ensures forall i :: i in FieldSet("*", min, max).1 <==> min <= i < max
  {
    OneToken();
    assert PartOf("*", min, max) == Some((min, max - 1, 1));
    FieldDenotes("*", min, max);
    forall i | min <= i < max
      ensures Names(["*"], min, max, 0, i)
    {
    }
  }

  lemma OneToken()
    ensures Tokens("*", ',') == ["*"]
  {
    var s: string := "*";
    assert s[1..] == "";
    assert TokensFrom(s, ',', "") == TokensFrom("", ',', "" + ['*']);
    assert "" + ['*'] == s;
  }

  predicate IsStar(field: string) {
    field == "*" || field == "?"
  }

  lemma StarText()
    ensures MonthText("*") == "*" && WeekdayText("*") == "*" && WeekdayText("?") == "*"
  {
    hide MonthText, WeekdayText;
    NumbersAreKept("*");
    NumbersAreKept("?");
  }

  /** The promise on the text of a five-field expression: with `*` or `?` for the day of the month or for the
      day of the week, and `*` for the months, the next fire time is the least later match, and there is one. */
  lemma FiveFieldPromise(expression: string, date: nat)
    requires Compiled(expression).Some? && |Tokens(expression, ' ')| == 5
    requires IsStar(Tokens(expression, ' ')[2]) || IsStar(Tokens(expression, ' ')[4])
    requires Tokens(expression, ' ')[3] == "*"
    ensures Accepted(Compiled(expression).value)
    ensures var e := Compiled(expression).value;
            var r := NextFire(e, date);
            date < r && MatchesAt(e, r) && forall t :: date < t < r ==> !MatchesAt(e, t)
  {
    hide FieldSet, Tokens, MonthText, WeekdayText, NextFire, MatchesAt, Accepted;
    CompiledIsAccepted(expression);
    StarText();
    StarIsAll(1, 32);
    StarIsAll(1, 13);
    StarIsAll(0, 8);
    var e := Compiled(expression).value;
    FieldIsWithin("*", 1, 13);
    MonthBitsFacts(FieldSet("*", 1, 13).1);
    assert forall m :: 0 <= m < 12 ==> m in e.months;
    assert AtMostOneDayMaskRestricted(e);
    LeastFire(e, date);
  }

  // Names

  predicate HasNoLetter(s: string) {
    forall c <- s :: !('a' <= c <= 'z') && !('A' <= c <= 'Z')
  }

  lemma PrefixHead(p: string, s: string)
    requires p <= s && p != ""
    ensures p[0] == s[0]
  {
  }

  lemma {:induction false} NothingToReplace(s: string, rep: string, with: string)
    requires HasNoLetter(s) && rep != "" && 'A' <= rep[0] <= 'Z'
    ensures ReplaceAll(s, rep, with) == s
    decreases |s|
  {
    if s != [] {
      assert s[0] in s && forall c <- s[1..] :: c in s;
      if rep <= s {
        PrefixHead(rep, s);
      }
      NothingToReplace(s[1..], rep, with);
    }
  }

  lemma {:induction false} NoOrdinals(s: string, names: seq<string>, i: nat)
    requires i <= |names| <= |ORDINALS| && HasNoLetter(s)
    requires forall k :: 0 <= k < |names| ==> names[k] != "" && 'A' <= names[k][0] <= 'Z'
    ensures ReplaceOrdinals(s, names, i) == s
    decreases |names| - i
  {
    if i < |names| {
      NothingToReplace(s, names[i], ORDINALS[i]);
      NoOrdinals(s, names, i + 1);
    }
  }

  lemma {:induction false} UpperOfNoLetter(s: string)
    requires HasNoLetter(s)
    ensures Upper(s) == s
    decreases |s|
  {
    if s != [] {
      assert s[0] in s && forall c <- s[1..] :: c in s;
      UpperOfNoLetter(s[1..]);
    }
  }

  /** Fields without letters are read as they are. */
  lemma NumbersAreKept(s: string)
    requires HasNoLetter(s)
    ensures MonthText(s) == s && WeekdayText(s) == QuestionIsStar(s)
  {
    UpperOfNoLetter(s);
    UpperOfNoLetter(QuestionIsStar(s));
    NoOrdinals(s, MONTHS_ARR, 0);
    NoOrdinals(QuestionIsStar(s), DAYS_ARR, 0);
  }

  predicate IsName(s: string) {
    |s| == 3 && 'A' <= s[0] <= 'Z' && 'A' <= s[1] <= 'Z' && 'A' <= s[2] <= 'Z'
  }

  lemma ReplaceName(s: string, rep: string, with: string)
    requires IsName(s) && IsName(rep)
    ensures ReplaceAll(s, rep, with) == if s == rep then with else s
  {
    var t, u := s[1..], s[2..];
    assert ReplaceAll("", rep, with) == "";
    assert t[1..] == u && u[1..] == "";
    assert ReplaceAll(u, rep, with) == u;
    assert ReplaceAll(t, rep, with) == t;
    if s == rep {
      assert s[3..] == "" && with + "" == with;
    } else {
      assert !(rep <= s);
    }
  }

  /** A name becomes its ordinal, whatever the names before it. */
  lemma {:induction false} NameIsOrdinal(names: seq<string>, i: nat, j: nat)
    requires i <= j < |names| <= |ORDINALS|
    requires forall k :: 0 <= k < |names| ==> names[k] != "" && IsName(names[k])
    requires forall k :: 0 <= k < j ==> names[k] != names[j]
    ensures ReplaceOrdinals(names[j], names, i) == ORDINALS[j]
    decreases j - i
  {
    ReplaceName(names[j], names[i], ORDINALS[i]);
    if i < j {
      NameIsOrdinal(names, i + 1, j);
    } else {
      assert HasNoLetter(ORDINALS[j]);
      NoOrdinals(ORDINALS[j], names, j + 1);
    }
  }

  /** Every month and weekday name stands for its ordinal. */
  lemma NamesAreOrdinals()
    ensures forall j :: 0 <= j < |MONTHS_ARR| ==> ReplaceOrdinals(MONTHS_ARR[j], MONTHS_ARR, 0) == ORDINALS[j]
    ensures forall j :: 0 <= j < |DAYS_ARR| ==> ReplaceOrdinals(DAYS_ARR[j], DAYS_ARR, 0) == ORDINALS[j]
  {
    forall j | 0 <= j < |MONTHS_ARR|
      ensures ReplaceOrdinals(MONTHS_ARR[j], MONTHS_ARR, 0) == ORDINALS[j]
    {
      NameIsOrdinal(MONTHS_ARR, 0, j);
    }
    forall j | 0 <= j < |DAYS_ARR|
      ensures ReplaceOrdinals(DAYS_ARR[j], DAYS_ARR, 0) == ORDINALS[j]
    {
      NameIsOrdinal(DAYS_ARR, 0, j);
    }
  }
}
