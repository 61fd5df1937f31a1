/** Whole expressions: what the text of five or six fields compiles to, field by field. */
module CronTexts {
  import opened Options
  import opened Gregorian
  import opened CronSearch
  import opened CronRegimes
  import opened CronParse
  import opened CronLanguage

  // White space

  /** Blank, tab, newline, vertical tab, form feed and carriage return. */
  const WHITE: seq<int> := [32, 9, 10, 11, 12, 13]

  /** The characters that are neither white space nor the delimiter. */
  function Visible(s: string, del: char): string {
    if s == "" then ""
    else if s[0] == del || s[0] as int in WHITE then Visible(s[1..], del)
    else [s[0]] + Visible(s[1..], del)
  }

  function Joined(ts: seq<string>): string {
    if ts == [] then "" else ts[0] + Joined(ts[1..])
  }

  lemma JoinedAppends(t: string, ts: seq<string>)
    ensures Joined(NonEmpty(t) + ts) == t + Joined(ts)
  {
    if t != "" {
      assert ([t] + ts)[1..] == ts;
    } else {
      assert [] + ts == ts;
    }
  }

  lemma {:induction false} TokensFromKeep(s: string, del: char, pending: string)
    ensures Joined(TokensFrom(s, del, pending)) == pending + Visible(s, del)
    decreases |s|
  {
    if s == "" {
      JoinedAppends(pending, []);
      assert NonEmpty(pending) + [] == NonEmpty(pending);
    } else if s[0] == del {
      JoinedAppends(pending, TokensFrom(s[1..], del, ""));
      TokensFromKeep(s[1..], del, "");
      assert "" + Visible(s[1..], del) == Visible(s[1..], del);
    } else {
      assert IsSpace(s[0]) <==> s[0] as int in WHITE;
      var next := if IsSpace(s[0]) then pending else pending + [s[0]];
      TokensFromKeep(s[1..], del, next);
      assert pending + [s[0]] + Visible(s[1..], del) == pending + ([s[0]] + Visible(s[1..], del));
    }
  }

  /** The tokens together are the text without the delimiter and the six kinds of white space. */
  lemma TokensKeep(s: string, del: char)
    ensures Joined(Tokens(s, del)) == Visible(s, del)
  {
    TokensFromKeep(s, del, "");
    assert "" + Visible(s, del) == Visible(s, del);
  }

  // Names

  lemma {:induction false} SmallToCapital(s: string, c: string)
    requires |s| == |c| && forall i :: 0 <= i < |s| ==> 'a' <= s[i] <= 'z' && c[i] as int == s[i] as int - 32
    ensures Upper(s) == c && Upper(c) == c
    decreases |s|
  {
    if s != "" {
      assert c == [c[0]] + c[1..];
      assert s[0] - 'a' + 'A' == c[0];
      SmallToCapital(s[1..], c[1..]);
    }
  }

  lemma MonthName(s: string, c: string, j: nat)
    requires |s| == 3 && |c| == 3
    requires forall i :: 0 <= i < 3 ==> 'a' <= s[i] <= 'z' && c[i] as int == s[i] as int - 32
    requires j < |MONTHS_ARR| && MONTHS_ARR[j] == c
    ensures MonthText(s) == MonthText(c) == ORDINALS[j]
  {
    hide ReplaceOrdinals;
    SmallToCapital(s, c);
    NamesAreOrdinals();
  }

  lemma DayName(s: string, c: string, j: nat)
    requires |s| == 3 && |c| == 3
    requires forall i :: 0 <= i < 3 ==> 'a' <= s[i] <= 'z' && c[i] as int == s[i] as int - 32
    requires j < |DAYS_ARR| && DAYS_ARR[j] == c
    ensures WeekdayText(s) == WeekdayText(c) == ORDINALS[j]
  {
    hide ReplaceOrdinals;
    SmallToCapital(s, c);
    NamesAreOrdinals();
  }

  /** The names of the months, in capital and small letters. */
  lemma MonthNames()
    ensures MonthText("JAN") == MonthText("jan") == "1" && MonthText("FEB") == MonthText("feb") == "2"
    ensures MonthText("MAR") == MonthText("mar") == "3" && MonthText("APR") == MonthText("apr") == "4"
    ensures MonthText("MAY") == MonthText("may") == "5" && MonthText("JUN") == MonthText("jun") == "6"
    ensures MonthText("JUL") == MonthText("jul") == "7" && MonthText("AUG") == MonthText("aug") == "8"
    ensures MonthText("SEP") == MonthText("sep") == "9" && MonthText("OCT") == MonthText("oct") == "10"
    ensures MonthText("NOV") == MonthText("nov") == "11" && MonthText("DEC") == MonthText("dec") == "12"
  {
    hide MonthText;
    EarlyMonthNames();
    LateMonthNames();
  }

  lemma EarlyMonthNames()
    ensures MonthText("JAN") == MonthText("jan") == "1" && MonthText("FEB") == MonthText("feb") == "2"
    ensures MonthText("MAR") == MonthText("mar") == "3" && MonthText("APR") == MonthText("apr") == "4"
    ensures MonthText("MAY") == MonthText("may") == "5" && MonthText("JUN") == MonthText("jun") == "6"
  {
    hide MonthText;
    MonthName("jan", "JAN", 1);
    MonthName("feb", "FEB", 2);
    MonthName("mar", "MAR", 3);
    MonthName("apr", "APR", 4);
    MonthName("may", "MAY", 5);
    MonthName("jun", "JUN", 6);
  }

  lemma LateMonthNames()
    ensures MonthText("JUL") == MonthText("jul") == "7" && MonthText("AUG") == MonthText("aug") == "8"
    ensures MonthText("SEP") == MonthText("sep") == "9" && MonthText("OCT") == MonthText("oct") == "10"
    ensures MonthText("NOV") == MonthText("nov") == "11" && MonthText("DEC") == MonthText("dec") == "12"
  {
    hide MonthText;
    MonthName("jul", "JUL", 7);
    MonthName("aug", "AUG", 8);
    MonthName("sep", "SEP", 9);
    MonthName("oct", "OCT", 10);
    MonthName("nov", "NOV", 11);
    MonthName("dec", "DEC", 12);
  }

  /** The names of the weekdays, in capital and small letters. */
  lemma DayNames()
    ensures WeekdayText("SUN") == WeekdayText("sun") == "0" && WeekdayText("MON") == WeekdayText("mon") == "1"
    ensures WeekdayText("TUE") == WeekdayText("tue") == "2" && WeekdayText("WED") == WeekdayText("wed") == "3"
    ensures WeekdayText("THU") == WeekdayText("thu") == "4" && WeekdayText("FRI") == WeekdayText("fri") == "5"
    ensures WeekdayText("SAT") == WeekdayText("sat") == "6"
  {
    hide WeekdayText;
    DayName("sun", "SUN", 0);
    DayName("mon", "MON", 1);
    DayName("tue", "TUE", 2);
    DayName("wed", "WED", 3);
    DayName("thu", "THU", 4);
    DayName("fri", "FRI", 5);
    DayName("sat", "SAT", 6);
  }

  // Numbers

  predicate AllWhite(s: string) {
    forall c <- s :: c as int in WHITE
  }

  predicate IsSign(s: string) {
    s == "" || s == "+" || s == "-"
  }

  /** White space, a sign or none, and digits that write `v`. */
  ghost predicate Writes(s: string, v: int) {
    exists w: string, sign: string, d: string :: WritesAs(s, w, sign, d, v)
  }

  predicate WritesAs(s: string, w: string, sign: string, d: string, v: int) {
    && s == w + (sign + d) && AllWhite(w) && IsSign(sign) && IsNumber(d)
    && if sign == "-" then v + Number(d) == 0 else v == Number(d)
  }

  lemma {:induction false} SpaceIsSkipped(w: string, rest: string)
    requires AllWhite(w) && (rest != "" ==> !IsSpace(rest[0]))
    ensures SkipSpace(w + rest) == rest
  {
    if w == "" {
      assert w + rest == rest;
    } else {
      assert w[0] in w && forall c <- w[1..] :: c in w;
      assert (w + rest)[1..] == w[1..] + rest;
      SpaceIsSkipped(w[1..], rest);
    }
  }

  lemma {:induction false} SkippedIsSpace(s: string) returns (w: string)
    ensures s == w + SkipSpace(s) && AllWhite(w)
  {
    if s != "" && IsSpace(s[0]) {
      w := SkippedIsSpace(s[1..]);
      assert s == [s[0]] + s[1..];
      w := [s[0]] + w;
    } else {
      w := "";
      assert "" + s == s;
    }
  }

  lemma {:induction false} OnlyDigitsAreRead(s: string, value: int)
    requires DigitsValue(s, value).Some?
    ensures forall c <- s :: IsDigit(c)
    decreases |s|
  {
    if s != "" {
      OnlyDigitsAreRead(s[1..], value * 10 + (s[0] as int - 48));
      assert s == [s[0]] + s[1..];
    }
  }

  lemma DigitsRead(d: string)
    requires IsNumber(d)
    ensures DigitsValue(d, 0) == Some(Number(d))
  {
    assert "" + d == d;
    assert Number("") == 0;
    DigitsAreRead("", d);
  }

  lemma WrittenIsRead(s: string, w: string, sign: string, d: string, v: int)
    requires WritesAs(s, w, sign, d, v)
    ensures ParseUint(s) == if 0 <= v <= 2147483647 then Some(v) else None
  {
    hide DigitsValue, Number;
    DigitsRead(d);
    assert IsDigit(d[0]);
    SpaceIsSkipped(w, sign + d);
    assert sign == "" ==> sign + d == d;
    assert sign != "" ==> (sign + d)[1..] == d;
  }

  /** The numbers of a field are the texts that `strtol` reads to the end, from 0 to the greatest `int`; the empty
      text reads as 0. */
  lemma NumberTexts(s: string, v: int)
    ensures ParseUint(s) == Some(v) <==> 0 <= v <= 2147483647 && (Writes(s, v) || (s == "" && v == 0))
  {
    hide DigitsValue, Number;
    if s != "" {
      if w, sign, d :| WritesAs(s, w, sign, d, v) {
        WrittenIsRead(s, w, sign, d, v);
      }
      if ParseUint(s) == Some(v) {
        var w := SkippedIsSpace(s);
        var t := SkipSpace(s);
        var sign := if t[0] == '-' || t[0] == '+' then t[..1] else "";
        var d := t[|sign|..];
        assert t == sign + d;
        OnlyDigitsAreRead(d, 0);
        DigitsRead(d);
        assert WritesAs(s, w, sign, d, v);
      }
    }
  }

  lemma ThreeTokens(a: string, b: string, c: string, del: char)
    requires IsNumber(a) && IsNumber(b) && IsNumber(c) && !IsDigit(del)
    ensures Tokens(a + [del] + b + [del] + c, del) == [a, b, c]
  {
    assert a + [del] + b + [del] + c == a + ([del] + (b + ([del] + c)));
    TokensOfWord(a, [del] + (b + ([del] + c)), del, "");
    assert ([del] + (b + ([del] + c)))[1..] == b + ([del] + c) && "" + a == a;
    TokensOfWord(b, [del] + c, del, "");
    assert ([del] + c)[1..] == c && "" + b == b;
    TokensOfWord(c, "", del, "");
    assert c + "" == c && "" + c == c;
    assert [a] + ([b] + [c]) == [a, b, c];
  }

  lemma OneTokenLeft(a: string, del: char)
    requires IsNumber(a) && !IsDigit(del)
    ensures Tokens([del] + a, del) == [a] == Tokens(a + [del], del)
  {
    TokensOfWord(a, [del], del, "");
    TokensOfWord(a, "", del, "");
    assert ([del] + a)[1..] == a && "" + a == a && a + "" == a && [del][1..] == "";
    assert [] + [a] == [a] && [a] + [] == [a];
    assert NonEmpty("") == [] && NonEmpty(a) == [a];
  }

  /** Parts of other forms: a plus sign changes nothing; a third bound, a second step, a negative step and a
      bound or step that is missing are rejected. */
  lemma OtherParts(a: string, b: string, n: string, min: int, max: int)
    requires IsNumber(a) && IsNumber(b) && IsNumber(n)
    ensures PartOf("+" + a, min, max) == PartOf(a, min, max)
    ensures PartOf(a + "-" + b + "-" + n, min, max) == None == PartOf(a + "/" + b + "/" + n, min, max)
    ensures PartOf(a + "/-" + n, min, max) == None == PartOf("*/-" + n, min, max)
    ensures PartOf("-" + a, min, max) == None == PartOf(a + "-", min, max)
    ensures PartOf("/" + a, min, max) == None == PartOf(a + "/", min, max)
  {
    hide ParseUint, Tokens, Number;
    NumberIsRead(a);
    NumberIsRead(n);
    assert forall c <- a + n :: IsDigit(c);
    NoMark(a);
    NoMark(b);
    NoMark(n);
    var x: int, y: int := Number(a), Number(n);
    assert WritesAs("+" + a, "", "+", a, x) && WritesAs("-" + n, "", "-", n, -y);
    WrittenIsRead("+" + a, "", "+", a, x);
    WrittenIsRead("-" + n, "", "-", n, -y);
    ThreeTokens(a, b, n, '-');
    ThreeTokens(a, b, n, '/');
    OneTokenLeft(a, '-');
    OneTokenLeft(a, '/');
    TwoTokens(a, "-" + n, '/');
    TwoTokens("*", "-" + n, '/');
    assert a + "/-" + n == a + "/" + ("-" + n) && "*/-" + n == "*" + "/" + ("-" + n);
  }

  // Fields

  /** A word is a token by itself. */
  predicate IsWord(s: string) {
    s != "" && forall c <- s :: !IsSpace(c)
  }

  lemma NumberIsWord(s: string)
    requires IsNumber(s)
    ensures IsWord(s) && ' ' !in s && ',' !in s && HasNoLetter(s) && s != "?"
  {
    assert IsDigit(s[0]);
  }

  lemma OneNumber(a: string, min: int, max: int)
    requires IsNumber(a) && max <= 2147483647 && |a| < 256
    ensures FieldSet(a, min, max)
         == if min <= Number(a) < max then (true, {Number(a)}) else (false, {})
  {
    hide PartOf, Number, Every, IsDigit;
    OneValue(a, min, max);
    assert a + "" == a && "" + a == a;
    NumberIsWord(a);
    TokensOfWord(a, "", ',', "");
    assert Tokens(a, ',') == [a];
    assert [a][1..] == [];
    assert PartsSet([], min, max) == (true, {});
    EveryOne(Number(a));
    assert {Number(a)} + {} == {Number(a)};
  }

  lemma OneValue(a: string, min: int, max: int)
    requires IsNumber(a) && max <= 2147483647
    ensures PartOf(a, min, max) == if min <= Number(a) < max then Some((Number(a), Number(a), 1)) else None
  {
    hide Number, ParseUint;
    NumberIsRead(a);
    NoMark(a);
  }

  lemma EveryOne(v: int)
    ensures Every(v, v, 1) == {v}
  {
    assert InStep(v, v, 1);
  }

  lemma FirstToken(a: string, rest: string)
    requires IsWord(a)
    ensures Tokens(a + " " + rest, ' ') == [a] + Tokens(rest, ' ')
  {
    assert a + " " + rest == a + (" " + rest);
    assert ' ' !in a by { assert IsSpace(' '); }
    TokensOfWord(a, " " + rest, ' ', "");
    assert "" + a == a && (" " + rest)[1..] == rest;
  }

  lemma LastToken(a: string)
    requires IsWord(a)
    ensures Tokens(a, ' ') == [a]
  {
    assert a + "" == a && "" + a == a;
    assert ' ' !in a by { assert IsSpace(' '); }
    TokensOfWord(a, "", ' ', "");
  }

  lemma OneMonth(m: int)
    requires 1 <= m < 13
    ensures MonthBits({m}) == {m - 1}
  {
  }

  lemma OneWeekday(w: int)
    requires 0 <= w < 8
    ensures WeekdayBits({w}) == {w % 7}
  {
  }

  lemma AllWeekdayBits(raw: set<int>)
    requires forall i :: i in raw <==> 0 <= i < 8
    ensures WeekdayBits(raw) == EVERY_WEEKDAY
  {
    assert forall i :: i in raw + {0} - {7} <==> i in EVERY_WEEKDAY;
  }

  // Whole expressions

  /** The last five fields of an expression. */
  function Five(mi: string, h: string, d: string, mo: string, w: string): string {
    mi + " " + (h + " " + (d + " " + (mo + " " + w)))
  }

  function Six(s: string, mi: string, h: string, d: string, mo: string, w: string): string {
    s + " " + Five(mi, h, d, mo, w)
  }

  lemma FiveTokens(mi: string, h: string, d: string, mo: string, w: string)
    requires IsWord(mi) && IsWord(h) && IsWord(d) && IsWord(mo) && IsWord(w)
    ensures Tokens(Five(mi, h, d, mo, w), ' ') == [mi, h, d, mo, w]
    ensures |mi| < |Five(mi, h, d, mo, w)| && |h| < |Five(mi, h, d, mo, w)| && |d| < |Five(mi, h, d, mo, w)|
    ensures |mo| < |Five(mi, h, d, mo, w)| && |w| < |Five(mi, h, d, mo, w)|
  {
    hide Tokens, IsWord;
    LastToken(w);
    FirstToken(mo, w);
    FirstToken(d, mo + " " + w);
    FirstToken(h, d + " " + (mo + " " + w));
    FirstToken(mi, h + " " + (d + " " + (mo + " " + w)));
  }

  /** The months and weekdays fields may be names: `mo` and `w` are what they stand for. */
  predicate Written(mi: string, h: string, d: string, mo: string, w: string) {
    && IsNumber(mi) && IsNumber(h) && IsNumber(d) && IsWord(mo) && IsWord(w)
    && IsNumber(MonthText(mo)) && IsNumber(WeekdayText(w)) && |MonthText(mo)| < 256 && |WeekdayText(w)| < 256
  }

  predicate InFields(mi: int, h: int, d: int, mo: int, w: int) {
    0 <= mi <= 59 && 0 <= h <= 23 && 1 <= d <= 31 && 1 <= mo <= 12 && 0 <= w <= 7
  }

  lemma FieldsOfNumbers(mi: string, h: string, d: string, mo: string, w: string)
    requires Written(mi, h, d, mo, w) && |Five(mi, h, d, mo, w)| < 256
    ensures FieldSet(mi, 0, 60) == if Number(mi) <= 59 then (true, {Number(mi)}) else (false, {})
    ensures FieldSet(h, 0, 24) == if Number(h) <= 23 then (true, {Number(h)}) else (false, {})
    ensures FieldSet(QuestionIsStar(d), 1, 32) == if 1 <= Number(d) <= 31 then (true, {Number(d)}) else (false, {})
    ensures FieldSet(MonthText(mo), 1, 13)
         == if 1 <= Number(MonthText(mo)) <= 12 then (true, {Number(MonthText(mo))}) else (false, {})
    ensures FieldSet(WeekdayText(w), 0, 8)
         == if Number(WeekdayText(w)) <= 7 then (true, {Number(WeekdayText(w))}) else (false, {})
  {
    hide Number, FieldSet, Tokens, MonthText, WeekdayText, Five, IsDigit, IsWord;
    NumberIsWord(mi);
    NumberIsWord(h);
    NumberIsWord(d);
    FiveTokens(mi, h, d, mo, w);
    OneNumber(mi, 0, 60);
    OneNumber(h, 0, 24);
    OneNumber(d, 1, 32);
    OneNumber(MonthText(mo), 1, 13);
    OneNumber(WeekdayText(w), 0, 8);
  }

  /** The masks of an expression, when all its fields are accepted. */
  function Assembled(s: (bool, set<int>), mi: (bool, set<int>), h: (bool, set<int>), d: (bool, set<int>),
                     mo: (bool, set<int>), w: (bool, set<int>)): Option<Expr>
  {
    if s.0 && mi.0 && h.0 && d.0 && mo.0 && w.0 then Some(Expr(s.1, mi.1, h.1, d.1, MonthBits(mo.1), WeekdayBits(w.1)))
    else None
  }

  lemma FiveAssembled(text: string, mi: string, h: string, d: string, mo: string, w: string)
    requires Tokens(text, ' ') == [mi, h, d, mo, w]
    ensures Compiled(text)
         == if |text| >= 256 then None
            else Assembled((true, {0}), FieldSet(mi, 0, 60), FieldSet(h, 0, 24), FieldSet(QuestionIsStar(d), 1, 32),
                           FieldSet(MonthText(mo), 1, 13), FieldSet(WeekdayText(w), 0, 8))
  {
    hide Tokens, FieldSet, MonthText, WeekdayText, MonthBits, WeekdayBits, QuestionIsStar;
  }

  lemma SixAssembled(text: string, s: string, mi: string, h: string, d: string, mo: string, w: string)
    requires Tokens(text, ' ') == [s, mi, h, d, mo, w]
    ensures Compiled(text)
         == if |text| >= 256 then None
            else Assembled(FieldSet(s, 0, 60), FieldSet(mi, 0, 60), FieldSet(h, 0, 24),
                           FieldSet(QuestionIsStar(d), 1, 32), FieldSet(MonthText(mo), 1, 13),
                           FieldSet(WeekdayText(w), 0, 8))
  {
    hide Tokens, FieldSet, MonthText, WeekdayText, MonthBits, WeekdayBits, QuestionIsStar;
  }

  /** `mi h d mo w`: second 0 of the minute, hour, day, month and weekday written, and nothing else; rejected when a
      number is not in its field or the text is too long. */
  lemma FiveFields(mi: string, h: string, d: string, mo: string, w: string)
    requires Written(mi, h, d, mo, w)
    ensures Compiled(Five(mi, h, d, mo, w))
         == if |Five(mi, h, d, mo, w)| < 256
               && InFields(Number(mi), Number(h), Number(d), Number(MonthText(mo)), Number(WeekdayText(w))) then
              Some(Expr({0}, {Number(mi)}, {Number(h)}, {Number(d)}, {Number(MonthText(mo)) - 1},
                        {Number(WeekdayText(w)) % 7}))
            else None
  {
    hide Compiled, Number, Tokens, FieldSet, MonthText, WeekdayText, IsDigit, IsWord, Five, MonthBits, WeekdayBits,
      QuestionIsStar;
    NumberIsWord(mi);
    NumberIsWord(h);
    NumberIsWord(d);
    FiveTokens(mi, h, d, mo, w);
    FiveAssembled(Five(mi, h, d, mo, w), mi, h, d, mo, w);
    if |Five(mi, h, d, mo, w)| < 256 {
      FieldsOfNumbers(mi, h, d, mo, w);
      if InFields(Number(mi), Number(h), Number(d), Number(MonthText(mo)), Number(WeekdayText(w))) {
        OneMonth(Number(MonthText(mo)));
        OneWeekday(Number(WeekdayText(w)));
      }
    }
  }

  /** `s mi h d mo w`: the first of six fields is the seconds. */
  lemma SixFields(s: string, mi: string, h: string, d: string, mo: string, w: string)
    requires IsNumber(s) && Written(mi, h, d, mo, w)
    ensures Compiled(Six(s, mi, h, d, mo, w))
         == if |Six(s, mi, h, d, mo, w)| < 256 && Number(s) <= 59
               && InFields(Number(mi), Number(h), Number(d), Number(MonthText(mo)), Number(WeekdayText(w))) then
              Some(Expr({Number(s)}, {Number(mi)}, {Number(h)}, {Number(d)}, {Number(MonthText(mo)) - 1},
                        {Number(WeekdayText(w)) % 7}))
            else None
  {
    hide Compiled, Number, Tokens, FieldSet, MonthText, WeekdayText, IsDigit, IsWord, Five, MonthBits, WeekdayBits,
      QuestionIsStar;
    NumberIsWord(s);
    NumberIsWord(mi);
    NumberIsWord(h);
    NumberIsWord(d);
    FiveTokens(mi, h, d, mo, w);
    FirstToken(s, Five(mi, h, d, mo, w));
    assert Tokens(Six(s, mi, h, d, mo, w), ' ') == [s, mi, h, d, mo, w];
    SixAssembled(Six(s, mi, h, d, mo, w), s, mi, h, d, mo, w);
    if |Six(s, mi, h, d, mo, w)| < 256 {
      OneNumber(s, 0, 60);
      FieldsOfNumbers(mi, h, d, mo, w);
      if InFields(Number(mi), Number(h), Number(d), Number(MonthText(mo)), Number(WeekdayText(w))) {
        OneMonth(Number(MonthText(mo)));
        OneWeekday(Number(WeekdayText(w)));
      }
    }
  }

  /** Numbers in the months and weekdays fields stand for themselves. */
  lemma NumbersAreWritten(mi: string, h: string, d: string, mo: string, w: string)
    requires IsNumber(mi) && IsNumber(h) && IsNumber(d) && IsNumber(mo) && IsNumber(w) && |mo| < 256 && |w| < 256
    ensures Written(mi, h, d, mo, w) && MonthText(mo) == mo && WeekdayText(w) == w
  {
    hide MonthText, WeekdayText, IsDigit, IsWord;
    NumberIsWord(mo);
    NumberIsWord(w);
    NumbersAreKept(mo);
    NumbersAreKept(w);
  }

  /** Four fields are too few and seven are too many, whatever they are. */
  lemma WrongCount(x: string, s: string, mi: string, h: string, d: string, mo: string, w: string)
    requires IsWord(x) && IsWord(s) && IsWord(mi) && IsWord(h) && IsWord(d) && IsWord(mo) && IsWord(w)
    ensures Compiled(h + " " + (d + " " + (mo + " " + w))) == None
    ensures Compiled(x + " " + Six(s, mi, h, d, mo, w)) == None
  {
    hide Tokens, IsWord, FieldSet, MonthText, WeekdayText, MonthBits, WeekdayBits, QuestionIsStar, Five;
    LastToken(w);
    FirstToken(mo, w);
    FirstToken(d, mo + " " + w);
    FirstToken(h, d + " " + (mo + " " + w));
    FiveTokens(mi, h, d, mo, w);
    FirstToken(s, Five(mi, h, d, mo, w));
    FirstToken(x, Six(s, mi, h, d, mo, w));
  }

  /** `mi h d mo *`: every weekday. */
  lemma FourNumbers(mi: string, h: string, d: string, mo: string)
    requires IsNumber(mi) && IsNumber(h) && IsNumber(d) && IsNumber(mo) && |Five(mi, h, d, mo, "*")| < 256
    requires InFields(Number(mi), Number(h), Number(d), Number(mo), 0)
    ensures Compiled(Five(mi, h, d, mo, "*"))
         == Some(Expr({0}, {Number(mi)}, {Number(h)}, {Number(d)}, {Number(mo) - 1}, EVERY_WEEKDAY))
  {
    hide Number, Tokens, FieldSet, MonthText, WeekdayText, IsDigit, Five, MonthBits, WeekdayBits, Written;
    NumberIsWord(mi);
    NumberIsWord(h);
    NumberIsWord(d);
    NumberIsWord(mo);
    FiveTokens(mi, h, d, mo, "*");
    OneNumber(mi, 0, 60);
    OneNumber(h, 0, 24);
    OneNumber(d, 1, 32);
    OneNumber(mo, 1, 13);
    NumbersAreKept(mo);
    StarText();
    StarIsAll(0, 8);
    OneMonth(Number(mo));
    AllWeekdayBits(FieldSet("*", 0, 8).1);
  }

  // Literal texts

  lemma TwoDigits(s: string)
    requires |s| == 2 && IsDigit(s[0]) && IsDigit(s[1])
    ensures IsNumber(s) && Number(s) == (s[0] as int - 48) * 10 + (s[1] as int - 48)
  {
    assert s == [s[0], s[1]] && s[..1] == [s[0]];
    OneDigit(s[..1]);
  }

  lemma OneDigit(s: string)
    requires |s| == 1 && IsDigit(s[0])
    ensures IsNumber(s) && Number(s) == s[0] as int - 48
  {
    assert s == [s[0]] && s[..0] == "";
    assert Number("") == 0;
  }

  /** `0 0 29 2 *` and `0 0 30 2 *`. */
  lemma FebruaryTexts()
    ensures Compiled("0 0 29 2 *") == Some(Expr({0}, {0}, {0}, {29}, {1}, EVERY_WEEKDAY))
    ensures Compiled("0 0 30 2 *") == Some(Expr({0}, {0}, {0}, {30}, {1}, EVERY_WEEKDAY))
  {
    hide Compiled, Number;
    OneDigit("0");
    OneDigit("2");
    TwoDigits("29");
    TwoDigits("30");
    FourNumbers("0", "0", "29", "2");
    FourNumbers("0", "0", "30", "2");
    assert Five("0", "0", "29", "2", "*") == "0 0 29 2 *" && Five("0", "0", "30", "2", "*") == "0 0 30 2 *";
  }

  /** `15 30 2 4 6 1`, and `0 0 1 jun FRI` with names. */
  lemma OtherTexts()
    ensures Compiled("15 30 2 4 6 1") == Some(Expr({15}, {30}, {2}, {4}, {5}, {1}))
    ensures Compiled("0 0 1 jun FRI") == Some(Expr({0}, {0}, {0}, {1}, {5}, {5}))
  {
    hide Compiled, Number, MonthText, WeekdayText;
    OneDigit("0");
    OneDigit("1");
    OneDigit("2");
    OneDigit("4");
    OneDigit("5");
    OneDigit("6");
    TwoDigits("15");
    TwoDigits("30");
    NumbersAreWritten("30", "2", "4", "6", "1");
    SixFields("15", "30", "2", "4", "6", "1");
    assert Six("15", "30", "2", "4", "6", "1") == "15 30 2 4 6 1";
    MonthNames();
    DayNames();
    assert IsWord("jun") && IsWord("FRI") && Written("0", "0", "1", "jun", "FRI");
    FiveFields("0", "0", "1", "jun", "FRI");
    assert Five("0", "0", "1", "jun", "FRI") == "0 0 1 jun FRI";
  }
}
