/** The compiler from cron strings to masks. */
module CronParse {
  import Gregorian
  import opened Options
  import opened BitSets
  import opened CronSearch
  import opened CronEngine

  // Splitting

  const MAX_STR_LEN_TO_SPLIT := 256

  /** `isspace` in the C locale. */
  predicate IsSpace(c: char) {
    c == ' ' || '\t' <= c <= '\r'
  }

  /** `s` without its white space. */
  function Stripped(s: string): string {
    if s == [] then []
    else if IsSpace(s[0]) then Stripped(s[1..])
    else [s[0]] + Stripped(s[1..])
  }

  function NonEmpty(s: string): seq<string> {
    if s == [] then [] else [s]
  }

  /** The tokens of `s`: its delimiter-separated pieces, without white space, without the empty ones.
      The text `pending` is the part of the current piece already read. */
  function TokensFrom(s: string, del: char, pending: string): seq<string> {
    if s == [] then NonEmpty(pending)
    else if s[0] == del then NonEmpty(pending) + TokensFrom(s[1..], del, "")
    else TokensFrom(s[1..], del, if IsSpace(s[0]) then pending else pending + [s[0]])
  }

  function Tokens(s: string, del: char): seq<string> {
    TokensFrom(s, del, "")
  }

  /** The pieces between the delimiters: always one more than there are delimiters. */
  function Pieces(s: string, del: char): (r: seq<string>)
    ensures |r| > 0
  {
    if s == [] then [""]
    else if s[0] == del then [""] + Pieces(s[1..], del)
    else
      var rest := Pieces(s[1..], del);
      [[s[0]] + rest[0]] + rest[1..]
  }

  function StrippedNonEmpty(ps: seq<string>): seq<string> {
    if ps == [] then [] else NonEmpty(Stripped(ps[0])) + StrippedNonEmpty(ps[1..])
  }

  /** The tokens are exactly the non-empty pieces with their white space removed; none is empty, and none
      holds white space or the delimiter. */
  lemma TokensArePieces(s: string, del: char)
    ensures Tokens(s, del) == StrippedNonEmpty(Pieces(s, del))
    ensures forall t <- Tokens(s, del) :: t != "" && forall c <- t :: c != del && !IsSpace(c)
  {
    TokensAreClean(s, del, "");
    TokensFromArePieces(s, del, "");
    var ps := Pieces(s, del);
    assert "" + Stripped(ps[0]) == Stripped(ps[0]);
  }

  lemma {:induction false} TokensFromArePieces(s: string, del: char, pending: string)
    ensures var ps := Pieces(s, del);
            TokensFrom(s, del, pending) == NonEmpty(pending + Stripped(ps[0])) + StrippedNonEmpty(ps[1..])
    decreases |s|
  {
    var ps := Pieces(s, del);
    if s == [] {
      assert pending + Stripped(ps[0]) == pending;
      assert ps[1..] == [];
    } else if s[0] == del {
      var rest := Pieces(s[1..], del);
      TokensFromArePieces(s[1..], del, "");
      assert ps[0] == "" && ps[1..] == rest;
      assert pending + Stripped(ps[0]) == pending;
      assert "" + Stripped(rest[0]) == Stripped(rest[0]);
    } else {
      var rest := Pieces(s[1..], del);
      var next := if IsSpace(s[0]) then pending else pending + [s[0]];
      TokensFromArePieces(s[1..], del, next);
      assert ps[0] == [s[0]] + rest[0] && ps[1..] == rest[1..];
      assert ps[0][1..] == rest[0];
      assert pending + Stripped(ps[0]) == next + Stripped(rest[0]);
    }
  }

  /** Tokens hold neither the delimiter nor white space, and none is empty. */
  lemma {:induction false} TokensAreClean(s: string, del: char, pending: string)
    requires forall c <- pending :: c != del && !IsSpace(c)
    ensures forall t <- TokensFrom(s, del, pending) :: t != "" && forall c <- t :: c != del && !IsSpace(c)
    decreases |s|
  {
    if s != [] {
      if s[0] == del {
        TokensAreClean(s[1..], del, "");
      } else {
        TokensAreClean(s[1..], del, if IsSpace(s[0]) then pending else pending + [s[0]]);
      }
    }
  }

  lemma {:induction false} TokensCount(s: string, del: char, p: string, q: string)
    requires p == [] <==> q == []
    ensures |TokensFrom(s, del, p)| == |TokensFrom(s, del, q)|
    decreases |s|
  {
    if s != [] && s[0] != del {
      TokensCount(s[1..], del, if IsSpace(s[0]) then p else p + [s[0]], if IsSpace(s[0]) then q else q + [s[0]]);
    }
  }

  lemma SuffixStep(s: string, i: nat)
    requires i < |s|
    ensures s[i..] != [] && s[i..][0] == s[i] && s[i..][1..] == s[i + 1..]
  {
  }

  /** The first pass of `dcmCronParseStrSplit`: it counts the tokens. */
  method CountTokens(str: string, del: char) returns (len: int)
    ensures len == |Tokens(str, del)|
  {
    assert str[0..] == str;
    len := 0;
    var accum := 0;
    for i := 0 to |str|
      invariant 0 <= accum <= i && 0 <= len
      invariant |Tokens(str, del)| == len + |TokensFrom(str[i..], del, seq(accum, _ => 'x'))|
    {
      SuffixStep(str, i);
      if del == str[i] {
        if accum > 0 {
          len, accum := len + 1, 0;
        }
        TokensCount(str[i + 1..], del, seq(accum, _ => 'x'), "");
      } else if !IsSpace(str[i]) {
        TokensCount(str[i + 1..], del, seq(accum, _ => 'x') + [str[i]], seq(accum + 1, _ => 'x'));
        accum := accum + 1;
      }
    }
    if accum > 0 {
      len := len + 1;
    }
  }

  /** `dcmCronParseStrSplit`: the second pass stores as many tokens as the first counted. */
  method StrSplit(str: string, del: char) returns (res: array?<string>, len: int)
    ensures |str| >= MAX_STR_LEN_TO_SPLIT || Tokens(str, del) == [] ==> res == null && len == 0
    ensures |str| < MAX_STR_LEN_TO_SPLIT && Tokens(str, del) != [] ==>
              res != null && fresh(res) && res[..] == Tokens(str, del) && len == |Tokens(str, del)|
  {
    hide Tokens;
    var stlen := |str|;
    if stlen >= MAX_STR_LEN_TO_SPLIT {
      return null, 0;
    }
    len := CountTokens(str, del);
    if len == 0 {
      return null, 0;
    }

    ghost var all := Tokens(str, del);
    var buf := new char[stlen + 1](_ => '\0');
    var bi, ri := 0, 0;
    res := new string[len](_ => "");
    NothingRead(str, del);
    for i := 0 to stlen
      invariant fresh(res) && fresh(buf) && buf.Length == stlen + 1 && res.Length == len
      invariant 0 <= bi <= i && 0 <= ri <= len
      invariant all == res[..ri] + TokensFrom(str[i..], del, buf[..bi])
    {
      SuffixStep(str, i);
      if del == str[i] {
        if bi > 0 {
          ghost var rest := TokensFrom(str[i + 1..], del, "");
          assert all == res[..ri] + ([buf[..bi]] + rest);
          res[ri] := buf[..bi];
          ri, bi := ri + 1, 0;
          assert all == res[..ri] + rest;
        }
        assert buf[..0] == "";
      } else if !IsSpace(str[i]) {
        ghost var was := buf[..bi];
        buf[bi] := str[i];
        bi := bi + 1;
        assert buf[..bi] == was + [str[i]];
      }
    }
    if bi > 0 {
      assert TokensFrom(str[stlen..], del, buf[..bi]) == [buf[..bi]];
      res[ri] := buf[..bi];
      ri := ri + 1;
    }
    assert res[..ri] == all;
    assert res[..] == res[..ri];
  }

  lemma NothingRead(str: string, del: char)
    ensures Tokens(str, del) == [] + TokensFrom(str[0..], del, "")
  {
    assert str[0..] == str;
  }

  // Numbers and ranges

  const INT_MAX := 0x7fff_ffff

  predicate IsDigit(c: char) {
    48 <= c as int <= 57
  }

  function DigitsValue(s: string, value: int): Option<int> {
    if s == [] then Some(value)
    else if IsDigit(s[0]) then DigitsValue(s[1..], value * 10 + (s[0] as int - 48))
    else None
  }

  function SkipSpace(s: string): string {
    if s != [] && IsSpace(s[0]) then SkipSpace(s[1..]) else s
  }

  /** `dcmCronParseParseUint`: what `strtol` reads in base 10, if it reads the whole text and the number is in
      0..INT_MAX. The empty text reads as 0. */
  function ParseUint(s: string): (r: Option<int>)
    ensures r.Some? ==> 0 <= r.value <= INT_MAX
  {
    var t := SkipSpace(s);
    var negative := t != [] && t[0] == '-';
    var digits := if t != [] && (t[0] == '-' || t[0] == '+') then t[1..] else t;
    if s == [] then Some(0)
    else if digits == [] then None
    else
      match DigitsValue(digits, 0)
      case None => None
      case Some(n) =>
        var l := if negative then -n else n;
        if 0 <= l <= INT_MAX then Some(l) else None
  }

  function Bounded(lo: int, hi: int, min: int, max: int): Option<(int, int)> {
    if min <= lo <= hi < max then Some((lo, hi)) else None
  }

  /** The bounds that `*`, `a` or `a-b` denotes. */
  function RangeOf(field: string, min: int, max: int): (r: Option<(int, int)>)
    ensures r.Some? ==> min <= r.value.0 <= r.value.1 < max
  {
    if field == "*" then Bounded(min, max - 1, min, max)
    else if '-' !in field then
      match ParseUint(field)
      case None => None
      case Some(v) => Bounded(v, v, min, max)
    else
      var parts := Tokens(field, '-');
      if |parts| != 2 || ParseUint(parts[0]).None? || ParseUint(parts[1]).None? then None
      else Bounded(ParseUint(parts[0]).value, ParseUint(parts[1]).value, min, max)
  }

  /** `dcmCronParseGetRange` */
  method GetRange(field: string, min: int, max: int) returns (ret: int, lo: int, hi: int)
    requires |field| < MAX_STR_LEN_TO_SPLIT
    ensures var r := RangeOf(field, min, max);
            if r.Some? then ret == 0 && (lo, hi) == r.value else ret == -1
  {
    ret, lo, hi := 0, 0, 0;
    if |field| == 1 && '*' == field[0] {
      lo, hi := min, max - 1;
    } else if '-' !in field {
      var val := ParseUint(field);
      if val.None? { return -1, 0, 0; }
      lo, hi := val.value, val.value;
    } else {
      var parts, len := StrSplit(field, '-');
      if 2 != len { return -1, 0, 0; }
      var val := ParseUint(parts[0]);
      if val.None? { return -1, 0, 0; }
      lo := val.value;
      val := ParseUint(parts[1]);
      if val.None? { return -1, 0, 0; }
      hi := val.value;
    }
    if lo >= max || hi >= max { return -1, 0, 0; }
    if lo < min || hi < min { return -1, 0, 0; }
    if lo > hi { return -1, 0, 0; }
  }

  // Fields

  /** Bounds and step of one comma part; `a/step` runs to the end of the field. */
  function PartOf(part: string, min: int, max: int): (r: Option<(int, int, int)>)
    ensures r.Some? ==> min <= r.value.0 <= r.value.1 < max && 0 < r.value.2 <= INT_MAX
  {
    if '/' !in part then
      match RangeOf(part, min, max)
      case None => None
      case Some((lo, hi)) => Some((lo, hi, 1))
    else
      var halves := Tokens(part, '/');
      if |halves| != 2 || RangeOf(halves[0], min, max).None? then None
      else if ParseUint(halves[1]).None? || ParseUint(halves[1]).value == 0 then None
      else
        var (lo, hi) := RangeOf(halves[0], min, max).value;
        Some((lo, if '-' in halves[0] then hi else max - 1, ParseUint(halves[1]).value))
  }

  predicate InStep(i: int, lo: int, step: int)
    requires step > 0
  {
    (i - lo) % step == 0
  }

  /** `lo`, `lo + step`, ... up to `hi`. */
  function Every(lo: int, hi: int, step: int): set<int>
    requires step > 0
  {
    set i | lo <= i <= hi && InStep(i, lo, step)
  }

  /** The values a list of parts denotes, up to the first part that is rejected; and whether none is. */
  function PartsSet(parts: seq<string>, min: int, max: int): (bool, set<int>) {
    if parts == [] then (true, {})
    else
      match PartOf(parts[0], min, max)
      case None => (false, {})
      case Some((lo, hi, step)) =>
        var (ok, rest) := PartsSet(parts[1..], min, max);
        (ok, Every(lo, hi, step) + rest)
  }

  /** The values of a whole field; a field without any part, or too long to split, is rejected. */
  function FieldSet(value: string, min: int, max: int): (bool, set<int>) {
    var parts := Tokens(value, ',');
    if |value| >= MAX_STR_LEN_TO_SPLIT || parts == [] then (false, {}) else PartsSet(parts, min, max)
  }

  lemma {:induction false} PartsSetPrefix(parts: seq<string>, min: int, max: int, i: nat)
    requires i < |parts| && PartsSet(parts[..i], min, max).0
    ensures var before := PartsSet(parts[..i], min, max).1;
            match PartOf(parts[i], min, max)
            case None => PartsSet(parts, min, max) == (false, before)
            case Some((lo, hi, step)) => PartsSet(parts[..i + 1], min, max) == (true, before + Every(lo, hi, step))
    decreases i
  {
    hide PartOf, Every;
    if i == 0 {
      assert parts[..0] == [] && parts[..1] == [parts[0]] && [parts[0]][1..] == [];
      var part := PartOf(parts[0], min, max);
      if part.Some? {
        var all := Every(part.value.0, part.value.1, part.value.2);
        assert all + {} == {} + all;
      }
    } else {
      var (lo, hi, step) := PartOf(parts[0], min, max).value;
      assert parts[..i][0] == parts[0] == parts[..i + 1][0];
      assert parts[1..][..i - 1] == parts[..i][1..] && parts[1..][..i] == parts[..i + 1][1..];
      PartsSetPrefix(parts[1..], min, max, i - 1);
      var before := PartsSet(parts[1..][..i - 1], min, max).1;
      var part := PartOf(parts[i], min, max);
      if part.Some? {
        var last := Every(part.value.0, part.value.1, part.value.2);
        assert Every(lo, hi, step) + (before + last) == Every(lo, hi, step) + before + last;
      }
    }
  }

  /** The loop that sets `lo`, `lo + delta`, ... up to `hi`; the 32-bit index never wraps. */
  method SetEvery(target: array<bv8>, lo: int, hi: int, delta: int)
    requires 0 <= lo && hi < 8 * target.Length && hi < 256 && 0 < delta <= INT_MAX
    modifies target
    ensures BitSet(target[..]) == BitSet(old(target[..])) + Every(lo, hi, delta)
  {
    hide BitSet;
    var i := lo;
    ghost var k := 0;
    while i <= hi
      invariant 0 <= k && i == lo + k * delta
      invariant BitSet(target[..]) == BitSet(old(target[..])) + Every(lo, if i - 1 <= hi then i - 1 else hi, delta)
      decreases hi + 1 - i
    {
      NextOfEvery(lo, hi, delta, k);
      SetBit(target, i);
      assert i + delta < 0x1_0000_0000;
      i := i + delta;
      k := k + 1;
    }
  }

  lemma NextOfEvery(lo: int, hi: int, delta: int, k: nat)
    requires 0 < delta
    ensures lo + (k + 1) * delta == lo + k * delta + delta
    ensures var i := lo + k * delta;
            i <= hi ==>
              var j := i + delta;
              Every(lo, if j - 1 <= hi then j - 1 else hi, delta) == Every(lo, i - 1, delta) + {i}
  {
    hide InStep;
    var i := lo + k * delta;
    assert (k + 1) * delta == k * delta + delta;
    assert 0 <= k * delta;
    forall x | lo <= x < i + delta
      ensures InStep(x, lo, delta) && x >= i <==> x == i
    {
      MultipleBetween(delta, k, x, lo);
    }
  }

  lemma MultipleBetween(d: int, k: int, x: int, lo: int)
    requires 0 < d && x - lo < k * d + d
    ensures InStep(x, lo, d) && lo + k * d <= x <==> x == lo + k * d
  {
    var y := x - lo;
    var q := y / d;
    assert y == d * q + y % d;
    if y == k * d {
      assert d * (k - q) == y % d;
      Gregorian.SmallMultiple(d, k - q);
    } else if y % d == 0 && k * d <= y {
      assert d * (q - k) == y - k * d;
      Gregorian.SmallMultiple(d, q - k);
    }
  }

  /** `dcmCronParseSetNumberHits`. A rejected field leaves the bits of the parts before the rejected one. */
  method SetNumberHits(value: string, target: array<bv8>, min: int, max: int) returns (ret: int)
    requires 0 <= min < max <= 8 * target.Length && max <= 256
    modifies target
    ensures ret == if FieldSet(value, min, max).0 then 0 else -1
    ensures BitSet(target[..]) == BitSet(old(target[..])) + FieldSet(value, min, max).1
  {
    hide BitSet, Every, PartOf;
    ret := 0;
    var fields, len := StrSplit(value, ',');
    if fields == null {
      return -1;
    }
    ghost var parts := Tokens(value, ',');
    TokensAreShort(value, ',', "");
    assert parts[..0] == [];
    for i := 0 to len
      invariant ret == 0 && fields[..] == parts && PartsSet(parts[..i], min, max).0
      invariant BitSet(target[..]) == BitSet(old(target[..])) + PartsSet(parts[..i], min, max).1
    {
      PartsSetPrefix(parts, min, max, i);
      var lo, hi, delta := SetPart(fields[i], min, max);
      if delta == 0 {
        return -1;
      }
      SetEvery(target, lo, hi, delta);
    }
    assert parts[..len] == parts;
  }

  /** The part of the loop of `dcmCronParseSetNumberHits` that reads one comma part; `delta == 0` rejects it. */
  method SetPart(part: string, min: int, max: int) returns (lo: int, hi: int, delta: int)
    requires |part| < MAX_STR_LEN_TO_SPLIT
    ensures var r := PartOf(part, min, max);
            if r.Some? then (lo, hi, delta) == r.value else delta == 0
  {
    var ret;
    if '/' !in part {
      ret, lo, hi := GetRange(part, min, max);
      delta := if ret == 0 then 1 else 0;
    } else {
      var split, len2 := StrSplit(part, '/');
      if 2 != len2 { return 0, 0, 0; }
      TokensAreShort(part, '/', "");
      ret, lo, hi := GetRange(split[0], min, max);
      if ret != 0 { return 0, 0, 0; }
      if '-' !in split[0] {
        hi := max - 1;
      }
      var d := ParseUint(split[1]);
      delta := if d.None? then 0 else d.value;
    }
  }

  lemma {:induction false} TokensAreShort(s: string, del: char, pending: string)
    ensures forall t <- TokensFrom(s, del, pending) :: |t| <= |s| + |pending|
    decreases |s|
  {
    if s != [] {
      if s[0] == del {
        TokensAreShort(s[1..], del, "");
      } else {
        TokensAreShort(s[1..], del, if IsSpace(s[0]) then pending else pending + [s[0]]);
      }
    }
  }

  // Names

  const DAYS_ARR := ["SUN", "MON", "TUE", "WED", "THU", "FRI", "SAT"]
  const MONTHS_ARR := ["FOO", "JAN", "FEB", "MAR", "APR", "MAY", "JUN", "JUL", "AUG", "SEP", "OCT", "NOV", "DEC"]
  const ORDINALS := ["0", "1", "2", "3", "4", "5", "6", "7", "8", "9", "10", "11", "12"]

  function Upper(s: string): string {
    if s == [] then [] else [if 'a' <= s[0] <= 'z' then s[0] - 'a' + 'A' else s[0]] + Upper(s[1..])
  }

  /** `dcmCronParseStrReplace`: every occurrence of `rep`, from the left, without overlaps. */
  function ReplaceAll(s: string, rep: string, with: string): string
    requires rep != ""
  {
    if s == [] then []
    else if rep <= s then with + ReplaceAll(s[|rep|..], rep, with)
    else [s[0]] + ReplaceAll(s[1..], rep, with)
  }

  /** `dcmCronParseReplaceOrdinals` from name `i` on. */
  function ReplaceOrdinals(s: string, names: seq<string>, i: nat): string
    requires i <= |names| <= |ORDINALS| && forall k :: 0 <= k < |names| ==> names[k] != ""
    decreases |names| - i
  {
    if i == |names| then s
    else ReplaceOrdinals(ReplaceAll(s, names[i], ORDINALS[i]), names, i + 1)
  }

  function MonthText(value: string): string {
    ReplaceOrdinals(Upper(value), MONTHS_ARR, 0)
  }

  function QuestionIsStar(field: string): string {
    if field == "?" then "*" else field
  }

  function WeekdayText(field: string): string {
    ReplaceOrdinals(Upper(QuestionIsStar(field)), DAYS_ARR, 0)
  }

  // The whole expression

  /** Month `m + 1` of the text is month `m` of the mask. */
  function MonthBits(raw: set<int>): set<int> {
    set m <- raw | 1 <= m <= 12 :: m - 1
  }

  /** Sunday may be written 0 or 7. */
  function WeekdayBits(raw: set<int>): set<int> {
    if 7 in raw then raw + {0} - {7} else raw
  }

  /** The months mask after the months before `i` have been moved down by one. */
  function PartlyMoved(raw: set<int>, i: int): set<int> {
    (set x <- raw | i <= x) + (set x <- raw | 1 <= x < i :: x - 1)
  }

  lemma MoveOne(raw: set<int>, i: int)
    requires 1 <= i
    ensures i in PartlyMoved(raw, i) <==> i in raw
    ensures PartlyMoved(raw, i + 1)
         == if i in raw then PartlyMoved(raw, i) + {i - 1} - {i} else PartlyMoved(raw, i)
  {
    var moved := set x <- raw | 1 <= x < i :: x - 1;
    var more := set x <- raw | 1 <= x < i + 1 :: x - 1;
    assert i in raw ==> i - 1 in more;
    assert more == moved + (if i in raw then {i - 1} else {});
    assert forall y <- moved :: y < i - 1;
  }

  lemma MovedAll(raw: set<int>)
    requires forall x <- raw :: 1 <= x < 13
    ensures PartlyMoved(raw, 1) == raw && PartlyMoved(raw, 13) == MonthBits(raw)
  {
  }

  /** `dcmCronParseSetMonths` on a cleared mask: the bits move down by one in place. */
  method SetMonths(value: string, targ: array<bv8>) returns (ret: int)
    requires targ.Length == 2 && BitSet(targ[..]) == {}
    modifies targ
    ensures var r := FieldSet(MonthText(value), 1, 13);
            ret == (if r.0 then 0 else -1) && BitSet(targ[..]) == MonthBits(r.1)
  {
    hide BitSet, GetBit, Bit, FieldSet, PartlyMoved, MonthText;
    var max := 12;
    var replaced := MonthText(value);
    ret := SetNumberHits(replaced, targ, 1, max + 1);
    ghost var raw := FieldSet(replaced, 1, 13).1;
    FieldIsWithin(replaced, 1, 13);
    MovedAll(raw);
    for i := 1 to max + 1
      invariant BitSet(targ[..]) == PartlyMoved(raw, i)
    {
      MoveOne(raw, i);
      if GetBit(targ, i) {
        SetBit(targ, i - 1);
        DelBit(targ, i);
      }
    }
  }

  /** `dcmCronParseSetDaysOfWeek` on a cleared mask */
  method SetDaysOfWeek(field: string, targ: array<bv8>) returns (ret: int)
    requires targ.Length == 1 && BitSet(targ[..]) == {}
    modifies targ
    ensures var r := FieldSet(WeekdayText(field), 0, 8);
            ret == (if r.0 then 0 else -1) && BitSet(targ[..]) == WeekdayBits(r.1)
  {
    hide BitSet, GetBit, Bit, FieldSet;
    var max := 7;
    var replaced := WeekdayText(field);
    ret := SetNumberHits(replaced, targ, 0, max + 1);
    if GetBit(targ, 7) {
      SetBit(targ, 0);
      DelBit(targ, 7);
    }
  }

  /** `dcmCronParseSetDaysOfMonth` on a cleared mask */
  method SetDaysOfMonth(field: string, targ: array<bv8>) returns (ret: int)
    requires targ.Length == 4 && BitSet(targ[..]) == {}
    modifies targ
    ensures var r := FieldSet(QuestionIsStar(field), 1, 32);
            ret == (if r.0 then 0 else -1) && BitSet(targ[..]) == r.1
  {
    hide BitSet, FieldSet;
    ret := SetNumberHits(QuestionIsStar(field), targ, 1, 32);
  }

  lemma {:induction false} PartsAreWithin(parts: seq<string>, min: int, max: int)
    ensures var r := PartsSet(parts, min, max);
            (forall x <- r.1 :: min <= x < max) && (r.0 && parts != [] ==> r.1 != {})
    decreases |parts|
  {
    hide PartOf, InStep;
    if parts != [] {
      PartsAreWithin(parts[1..], min, max);
      var p := PartOf(parts[0], min, max);
      if p.Some? {
        var (lo, hi, step) := p.value;
        assert lo in Every(lo, hi, step) by { FirstInStep(lo, step); }
      }
    }
  }

  lemma FirstInStep(lo: int, step: int)
    requires step > 0
    ensures InStep(lo, lo, step)
  {
  }

  /** Every bit of a field lies in its bounds, and an accepted field has one. */
  lemma FieldIsWithin(value: string, min: int, max: int)
    ensures var r := FieldSet(value, min, max);
            (forall x <- r.1 :: min <= x < max) && (r.0 ==> r.1 != {})
  {
    hide PartsSet;
    PartsAreWithin(Tokens(value, ','), min, max);
  }

  /** The masks an expression compiles to, or none when it is rejected. */
  function Compiled(expression: string): Option<Expr> {
    var fields := Tokens(expression, ' ');
    if |expression| >= MAX_STR_LEN_TO_SPLIT || |fields| < 5 || |fields| > 6 then None
    else
      var i := |fields| - 5;
      var seconds := if i == 1 then FieldSet(fields[0], 0, 60) else (true, {0});
      var minutes := FieldSet(fields[i], 0, 60);
      var hours := FieldSet(fields[i + 1], 0, 24);
      var daysOfMonth := FieldSet(QuestionIsStar(fields[i + 2]), 1, 32);
      var months := FieldSet(MonthText(fields[i + 3]), 1, 13);
      var daysOfWeek := FieldSet(WeekdayText(fields[i + 4]), 0, 8);
      if seconds.0 && minutes.0 && hours.0 && daysOfMonth.0 && months.0 && daysOfWeek.0 then
        Some(Expr(seconds.1, minutes.1, hours.1, daysOfMonth.1, MonthBits(months.1), WeekdayBits(daysOfWeek.1)))
      else None
  }

  /** Every compiled expression has six non-empty masks within their bounds. */
  lemma CompiledIsAccepted(expression: string)
    requires Compiled(expression).Some?
    ensures Accepted(Compiled(expression).value)
  {
    hide FieldSet, Tokens, MonthText, WeekdayText, QuestionIsStar;
    var fields := Tokens(expression, ' ');
    var i := |fields| - 5;
    FieldIsWithin(fields[0], 0, 60);
    FieldIsWithin(fields[i], 0, 60);
    FieldIsWithin(fields[i + 1], 0, 24);
    FieldIsWithin(QuestionIsStar(fields[i + 2]), 1, 32);
    FieldIsWithin(MonthText(fields[i + 3]), 1, 13);
    FieldIsWithin(WeekdayText(fields[i + 4]), 0, 8);
    MonthBitsFacts(FieldSet(MonthText(fields[i + 3]), 1, 13).1);
    WeekdayBitsFacts(FieldSet(WeekdayText(fields[i + 4]), 0, 8).1);
  }

  lemma MonthBitsFacts(raw: set<int>)
    requires Within(raw, 1, 13)
    ensures Within(MonthBits(raw), 0, 12)
    ensures forall m :: m in MonthBits(raw) <==> m + 1 in raw
  {
    Inhabited(raw);
    var x :| x in raw;
    assert x - 1 in MonthBits(raw);
    forall m | m + 1 in raw
      ensures m in MonthBits(raw)
    {
      assert m == (m + 1) - 1;
    }
  }

  lemma WeekdayBitsFacts(raw: set<int>)
    requires Within(raw, 0, 8)
    ensures Within(WeekdayBits(raw), 0, 7)
    ensures forall w :: 0 <= w < 7 ==> (w in WeekdayBits(raw) <==> w in raw || (w == 0 && 7 in raw))
  {
    Inhabited(raw);
    var x :| x in raw;
    assert if x == 7 then 0 in WeekdayBits(raw) else x in WeekdayBits(raw);
  }

  /** `memset` of one mask */
  method Clear(target: array<bv8>)
    modifies target
    ensures BitSet(target[..]) == {}
  {
    forall i | 0 <= i < target.Length {
      target[i] := 0;
    }
    forall i | 0 <= i < 8 * target.Length
      ensures !Bit(target[..], i)
    {
      NoBit(i % 8);
    }
  }

  lemma NoBit(k: int)
    requires 0 <= k < 8
    ensures 0 as bv8 & BitAt(k) == 0
  {
  }

  /** `dcmCronParseExp`. A rejected expression leaves masks behind that are compiled in part. */
  method ParseExp(expression: string, target: CronExpr) returns (ret: int)
    requires target.Shape()
    modifies target.seconds, target.minutes, target.hours, target.daysOfMonth, target.months, target.daysOfWeek
    ensures ret == if Compiled(expression).Some? then 0 else -1
    ensures ret == 0 ==> target.Masks() == Compiled(expression).value && Accepted(target.Masks())
  {
    hide BitSet, FieldSet, Tokens, MonthText, WeekdayText, QuestionIsStar, MonthBits, WeekdayBits, Bit, Accepted;
    var fields, len := StrSplit(expression, ' ');
    if len < 5 || len > 6 {
      return -1;
    }
    Clear(target.seconds);
    Clear(target.minutes);
    Clear(target.hours);
    Clear(target.daysOfMonth);
    Clear(target.months);
    Clear(target.daysOfWeek);

    var i := 0;
    if len == 6 {
      ret := SetNumberHits(fields[0], target.seconds, 0, 60);
      if ret != 0 { return; }
      i := 1;
    } else {
      SetBit(target.seconds, 0);
    }
    ret := SetNumberHits(fields[i], target.minutes, 0, 60);
    if ret != 0 { return; }
    ret := SetNumberHits(fields[i + 1], target.hours, 0, 24);
    if ret != 0 { return; }
    ret := SetDaysOfMonth(fields[i + 2], target.daysOfMonth);
    if ret != 0 { return; }
    ret := SetMonths(fields[i + 3], target.months);
    if ret != 0 { return; }
    ret := SetDaysOfWeek(fields[i + 4], target.daysOfWeek);
    if ret != 0 { return; }
    CompiledIsAccepted(expression);
  }
}
