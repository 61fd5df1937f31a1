/** The timestamp prefix of the log files: put in front of every name before the logs are archived, and cut
    off again afterwards. */
module Timestamps {
  import opened Options
  import opened FileSystems

  // The stamp

  function Digit(d: nat): char
    requires d < 10
  {
    '0' + d as char
  }

  function Two(n: nat): string
    requires n < 100
  {
    [Digit(n / 10), Digit(n % 10)]
  }

  /** `%m-%d-%y-%I-%M%p-` */
  function Stamp(month: nat, day: nat, year: nat, hour: nat, minute: nat): string
    requires month < 100 && day < 100 && year < 100 && hour < 24 && minute < 100
  {
    Two(month) + "-" + Two(day) + "-" + Two(year) + "-" + Two(if hour % 12 == 0 then 12 else hour % 12)
    + "-" + Two(minute) + (if hour < 12 then "AM-" else "PM-")
  }

  predicate IsDigit(c: char) {
    '0' <= c <= '9'
  }

  predicate IsStamp(t: string) {
    && |t| == 17
    && t[2] == '-' && t[5] == '-' && t[8] == '-' && t[11] == '-'
    && (forall i :: 0 <= i < 14 && i % 3 != 2 ==> IsDigit(t[i]))
    && (t[14] == 'A' || t[14] == 'P') && t[15] == 'M' && t[16] == '-'
  }

  lemma StampIsStamp(month: nat, day: nat, year: nat, hour: nat, minute: nat)
    requires month < 100 && day < 100 && year < 100 && hour < 24 && minute < 100
    ensures IsStamp(Stamp(month, day, year, hour, minute))
  {
    hide Digit;
    assert forall d: nat :: d < 10 ==> IsDigit(Digit(d)) by {
      DigitsAreDigits();
    }
  }

  lemma DigitsAreDigits()
    ensures forall d: nat :: d < 10 ==> IsDigit(Digit(d))
  {
  }

  /** The number that two digits write. */
  function TwoAt(t: string, i: nat): int
    requires i + 1 < |t|
  {
    (t[i] as int - 48) * 10 + (t[i + 1] as int - 48)
  }

  /** A stamp says month, day, year, hour on a clock of twelve, minute and half of the day, in this order. */
  lemma StampSays(month: nat, day: nat, year: nat, hour: nat, minute: nat)
    requires month < 100 && day < 100 && year < 100 && hour < 24 && minute < 100
    ensures var t := Stamp(month, day, year, hour, minute);
            && |t| == 17 && TwoAt(t, 0) == month && TwoAt(t, 3) == day && TwoAt(t, 6) == year
            && 1 <= TwoAt(t, 9) <= 12 && TwoAt(t, 9) % 12 == hour % 12 && TwoAt(t, 12) == minute
            && t[14..] == (if hour < 12 then "AM-" else "PM-")
  {
    hide Digit;
    forall d: nat | d < 10
      ensures Digit(d) as int - 48 == d
    {
      DigitIs(d);
    }
  }

  lemma DigitIs(d: nat)
    requires d < 10
    ensures Digit(d) as int == 48 + d
  {
  }

  // Which names are stamped, and what is cut off

  predicate Eligible(name: string, stamp: string) {
    !("." <= name) && !(stamp <= name) && !("bak1_" <= name) && !("bak2_" <= name) && !("bak3_" <= name)
  }

  /** `strstr` */
  function IndexOf(s: string, pattern: string): (r: Option<nat>)
    ensures r.Some? ==> r.value <= |s| && pattern <= s[r.value..]
                        && forall i: nat :: i < r.value ==> !(pattern <= s[i..])
    ensures r.None? ==> forall i: nat :: i <= |s| ==> !(pattern <= s[i..])
  {
    if pattern <= s then Some(0)
    else if s == "" then None
    else
      var rest := IndexOf(s[1..], pattern);
      assert forall i: nat :: 0 < i <= |s| ==> s[i..] == s[1..][i - 1..];
      if rest.Some? then Some(rest.value + 1) else None
  }

  /** The length to cut off a name, or 0 when it is left alone: the stored prefix, or else a pattern. */
  function Cut(name: string, prefix: string): (n: nat)
    ensures n == 0 || n < |name|
  {
    if "." <= name then 0
    else if 0 < |prefix| < |name| then if prefix <= name then |prefix| else 0
    else if |name| > 19 && name[2] == '-' && name[5] == '-' && name[8] == '-' && name[11] == '-' then
      var am := IndexOf(name, "AM-");
      var pm := IndexOf(name, "PM-");
      var n := if am.Some? then am.value + 3 else if pm.Some? then pm.value + 3 else 0;
      if n < |name| then n else 0
    else 0
  }

  /** With a stored prefix exactly the longer names that start with it are cut. */
  lemma CutStored(name: string, prefix: string)
    requires IsStamp(prefix)
    ensures Cut(name, prefix) == if prefix <= name && |prefix| < |name| then |prefix| else 0
  {
    assert IsDigit(prefix[0]);
    assert prefix <= name ==> name[0] == prefix[0];
  }

  /** Without a stored prefix the pattern finds a stamp when at least three characters follow it and, after a
      stamp of the afternoon, `AM-` is not among them. */
  lemma CutByPattern(stamp: string, name: string)
    requires IsStamp(stamp)
    ensures Cut(stamp + name, "") == |stamp|
      <==> 3 <= |name| && (stamp[14] == 'A' || IndexOf(name, "AM-").None?)
  {
    hide IndexOf, IsStamp;
    var s := stamp + name;
    StampShape(stamp);
    assert s[0] == stamp[0] && s[2] == s[5] == s[8] == s[11] == '-';
    Letters(stamp, name, "AM-");
    Letters(stamp, name, "PM-");
  }

  lemma StampShape(stamp: string)
    requires IsStamp(stamp)
    ensures |stamp| == 17 && stamp[0] != '.' && stamp[2] == stamp[5] == stamp[8] == stamp[11] == '-'
    ensures stamp[14] == 'A' || stamp[14] == 'P'
  {
    assert IsDigit(stamp[0]);
  }

  /** In front of the name `AM-` and `PM-` are found at one place only. */
  lemma InStamp(stamp: string, name: string, pattern: string, i: nat)
    requires IsStamp(stamp) && (pattern == "AM-" || pattern == "PM-") && i < 17
    ensures pattern <= (stamp + name)[i..] <==> i == 14 && stamp[14] == pattern[0]
  {
    var s := (stamp + name)[i..];
    assert s != "" && s[0] == stamp[i];
    assert i < 14 && i % 3 != 2 ==> IsDigit(stamp[i]);
    if i == 14 {
      assert 3 <= |s| && s[1] == stamp[15] && s[2] == stamp[16];
      assert s[..3] == [stamp[14], stamp[15], stamp[16]];
    }
  }

  lemma FirstIndex(s: string, pattern: string, k: nat)
    requires k <= |s| && pattern <= s[k..] && forall i: nat :: i < k ==> !(pattern <= s[i..])
    ensures IndexOf(s, pattern) == Some(k)
  {
    hide IndexOf;
  }

  lemma NoIndex(s: string, pattern: string)
    requires forall i: nat :: i <= |s| ==> !(pattern <= s[i..])
    ensures IndexOf(s, pattern) == None
  {
    hide IndexOf;
  }

  lemma AfterStamp(stamp: string, name: string, i: nat)
    requires |stamp| <= i <= |stamp| + |name|
    ensures (stamp + name)[i..] == name[i - |stamp|..]
  {
  }

  /** Where a search from the stamp on finds `AM-` or `PM-`. */
  lemma Letters(stamp: string, name: string, pattern: string)
    requires IsStamp(stamp) && (pattern == "AM-" || pattern == "PM-")
    ensures var r := IndexOf(stamp + name, pattern);
            if stamp[14] == pattern[0] then r == Some(14)
            else if IndexOf(name, pattern).Some? then r == Some(17 + IndexOf(name, pattern).value)
            else r == None
  {
    hide IndexOf, IsStamp;
    StampLength(stamp);
    var s := stamp + name;
    var q := IndexOf(name, pattern);
    if stamp[14] == pattern[0] {
      forall i: nat | i <= 14
        ensures pattern <= s[i..] <==> i == 14
      {
        InStamp(stamp, name, pattern, i);
      }
      FirstIndex(s, pattern, 14);
    } else {
      forall i: nat | i <= |s| && (q.Some? ==> i <= 17 + q.value)
        ensures pattern <= s[i..] <==> q.Some? && i == 17 + q.value
      {
        if i < 17 {
          InStamp(stamp, name, pattern, i);
        } else {
          AfterStamp(stamp, name, i);
        }
      }
      if q.Some? {
        FirstIndex(s, pattern, 17 + q.value);
      } else {
        NoIndex(s, pattern);
      }
    }
  }

  lemma StampLength(stamp: string)
    requires IsStamp(stamp)
    ensures |stamp| == 17
  {
  }

  // Directories

  /** An entry carries the stamp in front of something. */
  predicate Carries(f: Files, dir: string, stamp: string, name: string) {
    Path(dir, name) in f && stamp <= name && |stamp| < |name|
  }

  ghost predicate NoneCarries(f: Files, dir: string, stamp: string) {
    forall n: string :: !Carries(f, dir, stamp, n)
  }

  /** The files after every eligible name in `done` got the stamp. */
  function Stamped(f: Files, p: Path, dir: string, stamp: string, done: set<string>): Option<Content> {
    if p.dir == dir && stamp <= p.name && Gets(f, dir, stamp, done, p.name[|stamp|..]) then
      Some(f[Path(dir, p.name[|stamp|..])])
    else if p.dir == dir && Gets(f, dir, stamp, done, p.name) then None
    else Lookup(f, p)
  }

  predicate Gets(f: Files, dir: string, stamp: string, done: set<string>, name: string) {
    name in done && Eligible(name, stamp) && Path(dir, name) in f
  }

  /** The files after every name in `done` that carries the stamp lost it. */
  function Peeled(f: Files, p: Path, dir: string, stamp: string, done: set<string>): Option<Content> {
    if p.dir == dir && stamp + p.name in done && Carries(f, dir, stamp, stamp + p.name) then
      Some(f[Path(dir, stamp + p.name)])
    else if p.dir == dir && p.name in done && Carries(f, dir, stamp, p.name) then None
    else Lookup(f, p)
  }

  ghost predicate AllStamped(f: Files, g: Files, dir: string, stamp: string, done: set<string>) {
    forall p :: Lookup(g, p) == Stamped(f, p, dir, stamp, done)
  }

  ghost predicate AllPeeled(f: Files, g: Files, dir: string, stamp: string, done: set<string>) {
    forall p :: Lookup(g, p) == Peeled(f, p, dir, stamp, done)
  }

  /** No entry carries the stamp twice. */
  ghost predicate NoneTwice(f: Files, dir: string, stamp: string) {
    forall n: string :: stamp <= n ==> !Carries(f, dir, stamp, stamp + n)
  }

  lemma OneStamped(f: Files, g: Files, h: Files, dir: string, stamp: string, done: set<string>, n: string)
    requires AllStamped(f, g, dir, stamp, done) && NoneCarries(f, dir, stamp) && stamp != ""
    requires n !in done && Eligible(n, stamp) && n != "" && Path(dir, n) in g
    requires h == (g - {Path(dir, n)})[Path(dir, stamp + n) := g[Path(dir, n)]]
    ensures AllStamped(f, h, dir, stamp, done + {n}) && Path(dir, n) in f
  {
    hide Eligible;
    var from := Path(dir, n);
    assert !(stamp <= n) by { Starts(n, stamp); }
    assert Lookup(g, from) == Stamped(f, from, dir, stamp, done);
    forall p
      ensures Lookup(h, p) == Stamped(f, p, dir, stamp, done + {n})
    {
      assert Lookup(g, p) == Stamped(f, p, dir, stamp, done);
      if p.dir == dir && stamp <= p.name {
        assert p.name == stamp + p.name[|stamp|..];
        assert !Gets(f, dir, stamp, done + {n}, p.name) by { Starts(p.name, stamp); }
      }
    }
  }

  lemma Starts(name: string, stamp: string)
    ensures Eligible(name, stamp) ==> !(stamp <= name)
  {
  }

  lemma NoneStamped(f: Files, g: Files, dir: string, stamp: string, done: set<string>, n: string)
    requires AllStamped(f, g, dir, stamp, done) && (!Eligible(n, stamp) || Path(dir, n) !in f)
    ensures AllStamped(f, g, dir, stamp, done + {n})
  {
    hide Eligible;
    forall p
      ensures Lookup(g, p) == Stamped(f, p, dir, stamp, done + {n})
    {
      assert Lookup(g, p) == Stamped(f, p, dir, stamp, done);
    }
  }

  // Cutting names, with a stored stamp or by the pattern

  predicate ToCut(f: Files, dir: string, prefix: string, done: set<string>, n: string) {
    n in done && Path(dir, n) in f && Cut(n, prefix) > 0
  }

  /** What is left of a name. */
  function Left(n: string, prefix: string): string {
    n[Cut(n, prefix)..]
  }

  /** What is left of a name is not cut again, and no two names leave the same. */
  ghost predicate NoMeeting(f: Files, dir: string, prefix: string) {
    && (forall n: string :: Path(dir, n) in f && Cut(n, prefix) > 0 ==> Cut(Left(n, prefix), prefix) == 0)
    && (forall n: string, m: string | Path(dir, n) in f && Path(dir, m) in f && Cut(n, prefix) > 0 && Cut(m, prefix) > 0 ::
          Left(n, prefix) == Left(m, prefix) ==> n == m)
  }

  ghost predicate Untouched(f: Files, dir: string, prefix: string, done: set<string>, p: Path) {
    p.dir == dir ==>
      && !ToCut(f, dir, prefix, done, p.name)
      && forall n: string :: ToCut(f, dir, prefix, done, n) ==> Left(n, prefix) != p.name
  }

  /** Every name in `done` that is to be cut is found under what is left of it, and all else is as it was. */
  ghost predicate AllCut(f: Files, g: Files, dir: string, prefix: string, done: set<string>) {
    && (forall n: string :: ToCut(f, dir, prefix, done, n) ==>
          Path(dir, n) !in g && Lookup(g, Path(dir, Left(n, prefix))) == Some(f[Path(dir, n)]))
    && (forall p: Path :: Untouched(f, dir, prefix, done, p) ==> Lookup(g, p) == Lookup(f, p))
  }

  lemma NothingCut(f: Files, dir: string, prefix: string)
    ensures AllCut(f, f, dir, prefix, {})
  {
  }

  /** A name to be cut is there as long as it is not visited. */
  lemma StillThere(f: Files, g: Files, dir: string, prefix: string, done: set<string>, n: string)
    requires AllCut(f, g, dir, prefix, done) && NoMeeting(f, dir, prefix)
    requires n !in done && Path(dir, n) in f && Cut(n, prefix) > 0
    ensures Lookup(g, Path(dir, n)) == Some(f[Path(dir, n)])
  {
    hide Cut;
    assert Untouched(f, dir, prefix, done, Path(dir, n));
  }

  lemma OneCut(f: Files, g: Files, h: Files, dir: string, prefix: string, done: set<string>, n: string)
    requires AllCut(f, g, dir, prefix, done) && NoMeeting(f, dir, prefix)
    requires n !in done && Path(dir, n) in f && Cut(n, prefix) > 0 && Path(dir, n) in g
    requires h == (g - {Path(dir, n)})[Path(dir, Left(n, prefix)) := g[Path(dir, n)]]
    ensures AllCut(f, h, dir, prefix, done + {n})
  {
    hide Cut, Left;
    StillThere(f, g, dir, prefix, done, n);
    forall m: string | ToCut(f, dir, prefix, done + {n}, m)
      ensures Path(dir, m) !in h && Lookup(h, Path(dir, Left(m, prefix))) == Some(f[Path(dir, m)])
    {
      assert Cut(Left(n, prefix), prefix) == 0 && Cut(Left(m, prefix), prefix) == 0;
      assert m != n ==> ToCut(f, dir, prefix, done, m);
    }
    forall p: Path | Untouched(f, dir, prefix, done + {n}, p)
      ensures Lookup(h, p) == Lookup(f, p)
    {
      assert ToCut(f, dir, prefix, done + {n}, n);
      assert Untouched(f, dir, prefix, done, p) by {
        assert forall m: string :: ToCut(f, dir, prefix, done, m) ==> ToCut(f, dir, prefix, done + {n}, m);
      }
    }
  }

  lemma NoneCut(f: Files, g: Files, dir: string, prefix: string, done: set<string>, n: string)
    requires AllCut(f, g, dir, prefix, done) && Cut(n, prefix) == 0
    ensures AllCut(f, g, dir, prefix, done + {n})
  {
    hide Cut, Left;
    assert forall m: string :: ToCut(f, dir, prefix, done + {n}, m) <==> ToCut(f, dir, prefix, done, m);
    forall p: Path | Untouched(f, dir, prefix, done + {n}, p)
      ensures Lookup(g, p) == Lookup(f, p)
    {
      assert Untouched(f, dir, prefix, done, p);
    }
  }

  lemma SameCut(f: Files, g: Files, dir: string, prefix: string, done: set<string>, all: set<string>)
    requires AllCut(f, g, dir, prefix, done)
    requires forall n :: Path(dir, n) in f && Cut(n, prefix) > 0 ==> (n in done <==> n in all)
    ensures AllCut(f, g, dir, prefix, all)
  {
    hide Cut, Left;
    assert forall n: string :: ToCut(f, dir, prefix, all, n) <==> ToCut(f, dir, prefix, done, n);
    forall p: Path | Untouched(f, dir, prefix, all, p)
      ensures Lookup(g, p) == Lookup(f, p)
    {
      assert Untouched(f, dir, prefix, done, p);
    }
  }

  /** A name that is cut was there before: what is left of a name is not cut. */
  lemma VisitedIsThere(f: Files, dir: string, prefix: string, n: string)
    requires NoMeeting(f, dir, prefix) && Cut(n, prefix) > 0
    requires Path(dir, n) in f || n == "." || n == ".." || exists m <- Names(f, dir) :: n == Left(m, prefix)
    ensures Path(dir, n) in f
  {
    hide Names, Cut;
    assert Cut(".", prefix) == 0 && Cut("..", prefix) == 0 by { DotsAreNotCut(prefix); }
    forall m | m in Names(f, dir)
      ensures Cut(Left(m, prefix), prefix) > 0 ==> Left(m, prefix) == m
    {
      assert Cut(m, prefix) == 0 ==> m[0..] == m;
    }
  }

  lemma DotsAreNotCut(prefix: string)
    ensures Cut(".", prefix) == 0 && Cut("..", prefix) == 0
  {
  }

  /** With a stored stamp names meet only when one carries it twice. */
  lemma StoredDoesNotMeet(f: Files, dir: string, stamp: string)
    requires IsStamp(stamp) && NoneTwice(f, dir, stamp)
    ensures NoMeeting(f, dir, stamp)
  {
    hide Cut, IsStamp;
    forall n: string | Path(dir, n) in f && Cut(n, stamp) > 0
      ensures n == stamp + Left(n, stamp) && Cut(Left(n, stamp), stamp) == 0
    {
      CutStored(n, stamp);
      assert n == stamp + Left(n, stamp);
      assert stamp <= Left(n, stamp) ==> !Carries(f, dir, stamp, stamp + Left(n, stamp));
      CutStored(Left(n, stamp), stamp);
    }
  }

  /** With a stored stamp cutting is peeling. */
  lemma StoredIsPeeled(f: Files, g: Files, dir: string, stamp: string)
    requires IsStamp(stamp) && AllCut(f, g, dir, stamp, Names(f, dir)) && NoneTwice(f, dir, stamp)
    ensures AllPeeled(f, g, dir, stamp, Names(f, dir))
  {
    hide Cut, IsStamp, NoneTwice, Names, AllCut;
    forall p
      ensures Lookup(g, p) == Peeled(f, p, dir, stamp, Names(f, dir))
    {
      StoredPath(f, g, dir, stamp, p);
    }
  }

  lemma StoredPath(f: Files, g: Files, dir: string, stamp: string, p: Path)
    requires IsStamp(stamp) && AllCut(f, g, dir, stamp, Names(f, dir)) && NoneTwice(f, dir, stamp)
    ensures Lookup(g, p) == Peeled(f, p, dir, stamp, Names(f, dir))
  {
    hide Cut, IsStamp;
    StampLength(stamp);
    var all := Names(f, dir);
    var n := stamp + p.name;
    CutStored(n, stamp);
    CutStored(p.name, stamp);
    assert n[|stamp|..] == p.name;
    if p.dir == dir && Carries(f, dir, stamp, n) {
      assert ToCut(f, dir, stamp, all, n);
    } else if p.dir == dir && Carries(f, dir, stamp, p.name) {
      assert ToCut(f, dir, stamp, all, p.name);
    } else {
      forall m: string | ToCut(f, dir, stamp, all, m)
        ensures p.dir == dir ==> Left(m, stamp) != p.name && m != p.name
      {
        CutStored(m, stamp);
        assert m == stamp + Left(m, stamp);
      }
      assert Untouched(f, dir, stamp, all, p);
    }
  }

  lemma SameStamped(f: Files, g: Files, dir: string, stamp: string, done: set<string>, all: set<string>)
    requires AllStamped(f, g, dir, stamp, done)
    requires forall n :: Path(dir, n) in f ==> (n in done <==> n in all)
    ensures AllStamped(f, g, dir, stamp, all)
  {
    hide Eligible;
    forall p
      ensures Lookup(g, p) == Stamped(f, p, dir, stamp, all)
    {
      assert Lookup(g, p) == Stamped(f, p, dir, stamp, done);
    }
  }

  /** A name that carries the stamp, and no name that carries it twice is longer. */
  ghost predicate Farthest(f: Files, dir: string, stamp: string, n: string) {
    Carries(f, dir, stamp, n) && NoLonger(f, dir, stamp, |n|)
  }

  ghost predicate NoLonger(f: Files, dir: string, stamp: string, k: nat) {
    forall q: string :: Path(dir, q) in f && stamp + stamp <= q ==> |q| <= k
  }

  /** Cutting a name makes no longer one. */
  lemma CutIsShorter(f: Files, g: Files, dir: string, stamp: string, n: string, far: string)
    requires NoLonger(f, dir, stamp, |far|) && stamp <= n && stamp != "" && Path(dir, n) in f && stamp <= far
    requires g == (f - {Path(dir, n)})[Path(dir, n[|stamp|..]) := f[Path(dir, n)]]
    ensures NoLonger(g, dir, stamp, |far|)
    ensures n == far || Path(dir, far) !in f ==> Path(dir, far) !in g
  {
    var m := n[|stamp|..];
    assert n == stamp + m;
    if stamp <= m {
      assert n == stamp + stamp + m[|stamp|..];
    }
  }

  /** Stamping overwrites nothing: every file is where it was or under its stamped name. */
  lemma NothingOverwritten(f: Files, g: Files, dir: string, stamp: string, p: Path)
    requires stamp != "" && NoneCarries(f, dir, stamp) && Path(dir, "") !in f && p in f
    requires AllStamped(f, g, dir, stamp, Names(f, dir))
    ensures Lookup(g, if p.dir == dir && Eligible(p.name, stamp) then Path(dir, stamp + p.name) else p) == Some(f[p])
  {
    hide Eligible;
    var stamped := Path(p.dir, stamp + p.name);
    assert stamped.name[|stamp|..] == p.name;
    assert Lookup(g, p) == Stamped(f, p, dir, stamp, Names(f, dir));
    assert Lookup(g, stamped) == Stamped(f, stamped, dir, stamp, Names(f, dir));
    assert !Carries(f, dir, stamp, p.name);
    Starts(p.name, stamp);
    if stamp <= p.name {
      assert p.name == stamp + p.name[|stamp|..];
    }
  }

  /** Which names keep their place when the files are stamped, and which get the stamp. */
  lemma WhoIsStamped(f: Files, g: Files, dir: string, stamp: string, n: string)
    requires IsStamp(stamp) && NoneCarries(f, dir, stamp) && Path(dir, "") !in f && Path(dir, n) in f
    requires AllStamped(f, g, dir, stamp, Names(f, dir))
    ensures n[0] == '.' || n == stamp || "bak1_" <= n || "bak2_" <= n || "bak3_" <= n ==>
              Lookup(g, Path(dir, n)) == Some(f[Path(dir, n)])
    ensures !(n[0] == '.' || n == stamp || "bak1_" <= n || "bak2_" <= n || "bak3_" <= n) ==>
              Path(dir, n) !in g && Lookup(g, Path(dir, stamp + n)) == Some(f[Path(dir, n)])
  {
    hide IsStamp;
    StampLength(stamp);
    assert n != "";
    assert "." <= n <==> n[0] == '.';
    assert !Carries(f, dir, stamp, n);
    assert stamp <= n ==> n == stamp;
    NothingOverwritten(f, g, dir, stamp, Path(dir, n));
    assert Lookup(g, Path(dir, n)) == Stamped(f, Path(dir, n), dir, stamp, Names(f, dir));
  }

  lemma NothingStamped(f: Files, dir: string, stamp: string)
    ensures AllStamped(f, f, dir, stamp, {})
  {
  }

  lemma Dotted(n: string, stamp: string)
    ensures Eligible(n, stamp) ==> n != "." && n != ".."
  {
  }

  lemma Unstamped(f: Files, g: Files, dir: string, stamp: string, done: set<string>, n: string)
    requires AllStamped(f, g, dir, stamp, done) && n !in done && Path(dir, n) in f && Eligible(n, stamp)
    ensures Path(dir, n) in g
  {
    assert Lookup(g, Path(dir, n)) == Stamped(f, Path(dir, n), dir, stamp, done);
  }

  lemma NotStampedTwice(stamp: string, n: string)
    requires !(stamp <= n)
    ensures forall q: string :: stamp <= q ==> stamp + q != stamp + n
  {
    assert (stamp + n)[|stamp|..] == n;
    assert forall q: string :: (stamp + q)[|stamp|..] == q;
  }

  /** A name of greatest length. */
  ghost function Longest(names: set<string>): (n: string)
    requires names != {}
    ensures n in names && forall m <- names :: |m| <= |n|
  {
    assert |names| > 0;
    var m :| m in names;
    if names == {m} then m
    else
      assert names - {m} != {} by { OneLess(names, m); }
      var n := Longest(names - {m});
      if |m| <= |n| then n else m
  }

  lemma OneLess(names: set<string>, m: string)
    requires m in names && names != {m}
    ensures names - {m} != {}
  {
    assert names - {m} == {} ==> names == {m};
  }

  /** The longest entry that carries the stamp. */
  ghost function LongestThatCarries(f: Files, dir: string, stamp: string): (far: string)
    requires !NoneCarries(f, dir, stamp)
    ensures Carries(f, dir, stamp, far) && forall n: string :: Carries(f, dir, stamp, n) ==> |n| <= |far|
  {
    var names := set n | n in Names(f, dir) && Carries(f, dir, stamp, n);
    assert names != {} by {
      var n: string :| Carries(f, dir, stamp, n);
      assert n in names;
    }
    Longest(names)
  }

  lemma NoneTwiceAfter(f: Files, g: Files, dir: string, stamp: string)
    requires NoneCarries(f, dir, stamp) && IsStamp(stamp)
    requires forall n: string :: stamp <= n && Path(dir, stamp + n) in g ==> Path(dir, stamp + n) in f
    ensures NoneTwice(g, dir, stamp)
  {
    forall n: string | stamp <= n
      ensures !Carries(g, dir, stamp, stamp + n)
    {
      assert !Carries(f, dir, stamp, stamp + n);
    }
  }

  lemma FarthestAfter(f: Files, g: Files, dir: string, stamp: string, far: string)
    requires Carries(f, dir, stamp, far) && forall n: string :: Carries(f, dir, stamp, n) ==> |n| <= |far|
    requires stamp != "" && forall n: string :: stamp <= n && Path(dir, n) in f ==> Path(dir, n) in g
    requires forall n: string :: stamp <= n && Path(dir, stamp + n) in g ==> Path(dir, stamp + n) in f
    ensures Farthest(g, dir, stamp, far)
  {
    forall q: string | Path(dir, q) in g && stamp + stamp <= q
      ensures |q| <= |far|
    {
      var n := q[|stamp|..];
      assert q == stamp + n && stamp <= n;
      assert Carries(f, dir, stamp, q);
    }
  }

  lemma StampedThenPeeled(f: Files, g: Files, h: Files, dir: string, stamp: string)
    requires IsStamp(stamp) && NoneCarries(f, dir, stamp) && Path(dir, "") !in f
    requires AllStamped(f, g, dir, stamp, Names(f, dir)) && AllPeeled(g, h, dir, stamp, Names(g, dir))
    ensures h == f
  {
    hide IsStamp, Eligible;
    StampLength(stamp);
    forall p
      ensures Lookup(h, p) == Lookup(f, p)
    {
      var stamped := Path(p.dir, stamp + p.name);
      assert Lookup(g, p) == Stamped(f, p, dir, stamp, Names(f, dir));
      assert Lookup(g, stamped) == Stamped(f, stamped, dir, stamp, Names(f, dir));
      assert Lookup(h, p) == Peeled(g, p, dir, stamp, Names(g, dir));
      assert stamped.name[|stamp|..] == p.name;
      assert !Carries(f, dir, stamp, p.name) && !Carries(f, dir, stamp, stamp + p.name);
      Starts(p.name, stamp);
      Starts(stamp + p.name, stamp);
      if stamp <= p.name {
        assert p.name == stamp + p.name[|stamp|..];
      }
    }
    SameFiles(h, f);
  }

  class Stamper {
    var prefix: string

    constructor ()
      ensures prefix == ""
    {
      prefix := "";
    }

    /** `add_timestamp_to_files`. When no entry carries the stamp every eligible name gets it, whatever the order
        and whether or not stamped names are seen again; an entry that starts with the stamp always stays. */
    method AddTimestampToFiles(fs: FileSystem, dir: string, stamp: string) returns (r: int)
      requires IsStamp(stamp)
      modifies this, fs
      ensures prefix == stamp
      ensures NoneCarries(old(fs.files), dir, stamp) && Path(dir, "") !in old(fs.files) ==>
                r == 0 && AllStamped(old(fs.files), fs.files, dir, stamp, Names(old(fs.files), dir))
      ensures forall n: string :: stamp <= n && Path(dir, n) in old(fs.files) ==> Path(dir, n) in fs.files
      ensures forall n: string :: stamp <= n && Path(dir, stamp + n) in fs.files ==>
                Path(dir, stamp + n) in old(fs.files)
    {
      hide Eligible, Names, AllStamped, NoneCarries, IsStamp;
      StampLength(stamp);
      prefix := stamp;
      ghost var f := fs.files;
      ghost var clear := NoneCarries(f, dir, stamp) && Path(dir, "") !in f;
      var order := fs.ReadDir(dir, set n | n in Names(f, dir) :: stamp + n);
      var errorCount := 0;
      ghost var done: set<string> := {};
      var i := 0;
      assert clear ==> AllStamped(f, f, dir, stamp, {}) by { NothingStamped(f, dir, stamp); }
      while i < |order|
        invariant 0 <= i <= |order| && prefix == stamp
        invariant forall n :: n in done <==> n in order[..i]
        invariant clear ==> AllStamped(f, fs.files, dir, stamp, done) && errorCount == 0
        invariant forall n: string :: stamp <= n && Path(dir, n) in f ==> Path(dir, n) in fs.files
        invariant forall n: string :: stamp <= n && Path(dir, stamp + n) in fs.files ==> Path(dir, stamp + n) in f
      {
        var n := order[i];
        assert order[..i + 1] == order[..i] + [n];
        assert n !in done;
        i := i + 1;
        Starts(n, stamp);
        Dotted(n, stamp);
        if Eligible(n, stamp) {
          ghost var g := fs.files;
          NotStampedTwice(stamp, n);
          var ok := fs.Rename(Path(dir, n), Path(dir, stamp + n));
          if !ok {
            errorCount := errorCount + 1;
          }
          if clear {
            assert Path(dir, n) in f;
            Unstamped(f, g, dir, stamp, done, n);
            OneStamped(f, g, fs.files, dir, stamp, done, n);
          }
        } else if clear {
          NoneStamped(f, fs.files, dir, stamp, done, n);
        }
        done := done + {n};
      }
      assert order[..i] == order;
      if clear {
        SameStamped(f, fs.files, dir, stamp, done, Names(f, dir));
      }
      r := if errorCount > 0 then -1 else 0;
    }

    /** `remove_timestamp_from_files`, with or without a stored stamp. When no cut names meet every name that is
        to be cut is; with a stored stamp, when none carries it twice, those are the names that carry it. In any
        case an entry that carries the stored stamp farthest is gone. */
    method RemoveTimestampFromFiles(fs: FileSystem, dir: string, ghost far: string) returns (r: int)
      modifies fs
      ensures NoMeeting(old(fs.files), dir, prefix) ==>
                r == 0 && AllCut(old(fs.files), fs.files, dir, prefix, Names(old(fs.files), dir))
      ensures IsStamp(prefix) && NoneTwice(old(fs.files), dir, prefix) ==>
                r == 0 && AllPeeled(old(fs.files), fs.files, dir, prefix, Names(old(fs.files), dir))
      ensures IsStamp(prefix) && Farthest(old(fs.files), dir, prefix, far) ==> Path(dir, far) !in fs.files
    {
      hide Cut, Names, AllCut, AllPeeled, NoneTwice, NoLonger, IsStamp, NoMeeting;
      ghost var f := fs.files;
      if IsStamp(prefix) && NoneTwice(f, dir, prefix) {
        StoredDoesNotMeet(f, dir, prefix);
      }
      ghost var clear := NoMeeting(f, dir, prefix);
      ghost var farthest := IsStamp(prefix) && Farthest(f, dir, prefix, far);
      var order := fs.ReadDir(dir, set n | n in Names(f, dir) :: Left(n, prefix));
      var errorCount := 0;
      ghost var done: set<string> := {};
      var i := 0;
      if IsStamp(prefix) {
        StampLength(prefix);
      }
      NothingCut(f, dir, prefix);
      while i < |order|
        invariant 0 <= i <= |order|
        invariant forall n :: n in done <==> n in order[..i]
        invariant clear ==> AllCut(f, fs.files, dir, prefix, done) && errorCount == 0
        invariant farthest ==> NoLonger(fs.files, dir, prefix, |far|) && (far in done ==> Path(dir, far) !in fs.files)
      {
        var n := order[i];
        assert order[..i + 1] == order[..i] + [n];
        assert n !in done;
        i := i + 1;
        if IsStamp(prefix) {
          CutStored(n, prefix);
        }
        var cut := Cut(n, prefix);
        if cut > 0 {
          ghost var g := fs.files;
          if clear {
            VisitedIsThere(f, dir, prefix, n);
            StillThere(f, g, dir, prefix, done, n);
          }
          var ok := fs.Rename(Path(dir, n), Path(dir, n[cut..]));
          if !ok {
            errorCount := errorCount + 1;
          }
          if clear {
            OneCut(f, g, fs.files, dir, prefix, done, n);
          }
          if farthest && ok {
            CutIsShorter(g, fs.files, dir, prefix, n, far);
          }
        } else if clear {
          NoneCut(f, fs.files, dir, prefix, done, n);
        }
        done := done + {n};
      }
      assert order[..i] == order;
      if clear {
        SameCut(f, fs.files, dir, prefix, done, Names(f, dir));
      }
      if IsStamp(prefix) && NoneTwice(f, dir, prefix) {
        StoredIsPeeled(f, fs.files, dir, prefix);
      }
      r := if errorCount > 0 then -1 else 0;
    }

    /** Stamping and cutting the stamps off again gives back exactly the files there were, if and only if no
        entry carried the stamp. */
    method StampRoundTrip(fs: FileSystem, dir: string, stamp: string)
      requires IsStamp(stamp) && Path(dir, "") !in fs.files
      modifies this, fs
      ensures fs.files == old(fs.files) <==> NoneCarries(old(fs.files), dir, stamp)
    {
      hide IsStamp, Names, AllStamped, AllPeeled, NoneCarries, NoLonger, NoneTwice;
      ghost var f := fs.files;
      ghost var clear := NoneCarries(f, dir, stamp);
      StampLength(stamp);
      ghost var far := if clear then "" else LongestThatCarries(f, dir, stamp);
      var _ := AddTimestampToFiles(fs, dir, stamp);
      ghost var g := fs.files;
      if clear {
        NoneTwiceAfter(f, g, dir, stamp);
      } else {
        FarthestAfter(f, g, dir, stamp, far);
      }
      var _ := RemoveTimestampFromFiles(fs, dir, far);
      if clear {
        StampedThenPeeled(f, g, fs.files, dir, stamp);
      }
    }
  }
  // The stored stamp is lost

  /** The stamp is found again in front of every name that got it, and no name looks stamped by itself. */
  ghost predicate Recognised(f: Files, dir: string, stamp: string)
    requires IsStamp(stamp)
  {
    forall n: string :: Path(dir, n) in f && Eligible(n, stamp) ==>
      3 <= |n| && (stamp[14] == 'A' || IndexOf(n, "AM-").None?) && Cut(n, "") == 0
  }

  lemma NotCutByPattern(n: string, stamp: string)
    requires IsStamp(stamp) && !Eligible(n, stamp) && !(stamp <= n && |stamp| < |n|)
    ensures Cut(n, "") == 0
  {
    assert "bak1_"[2] == "bak2_"[2] == "bak3_"[2] == 'k';
  }

  /** What is to be cut after stamping: the stamped names, by the length of the stamp. */
  lemma CutAfterStamping(f: Files, g: Files, dir: string, stamp: string, n: string)
    requires IsStamp(stamp) && NoneCarries(f, dir, stamp) && Path(dir, "") !in f && Recognised(f, dir, stamp)
    requires AllStamped(f, g, dir, stamp, Names(f, dir)) && Path(dir, n) in g && Cut(n, "") > 0
    ensures stamp <= n && Cut(n, "") == |stamp| && Left(n, "") == n[|stamp|..]
    ensures Path(dir, n[|stamp|..]) in f && Eligible(n[|stamp|..], stamp) && Cut(n[|stamp|..], "") == 0
  {
    hide Cut, IsStamp, Eligible, IndexOf;
    StampLength(stamp);
    assert Lookup(g, Path(dir, n)) == Stamped(f, Path(dir, n), dir, stamp, Names(f, dir));
    assert !Carries(f, dir, stamp, n);
    if stamp <= n && Gets(f, dir, stamp, Names(f, dir), n[|stamp|..]) {
      assert n == stamp + n[|stamp|..];
      CutByPattern(stamp, n[|stamp|..]);
    } else {
      assert Path(dir, n) in f && !Eligible(n, stamp);
      NotCutByPattern(n, stamp);
    }
  }

  lemma StampedDoNotMeet(f: Files, g: Files, dir: string, stamp: string)
    requires IsStamp(stamp) && NoneCarries(f, dir, stamp) && Path(dir, "") !in f && Recognised(f, dir, stamp)
    requires AllStamped(f, g, dir, stamp, Names(f, dir))
    ensures NoMeeting(g, dir, "")
  {
    hide Cut, IsStamp, Eligible, IndexOf, Recognised, AllStamped, NoneCarries;
    forall n: string | Path(dir, n) in g && Cut(n, "") > 0
      ensures Cut(Left(n, ""), "") == 0 && n == stamp + Left(n, "")
    {
      CutAfterStamping(f, g, dir, stamp, n);
    }
  }

  lemma StampedThenCut(f: Files, g: Files, h: Files, dir: string, stamp: string, p: Path)
    requires IsStamp(stamp) && NoneCarries(f, dir, stamp) && Path(dir, "") !in f && Recognised(f, dir, stamp)
    requires AllStamped(f, g, dir, stamp, Names(f, dir)) && AllCut(g, h, dir, "", Names(g, dir))
    ensures Lookup(h, p) == Lookup(f, p)
  {
    hide Cut, IsStamp, Eligible, IndexOf, Recognised;
    StampLength(stamp);
    var all := Names(g, dir);
    var stamped := Path(dir, stamp + p.name);
    assert stamped.name[|stamp|..] == p.name;
    assert Lookup(g, p) == Stamped(f, p, dir, stamp, Names(f, dir));
    assert Lookup(g, stamped) == Stamped(f, stamped, dir, stamp, Names(f, dir));
    assert !Carries(f, dir, stamp, p.name) && !Carries(f, dir, stamp, stamp + p.name);
    Starts(p.name, stamp);
    if p.dir == dir && Path(dir, p.name) in f && Eligible(p.name, stamp) {
      assert Recognised(f, dir, stamp);
      RecognisedName(f, dir, stamp, p.name);
      assert ToCut(g, dir, "", all, stamp + p.name);
    } else {
      forall n: string | p.dir == dir && ToCut(g, dir, "", all, n)
        ensures Left(n, "") != p.name && (n == p.name ==> Path(dir, n) !in f)
      {
        CutAfterStamping(f, g, dir, stamp, n);
        assert n == stamp + n[|stamp|..];
      }
      if p.dir == dir && ToCut(g, dir, "", all, p.name) {
      } else {
        assert Untouched(g, dir, "", all, p);
        if p.dir == dir && stamp <= p.name {
          assert p.name == stamp + p.name[|stamp|..];
          if Path(dir, p.name[|stamp|..]) in f && Eligible(p.name[|stamp|..], stamp) {
            RecognisedName(f, dir, stamp, p.name[|stamp|..]);
          }
        }
      }
    }
  }

  lemma RecognisedName(f: Files, dir: string, stamp: string, n: string)
    requires IsStamp(stamp) && Recognised(f, dir, stamp) && Path(dir, n) in f && Eligible(n, stamp)
    ensures Cut(stamp + n, "") == |stamp| && Left(stamp + n, "") == n && Cut(n, "") == 0
  {
    hide Cut, Eligible, IndexOf, IsStamp;
    CutByPattern(stamp, n);
    assert (stamp + n)[|stamp|..] == n;
    StampLength(stamp);
  }

  /** Stamping by one process and cutting by another, which has no stored stamp, gives the files back when the pattern
      recognises the stamps. */
  method RestartRoundTrip(fs: FileSystem, dir: string, stamp: string)
    requires IsStamp(stamp) && Path(dir, "") !in fs.files
    modifies fs
    ensures NoneCarries(old(fs.files), dir, stamp) && Recognised(old(fs.files), dir, stamp) ==>
              fs.files == old(fs.files)
  {
    hide IsStamp, Names, AllStamped, AllCut, AllPeeled, NoneCarries, NoLonger, NoneTwice, Recognised, NoMeeting;
    ghost var f := fs.files;
    ghost var clear := NoneCarries(f, dir, stamp) && Recognised(f, dir, stamp);
    var first := new Stamper();
    var _ := first.AddTimestampToFiles(fs, dir, stamp);
    ghost var g := fs.files;
    if clear {
      StampedDoNotMeet(f, g, dir, stamp);
    }
    var second := new Stamper();
    var _ := second.RemoveTimestampFromFiles(fs, dir, "");
    if clear {
      forall p
        ensures Lookup(fs.files, p) == Lookup(f, p)
      {
        StampedThenCut(f, g, fs.files, dir, stamp, p);
      }
      SameFiles(fs.files, f);
    }
  }
}
