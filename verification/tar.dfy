/** The tar format of the archives: what a header, a file and an archive look like as bytes, and a reader of
    the ustar Interchange Format (pax utility, IEEE Std 1003.1-2017) that recovers the entries. */
module Tar {
  import opened Bytes
  import opened Options

  const BLOCK := 512
  const SPACE: Byte := 32
  const ZERO: Byte := 48
  const REGULAR: Byte := 48
  const SYMLINK: Byte := 50
  const USTAR: seq<Byte> := [117, 115, 116, 97, 114, 0]
  const VERSION: seq<Byte> := [48, 48]

  datatype Body = Content(bytes: seq<Byte>) | Target(path: seq<Byte>)

  datatype Entry = Entry(name: seq<Byte>, mode: nat, mtime: nat, body: Body)

  function Repeat(b: Byte, n: nat): (s: seq<Byte>)
    ensures |s| == n && forall i :: 0 <= i < n ==> s[i] == b
  {
    if n == 0 then [] else [b] + Repeat(b, n - 1)
  }

  function Min(a: nat, b: nat): nat {
    if a < b then a else b
  }

  // Octal numbers

  function Power8(n: nat): (p: nat)
    ensures 1 <= p
  {
    if n == 0 then 1 else 8 * Power8(n - 1)
  }

  function OctalDigits(n: nat): (s: seq<Byte>)
    ensures s != []
  {
    if n < 8 then [ZERO + n] else OctalDigits(n / 8) + [ZERO + n % 8]
  }

  /** `%0<width>lo` */
  function Padded(n: nat, width: nat): (s: seq<Byte>)
    ensures width <= |s|
  {
    var digits := OctalDigits(n);
    if |digits| < width then Repeat(ZERO, width - |digits|) + digits else digits
  }

  /** `snprintf(field, size, "%0<size - 1>lo", n)`: what does not fit is cut off at the end. */
  function Printed(n: nat, size: nat): (s: seq<Byte>)
    requires 0 < size
    ensures |s| == size
  {
    Padded(n, size - 1)[..size - 1] + [0]
  }

  predicate IsDigit(b: Byte) {
    48 <= b <= 55
  }

  function OctalValue(s: seq<Byte>): int {
    if s == [] then 0 else 8 * OctalValue(s[..|s| - 1]) + (s[|s| - 1] as int - 48)
  }

  /** The part of a field before the first byte that ends it. */
  function Upto(s: seq<Byte>, ends: set<Byte>): (r: seq<Byte>)
    ensures |r| <= |s| && r == s[..|r|]
    ensures forall b <- r :: b !in ends
    ensures |r| < |s| ==> s[|r|] in ends
  {
    if s == [] || s[0] in ends then [] else [s[0]] + Upto(s[1..], ends)
  }

  /** A numeric field: octal digits ended by a space or a NUL. */
  function ReadOctal(field: seq<Byte>): Option<int> {
    var digits := Upto(field, {0, 32});
    if |digits| < |field| && (forall b <- digits :: IsDigit(b)) then Some(OctalValue(digits)) else None
  }

  lemma {:induction false} UptoEnd(s: seq<Byte>, rest: seq<Byte>, ends: set<Byte>)
    requires (forall b <- s :: b !in ends) && (rest != [] ==> rest[0] in ends)
    ensures Upto(s + rest, ends) == s
  {
    if s == [] {
      assert s + rest == rest;
    } else {
      assert (s + rest)[1..] == s[1..] + rest;
      UptoEnd(s[1..], rest, ends);
    }
  }

  lemma {:induction false} DigitsAreOctal(n: nat)
    ensures forall b <- OctalDigits(n) :: IsDigit(b)
    ensures OctalValue(OctalDigits(n)) == n
  {
    if n < 8 {
      assert OctalDigits(n)[..0] == [];
    } else {
      DigitsAreOctal(n / 8);
      var s := OctalDigits(n);
      assert s[..|s| - 1] == OctalDigits(n / 8);
    }
  }

  lemma {:induction false} DigitCount(n: nat, w: nat)
    requires 0 < w
    ensures |OctalDigits(n)| <= w <==> n < Power8(w)
  {
    if w == 1 {
      assert Power8(1) == 8;
    } else if n < 8 {
      assert 8 <= 8 * Power8(w - 1);
    } else {
      DigitCount(n / 8, w - 1);
    }
  }

  lemma {:induction false} LeadingZeros(k: nat, s: seq<Byte>)
    ensures OctalValue(Repeat(ZERO, k) + s) == OctalValue(s)
  {
    var t := Repeat(ZERO, k) + s;
    if s == [] {
      if k > 0 {
        assert t[..|t| - 1] == Repeat(ZERO, k - 1) + [];
        LeadingZeros(k - 1, []);
      }
    } else {
      assert t[..|t| - 1] == Repeat(ZERO, k) + s[..|s| - 1];
      LeadingZeros(k, s[..|s| - 1]);
    }
  }

  /** Digits cut off at the end make the number smaller. */
  lemma {:induction false} CutDigits(s: seq<Byte>, w: nat)
    requires w <= |s| && forall b <- s :: IsDigit(b)
    ensures 0 <= OctalValue(s[..w]) <= OctalValue(s)
    ensures w < |s| && 0 < OctalValue(s[..w]) ==> OctalValue(s[..w]) < OctalValue(s)
  {
    if w == |s| {
      assert s[..w] == s;
    }
    if s != [] {
      var t := s[..|s| - 1];
      assert IsDigit(s[|s| - 1]);
      if w < |s| {
        assert t[..w] == s[..w];
        CutDigits(t, w);
      } else {
        assert t[..|t|] == t;
        CutDigits(t, |t|);
      }
    }
  }

  lemma {:induction false} FirstDigit(n: nat, w: nat)
    requires 0 < w <= |OctalDigits(n)| && 8 <= n
    ensures 0 < OctalValue(OctalDigits(n)[..w])
  {
    var s := OctalDigits(n);
    if w == |s| {
      assert s[..w] == s;
      DigitsAreOctal(n);
    } else {
      assert s[..w] == OctalDigits(n / 8)[..w];
      if n / 8 < 8 {
        assert s[..w] == [ZERO + n / 8];
        assert s[..w][..0] == [];
      } else {
        FirstDigit(n / 8, w);
      }
    }
  }

  lemma PaddedIsOctal(n: nat, w: nat)
    ensures forall b <- Padded(n, w) :: IsDigit(b)
    ensures OctalValue(Padded(n, w)) == n
  {
    DigitsAreOctal(n);
    LeadingZeros(if |OctalDigits(n)| < w then w - |OctalDigits(n)| else 0, OctalDigits(n));
  }

  /** What a numeric field of `size` bytes says when it is read back. */
  function Shown(n: nat, size: nat): (r: nat)
    requires 0 < size
    ensures r <= n
  {
    PaddedIsOctal(n, size - 1);
    CutDigits(Padded(n, size - 1), size - 1);
    OctalValue(Padded(n, size - 1)[..size - 1])
  }

  lemma PrintedIsRead(n: nat, size: nat)
    requires 1 < size
    ensures ReadOctal(Printed(n, size)) == Some(Shown(n, size))
  {
    PaddedIsOctal(n, size - 1);
    var text := Padded(n, size - 1)[..size - 1];
    assert forall b <- text :: b in Padded(n, size - 1);
    UptoEnd(text, [0], {0, SPACE});
  }

  /** A number survives its field exactly when it has no more digits than the field holds. */
  lemma ShownIsNumber(n: nat, size: nat)
    requires 1 < size
    ensures Shown(n, size) == n <==> n < Power8(size - 1)
  {
    var w := size - 1;
    DigitCount(n, w);
    PaddedIsOctal(n, w);
    if n < Power8(w) {
      assert Padded(n, w)[..w] == Padded(n, w);
    } else {
      DigitsAreOctal(n);
      CutDigits(OctalDigits(n), w);
      if n < 8 {
        assert false;
      }
      FirstDigit(n, w);
    }
  }

  // The header

  /** `strncpy(field, text, size - 1)` into a field of NULs. */
  function Copied(text: seq<Byte>, size: nat): (s: seq<Byte>)
    requires 0 < size
    ensures |s| == size
  {
    var n := Min(|text|, size - 1);
    text[..n] + Repeat(0, size - n)
  }

  function Sum(s: seq<Byte>): (n: nat)
    ensures n <= 255 * |s|
  {
    if s == [] then 0 else Sum(s[..|s| - 1]) + s[|s| - 1]
  }

  /** `snprintf(checksum, 8, "%06o", sum)` over eight spaces. */
  function ChecksumField(sum: nat): (s: seq<Byte>)
    ensures |s| == 8
  {
    var text := Padded(sum, 6);
    var n := Min(|text|, 7);
    text[..n] + [0] + Repeat(SPACE, 7 - n)
  }

  function TypeFlag(e: Entry): Byte {
    if e.body.Target? then SYMLINK else REGULAR
  }

  function SizeOf(e: Entry): nat {
    if e.body.Target? then 0 else |e.body.bytes|
  }

  function LinkOf(e: Entry): seq<Byte> {
    if e.body.Target? then e.body.path else []
  }

  /** The fields after the checksum: type flag, link name, magic, version, user and group name, device
      numbers, prefix, padding. */
  function TailBytes(e: Entry): (s: seq<Byte>)
    ensures |s| == 356
  {
    [TypeFlag(e)] + (Copied(LinkOf(e), 100) + (USTAR + (VERSION + Repeat(0, 247))))
  }

  /** The fields before the checksum: name, mode, user, group, size, time of modification. */
  function FrontBytes(e: Entry): (s: seq<Byte>)
    ensures |s| == 148
  {
    Copied(e.name, 100) + (Printed(e.mode % 512, 8) + (Printed(0, 8) + (Printed(0, 8)
    + (Printed(SizeOf(e), 12) + Printed(e.mtime, 12)))))
  }

  function WithChecksum(e: Entry, checksum: seq<Byte>): (s: seq<Byte>)
    requires |checksum| == 8
    ensures |s| == BLOCK
  {
    FrontBytes(e) + (checksum + TailBytes(e))
  }

  function HeaderBytes(e: Entry): (s: seq<Byte>)
    ensures |s| == BLOCK
  {
    WithChecksum(e, ChecksumField(Sum(WithChecksum(e, Repeat(SPACE, 8)))))
  }

  function PaddingLength(n: nat): (p: nat)
    ensures p < BLOCK && (n + p) % BLOCK == 0
  {
    var r := n % BLOCK;
    assert n == BLOCK * (n / BLOCK) + r;
    assert r == 0 || n + (BLOCK - r) == BLOCK * (n / BLOCK + 1);
    (BLOCK - n % BLOCK) % BLOCK
  }

  function BodyBytes(e: Entry): seq<Byte> {
    if e.body.Target? then [] else e.body.bytes + Repeat(0, PaddingLength(|e.body.bytes|))
  }

  function EntriesBytes(entries: seq<Entry>): seq<Byte> {
    if entries == [] then []
    else EntriesBytes(entries[..|entries| - 1]) + Packed(entries[|entries| - 1])
  }

  function Packed(e: Entry): seq<Byte> {
    HeaderBytes(e) + BodyBytes(e)
  }

  function ArchiveBytes(entries: seq<Entry>): seq<Byte> {
    EntriesBytes(entries) + Repeat(0, 2 * BLOCK)
  }

  // The reader

  function ReadString(field: seq<Byte>): seq<Byte> {
    Upto(field, {0})
  }

  /** A name is the prefix and the name with a slash between, or the name alone when there is no prefix. */
  function ReadName(b: seq<Byte>): seq<Byte>
    requires |b| == BLOCK
  {
    var prefix := ReadString(b[345..500]);
    var name := ReadString(b[0..100]);
    if prefix == [] then name else prefix + [47] + name
  }

  predicate ChecksumHolds(b: seq<Byte>)
    requires |b| == BLOCK
  {
    ReadOctal(b[148..156]) == Some(Sum(b[..148] + (Repeat(32, 8) + b[156..])))
  }

  /** The entries of an archive, read by the bytes of the standard, or none when the stream is not one: every
      header is checked, the data of a file fills whole blocks, and two blocks of zeros end the archive. */
  function Read(stream: seq<Byte>): Option<seq<Entry>>
    decreases |stream|
  {
    if |stream| < BLOCK then None
    else
      var b := stream[..BLOCK];
      var rest := stream[BLOCK..];
      if b == Repeat(0, BLOCK) then if rest == Repeat(0, BLOCK) then Some([]) else None
      else
        var mode := ReadOctal(b[100..108]);
        var size := ReadOctal(b[124..136]);
        var mtime := ReadOctal(b[136..148]);
        if b[257..263] != [117, 115, 116, 97, 114, 0] || b[263..265] != [48, 48] || !ChecksumHolds(b) then None
        else if mode.None? || size.None? || mtime.None? then None
        else if mode.value < 0 || size.value < 0 || mtime.value < 0 then None
        else if b[156] == 50 then
          Prepend(Entry(ReadName(b), mode.value, mtime.value, Target(ReadString(b[157..257]))), Read(rest))
        else
          var blocks := size.value + PaddingLength(size.value);
          if b[156] != 48 || |rest| < blocks then None
          else
            Prepend(Entry(ReadName(b), mode.value, mtime.value, Content(rest[..size.value])),
                    Read(rest[blocks..]))
  }

  function Prepend(e: Entry, r: Option<seq<Entry>>): Option<seq<Entry>> {
    if r.Some? then Some([e] + r.value) else None
  }

  // Reading back what was written

  /** What is written of an entry: names are cut to 99 bytes, the mode to nine bits, a time of more than
      eleven digits to its first eleven. */
  function Kept(e: Entry): Entry {
    Entry(e.name[..Min(|e.name|, 99)], e.mode % 512, Shown(e.mtime, 12),
          if e.body.Target? then Target(e.body.path[..Min(|e.body.path|, 99)]) else e.body)
  }

  /** Names and link targets are C strings. */
  predicate CStrings(e: Entry) {
    0 !in e.name && 0 !in LinkOf(e)
  }

  /** The size of a file fits its field too. */
  predicate Writable(e: Entry) {
    CStrings(e) && SizeOf(e) < Power8(11)
  }

  lemma Cut(a: seq<Byte>, rest: seq<Byte>, i: nat, j: nat)
    requires i <= j <= |rest|
    ensures (a + rest)[..|a|] == a
    ensures (a + rest)[|a| + i..|a| + j] == rest[i..j]
  {
    var s := a + rest;
    assert forall k :: i <= k < j ==> s[|a| + k] == rest[k];
  }

  lemma FrontFields(e: Entry)
    ensures var f := FrontBytes(e);
            && f[0..100] == Copied(e.name, 100) && f[100..108] == Printed(e.mode % 512, 8)
            && f[124..136] == Printed(SizeOf(e), 12) && f[136..148] == Printed(e.mtime, 12)
  {
    hide Copied, Printed, SizeOf;
    var time := Printed(e.mtime, 12);
    var size := Printed(SizeOf(e), 12);
    var r5 := size + time;
    var r4 := Printed(0, 8) + r5;
    var r3 := Printed(0, 8) + r4;
    var r2 := Printed(e.mode % 512, 8) + r3;
    Cut(Copied(e.name, 100), r2, 0, 8);
    Cut(Copied(e.name, 100), r2, 24, 36);
    Cut(Copied(e.name, 100), r2, 36, 48);
    Cut(Printed(e.mode % 512, 8), r3, 16, 28);
    Cut(Printed(e.mode % 512, 8), r3, 28, 40);
    Cut(Printed(0, 8), r4, 8, 20);
    Cut(Printed(0, 8), r4, 20, 32);
    Cut(Printed(0, 8), r5, 0, 12);
    Cut(Printed(0, 8), r5, 12, 24);
    Cut(size, time, 0, 12);
    assert r2[0..8] == r2[..8];
    assert r5[0..12] == r5[..12];
    assert time[0..12] == time;
  }

  lemma TailFields(e: Entry)
    ensures var t := TailBytes(e);
            && t[0] == TypeFlag(e) && t[1..101] == Copied(LinkOf(e), 100)
            && t[101..107] == USTAR && t[107..109] == VERSION && t[189..344] == Repeat(0, 155)
  {
    hide Copied, LinkOf;
    var link := Copied(LinkOf(e), 100);
    var r3 := VERSION + Repeat(0, 247);
    var r2 := USTAR + r3;
    var r1 := link + r2;
    Cut([TypeFlag(e)], r1, 0, 100);
    Cut([TypeFlag(e)], r1, 100, 106);
    Cut([TypeFlag(e)], r1, 106, 108);
    Cut([TypeFlag(e)], r1, 188, 343);
    Cut(link, r2, 0, 6);
    Cut(link, r2, 6, 8);
    Cut(link, r2, 88, 243);
    Cut(USTAR, r3, 0, 2);
    Cut(USTAR, r3, 82, 237);
    Cut(VERSION, Repeat(0, 247), 80, 235);
    assert r1[0..100] == r1[..100];
    assert r2[0..6] == r2[..6];
    assert r3[0..2] == r3[..2];
    assert Repeat(0, 247)[80..235] == Repeat(0, 155);
  }

  lemma HeaderFields(e: Entry)
    ensures var b := HeaderBytes(e);
            && b[0..100] == Copied(e.name, 100) && b[100..108] == Printed(e.mode % 512, 8)
            && b[124..136] == Printed(SizeOf(e), 12) && b[136..148] == Printed(e.mtime, 12)
            && b[156] == TypeFlag(e) && b[157..257] == Copied(LinkOf(e), 100)
            && b[257..263] == USTAR && b[263..265] == VERSION && b[345..500] == Repeat(0, 155)
  {
    hide FrontBytes, TailBytes, ChecksumField, Copied, Printed;
    var b := HeaderBytes(e);
    var front := FrontBytes(e);
    var checksum := ChecksumField(Sum(WithChecksum(e, Repeat(SPACE, 8))));
    var tail := TailBytes(e);
    FrontFields(e);
    TailFields(e);
    assert b == front + (checksum + tail);
    assert b[..148] == front;
    assert b[156..] == tail;
    Sub(b, 0, 148, 0, 100);
    Sub(b, 0, 148, 100, 108);
    Sub(b, 0, 148, 124, 136);
    Sub(b, 0, 148, 136, 148);
    Sub(b, 156, 512, 1, 101);
    Sub(b, 156, 512, 101, 107);
    Sub(b, 156, 512, 107, 109);
    Sub(b, 156, 512, 189, 344);
    assert b[0..148] == b[..148];
    assert b[156..512] == b[156..];
    assert b[156..][0] == b[156];
  }

  lemma PrintedZero()
    ensures Printed(0, 8) == [48, 48, 48, 48, 48, 48, 48, 0]
  {
    assert OctalDigits(0) == [48];
    assert Repeat(ZERO, 6) + [48] == [48, 48, 48, 48, 48, 48, 48];
  }

  /** The bytes of a header that the reader does not look at: user and group are zero, and nothing but NULs follows the
      version. The type flag and the magic are those of the standard. */
  lemma OtherFields(e: Entry)
    ensures var b := HeaderBytes(e);
            && b[108..116] == [48, 48, 48, 48, 48, 48, 48, 0] && b[116..124] == [48, 48, 48, 48, 48, 48, 48, 0]
            && b[156] == (if e.body.Target? then 50 else 48)
            && b[257..265] == [117, 115, 116, 97, 114, 0, 48, 48]
            && forall i :: 265 <= i < 512 ==> b[i] == 0
  {
    hide HeaderBytes, Copied, Printed, LinkOf, Repeat;
    HeaderFields(e);
    UserAndGroup(e);
    AfterVersion(e);
    var b := HeaderBytes(e);
    assert b[257..265] == b[257..263] + b[263..265];
  }

  lemma HeaderParts(e: Entry)
    ensures HeaderBytes(e)[..148] == FrontBytes(e) && HeaderBytes(e)[156..] == TailBytes(e)
  {
    hide FrontBytes, TailBytes, ChecksumField, Sum;
  }

  lemma UserAndGroup(e: Entry)
    ensures var b := HeaderBytes(e);
            && b[108..116] == [48, 48, 48, 48, 48, 48, 48, 0] && b[116..124] == [48, 48, 48, 48, 48, 48, 48, 0]
  {
    hide HeaderBytes, FrontBytes, TailBytes, Printed;
    var b := HeaderBytes(e);
    PrintedZero();
    HeaderParts(e);
    FrontZeros(e);
    Sub(b, 0, 148, 108, 116);
    Sub(b, 0, 148, 116, 124);
    assert b[0..148] == b[..148];
  }

  lemma AfterVersion(e: Entry)
    ensures forall i :: 265 <= i < 512 ==> HeaderBytes(e)[i] == 0
  {
    hide HeaderBytes, FrontBytes, TailBytes;
    HeaderParts(e);
    TailZeros(e);
    forall i | 265 <= i < 512
      ensures HeaderBytes(e)[i] == 0
    {
      assert HeaderBytes(e)[i] == HeaderBytes(e)[156..][i - 156];
    }
  }

  lemma FrontZeros(e: Entry)
    ensures FrontBytes(e)[108..116] == Printed(0, 8) && FrontBytes(e)[116..124] == Printed(0, 8)
  {
    hide Copied, Printed, SizeOf;
    var zero := Printed(0, 8);
    var r5 := Printed(SizeOf(e), 12) + Printed(e.mtime, 12);
    var r4 := zero + r5;
    var r3 := zero + r4;
    var r2 := Printed(e.mode % 512, 8) + r3;
    Cut(Copied(e.name, 100), r2, 8, 16);
    Cut(Copied(e.name, 100), r2, 16, 24);
    Cut(Printed(e.mode % 512, 8), r3, 0, 8);
    Cut(Printed(e.mode % 512, 8), r3, 8, 16);
    Cut(zero, r4, 0, 8);
    assert r3[0..8] == r3[..8] == zero;
    assert r4[0..8] == r4[..8] == zero;
  }

  lemma TailZeros(e: Entry)
    ensures forall i :: 109 <= i < 356 ==> TailBytes(e)[i] == 0
  {
    hide Copied, LinkOf;
  }

  lemma Sub(s: seq<Byte>, i: nat, j: nat, k: nat, l: nat)
    requires i <= j <= |s| && k <= l <= j - i
    ensures s[i..j][k..l] == s[i + k..i + l]
  {
    assert forall m :: k <= m < l ==> s[i..j][m] == s[i + m];
  }

  /** The checksum always fits its six digits, and the reader finds it right. */
  lemma ChecksumIsRight(e: Entry)
    ensures ChecksumHolds(HeaderBytes(e))
    ensures Sum(WithChecksum(e, Repeat(SPACE, 8))) < Power8(6)
    ensures HeaderBytes(e)[148..156] == Padded(Sum(WithChecksum(e, Repeat(SPACE, 8))), 6) + [0, SPACE]
  {
    hide FrontBytes, TailBytes, Padded, Repeat;
    var spaces := Repeat(SPACE, 8);
    var sum := Sum(WithChecksum(e, spaces));
    PowersOf8();
    SixDigits(sum);
    var field := ChecksumField(sum);
    var b := HeaderBytes(e);
    var rest := field + TailBytes(e);
    assert b == FrontBytes(e) + rest;
    Cut(FrontBytes(e), rest, 0, 8);
    Cut(FrontBytes(e), rest, 8, 364);
    Cut(field, TailBytes(e), 0, 356);
    assert rest[0..8] == rest[..8];
    assert b[156..512] == b[156..];
    assert rest[8..364] == TailBytes(e)[0..356] == TailBytes(e);
    assert b[..148] + (spaces + b[156..]) == WithChecksum(e, spaces);
  }

  lemma PowersOf8()
    ensures Power8(6) == 262144
  {
    assert Power8(2) == 64;
    assert Power8(4) == 4096;
  }

  lemma SixDigits(sum: nat)
    requires sum < Power8(6)
    ensures ChecksumField(sum) == Padded(sum, 6) + [0, SPACE]
    ensures ReadOctal(ChecksumField(sum)) == Some(sum)
  {
    DigitCount(sum, 6);
    PaddedIsOctal(sum, 6);
    assert Padded(sum, 6)[..6] == Padded(sum, 6);
    assert Repeat(SPACE, 1) == [SPACE];
    assert ChecksumField(sum) == Padded(sum, 6) + [0, SPACE];
    UptoEnd(Padded(sum, 6), [0, SPACE], {0, SPACE});
  }

  lemma CopiedIsRead(text: seq<Byte>, size: nat)
    requires 0 < size && 0 !in text
    ensures ReadString(Copied(text, size)) == text[..Min(|text|, size - 1)]
  {
    var n := Min(|text|, size - 1);
    UptoEnd(text[..n], Repeat(0, size - n), {0});
  }

  lemma {:induction false} ZerosAreEmpty(n: nat)
    ensures ReadString(Repeat(0, n)) == []
  {
  }

  /** What the reader finds in the header of an entry. */
  lemma HeaderIsRead(e: Entry)
    requires CStrings(e)
    ensures var b := HeaderBytes(e);
            && b != Repeat(0, BLOCK) && b[257..263] == USTAR && b[263..265] == VERSION && ChecksumHolds(b)
            && ReadOctal(b[100..108]) == Some(e.mode % 512)
            && ReadOctal(b[124..136]) == Some(Shown(SizeOf(e), 12))
            && ReadOctal(b[136..148]) == Some(Shown(e.mtime, 12))
            && ReadName(b) == e.name[..Min(|e.name|, 99)]
            && b[156] == TypeFlag(e) && ReadString(b[157..257]) == LinkOf(e)[..Min(|LinkOf(e)|, 99)]
  {
    hide HeaderBytes, Copied, Printed, ReadString, ReadOctal, ChecksumHolds, Repeat, Shown, LinkOf, SizeOf;
    var b := HeaderBytes(e);
    HeaderFields(e);
    ChecksumIsRight(e);
    CopiedIsRead(e.name, 100);
    CopiedIsRead(LinkOf(e), 100);
    ZerosAreEmpty(155);
    PrintedIsRead(e.mode % 512, 8);
    PrintedIsRead(SizeOf(e), 12);
    PrintedIsRead(e.mtime, 12);
    ModeFits(e.mode);
    assert b[257..263][0] == b[257];
  }

  lemma ReadLink(e: Entry, stream: seq<Byte>)
    requires CStrings(e) && e.body.Target?
    ensures Read(Packed(e) + stream) == Prepend(Kept(e), Read(stream))
  {
    hide HeaderBytes, ReadString, ReadOctal, ReadName, ChecksumHolds, Repeat, Shown, PaddingLength, Padded, CStrings;
    HeaderIsRead(e);
    assert (Packed(e) + stream)[..BLOCK] == HeaderBytes(e);
    assert (Packed(e) + stream)[BLOCK..] == stream;
  }

  /** The content read has the length that the size field shows. */
  lemma ReadFile(e: Entry, stream: seq<Byte>)
    requires CStrings(e) && e.body.Content?
    ensures var rest := BodyBytes(e) + stream;
            var size := Shown(SizeOf(e), 12);
            Read(Packed(e) + stream)
            == if |rest| < size + PaddingLength(size) then None
               else
                 Prepend(Entry(e.name[..Min(|e.name|, 99)], e.mode % 512, Shown(e.mtime, 12),
                               Content(rest[..size])),
                         Read(rest[size + PaddingLength(size)..]))
  {
    hide HeaderBytes, ReadString, ReadOctal, ReadName, ChecksumHolds, Repeat, Shown, PaddingLength, Padded, CStrings;
    hide BodyBytes;
    HeaderIsRead(e);
    assert (Packed(e) + stream)[..BLOCK] == HeaderBytes(e);
    assert (Packed(e) + stream)[BLOCK..] == BodyBytes(e) + stream;
  }

  /** An entry in front of a stream is read as what is kept of it. */
  lemma ReadPacked(e: Entry, stream: seq<Byte>)
    requires Writable(e)
    ensures Read(Packed(e) + stream) == Prepend(Kept(e), Read(stream))
  {
    hide Packed, Read, Repeat, Shown, PaddingLength, Padded, Power8;
    if e.body.Target? {
      ReadLink(e, stream);
    } else {
      var n := |e.body.bytes|;
      var rest := BodyBytes(e) + stream;
      ShownIsNumber(n, 12);
      ReadFile(e, stream);
      assert rest == e.body.bytes + (Repeat(0, PaddingLength(n)) + stream);
      assert rest[..n] == e.body.bytes;
      assert rest[n + PaddingLength(n)..] == stream;
    }
  }

  /** A file whose size does not fit its field is read cut short, if the stream can be read at all. */
  lemma ReadLarge(e: Entry, stream: seq<Byte>)
    requires CStrings(e) && Power8(11) <= SizeOf(e)
    ensures var r := Read(Packed(e) + stream);
            r.Some? ==> r.value != [] && r.value[0].body.Content? && |r.value[0].body.bytes| < SizeOf(e)
  {
    hide Packed, Read, Repeat, Shown, PaddingLength, Padded, Power8, BodyBytes;
    assert 1 <= Power8(11);
    ReadFile(e, stream);
    ShownIsNumber(SizeOf(e), 12);
  }

  lemma ModeFits(mode: nat)
    ensures Shown(mode % 512, 8) == mode % 512
  {
    assert Power8(3) == 512;
    assert Power8(3) <= Power8(4) <= Power8(5) <= Power8(7);
    ShownIsNumber(mode % 512, 8);
  }

  function KeptAll(entries: seq<Entry>): (r: seq<Entry>)
    ensures |r| == |entries| && forall i :: 0 <= i < |r| ==> r[i] == Kept(entries[i])
  {
    if entries == [] then [] else KeptAll(entries[..|entries| - 1]) + [Kept(entries[|entries| - 1])]
  }

  lemma {:induction false} ReadEntries(entries: seq<Entry>, stream: seq<Byte>)
    requires (forall e <- entries :: Writable(e)) && Read(stream).Some?
    ensures Read(EntriesBytes(entries) + stream) == Some(KeptAll(entries) + Read(stream).value)
  {
    hide Read, Packed, Kept, Writable, CStrings;
    if entries == [] {
      assert EntriesBytes(entries) + stream == stream;
      assert KeptAll(entries) + Read(stream).value == Read(stream).value;
    } else {
      var n := |entries| - 1;
      var before := EntriesBytes(entries[..n]);
      var e := entries[n];
      assert (before + Packed(e)) + stream == before + (Packed(e) + stream);
      ReadPacked(e, stream);
      ReadEntries(entries[..n], Packed(e) + stream);
      assert KeptAll(entries[..n]) + ([Kept(e)] + Read(stream).value) == KeptAll(entries) + Read(stream).value;
    }
  }

  /** The reader recovers exactly the entries of an archive, as far as they are kept. */
  lemma ArchiveRoundTrip(entries: seq<Entry>)
    requires forall e <- entries :: Writable(e)
    ensures Read(ArchiveBytes(entries)) == Some(KeptAll(entries))
  {
    hide Writable, EntriesBytes;
    var end := Repeat(0, 2 * BLOCK);
    assert end[..BLOCK] == Repeat(0, BLOCK);
    assert end[BLOCK..] == Repeat(0, BLOCK);
    ReadEntries(entries, end);
    assert KeptAll(entries) + [] == KeptAll(entries);
  }

  /** Files of 8 GiB and more break the round trip: it holds exactly when every size fits its field. */
  lemma ArchiveRoundTripIff(entries: seq<Entry>)
    requires forall e <- entries :: CStrings(e)
    ensures Read(ArchiveBytes(entries)) == Some(KeptAll(entries))
       <==> forall e <- entries :: SizeOf(e) < Power8(11)
  {
    hide Power8, CStrings, SizeOf, Read, EntriesBytes, Kept;
    if forall e <- entries :: SizeOf(e) < Power8(11) {
      ArchiveRoundTrip(entries);
    } else {
      FirstLarge(entries, Repeat(0, 2 * BLOCK), []);
      assert KeptAll(entries) + [] == KeptAll(entries);
    }
  }

  /** Whatever follows, a sequence with a file that is too large is not read back. */
  lemma {:induction false} FirstLarge(entries: seq<Entry>, stream: seq<Byte>, others: seq<Entry>)
    requires forall e <- entries :: CStrings(e)
    requires exists e <- entries :: Power8(11) <= SizeOf(e)
    ensures Read(EntriesBytes(entries) + stream) != Some(KeptAll(entries) + others)
    decreases |entries|
  {
    hide Power8, CStrings, SizeOf, Read, EntriesBytes, Packed, Kept;
    var e := entries[0];
    var tail := entries[1..];
    OneThenRest(entries);
    assert Packed(e) + EntriesBytes(tail) + stream == Packed(e) + (EntriesBytes(tail) + stream);
    assert KeptAll(entries) + others == [Kept(e)] + (KeptAll(tail) + others);
    if SizeOf(e) < Power8(11) {
      ReadPacked(e, EntriesBytes(tail) + stream);
      assert forall x <- entries :: x == e || x in tail;
      FirstLarge(tail, stream, others);
      PrependIsOne(Kept(e), Read(EntriesBytes(tail) + stream), KeptAll(tail) + others);
    } else {
      ReadLarge(e, EntriesBytes(tail) + stream);
      KeptSize(e);
      assert ([Kept(e)] + (KeptAll(tail) + others))[0] == Kept(e);
    }
  }

  lemma PrependIsOne(e: Entry, r: Option<seq<Entry>>, s: seq<Entry>)
    ensures Prepend(e, r) == Some([e] + s) ==> r == Some(s)
  {
    if Prepend(e, r) == Some([e] + s) {
      assert ([e] + r.value)[1..] == r.value;
      assert ([e] + s)[1..] == s;
    }
  }

  lemma KeptSize(e: Entry)
    ensures Kept(e).body.Content? ==> |Kept(e).body.bytes| == SizeOf(e)
  {
  }

  lemma OneThenRest(entries: seq<Entry>)
    requires entries != []
    ensures EntriesBytes(entries) == Packed(entries[0]) + EntriesBytes(entries[1..])
    ensures KeptAll(entries) == [Kept(entries[0])] + KeptAll(entries[1..])
  {
    hide Packed, Kept, EntriesBytes, KeptAll;
    assert entries == [entries[0]] + entries[1..];
    EntriesJoin([entries[0]], entries[1..]);
    OneEntry(entries[0]);
    KeptOneThenRest(entries);
  }

  lemma OneEntry(e: Entry)
    ensures EntriesBytes([e]) == Packed(e)
  {
    hide Packed;
    assert [e][..0] == [];
    assert EntriesBytes([]) + Packed(e) == Packed(e);
  }

  lemma KeptOneThenRest(entries: seq<Entry>)
    requires entries != []
    ensures KeptAll(entries) == [Kept(entries[0])] + KeptAll(entries[1..])
  {
    hide Kept, KeptAll;
    var all, tail := KeptAll(entries), KeptAll(entries[1..]);
    forall i | 0 < i < |entries|
      ensures all[i] == tail[i - 1]
    {
      assert entries[1..][i - 1] == entries[i];
    }
  }

  /** An entry is kept whole exactly when its names have at most 99 bytes, its mode at most nine bits and its
      time of modification at most eleven octal digits. */
  lemma KeptWhole(e: Entry)
    ensures Kept(e) == e
      <==> |e.name| <= 99 && |LinkOf(e)| <= 99 && e.mode < 512 && e.mtime < Power8(11)
  {
    hide Shown;
    ShownIsNumber(e.mtime, 12);
    assert |e.name| <= 99 ==> e.name[..Min(|e.name|, 99)] == e.name;
    assert |LinkOf(e)| <= 99 ==> LinkOf(e)[..Min(|LinkOf(e)|, 99)] == LinkOf(e);
    if e.body.Target? {
      assert Kept(e).body.path == e.body.path[..Min(|e.body.path|, 99)];
    }
  }

  /** Archives of entries that are kept whole differ when the entries differ. */
  lemma ArchiveIsInjective(entries: seq<Entry>, others: seq<Entry>)
    requires forall e <- entries :: Writable(e) && Kept(e) == e
    requires forall e <- others :: Writable(e) && Kept(e) == e
    ensures ArchiveBytes(entries) == ArchiveBytes(others) ==> entries == others
  {
    hide Writable, Kept, ArchiveBytes;
    ArchiveRoundTrip(entries);
    ArchiveRoundTrip(others);
    assert KeptAll(entries) == entries;
    assert KeptAll(others) == others;
  }

  lemma PackedIsWhole(e: Entry)
    ensures |Packed(e)| % BLOCK == 0
  {
    hide HeaderBytes, Repeat, PaddingLength;
  }

  lemma {:induction false} WholeBlocks(entries: seq<Entry>)
    ensures |EntriesBytes(entries)| % BLOCK == 0
  {
    hide HeaderBytes, Repeat, PaddingLength, Packed;
    if entries != [] {
      WholeBlocks(entries[..|entries| - 1]);
      PackedIsWhole(entries[|entries| - 1]);
    }
  }

  /** An archive is a whole number of blocks and ends in two blocks of zeros. */
  lemma ArchiveShape(entries: seq<Entry>)
    ensures var s := ArchiveBytes(entries);
            |s| % BLOCK == 0 && 2 * BLOCK <= |s| && forall i :: |s| - 2 * BLOCK <= i < |s| ==> s[i] == 0
  {
    hide EntriesBytes;
    WholeBlocks(entries);
  }

  lemma {:induction false} EntriesJoin(entries: seq<Entry>, more: seq<Entry>)
    ensures EntriesBytes(entries + more) == EntriesBytes(entries) + EntriesBytes(more)
  {
    hide Packed;
    if more == [] {
      assert entries + more == entries;
    } else {
      var n := |more| - 1;
      assert (entries + more)[..|entries| + n] == entries + more[..n];
      EntriesJoin(entries, more[..n]);
    }
  }
}
