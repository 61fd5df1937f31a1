/** The base64 encoder of the upload checksums, and a decoder of section 4 of RFC 4648. */
module Base64 {
  import opened Bytes
  import opened Options

  const UPPER := "ABCDEFGHIJKLMNOPQRSTUVWXYZ"
  const LOWER := "abcdefghijklmnopqrstuvwxyz"
  const DIGITS := "0123456789+/"
  const PAD := '='

  function Symbol(v: nat): char
    requires v < 64
  {
    (UPPER + LOWER + DIGITS)[v]
  }

  /** The length of an encoding: four characters for every group of three bytes, the last one padded. */
  function EncodedLength(n: nat): nat {
    (n + 2) / 3 * 4
  }

  lemma NoneEncoded()
    ensures EncodedLength(0) == 0
  {
  }

  lemma EncodedLengths(n: nat)
    ensures 0 < n <= 3 ==> EncodedLength(n) == 4
    ensures 3 < n ==> EncodedLength(n) == 4 + EncodedLength(n - 3)
  {
  }

  /** The three bytes of a group as one number; a missing byte counts as zero. The bytes have no bits in
      common, so joining them is adding them. */
  function Triple(a: Byte, b: Byte, c: Byte): (t: nat)
    ensures t < 0x100_0000
  {
    a * 0x1_0000 + b * 0x100 + c
  }

  /** The six bits of `triple` from bit `shift` on. */
  function Sextet(triple: nat, shift: nat): (v: nat)
    requires shift == 0 || shift == 6 || shift == 12 || shift == 18
    ensures v < 64
  {
    if shift == 0 then triple % 64
    else if shift == 6 then triple / 64 % 64
    else if shift == 12 then triple / 4096 % 64
    else triple / 262144 % 64
  }

  function EncodeGroup(g: seq<Byte>): (r: string)
    requires 1 <= |g| <= 3
    ensures |r| == 4
  {
    var t := Triple(g[0], if |g| > 1 then g[1] else 0, if |g| > 2 then g[2] else 0);
    [Symbol(Sextet(t, 18)), Symbol(Sextet(t, 12)),
     if |g| > 1 then Symbol(Sextet(t, 6)) else PAD, if |g| > 2 then Symbol(Sextet(t, 0)) else PAD]
  }

  function Encode(input: seq<Byte>): (r: string)
    ensures |r| == EncodedLength(|input|)
  {
    hide EncodeGroup, EncodedLength;
    EncodedLengths(|input|);
    if input == [] then NoneEncoded(); ""
    else if |input| <= 3 then EncodeGroup(input)
    else EncodeGroup(input[..3]) + Encode(input[3..])
  }

  // The decoder

  /** The value of a character of the alphabet. */
  function Value(c: char): Option<nat> {
    if 'A' <= c <= 'Z' then Some(c as int - 'A' as int)
    else if 'a' <= c <= 'z' then Some(c as int - 'a' as int + 26)
    else if '0' <= c <= '9' then Some(c as int - '0' as int + 52)
    else if c == '+' then Some(62)
    else if c == '/' then Some(63)
    else None
  }

  /** The bytes of a group of four characters, padded with `=`. The bits that are left over in a padded group are zero. */
  function DecodeGroup(q: string): Option<seq<Byte>>
    requires |q| == 4
  {
    var v0, v1, v2, v3 := Value(q[0]), Value(q[1]), Value(q[2]), Value(q[3]);
    if v0.None? || v1.None? then None
    else if q[2] == '=' then
      if q[3] == '=' && v1.value % 16 == 0 then Bytes3(v0.value, v1.value, 0, 0, 1) else None
    else if v2.None? then None
    else if q[3] == '=' then
      if v2.value % 4 == 0 then Bytes3(v0.value, v1.value, v2.value, 0, 2) else None
    else if v3.None? then None
    else Bytes3(v0.value, v1.value, v2.value, v3.value, 3)
  }

  /** The first `n` of the three bytes that four sextets make up. */
  function Bytes3(v0: nat, v1: nat, v2: nat, v3: nat, n: nat): Option<seq<Byte>>
    requires n <= 3
  {
    if v0 < 64 && v1 < 64 && v2 < 64 && v3 < 64 then
      Some([v0 * 4 + v1 / 16, v1 % 16 * 16 + v2 / 4, v2 % 4 * 64 + v3][..n])
    else None
  }

  /** Only the last group is padded. */
  function Decode(s: string): Option<seq<Byte>> {
    if s == "" then Some([])
    else if |s| < 4 then None
    else
      var first := DecodeGroup(s[..4]);
      if first.None? then None
      else if |s| == 4 then first
      else if |first.value| < 3 then None
      else
        var rest := Decode(s[4..]);
        if rest.None? then None else Some(first.value + rest.value)
  }

  // Encoding and decoding undo each other

  lemma UpperCase(i: nat)
    requires i < 26
    ensures UPPER[i] as int == 'A' as int + i
  {
  }

  lemma LowerCase(i: nat)
    requires i < 26
    ensures LOWER[i] as int == 'a' as int + i
  {
  }

  lemma AlphabetValues(i: nat)
    requires i < 64
    ensures Value(Symbol(i)) == Some(i) && Symbol(i) != PAD
  {
    if i < 26 {
      UpperCase(i);
    } else if i < 52 {
      LowerCase(i - 26);
    } else if i < 62 {
      assert DIGITS[i - 52] as int == i - 4;
    }
  }

  lemma ValuesInAlphabet(c: char)
    requires Value(c).Some?
    ensures Value(c).value < 64 && Symbol(Value(c).value) == c && c != PAD
  {
    hide Symbol;
    AlphabetValues(Value(c).value);
    var d := Symbol(Value(c).value);
    assert Value(d) == Value(c);
  }

  lemma SextetsOfTriple(a: Byte, b: Byte, c: Byte)
    ensures var t := Triple(a, b, c);
            && Sextet(t, 18) == a / 4 && Sextet(t, 12) == a % 4 * 16 + b / 16
            && Sextet(t, 6) == b % 16 * 4 + c / 64 && Sextet(t, 0) == c % 64
  {
    var t := Triple(a, b, c);
    var q := a / 4;
    var r := b / 16;
    var u := c / 64;
    assert t == 262144 * q + 4096 * (a % 4 * 16 + r) + 64 * (b % 16 * 4 + u) + c % 64;
    assert t / 64 == 4096 * q + 64 * (a % 4 * 16 + r) + (b % 16 * 4 + u);
    assert t / 4096 == 64 * q + (a % 4 * 16 + r);
    assert t / 262144 == q;
  }

  lemma GroupRoundTrip(g: seq<Byte>)
    requires 1 <= |g| <= 3
    ensures DecodeGroup(EncodeGroup(g)) == Some(g)
  {
    hide Sextet, Value, Triple, Symbol;
    var a := g[0];
    var b := if |g| > 1 then g[1] else 0;
    var c := if |g| > 2 then g[2] else 0;
    var t := Triple(a, b, c);
    SextetsOfTriple(a, b, c);
    AlphabetValues(Sextet(t, 18));
    AlphabetValues(Sextet(t, 12));
    AlphabetValues(Sextet(t, 6));
    AlphabetValues(Sextet(t, 0));
    assert [a, b, c][..|g|] == g;
  }

  /** Splitting the bytes of four sextets gives the sextets back. */
  lemma BytesOfSextets(v0: nat, v1: nat, v2: nat, v3: nat)
    requires v0 < 64 && v1 < 64 && v2 < 64 && v3 < 64
    ensures var a, b, c := v0 * 4 + v1 / 16, v1 % 16 * 16 + v2 / 4, v2 % 4 * 64 + v3;
            && a / 4 == v0 && a % 4 * 16 + b / 16 == v1
            && b % 16 * 4 + c / 64 == v2 && c % 64 == v3
  {
    var a, b, c := v0 * 4 + v1 / 16, v1 % 16 * 16 + v2 / 4, v2 % 4 * 64 + v3;
    assert a / 4 == v0 && a % 4 == v1 / 16;
    assert b / 16 == v1 % 16 && b % 16 == v2 / 4;
    assert c / 64 == v2 % 4;
  }

  /** The sextets of a group that decodes; where it is padded they are zero. */
  function ValueOrZero(c: char): nat {
    if Value(c).Some? then Value(c).value else 0
  }

  lemma PadHasNoValue()
    ensures Value(PAD) == None
  {
  }

  lemma DecodedBytes(q: string)
    requires |q| == 4 && DecodeGroup(q).Some?
    ensures var v0, v1, v2, v3 := ValueOrZero(q[0]), ValueOrZero(q[1]), ValueOrZero(q[2]), ValueOrZero(q[3]);
            var n := if q[2] == PAD then 1 else if q[3] == PAD then 2 else 3;
            && v0 < 64 && v1 < 64 && v2 < 64 && v3 < 64
            && (n == 1 ==> v1 % 16 == 0 && v2 == 0 && q[3] == PAD) && (n <= 2 ==> v2 % 4 == 0 && v3 == 0)
            && Value(q[0]).Some? && Value(q[1]).Some? && (n > 1 ==> Value(q[2]).Some?) && (n > 2 ==> Value(q[3]).Some?)
            && Bytes3(v0, v1, v2, v3, n) == DecodeGroup(q)
  {
    hide Value;
    PadHasNoValue();
  }

  lemma GroupIsCanonical(q: string)
    requires |q| == 4 && DecodeGroup(q).Some?
    ensures 1 <= |DecodeGroup(q).value| <= 3 && EncodeGroup(DecodeGroup(q).value) == q
  {
    hide Sextet, Value, Triple, Symbol, DecodeGroup, ValueOrZero;
    var g := DecodeGroup(q).value;
    var v0, v1, v2, v3 := ValueOrZero(q[0]), ValueOrZero(q[1]), ValueOrZero(q[2]), ValueOrZero(q[3]);
    DecodedBytes(q);
    BytesOfSextets(v0, v1, v2, v3);
    var a, b, c := v0 * 4 + v1 / 16, v1 % 16 * 16 + v2 / 4, v2 % 4 * 64 + v3;
    SextetsOfTriple(a, b, c);
    Spelled(q[0]);
    Spelled(q[1]);
    Spelled(q[2]);
    Spelled(q[3]);
    assert EncodeGroup(g)[0] == q[0] && EncodeGroup(g)[1] == q[1];
  }

  lemma Spelled(c: char)
    requires ValueOrZero(c) < 64
    ensures Value(c).Some? ==> Symbol(ValueOrZero(c)) == c
  {
    hide Value, Symbol;
    if Value(c).Some? {
      ValuesInAlphabet(c);
    }
  }

  /** Decoding gives back every input. */
  lemma {:induction false} RoundTrip(input: seq<Byte>)
    ensures Decode(Encode(input)) == Some(input)
  {
    hide EncodeGroup, DecodeGroup;
    if 0 < |input| <= 3 {
      GroupRoundTrip(input);
      assert Encode(input)[..4] == EncodeGroup(input);
    } else if |input| > 3 {
      GroupRoundTrip(input[..3]);
      RoundTrip(input[3..]);
      assert Encode(input)[..4] == EncodeGroup(input[..3]);
      assert Encode(input)[4..] == Encode(input[3..]);
      assert input[..3] + input[3..] == input;
    }
  }

  /** What decodes is what the encoder writes. */
  lemma {:induction false} Canonical(s: string)
    requires Decode(s).Some?
    ensures Encode(Decode(s).value) == s
  {
    hide EncodeGroup, DecodeGroup;
    if s != "" {
      GroupIsCanonical(s[..4]);
      var first := DecodeGroup(s[..4]).value;
      if |s| == 4 {
        assert s[..4] == s;
      } else {
        Canonical(s[4..]);
        var rest := Decode(s[4..]).value;
        assert rest != [] by {
          assert |Encode(rest)| == |s[4..]|;
        }
        assert (first + rest)[..3] == first && (first + rest)[3..] == rest;
        assert s[..4] + s[4..] == s;
      }
    }
  }

  /** Different inputs have different encodings. */
  lemma Injective(input: seq<Byte>, other: seq<Byte>)
    ensures Encode(input) == Encode(other) ==> input == other
  {
    hide Encode, Decode;
    RoundTrip(input);
    RoundTrip(other);
  }

  // The loop

  /** Encodes the first `length` bytes into a buffer that has room for the characters and a final NUL, and
      leaves a smaller buffer alone. */
  method Base64Encode(input: array<Byte>, length: nat, output: array<char>) returns (ok: bool)
    requires length <= input.Length
    modifies output
    ensures ok <==> EncodedLength(length) < output.Length
    ensures ok ==>
              var n := EncodedLength(length);
              output[..n] == Encode(input[..length]) && output[n] == '\0'
              && output[n + 1..] == old(output[n + 1..])
    ensures !ok ==> output[..] == old(output[..])
  {
    hide Encode, EncodedLength, Sextet, Triple, Symbol;
    NoneEncoded();
    var outputLength := EncodedLength(length);
    if outputLength >= output.Length {
      return false;
    }
    ghost var data := input[..length];
    var i, j := 0, 0;
    assert data[0..] == data;
    while i < length
      invariant 0 <= i && 0 <= j <= outputLength
      invariant i < length ==> j + EncodedLength(length - i) == outputLength
      invariant i >= length ==> j == outputLength
      invariant output[..j] + Encode(data[if i < length then i else length..]) == Encode(data)
      invariant output[outputLength + 1..] == old(output[outputLength + 1..])
      decreases length - i
    {
      var a := input[i];
      var b := if i + 1 < length then input[i + 1] else 0;
      var c := if i + 2 < length then input[i + 2] else 0;
      var triple := Triple(a, b, c);
      ghost var before := output[..j];
      EncodedLengths(length - i);
      output[j] := Symbol(Sextet(triple, 18));
      output[j + 1] := Symbol(Sextet(triple, 12));
      output[j + 2] := if i + 1 < length then Symbol(Sextet(triple, 6)) else PAD;
      output[j + 3] := if i + 2 < length then Symbol(Sextet(triple, 0)) else PAD;
      assert output[..j + 4] == before + output[j..j + 4];
      GroupWritten(data, i, output[j..j + 4]);
      i, j := i + 3, j + 4;
    }
    output[outputLength] := '\0';
    ok := true;
  }

  lemma GroupWritten(data: seq<Byte>, i: nat, written: string)
    requires i < |data| && |written| == 4
    requires var t := Triple(data[i], if i + 1 < |data| then data[i + 1] else 0,
                             if i + 2 < |data| then data[i + 2] else 0);
             && written[0] == Symbol(Sextet(t, 18)) && written[1] == Symbol(Sextet(t, 12))
             && written[2] == (if i + 1 < |data| then Symbol(Sextet(t, 6)) else PAD)
             && written[3] == (if i + 2 < |data| then Symbol(Sextet(t, 0)) else PAD)
    ensures Encode(data[i..]) == written + Encode(data[if i + 3 < |data| then i + 3 else |data|..])
  {
    hide Sextet, Triple, Symbol;
    var g := if i + 3 < |data| then data[i..i + 3] else data[i..];
    assert written == EncodeGroup(g);
    if i + 3 < |data| {
      assert data[i..][..3] == g && data[i..][3..] == data[i + 3..];
    } else {
      assert Encode(data[|data|..]) == [];
    }
  }
}
