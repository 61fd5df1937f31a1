/** The byte arrays that hold the compiled masks. */
module BitSets {
  import opened Options
  import opened CronSearch

  /** The bit `1 << k` of a byte. */
  function BitAt(k: int): bv8
    requires 0 <= k < 8
  {
    if k == 0 then 1 else if k == 1 then 2 else if k == 2 then 4 else if k == 3 then 8
    else if k == 4 then 16 else if k == 5 then 32 else if k == 6 then 64 else 128
  }

  /** The byte `~(1 << k)`. */
  function AllBut(k: int): bv8
    requires 0 <= k < 8
  {
    !BitAt(k)
  }

  function Bit(s: seq<bv8>, i: int): bool
    requires 0 <= i < 8 * |s|
  {
    s[i / 8] & BitAt(i % 8) != 0
  }

  /** The set bits of a mask. */
  function BitSet(s: seq<bv8>): (r: set<int>)
    ensures forall i :: i in r <==> 0 <= i < 8 * |s| && Bit(s, i)
  {
    set i | 0 <= i < 8 * |s| && Bit(s, i)
  }

  lemma OrBit(b: bv8, k: int, j: int)
    requires 0 <= k < 8 && 0 <= j < 8
    ensures ((b | BitAt(k)) & BitAt(j) != 0) <==> (j == k || b & BitAt(j) != 0)
  {
  }

  lemma ClearBit(b: bv8, k: int, j: int)
    requires 0 <= k < 8 && 0 <= j < 8
    ensures ((b & AllBut(k)) & BitAt(j) != 0) <==> (j != k && b & BitAt(j) != 0)
  {
  }

  /** `dcmCronParseGetBit` */
  function GetBit(bits: array<bv8>, idx: int): (r: bool)
    requires 0 <= idx < 8 * bits.Length
    reads bits
    ensures r <==> idx in BitSet(bits[..])
  {
    bits[idx / 8] & BitAt(idx % 8) != 0
  }

  lemma SetBitAdds(s: seq<bv8>, t: seq<bv8>, idx: int)
    requires 0 <= idx < 8 * |s| && t == s[idx / 8 := s[idx / 8] | BitAt(idx % 8)]
    ensures BitSet(t) == BitSet(s) + {idx}
  {
    hide BitAt;
    forall i | 0 <= i < 8 * |s|
      ensures i in BitSet(t) <==> i == idx || i in BitSet(s)
    {
      if i / 8 == idx / 8 {
        OrBit(s[i / 8], idx % 8, i % 8);
      }
    }
  }

  lemma DelBitRemoves(s: seq<bv8>, t: seq<bv8>, idx: int)
    requires 0 <= idx < 8 * |s| && t == s[idx / 8 := s[idx / 8] & AllBut(idx % 8)]
    ensures BitSet(t) == BitSet(s) - {idx}
  {
    hide BitAt, AllBut;
    forall i | 0 <= i < 8 * |s|
      ensures i in BitSet(t) <==> i != idx && i in BitSet(s)
    {
      if i / 8 == idx / 8 {
        ClearBit(s[i / 8], idx % 8, i % 8);
      }
    }
  }

  /** `dcmCronParseSetBit` */
  method SetBit(bits: array<bv8>, idx: int)
    requires 0 <= idx < 8 * bits.Length
    modifies bits
    ensures BitSet(bits[..]) == BitSet(old(bits[..])) + {idx}
  {
    hide BitAt, AllBut;
    SetBitAdds(bits[..], bits[..][idx / 8 := bits[idx / 8] | BitAt(idx % 8)], idx);
    bits[idx / 8] := bits[idx / 8] | BitAt(idx % 8);
  }

  /** `dcmCronParseDelBit` */
  method DelBit(bits: array<bv8>, idx: int)
    requires 0 <= idx < 8 * bits.Length
    modifies bits
    ensures BitSet(bits[..]) == BitSet(old(bits[..])) - {idx}
  {
    hide BitAt, AllBut;
    DelBitRemoves(bits[..], bits[..][idx / 8 := bits[idx / 8] & AllBut(idx % 8)], idx);
    bits[idx / 8] := bits[idx / 8] & AllBut(idx % 8);
  }

  /** `dcmCronParseNextSetBit` */
  method NextSetBit(bits: array<bv8>, max: int, from: int) returns (i: int, notfound: bool)
    requires 0 <= from && max <= 8 * bits.Length
    ensures var r := NextIn(BitSet(bits[..]), max, from);
            if r.Some? then !notfound && i == r.value else notfound && i == 0
  {
    hide GetBit, Bit;
    i, notfound := from, false;
    while i < max
      invariant from <= i
      invariant NextIn(BitSet(bits[..]), max, from) == NextIn(BitSet(bits[..]), max, i)
    {
      if GetBit(bits, i) {
        return;
      }
      i := i + 1;
    }
    i, notfound := 0, true;
  }

  /** Bit `k` of a byte is worth two to the `k`, and eight bits are a byte. */
  lemma BitPlaces(i: int)
    requires 0 <= i < 24
    ensures Bit([1, 10, 128], i) <==> i == 0 || i == 9 || i == 11 || i == 23
    ensures Bit([84, 32, 0], i) <==> i == 2 || i == 4 || i == 6 || i == 13
  {
    assert i / 8 == 0 || i / 8 == 1 || i / 8 == 2;
  }
}
