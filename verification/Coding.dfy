// Byte strings and the fixed-width and variable-width integer codecs of util/coding.cc.
module Coding {
  import opened Wrappers

  type Byte = b: nat | b < 256
  type Bytes = seq<Byte>

  const UINT32: nat := 0x1_0000_0000
  const UINT64: nat := 0x1_0000_0000_0000_0000

  /** base to the power n. */
  function Pow(base: nat, n: nat): (r: nat)
    ensures base > 0 ==> r > 0
  {
    if n == 0 then 1 else base * Pow(base, n - 1)
  }

  // ---------------------------------------------------------------- fixed width

  /** Little-endian, least significant byte first. */
  function EncodeFixed(v: nat, width: nat): (s: Bytes)
    ensures |s| == width
  {
    if width == 0 then [] else [v % 256] + EncodeFixed(v / 256, width - 1)
  }

  function DecodeFixed(s: Bytes): nat {
    if s == [] then 0 else s[0] + 256 * DecodeFixed(s[1..])
  }

  function Fixed32(v: nat): Bytes { EncodeFixed(v, 4) }

  function Fixed64(v: nat): Bytes { EncodeFixed(v, 8) }

  lemma {:induction false} FixedBound(s: Bytes)
    ensures DecodeFixed(s) < Pow(256, |s|)
  {
    if s == [] {
    } else {
      FixedBound(s[1..]);
    }
  }

  lemma {:induction false} FixedRoundTrip(v: nat, width: nat)
    requires v < Pow(256, width)
    ensures DecodeFixed(EncodeFixed(v, width)) == v
  {
    if width == 0 {
    } else {
      FixedRoundTrip(v / 256, width - 1);
    }
  }

  lemma Pow256Values()
    ensures Pow(256, 2) == 0x1_0000 && Pow(256, 4) == UINT32 && Pow(256, 8) == UINT64
  {
    assert Pow(256, 1) == 256 && Pow(256, 2) == 0x1_0000;
    assert Pow(256, 3) == 0x100_0000 && Pow(256, 4) == UINT32;
    assert Pow(256, 5) == 256 * UINT32 && Pow(256, 6) == 0x1_0000 * UINT32;
    assert Pow(256, 7) == 0x100_0000 * UINT32;
  }

  lemma Fixed32RoundTrip(v: nat)
    requires v < UINT32
    ensures DecodeFixed(Fixed32(v)) == v
  {
    Pow256Values();
    FixedRoundTrip(v, 4);
  }

  lemma Fixed64RoundTrip(v: nat)
    requires v < UINT64
    ensures DecodeFixed(Fixed64(v)) == v
  {
    Pow256Values();
    FixedRoundTrip(v, 8);
  }

  // ------------------------------------------------------------- variable width

  /** Seven bits a byte, least significant group first, high bit set on all but the last byte. */
  function EncodeVarint(v: nat): (s: Bytes)
    ensures s != []
  {
    if v < 128 then [v] else [v % 128 + 128] + EncodeVarint(v / 128)
  }

  /** Reads at most budget bytes; the value is not yet cut to the width of the result. */
  function GetVarint(input: Bytes, budget: nat): (r: Option<(nat, Bytes)>)
    ensures r.Some? ==> |r.value.1| < |input| && r.value.1 == input[|input| - |r.value.1|..]
  {
    if budget == 0 || input == [] then None
    else if input[0] < 128 then Some((input[0], input[1..]))
    else
      match GetVarint(input[1..], budget - 1)
      case None => None
      case Some((v, rest)) => Some((input[0] - 128 + 128 * v, rest))
  }

  function GetVarint32(input: Bytes): (r: Option<(nat, Bytes)>)
    ensures r.Some? ==> |r.value.1| < |input| && r.value.0 < UINT32
  {
    match GetVarint(input, 5)
    case None => None
    case Some((v, rest)) => Some((v % UINT32, rest))
  }

  function GetVarint64(input: Bytes): (r: Option<(nat, Bytes)>)
    ensures r.Some? ==> |r.value.1| < |input| && r.value.0 < UINT64
  {
    match GetVarint(input, 10)
    case None => None
    case Some((v, rest)) => Some((v % UINT64, rest))
  }

  lemma {:induction false} VarintLength(v: nat, n: nat)
    requires n > 0 && v < Pow(128, n)
    ensures |EncodeVarint(v)| <= n
  {
    if v >= 128 {
      assert Pow(128, 1) == 128;
      assert n > 1;
      VarintLength(v / 128, n - 1);
    }
  }

  lemma Pow128Values()
    ensures Pow(128, 5) == 0x8_0000_0000 && Pow(128, 10) == 0x40 * UINT64
  {
    assert Pow(128, 1) == 0x80 && Pow(128, 2) == 0x4000 && Pow(128, 3) == 0x20_0000;
    assert Pow(128, 4) == 0x1000_0000 && Pow(128, 5) == 0x8_0000_0000;
    assert Pow(128, 6) == 0x400_0000_0000 && Pow(128, 7) == 0x2_0000_0000_0000;
    assert Pow(128, 8) == 0x100_0000_0000_0000 && Pow(128, 9) == 0x8000_0000_0000_0000;
  }

  lemma {:induction false} VarintRoundTrip(v: nat, budget: nat, rest: Bytes)
    requires |EncodeVarint(v)| <= budget
    ensures GetVarint(EncodeVarint(v) + rest, budget) == Some((v, rest))
  {
    var s := EncodeVarint(v) + rest;
    if v < 128 {
      assert s[1..] == rest;
    } else {
      VarintRoundTrip(v / 128, budget - 1, rest);
      assert s[1..] == EncodeVarint(v / 128) + rest;
    }
  }

  lemma Varint32RoundTrip(v: nat, rest: Bytes)
    requires v < UINT32
    ensures GetVarint32(EncodeVarint(v) + rest) == Some((v, rest))
  {
    hide EncodeVarint, GetVarint, Pow;
    Pow128Values();
    VarintLength(v, 5);
    VarintRoundTrip(v, 5, rest);
  }

  lemma Varint64RoundTrip(v: nat, rest: Bytes)
    requires v < UINT64
    ensures GetVarint64(EncodeVarint(v) + rest) == Some((v, rest))
  {
    hide EncodeVarint, GetVarint, Pow;
    Pow128Values();
    VarintLength(v, 10);
    VarintRoundTrip(v, 10, rest);
  }

  // ---------------------------------------------------------- length-prefixed

  function PutSlice(s: Bytes): (r: Bytes)
    ensures |r| > |s|
  {
    EncodeVarint(|s|) + s
  }

  function GetSlice(input: Bytes): (r: Option<(Bytes, Bytes)>)
    ensures r.Some? ==> |r.value.1| < |input|
  {
    match GetVarint32(input)
    case None => None
    case Some((len, rest)) => if |rest| >= len then Some((rest[..len], rest[len..])) else None
  }

  /** A length-prefixed string delimits itself: whatever follows it is left untouched. */
  lemma SliceRoundTrip(s: Bytes, rest: Bytes)
    requires |s| < UINT32
    ensures GetSlice(PutSlice(s) + rest) == Some((s, rest))
  {
    Varint32RoundTrip(|s|, s + rest);
    assert PutSlice(s) + rest == EncodeVarint(|s|) + (s + rest);
    assert (s + rest)[..|s|] == s && (s + rest)[|s|..] == rest;
  }
}
