// Which byte strings nanopb's 32-bit varint decoder accepts (Pods/nanopb/pb_decode.c), among those
// that the 64-bit decoder accepts.
module PbAccept {
  import opened Wrappers
  import opened Coding
  import opened PbVarint

  /** The check of a byte past the low 32 bits: nothing in it, or sign extension under a set bit 31. */
  predicate Tolerated(b: Byte, k: nat, signed: bool) {
    b % 128 == 0 || (signed && b == Extension(k))
  }

  /** The n bytes at places k and following of a varint pass every check of the decoder. */
  ghost predicate Passes(input: Bytes, k: nat, n: nat, signed: bool)
    requires 0 < n <= |input|
  {
    && (k + n == 5 ==> input[n - 1] < 0x10)
    && forall j | 0 <= j < n && k + j >= 5 :: Tolerated(input[j], k + j, signed)
  }

  lemma PassesOn(input: Bytes, k: nat, n: nat, signed: bool)
    requires 1 < n <= |input|
    ensures Passes(input, k, n, signed)
            <==> (k >= 5 ==> Tolerated(input[0], k, signed)) && Passes(input[1..], k + 1, n - 1, signed)
  {
    hide Tolerated;
    var rest := input[1..];
    if (k >= 5 ==> Tolerated(input[0], k, signed)) && Passes(rest, k + 1, n - 1, signed) {
      forall j | 0 <= j < n && k + j >= 5
        ensures Tolerated(input[j], k + j, signed)
      {
        if j > 0 {
          assert input[j] == rest[j - 1] && Tolerated(rest[j - 1], k + 1 + (j - 1), signed);
        }
      }
    }
    if Passes(input, k, n, signed) {
      forall j | 0 <= j < n - 1 && k + 1 + j >= 5
        ensures Tolerated(rest[j], k + 1 + j, signed)
      {
        assert input[j + 1] == rest[j] && Tolerated(input[j + 1], k + (j + 1), signed);
      }
    }
  }

  /** The low 32 bits of a number that continues result at place k. */
  function Low32Bits(result: nat, v: nat, k: nat): nat {
    (result + Shl(v, 7 * k)) % UINT32
  }

  lemma Low32Next(result: nat, b: Byte, v: nat, k: nat)
    requires Below(result, k)
    ensures Low32Bits(result, b % 128 + 128 * v, k) == Low32Bits(With(result, b, k), v, k + 1)
    ensures Low32Bits(result, b % 128, k) == With(result, b, k)
    ensures k >= 5 ==> Low32Bits(result, b % 128, k) == Low32Bits(result, b % 128 + 128 * v, k) == result
  {
    hide Shl, Pow;
    if k >= 5 {
      HighGroups(result, 7 * k, b % 128);
      HighGroups(result, 7 * k, b % 128 + 128 * v);
      HighGroups(result, 7 * (k + 1), v);
    } else {
      GroupAdded32(result, b % 128, v, 7 * k);
    }
  }

  lemma {:induction false} AcceptsFrom(input: Bytes, k: nat, result: nat)
    requires 1 <= k <= 10 && Below(result, k) && GetVarint(input, 10 - k).Some?
    ensures var (v, rest) := GetVarint(input, 10 - k).value;
            Decode32From(input, 7 * k, result).Some?
            <==> Passes(input, k, |input| - |rest|, Low32Bits(result, v, k) >= SIGN_BIT)
    decreases |input|
  {
    hide GetVarint, Decode32From, Low32Bits, With, Below, Passes;
    BelowFits(result, k);
    GetVarintStep(input, k);
    Decode32At(input, k, result);
    var b := input[0];
    var (v, rest) := GetVarint(input, 10 - k).value;
    if b < 128 {
      Low32Next(result, b, 0, k);
      assert Passes(input, k, 1, With(result, b, k) >= SIGN_BIT) <==>
             (k == 4 ==> b < 0x10) && (k >= 5 ==> Tolerated(b, k, With(result, b, k) >= SIGN_BIT)) by {
        PassesOne(input, k, With(result, b, k) >= SIGN_BIT);
      }
    } else {
      var (v', rest') := GetVarint(input[1..], 9 - k).value;
      AcceptsFrom(input[1..], k + 1, With(result, b, k));
      Low32Next(result, b, v', k);
      PassesOn(input, k, |input| - |rest|, Low32Bits(result, v, k) >= SIGN_BIT);
    }
  }

  lemma PassesOne(input: Bytes, k: nat, signed: bool)
    requires input != []
    ensures Passes(input, k, 1, signed) <==> (k == 4 ==> input[0] < 0x10) && (k >= 5 ==> Tolerated(input[0], k, signed))
  {
    hide Tolerated;
  }

  lemma Bit31(value: nat)
    ensures value % UINT32 >= SIGN_BIT <==> value / SIGN_BIT % 2 == 1
  {
    assert value == value / 0x8000_0000 * 0x8000_0000 + value % 0x8000_0000;
  }

  /** Of the byte strings that the 64-bit decoder accepts, the 32-bit one accepts exactly these: a
      fifth byte that is the last has only its low four bits, and every byte from the sixth on holds
      nothing, or, if bit 31 is set, the byte that sign extension would put there. */
  lemma Decode32AcceptsIff(input: Bytes)
    requires GetVarint64(input).Some?
    ensures var (value, rest) := GetVarint64(input).value;
            var n := |input| - |rest|;
            && 1 <= n <= 10
            && (Decode32(input).Some? <==>
                  && (n == 5 ==> input[4] < 0x10)
                  && forall k | 5 <= k < n ::
                       input[k] % 128 == 0 || (value / SIGN_BIT % 2 == 1 && input[k] == if k < 9 then 0xFF else 0x01))
  {
    hide GetVarint, Decode32From, Low32Bits, Below;
    GetVarintStep(input, 0);
    var (w, rest) := GetVarint(input, 10).value;
    var value := w % UINT64;
    Consumed(input, 10);
    Narrowed(w);
    Bit31(value);
    if input[0] >= 128 {
      var v := GetVarint(input[1..], 9).value.0;
      SecondByte(input[0], v);
      AcceptsFrom(input[1..], 1, input[0] % 128);
      PassesOn(input, 0, |input| - |rest|, value / SIGN_BIT % 2 == 1);
    }
  }

  lemma {:induction false} Consumed(input: Bytes, budget: nat)
    requires GetVarint(input, budget).Some?
    ensures 1 <= |input| - |GetVarint(input, budget).value.1| <= budget
  {
    if input[0] >= 128 {
      Consumed(input[1..], budget - 1);
    }
  }

  lemma SecondByte(b: Byte, v: nat)
    requires b >= 128
    ensures Below(b % 128, 1) && Low32Bits(b % 128, v, 1) == (b - 128 + 128 * v) % UINT32
  {
    hide Shl, Pow;
    PowValues();
    ShlSplits(b % 128, v, 0);
    ShlZero(b % 128);
    ShlZero(b % 128 + 128 * v);
  }

  // ------------------------------------------------- which accepted inputs are 32-bit values

  /** What a 32-bit varint stands for: 32 bits, or a negative number sign-extended to 64. */
  predicate IsExtended(value: nat) {
    value < UINT32 || UINT64 - SIGN_BIT <= value < UINT64
  }

  /** Nothing above bit 31 in the n bytes. */
  ghost predicate NothingAbove(input: Bytes, n: nat)
    requires n <= |input|
  {
    (n >= 5 ==> input[4] / 16 % 8 == 0) && (n > 5 ==> AllClear(input[5..], n - 5))
  }

  /** Sign extension all the way up: ten bytes, and every bit above 31 is set. */
  ghost predicate AllAbove(input: Bytes, n: nat)
    requires n <= |input|
  {
    n == 10 && input[4] / 16 % 8 == 7 && AllExtension(input[5..], 5, 5)
  }

  ghost predicate AllClear(input: Bytes, n: nat)
    requires n <= |input|
  {
    forall j | 0 <= j < n :: input[j] % 128 == 0
  }

  ghost predicate AllExtension(input: Bytes, k: nat, n: nat)
    requires n <= |input|
  {
    forall j | 0 <= j < n :: input[j] == Extension(k + j)
  }

  /** The groups from place k on, all of them tolerated: what they can add up to. */
  lemma {:induction false} UpperGroups(input: Bytes, k: nat, signed: bool)
    requires 5 <= k <= 9 && GetVarint(input, 10 - k).Some?
    requires Passes(input, k, |input| - |GetVarint(input, 10 - k).value.1|, signed)
    ensures var (u, rest) := GetVarint(input, 10 - k).value;
            var n := |input| - |rest|;
            && u < UpperLimit(k)
            && (u == 0 <==> AllClear(input, n))
            && (u == UpperLimit(k) - 1 <==> n == 10 - k && AllExtension(input, k, n))
    decreases |input|
  {
    hide GetVarint, UpperLimit, Passes, Tolerated, Extension, AllClear, AllExtension;
    GetVarintStep(input, k);
    var (u, rest) := GetVarint(input, 10 - k).value;
    var b, n := input[0], |input| - |rest|;
    PowsOfTail(k);
    if b < 128 {
      PassesOne(input, k, signed);
      LastGroup(b, k, signed);
      OneByteLeft(input, k);
    } else {
      GetVarintStep(input[1..], k + 1);
      PassesOn(input, k, n, signed);
      UpperGroups(input[1..], k + 1, signed);
      UpperGroupsOn(input, k, signed);
    }
  }

  /** One more group below those that add up to u. */
  lemma UpperGroupsOn(input: Bytes, k: nat, signed: bool)
    requires 5 <= k < 9 && |input| > 1 && input[0] >= 128 && Tolerated(input[0], k, signed)
    requires GetVarint(input[1..], 9 - k).Some?
    requires var (u, rest) := GetVarint(input[1..], 9 - k).value;
             var n := |input| - 1 - |rest|;
             && u < UpperLimit(k + 1)
             && n > 0
             && (u == 0 <==> AllClear(input[1..], n))
             && (u == UpperLimit(k + 1) - 1 <==> n == 9 - k && AllExtension(input[1..], k + 1, n))
    ensures var (u, rest) := GetVarint(input[1..], 9 - k).value;
            var w, n := input[0] - 128 + 128 * u, |input| - |rest|;
            && w < UpperLimit(k)
            && (w == 0 <==> AllClear(input, n))
            && (w == UpperLimit(k) - 1 <==> n == 10 - k && AllExtension(input, k, n))
  {
    hide GetVarint, UpperLimit, Tolerated, Extension, AllClear, AllExtension;
    var (u, rest) := GetVarint(input[1..], 9 - k).value;
    PowsOfTail(k);
    TailBytes(input, k, |input| - |rest|);
    GroupOnTop(input[0], k, signed, u, UpperLimit(k + 1));
  }

  lemma OneByteLeft(input: Bytes, k: nat)
    requires input != []
    ensures AllClear(input, 1) <==> input[0] % 128 == 0
    ensures AllExtension(input, k, 1) <==> input[0] == Extension(k)
  {
    hide Extension;
  }

  lemma LastGroup(b: Byte, k: nat, signed: bool)
    requires b < 128 && 5 <= k <= 9 && Tolerated(b, k, signed)
    ensures b == 0 || (k == 9 && b == 1)
    ensures b == Extension(k) <==> k == 9 && b == 1
  {
  }

  lemma GroupOnTop(b: Byte, k: nat, signed: bool, u: nat, limit: nat)
    requires b >= 128 && Tolerated(b, k, signed) && k < 9 && u < limit
    ensures b - 128 + 128 * u < 128 * limit
    ensures b - 128 + 128 * u == 0 <==> b % 128 == 0 && u == 0
    ensures b - 128 + 128 * u == 128 * limit - 1 <==> b == Extension(k) && u == limit - 1
  {
  }

  /** What the groups from place k on can add up to in 64 bits. */
  function UpperLimit(k: nat): nat
    requires k <= 9
  {
    Pow(2, 64 - 7 * k)
  }

  lemma PowsOfTail(k: nat)
    requires 5 <= k <= 9
    ensures k == 9 ==> UpperLimit(k) == 2
    ensures k < 9 ==> UpperLimit(k) == 128 * UpperLimit(k + 1) && UpperLimit(k) >= 256
  {
    if k < 9 {
      PowStep(64 - 7 * (k + 1));
      assert Pow(2, 64 - 7 * (k + 1)) == 2 * Pow(2, 64 - 7 * (k + 1) - 1);
    } else {
      assert Pow(2, 0) == 1;
    }
  }

  lemma TailBytes(input: Bytes, k: nat, n: nat)
    requires 1 < n <= |input|
    ensures AllClear(input, n) <==> input[0] % 128 == 0 && AllClear(input[1..], n - 1)
    ensures AllExtension(input, k, n) <==> input[0] == Extension(k) && AllExtension(input[1..], k + 1, n - 1)
  {
    hide Extension;
    var rest := input[1..];
    assert forall j | 0 < j < n :: input[j] == rest[j - 1];
    assert forall j | 0 <= j < n - 1 :: rest[j] == input[j + 1];
    if input[0] == Extension(k) && AllExtension(rest, k + 1, n - 1) {
      forall j | 0 <= j < n
        ensures input[j] == Extension(k + j)
      {
        assert j > 0 ==> rest[j - 1] == Extension(k + 1 + (j - 1));
      }
    }
    if AllExtension(input, k, n) {
      forall j | 0 <= j < n - 1
        ensures rest[j] == Extension(k + 1 + j)
      {
        assert input[j + 1] == Extension(k + (j + 1));
      }
    }
  }

  /** The bits from 32 on of a number whose lowest group is at place k. */
  function Above(w: nat, k: nat): nat
    requires k <= 4
  {
    w / Pow(2, 32 - 7 * k)
  }

  /** The bits from 32 on of a varint, read from place k: three in the fifth byte, then the rest. */
  lemma {:induction false} FirstFiveGroups(input: Bytes, k: nat)
    requires k <= 4 && GetVarint(input, 10 - k).Some?
    ensures var (w, rest) := GetVarint(input, 10 - k).value;
            var n, m := |input| - |rest|, 5 - k;
            && 1 <= n
            && (n < m ==> Above(w, k) == 0)
            && (n == m ==> Above(w, k) == input[m - 1] / 16 && input[m - 1] < 128)
            && (n > m ==> GetVarint(input[m..], 5).Some? && GetVarint(input[m..], 5).value.1 == rest
                          && Above(w, k) == input[m - 1] / 16 % 8 + 8 * GetVarint(input[m..], 5).value.0)
    decreases |input|
  {
    hide GetVarint, Above;
    GetVarintStep(input, k);
    Consumed(input, 10 - k);
    if input[0] < 128 {
      LastAbove(input[0], k);
    } else if k == 4 {
      FifthGroup(input[0], GetVarint(input[1..], 5).value.0);
      Consumed(input[1..], 5);
    } else {
      FirstFiveGroups(input[1..], k + 1);
      if |input| >= 5 - k {
        assert input[1..][4 - k..] == input[5 - k..];
      }
      NextAbove(input[0], GetVarint(input[1..], 9 - k).value.0, k);
    }
  }

  lemma LastAbove(b: Byte, k: nat)
    requires b < 128 && k <= 4
    ensures Above(b, k) == if k == 4 then b / 16 else 0
  {
    PowsOfHead(k);
  }

  lemma FifthGroup(b: Byte, u: nat)
    requires b >= 128
    ensures Above(b - 128 + 128 * u, 4) == b / 16 % 8 + 8 * u
  {
    hide Pow;
    PowsOfHead(4);
  }

  lemma NextAbove(b: Byte, w: nat, k: nat)
    requires b >= 128 && k < 4
    ensures Above(b - 128 + 128 * w, k) == Above(w, k + 1)
  {
    hide Pow;
    PowsOfHead(k);
    Shifted(b - 128, w, Pow(2, 32 - 7 * (k + 1)));
  }

  lemma PowsOfHead(k: nat)
    requires k <= 4
    ensures k == 4 ==> Pow(2, 32 - 7 * k) == 16
    ensures k < 4 ==> Pow(2, 32 - 7 * k) == 128 * Pow(2, 32 - 7 * (k + 1)) && Pow(2, 32 - 7 * k) >= 128
  {
    if k < 4 {
      PowStep(32 - 7 * (k + 1));
    } else {
      assert Pow(2, 2) == 4 && Pow(2, 4) == 4 * Pow(2, 2);
    }
  }

  lemma Shifted(b: nat, w: nat, m: nat)
    requires b < 128 && m > 0
    ensures (b + 128 * w) / (128 * m) == w / m
  {
    var q, r := w / m, w % m;
    assert w == q * m + r;
    assert 128 * w == q * (128 * m) + 128 * r by {
      assert 128 * (q * m) == q * (128 * m);
    }
    UniqueQuotient(b + 128 * w, q, b + 128 * r, 128 * m);
  }

  lemma UniqueQuotient(y: nat, q: nat, r: nat, m: nat)
    requires r < m && y == q * m + r
    ensures y / m == q
  {
    if y / m < q {
      Ordered(y / m + 1, q, m);
    } else if y / m > q {
      Ordered(q + 1, y / m, m);
    }
  }

  /** An input that both decoders accept stands for a 32-bit value exactly if the bits above bit 31
      are all clear, or all set over a set bit 31.  All other accepted inputs are cut to 32 bits. */
  lemma AcceptedIsExtendedIff(input: Bytes)
    requires GetVarint64(input).Some? && Decode32(input).Some?
    ensures var (value, rest) := GetVarint64(input).value;
            var n := |input| - |rest|;
            && 0 <= n <= |input|
            && (IsExtended(value) <==> NothingAbove(input, n) || (AllAbove(input, n) && value / SIGN_BIT % 2 == 1))
  {
    hide GetVarint, Decode32, Passes, Pow, AllClear, AllExtension, IsExtended;
    Decode32AcceptsIff(input);
    FirstFiveGroups(input, 0);
    Consumed(input, 10);
    Pow32();
    var (w, rest) := GetVarint(input, 10).value;
    var value, n := w % UINT64, |input| - |rest|;
    if n > 5 {
      var tail, signed := input[5..], value / SIGN_BIT % 2 == 1;
      assert Passes(tail, 5, n - 5, signed) by {
        TailPasses(input, n, signed);
      }
      UpperGroups(tail, 5, signed);
      Pow29();
      var u, high := GetVarint(tail, 5).value.0, input[4] / 16 % 8;
      assert w / UINT32 == high + 8 * u;
      Extended(w, high, u);
    } else {
      Extended(w, 0, 0);
    }
  }

  lemma TailPasses(input: Bytes, n: nat, signed: bool)
    requires 5 < n <= |input|
    requires forall k | 5 <= k < n :: input[k] % 128 == 0 || (signed && input[k] == if k < 9 then 0xFF else 0x01)
    ensures Passes(input[5..], 5, n - 5, signed)
  {
    forall j | 0 <= j < n - 5
      ensures Tolerated(input[5..][j], 5 + j, signed)
    {
      assert input[5..][j] == input[5 + j];
    }
  }

  lemma Pow29()
    ensures Pow(2, 29) == 0x2000_0000
  {
    PowValues();
    assert Pow(2, 29) == 2 * Pow(2, 28);
  }

  /** A number by its low 32 bits, three bits, and the rest. */
  lemma Extended(value: nat, high: nat, u: nat)
    requires value / UINT32 == high + 8 * u && high < 8 && u < 0x2000_0000
    ensures value % UINT64 == value
    ensures IsExtended(value) <==> (high == 0 && u == 0) || (high == 7 && u == 0x1FFF_FFFF && value / SIGN_BIT % 2 == 1)
  {
    assert value / 0x8000_0000 == 2 * (value / 0x1_0000_0000) + value / 0x8000_0000 % 2;
  }

  /** The check for sign extension looks at each byte on its own: ten bytes whose 64-bit value is no
      sign-extended 32-bit value are accepted too, cut to 32 bits. */
  lemma LooseSignExtension()
    ensures var input := EncodeVarint(0x8000_0000_8000_0000);
            && |input| <= 10
            && GetVarint64(input) == Some((0x8000_0000_8000_0000, []))
            && Decode32(input) == Some((0x8000_0000, []))
  {
    hide Pow, EncodeVarint, Decode32From, Decode32, GetVarint64;
    var v: nat := 0x8000_0000_8000_0000;
    Varint64ReadsBack(v, []);
    assert EncodeVarint(v) + [] == EncodeVarint(v);
    FirstFiveBytes(v, []);
    LooseTail([]);
  }

  lemma LooseTail(rest: Bytes)
    ensures Decode32From(EncodeVarint(0x1000_0000) + rest, 35, SIGN_BIT) == Some((SIGN_BIT, rest))
  {
    hide Pow, EncodeVarint;
    FirstByte(0x1000_0000, rest);
    FirstByte(0x20_0000, rest);
    FirstByte(0x4000, rest);
    FirstByte(0x80, rest);
    FirstByte(0x01, rest);
    assert Decode32From(EncodeVarint(0x01) + rest, 63, SIGN_BIT) == Some((SIGN_BIT, rest));
    assert Decode32From(EncodeVarint(0x80) + rest, 56, SIGN_BIT) == Some((SIGN_BIT, rest));
    assert Decode32From(EncodeVarint(0x4000) + rest, 49, SIGN_BIT) == Some((SIGN_BIT, rest));
    assert Decode32From(EncodeVarint(0x20_0000) + rest, 42, SIGN_BIT) == Some((SIGN_BIT, rest));
  }

  /** And six bytes: the low bits of the fifth are cut unnoticed, because they are checked only if it
      is the last. */
  lemma CutUnnoticed()
    ensures var input: Bytes := [0x80, 0x80, 0x80, 0x80, 0xF0, 0x00];
            && GetVarint64(input) == Some((0x7_0000_0000, []))
            && Decode32(input) == Some((0, []))
            && !IsExtended(0x7_0000_0000)
  {
    hide Decode32, GetVarint, IsExtended;
    var input: Bytes := [0x80, 0x80, 0x80, 0x80, 0xF0, 0x00];
    SixBytes(input);
    Decode32AcceptsIff(input);
    DecodersAgree(input);
    NotExtended();
  }

  lemma NotExtended()
    ensures !IsExtended(0x7_0000_0000)
  {
  }

  lemma SixBytes(input: Bytes)
    requires input == [0x80, 0x80, 0x80, 0x80, 0xF0, 0x00]
    ensures GetVarint(input, 10) == Some((0x7_0000_0000, []))
  {
    hide GetVarint;
    GetVarintStep([0x00], 5);
    Prepended(0xF0, 4, 0, [0x00]);
    Prepended(0x80, 3, 0x70, [0xF0] + [0x00]);
    Prepended(0x80, 2, 0x3800, [0x80] + ([0xF0] + [0x00]));
    Prepended(0x80, 1, 0x1C_0000, [0x80] + ([0x80] + ([0xF0] + [0x00])));
    Prepended(0x80, 0, 0xE00_0000, [0x80] + ([0x80] + ([0x80] + ([0xF0] + [0x00]))));
    assert input == [0x80] + ([0x80] + ([0x80] + ([0x80] + ([0xF0] + [0x00]))));
  }

  lemma Prepended(b: Byte, k: nat, v: nat, rest: Bytes)
    requires k < 10 && b >= 128 && GetVarint(rest, 9 - k) == Some((v, []))
    ensures GetVarint([b] + rest, 10 - k) == Some((b - 128 + 128 * v, []))
  {
    GetVarintStep([b] + rest, k);
    assert ([b] + rest)[1..] == rest;
  }
}
