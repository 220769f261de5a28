// nanopb's variable-width integers (Pods/nanopb/pb_encode.c, pb_decode.c): Base 128 Varints and the
// ZigZag form of the Protocol Buffers encoding.
module PbVarint {
  import opened Wrappers
  import opened Coding

  const INT64_MIN: int := -0x8000_0000_0000_0000
  const INT64_MAX: int := 0x7FFF_FFFF_FFFF_FFFF

  type Int64 = i: int | INT64_MIN <= i <= INT64_MAX

  // ------------------------------------------------------------------------- encoding

  /** Seven bits a byte, the continuation bit set on every one of them. */
  function Continued(v: nat): Bytes {
    if v == 0 then [] else [v % 128 + 128] + Continued(v / 128)
  }

  lemma {:induction false} ContinuedLength(v: nat, n: nat)
    requires v < Pow(128, n)
    ensures |Continued(v)| <= n
  {
    if v == 0 {
    } else {
      assert n > 0;
      ContinuedLength(v / 128, n - 1);
    }
  }

  /** Clearing the continuation bit of the last byte gives the varint. */
  lemma {:induction false} LastCleared(v: nat)
    requires v > 0
    ensures var s, n := Continued(v), |Continued(v)| - 1;
            n >= 0 && s[n] >= 128 && EncodeVarint(v) == s[..n] + [s[n] - 128]
  {
    var s, n := Continued(v), |Continued(v)| - 1;
    if v < 128 {
      assert Continued(v / 128) == [];
    } else {
      LastCleared(v / 128);
      var t := Continued(v / 128);
      assert s == [s[0]] + t;
      assert s[..n] + [s[n] - 128] == [s[0]] + (t[..n - 1] + [t[n - 1] - 128]);
    }
  }

  lemma OneByte(v: nat)
    requires v < 128
    ensures EncodeVarint(v) == [v]
  {
  }

  /** The loop of pb_encode_varint over its ten-byte buffer: continuation bits on every byte, the
      last one cleared afterwards. */
  method EncodeVarint64(value: nat) returns (r: Bytes)
    requires value < UINT64
    ensures r == EncodeVarint(value) && 1 <= |r| <= 10
  {
    hide Pow, EncodeVarint;
    if value <= 0x7F {
      OneByte(value);
      return [value];
    }
    Pow128Values();
    ContinuedLength(value, 10);
    LastCleared(value);
    var buffer: Bytes, v := [], value;
    assert [] + Continued(value) == Continued(value);
    while v > 0
      invariant buffer + Continued(v) == Continued(value)
    {
      assert buffer + ([v % 128 + 128] + Continued(v / 128)) == (buffer + [v % 128 + 128]) + Continued(v / 128);
      buffer := buffer + [v % 128 + 128];
      v := v / 128;
    }
    assert buffer == Continued(value);
    var i := |buffer| - 1;
    r := buffer[i := buffer[i] - 128];
    assert r == buffer[..i] + [buffer[i] - 128];
  }

  /** pb_encode_svarint: small magnitudes of either sign become small numbers. */
  function ZigZag(value: Int64): (r: nat)
    ensures r < UINT64
  {
    var shifted := (if value < 0 then value + UINT64 else value) * 2 % UINT64;
    if value < 0 then UINT64 - 1 - shifted else shifted
  }

  /** pb_decode_svarint */
  function UnZigZag(value: nat): (r: Int64)
    requires value < UINT64
  {
    if value % 2 == 1 then -(value / 2) - 1 else value / 2
  }

  lemma ZigZagRoundTrip(value: Int64)
    ensures UnZigZag(ZigZag(value)) == value
    ensures ZigZag(value) == if value < 0 then -2 * value - 1 else 2 * value
  {
  }

  lemma ZigZagOnto(value: nat)
    requires value < UINT64
    ensures ZigZag(UnZigZag(value)) == value
  {
  }

  /** A signed value as pb_enc_varint hands it to the encoder, and back. */
  function ToUnsigned(value: Int64): (r: nat)
    ensures r < UINT64
  {
    if value < 0 then value + UINT64 else value
  }

  function ToSigned(value: nat): Int64
    requires value < UINT64
  {
    if value > INT64_MAX then value - UINT64 else value
  }

  // ------------------------------------------------------------------------- decoding

  /** Shift left. */
  function Shl(x: nat, position: nat): nat {
    x * Pow(2, position)
  }

  /** The bits of a byte at a position, in a word of the given size. */
  function Placed(b: Byte, position: nat, word: nat): (r: nat)
    requires word > 0
  {
    Shl(b % 128, position) % word
  }

  /** Bitwise or. */
  function BitOr(a: nat, b: nat): nat {
    if a == 0 then b
    else if b == 0 then a
    else 2 * BitOr(a / 2, b / 2) + if a % 2 == 1 || b % 2 == 1 then 1 else 0
  }

  lemma {:induction false} OrBound(a: nat, b: nat, n: nat)
    requires a < Pow(2, n) && b < Pow(2, n)
    ensures BitOr(a, b) < Pow(2, n)
  {
    if a != 0 && b != 0 {
      OrBound(a / 2, b / 2, n - 1);
    }
  }

  /** Bits that are not yet set can be added. */
  lemma {:induction false} OrAddsAbove(a: nat, x: nat, p: nat)
    requires a < Pow(2, p)
    ensures BitOr(a, x * Pow(2, p)) == a + x * Pow(2, p)
  {
    if p == 0 {
    } else {
      var half := x * Pow(2, p - 1);
      assert x * Pow(2, p) == 2 * half by {
        Reorder(x, Pow(2, p - 1), 2);
      }
      OrAddsAbove(a / 2, x, p - 1);
    }
  }

  lemma UniqueRemainder(y: nat, q: nat, r: nat, m: nat)
    requires r < m && y == q * m + r
    ensures y % m == r
  {
    if y / m < q {
      Ordered(y / m + 1, q, m);
    } else if y / m > q {
      Ordered(q + 1, y / m, m);
    }
  }

  lemma Ordered(a: nat, b: nat, m: nat)
    requires a <= b
    ensures a * m <= b * m
  {
  }

  /** Cutting a shifted number to a word keeps the bits that fit. */
  lemma ShlCut(x: nat, p: nat, w: nat)
    requires p <= w
    ensures Shl(x, p) % Pow(2, w) == x % Pow(2, w - p) * Pow(2, p)
    ensures x % Pow(2, w - p) * Pow(2, p) + Pow(2, p) <= Pow(2, w)
  {
    hide Pow;
    PowSum(w - p, p);
    Cut(x, Pow(2, w - p), Pow(2, p), Pow(2, w));
  }

  lemma Cut(x: nat, m: nat, n: nat, word: nat)
    requires m > 0 && n > 0 && word == m * n
    ensures x * n % word == x % m * n && x % m * n + n <= word
  {
    var q, r := x / m, x % m;
    Divided(x, m, n);
    Scaled(r, m, n);
    UniqueRemainder(x * n, q, r * n, word);
  }

  lemma Scaled(r: nat, m: nat, n: nat)
    requires r < m
    ensures r * n + n <= m * n
  {
    Ordered(r + 1, m, n);
    assert (r + 1) * n == r * n + n;
  }

  lemma Divided(x: nat, m: nat, n: nat)
    requires m > 0
    ensures x * n == x / m * (m * n) + x % m * n
  {
    var q, r := x / m, x % m;
    assert x == q * m + r;
    assert (q * m + r) * n == q * m * n + r * n;
    assert q * m * n == q * (m * n);
  }

  /** Or-ing one more group of seven bits onto the groups below it adds the group. */
  lemma GroupOrs(result: nat, x: nat, p: nat, w: nat)
    requires p <= w && result < Pow(2, p) && x < 128
    ensures BitOr(result, Shl(x, p) % Pow(2, w)) == (result + Shl(x, p) % Pow(2, w)) % Pow(2, w)
    ensures p + 7 <= w ==> (result + Shl(x, p) % Pow(2, w)) % Pow(2, w) < Pow(2, p + 7)
  {
    hide Shl, BitOr, Pow;
    ShlCut(x, p, w);
    OrAddsAbove(result, x % Pow(2, w - p), p);
    SumFits(result, Shl(x, p) % Pow(2, w), Pow(2, p), Pow(2, w));
    if p + 7 <= w {
      PowStep(p);
      ShlBelow(x, p, w);
    }
  }

  lemma SumFits(a: nat, b: nat, low: nat, word: nat)
    requires a < low && b + low <= word
    ensures (a + b) % word == a + b
  {
    UniqueRemainder(a + b, 0, a + b, word);
  }

  lemma ShlBelow(x: nat, p: nat, w: nat)
    requires x < 128 && p + 7 <= w
    ensures x % Pow(2, w - p) * Pow(2, p) + Pow(2, p) <= 128 * Pow(2, p)
  {
    var m := x % Pow(2, w - p);
    assert m <= x;
    Ordered(m + 1, 128, Pow(2, p));
  }

  function Result(result: nat, rest: Bytes): Option<(nat, Bytes)> { Some((result, rest)) }

  /** pb_decode_varint from bit position on: a byte past bit 63 is an overflow. */
  function Decode64From(input: Bytes, position: nat, result: nat): Option<(nat, Bytes)> {
    if position >= 64 || input == [] then None
    else
      var result' := BitOr(result, Placed(input[0], position, UINT64));
      if input[0] >= 128 then Decode64From(input[1..], position + 7, result') else Result(result', input[1..])
  }

  /** The loop of pb_decode_varint. */
  method DecodeVarint64(input: Bytes) returns (r: Option<(nat, Bytes)>)
    ensures r == GetVarint64(input)
  {
    var rest: Bytes, position: nat, result: nat := input, 0, 0;
    var more := true;
    while more
      invariant more ==> Decode64From(rest, position, result) == Decode64From(input, 0, 0)
      invariant !more ==> Result(result, rest) == Decode64From(input, 0, 0)
      decreases more, |rest|
    {
      if position >= 64 || rest == [] {
        Decode64Agrees(input);
        return None;
      }
      var byte := rest[0];
      result := BitOr(result, Placed(byte, position, UINT64));
      rest := rest[1..];
      position := position + 7;
      more := byte >= 128;
    }
    Decode64Agrees(input);
    r := Some((result, rest));
  }

  lemma {:induction false} PowSum(a: nat, b: nat)
    ensures Pow(2, a + b) == Pow(2, a) * Pow(2, b)
  {
    if a == 0 {
    } else {
      PowSum(a - 1, b);
    }
  }

  lemma PowStep(position: nat)
    ensures Pow(2, position + 7) == 128 * Pow(2, position)
  {
    PowSum(position, 7);
    assert Pow(2, 3) == 8 && Pow(2, 5) == 4 * Pow(2, 3) && Pow(2, 7) == 4 * Pow(2, 5);
  }

  lemma Distribute(b: nat, p: nat, v: nat)
    ensures (b + 128 * v) * p == b * p + v * (128 * p)
  {
  }

  /** A number shifted is its low seven bits shifted and the rest shifted further. */
  lemma ShlSplits(x: nat, v: nat, position: nat)
    ensures Shl(x + 128 * v, position) == Shl(x, position) + Shl(v, position + 7)
  {
    PowStep(position);
    Distribute(x, Pow(2, position), v);
  }

  lemma ShlZero(x: nat)
    ensures Shl(x, 0) == x && Shl(0, x) == 0
  {
  }

  lemma ModShift64(x: int, k: int)
    ensures (x + k * 0x1_0000_0000_0000_0000) % 0x1_0000_0000_0000_0000 == x % 0x1_0000_0000_0000_0000
  {
  }

  lemma ModSum64(a: nat, b: nat, c: nat)
    ensures ((a + b % UINT64) % UINT64 + c) % UINT64 == (a + b + c) % UINT64
    ensures (a + b % UINT64) % UINT64 == (a + b) % UINT64
  {
    var q, q' := b / 0x1_0000_0000_0000_0000, (a + b % 0x1_0000_0000_0000_0000) / 0x1_0000_0000_0000_0000;
    ModShift64(a + b + c, -q - q');
    ModShift64(a + b, -q);
  }

  /** One more group of seven bits, in a 64-bit word. */
  lemma GroupAdded64(result: nat, x: nat, v: nat, position: nat)
    ensures ((result + Shl(x, position) % UINT64) % UINT64 + Shl(v, position + 7)) % UINT64
            == (result + Shl(x + 128 * v, position)) % UINT64
    ensures (result + Shl(x, position) % UINT64) % UINT64 == (result + Shl(x, position)) % UINT64
  {
    hide Shl;
    ShlSplits(x, v, position);
    ModSum64(result, Shl(x, position), Shl(v, position + 7));
  }

  lemma GetVarintStep(input: Bytes, k: nat)
    requires k <= 10
    ensures k == 10 || input == [] ==> GetVarint(input, 10 - k).None?
    ensures k < 10 && input != [] ==>
              GetVarint(input, 10 - k) == if input[0] < 128 then Some((input[0], input[1..]))
                                          else match GetVarint(input[1..], 9 - k)
                                               case None => None
                                               case Some((v, rest)) => Some((input[0] - 128 + 128 * v, rest))
  {
  }

  lemma Step64(input: Bytes, k: nat, result: nat)
    requires k <= 10
    ensures k == 10 || input == [] ==> Decode64From(input, 7 * k, result).None? && GetVarint(input, 10 - k).None?
    ensures k < 10 && input != [] ==>
              var b := input[0];
              var result' := BitOr(result, Shl(b % 128, 7 * k) % UINT64);
              if b < 128 then
                Decode64From(input, 7 * k, result) == Some((result', input[1..]))
                  && GetVarint(input, 10 - k) == Some((b, input[1..]))
              else
                && Decode64From(input, 7 * k, result) == Decode64From(input[1..], 7 * (k + 1), result')
                && GetVarint(input, 10 - k) == match GetVarint(input[1..], 9 - k)
                                               case None => None
                                               case Some((v, rest)) => Some((b - 128 + 128 * v, rest))
  {
    hide Shl, BitOr, Pow, GetVarint;
    GetVarintStep(input, k);
  }

  lemma {:induction false} Decode64FromAgrees(input: Bytes, k: nat, result: nat)
    requires k <= 10 && (k < 10 ==> result < Pow(2, 7 * k))
    ensures Decode64From(input, 7 * k, result)
            == match GetVarint(input, 10 - k)
               case None => None
               case Some((v, rest)) => Some(((result + Shl(v, 7 * k)) % UINT64, rest))
    decreases |input|
  {
    hide Shl, GetVarint, Decode64From, BitOr, Pow;
    Step64(input, k, result);
    if k < 10 && input != [] {
      var b := input[0];
      Pow64();
      GroupOrs(result, b % 128, 7 * k, 64);
      if b < 128 {
        GroupAdded64(result, b, 0, 7 * k);
      } else {
        Decode64FromAgrees(input[1..], k + 1, (result + Shl(b % 128, 7 * k) % UINT64) % UINT64);
        match GetVarint(input[1..], 10 - (k + 1)) {
          case None =>
          case Some((v, rest)) => GroupAdded64(result, b - 128, v, 7 * k);
        }
      }
    }
  }

  lemma Pow64()
    ensures Pow(2, 64) == UINT64
  {
    PowValues();
    PowSum(32, 32);
  }

  lemma Decode64Agrees(input: Bytes)
    ensures Decode64From(input, 0, 0) == GetVarint64(input)
  {
    hide Decode64From, GetVarint, Shl;
    Decode64FromAgrees(input, 0, 0);
    if GetVarint(input, 10).Some? {
      ShlZero(GetVarint(input, 10).value.0);
    }
  }

  /** Every 64-bit value takes at most ten bytes, and reads back, whatever follows. */
  lemma Varint64ReadsBack(value: nat, rest: Bytes)
    requires value < UINT64
    ensures |EncodeVarint(value)| <= 10
    ensures GetVarint64(EncodeVarint(value) + rest) == Some((value, rest))
  {
    hide EncodeVarint, GetVarint, Pow;
    Pow128Values();
    VarintLength(value, 10);
    Varint64RoundTrip(value, rest);
  }

  // ------------------------------------------------------------------ the 32-bit decoder

  const SIGN_BIT: nat := 0x8000_0000

  function Or32(a: nat, b: nat): (r: nat)
    requires a < UINT32 && b < UINT32
    ensures r < UINT32
  {
    Pow32();
    OrBound(a, b, 32);
    BitOr(a, b)
  }

  lemma Pow32()
    ensures Pow(2, 32) == UINT32
  {
    PowValues();
  }

  /** pb_decode_varint32 after its first byte.  The position is an 8-bit number and wraps. */
  function Decode32From(input: Bytes, position: nat, result: nat): (r: Option<(nat, Bytes)>)
    requires result < UINT32
    ensures r.Some? ==> |r.value.1| < |input|
  {
    if input == [] then None
    else
      var b := input[0];
      var signExtension := if position < 63 then 0xFF else 0x01;
      if position >= 32 && b % 128 != 0 && (result < SIGN_BIT || b != signExtension) then None
      else
        var result' := if position >= 32 then result else Or32(result, Placed(b, position, UINT32));
        var position' := (position + 7) % 256;
        if b >= 128 then Decode32From(input[1..], position', result')
        else if position' == 35 && b / 16 % 8 != 0 then None
        else Some((result', input[1..]))
  }

  function Decode32(input: Bytes): (r: Option<(nat, Bytes)>)
    ensures r.Some? ==> |r.value.1| < |input|
  {
    if input == [] then None
    else if input[0] < 128 then Some((input[0], input[1..]))
    else Decode32From(input[1..], 7, input[0] % 128)
  }

  /** The loop of pb_decode_varint32, after the one-byte case.  Where the 64-bit decoder accepts the
      bytes as well, the result is its result cut to 32 bits. */
  method DecodeVarint32(input: Bytes) returns (r: Option<(nat, Bytes)>)
    ensures r == Decode32(input)
    ensures r.Some? && GetVarint64(input).Some?
            ==> r.value == (GetVarint64(input).value.0 % UINT32, GetVarint64(input).value.1)
  {
    hide BitOr, GetVarint, Shl;
    if Decode32(input).Some? && GetVarint64(input).Some? {
      DecodersAgree(input);
    }
    if input == [] {
      return None;
    }
    var b := input[0];
    if b < 128 {
      return Some((b, input[1..]));
    }
    var rest: Bytes, position: nat, result: nat := input[1..], 7, b % 128;
    while true
      invariant result < UINT32 && Decode32From(rest, position, result) == Decode32(input)
      decreases |rest|
    {
      if rest == [] {
        return None;
      }
      var byte := rest[0];
      rest := rest[1..];
      if position >= 32 {
        var signExtension := if position < 63 then 0xFF else 0x01;
        if byte % 128 != 0 && (result / SIGN_BIT == 0 || byte != signExtension) {
          return None;
        }
      } else {
        result := Or32(result, Placed(byte, position, UINT32));
      }
      position := (position + 7) % 256;
      if byte < 128 {
        if position == 35 && byte / 16 % 8 != 0 {
          return None;
        }
        return Some((result, rest));
      }
    }
  }

  lemma ModShift32(x: int, k: int)
    ensures (x + k * 0x1_0000_0000) % 0x1_0000_0000 == x % 0x1_0000_0000
  {
  }

  lemma ModSum32(a: nat, b: nat, c: nat)
    ensures ((a + b % UINT32) % UINT32 + c) % UINT32 == (a + b + c) % UINT32
    ensures (a + b % UINT32) % UINT32 == (a + b) % UINT32
  {
    var q, q' := b / 0x1_0000_0000, (a + b % 0x1_0000_0000) / 0x1_0000_0000;
    ModShift32(a + b + c, -q - q');
    ModShift32(a + b, -q);
  }

  lemma GroupAdded32(result: nat, x: nat, v: nat, position: nat)
    ensures ((result + Shl(x, position) % UINT32) % UINT32 + Shl(v, position + 7)) % UINT32
            == (result + Shl(x + 128 * v, position)) % UINT32
    ensures (result + Shl(x, position) % UINT32) % UINT32 == (result + Shl(x, position)) % UINT32
  {
    hide Shl;
    ShlSplits(x, v, position);
    ModSum32(result, Shl(x, position), Shl(v, position + 7));
  }

  /** Groups past bit 32 do not count modulo 2 to the 32. */
  lemma HighGroups(result: nat, position: nat, v: nat)
    requires position >= 32 && result < UINT32
    ensures (result + Shl(v, position)) % UINT32 == result
  {
    PowSum(32, position - 32);
    PowValues();
    var high := v * Pow(2, position - 32);
    assert Shl(v, position) == high * 0x1_0000_0000 by {
      Reorder(v, Pow(2, position - 32), 0x1_0000_0000);
    }
    ModShift32(result, high);
  }

  lemma Reorder(a: nat, b: nat, c: nat)
    ensures a * (c * b) == a * b * c
  {
  }

  lemma PowValues()
    ensures Pow(2, 7) == 0x80 && Pow(2, 14) == 0x4000 && Pow(2, 21) == 0x20_0000 && Pow(2, 28) == 0x1000_0000
    ensures Pow(2, 32) == 0x1_0000_0000
  {
    assert Pow(2, 0) == 1;
    PowStep(0);
    PowStep(7);
    PowStep(14);
    PowStep(21);
    PowSum(28, 4);
    assert Pow(2, 2) == 4 && Pow(2, 4) == 4 * Pow(2, 2);
  }

  /** The bits below position 7k are all that is set before byte k of the low 32 bits. */
  predicate Below(result: nat, k: nat) {
    result < UINT32 && (k < 5 ==> result < Pow(2, 7 * k))
  }

  /** The bits of byte k or-ed onto those below it. */
  function With(result: nat, b: Byte, k: nat): nat {
    if k >= 5 then result else (result + Shl(b % 128, 7 * k) % UINT32) % UINT32
  }

  lemma GroupOrs32(result: nat, b: Byte, k: nat)
    requires Below(result, k)
    ensures Below(With(result, b, k), k + 1)
    ensures k < 5 ==> With(result, b, k) == Or32(result, Placed(b, 7 * k, UINT32))
  {
    hide Shl, BitOr, Pow;
    if k < 5 {
      Pow32();
      GroupOrs(result, b % 128, 7 * k, 32);
    }
  }

  /** The byte that sign extension puts at place k: all ones, and a last byte of one. */
  function Extension(k: nat): Byte {
    if k < 9 then 0xFF else 0x01
  }

  /** One byte of the 32-bit decoder, before the position wraps. */
  lemma Decode32At(input: Bytes, k: nat, result: nat)
    requires k <= 10 && Below(result, k) && input != []
    ensures var b := input[0];
            && Below(With(result, b, k), k + 1)
            && Decode32From(input, 7 * k, result)
               == if k >= 5 && b % 128 != 0 && (result < SIGN_BIT || b != Extension(k)) then None
                  else if b >= 128 then Decode32From(input[1..], 7 * (k + 1), With(result, b, k))
                  else if k == 4 && b >= 16 then None
                  else Some((With(result, b, k), input[1..]))
  {
    hide Shl, BitOr, Pow, With, Placed, Below;
    BelowFits(result, k);
    GroupOrs32(result, input[0], k);
    BelowFits(With(result, input[0], k), k + 1);
    if k >= 5 {
      assert With(result, input[0], k) == result by {
        WithHigh(result, input[0], k);
      }
    }
  }

  lemma WithHigh(result: nat, b: Byte, k: nat)
    requires k >= 5
    ensures With(result, b, k) == result
  {
  }

  lemma BelowFits(result: nat, k: nat)
    requires Below(result, k)
    ensures result < UINT32
  {
  }

  /** What the two decoders have in common when both go on past, or both end at, a byte. */
  lemma BothStep(input: Bytes, k: nat, result: nat)
    requires k <= 10 && Below(result, k)
    requires Decode32From(input, 7 * k, result).Some? && GetVarint(input, 10 - k).Some?
    ensures k < 10 && input != [] && Below(With(result, input[0], k), k + 1)
    ensures var b := input[0];
            var result' := With(result, b, k);
            if b < 128 then
              Decode32From(input, 7 * k, result) == Some((result', input[1..]))
                && GetVarint(input, 10 - k) == Some((b, input[1..]))
            else
              && Decode32From(input, 7 * k, result) == Decode32From(input[1..], 7 * (k + 1), result')
              && GetVarint(input[1..], 10 - (k + 1)).Some?
              && var (v, rest) := GetVarint(input[1..], 10 - (k + 1)).value;
                 GetVarint(input, 10 - k) == Some((b - 128 + 128 * v, rest))
  {
    hide Shl, BitOr, Pow, Decode32From, GetVarint, With, Below;
    BelowFits(result, k);
    GetVarintStep(input, k);
    if k < 10 && input != [] {
      Decode32At(input, k, result);
      BelowFits(With(result, input[0], k), k + 1);
    }
  }

  lemma {:induction false} Decode32FromAgrees(input: Bytes, k: nat, result: nat)
    requires k <= 10 && Below(result, k)
    requires Decode32From(input, 7 * k, result).Some? && GetVarint(input, 10 - k).Some?
    ensures Decode32From(input, 7 * k, result).value.1 == GetVarint(input, 10 - k).value.1
    ensures Decode32From(input, 7 * k, result).value.0
            == (result + Shl(GetVarint(input, 10 - k).value.0, 7 * k)) % UINT32
    decreases |input|
  {
    hide Shl, Decode32From, GetVarint, Pow;
    BothStep(input, k, result);
    var b := input[0];
    if 7 * k >= 32 {
      HighGroups(result, 7 * k, GetVarint(input, 10 - k).value.0);
    }
    if b < 128 {
      GroupAdded32(result, b, 0, 7 * k);
    } else {
      Decode32FromAgrees(input[1..], k + 1, With(result, b, k));
      var v := GetVarint(input[1..], 10 - (k + 1)).value.0;
      if 7 * k >= 32 {
        HighGroups(result, 7 * (k + 1), v);
      } else {
        GroupAdded32(result, b - 128, v, 7 * k);
      }
    }
  }

  /** Whenever both decoders accept the same bytes, they consume the same bytes, and the narrow one
      returns the wide result modulo 2 to the 32. */
  lemma DecodersAgree(input: Bytes)
    requires Decode32(input).Some? && GetVarint64(input).Some?
    ensures Decode32(input).value.1 == GetVarint64(input).value.1
    ensures Decode32(input).value.0 == GetVarint64(input).value.0 % UINT32
  {
    hide Shl, GetVarint, Decode32From, Pow;
    FirstOfBoth(input);
    if input[0] >= 128 {
      PowValues();
      var b, v := input[0], GetVarint(input[1..], 9).value.0;
      Decode32FromAgrees(input[1..], 1, b - 128);
      ShlSplits(b - 128, v, 0);
      ShlZero(b - 128);
      ShlZero(b - 128 + 128 * v);
      Narrowed(b - 128 + 128 * v);
    }
  }

  lemma FirstOfBoth(input: Bytes)
    requires Decode32(input).Some? && GetVarint64(input).Some?
    ensures input != []
    ensures var b := input[0];
            if b < 128 then
              Decode32(input) == Some((b, input[1..])) && GetVarint64(input) == Some((b, input[1..]))
            else
              && GetVarint(input[1..], 9).Some?
              && Decode32(input) == Decode32From(input[1..], 7, b - 128)
              && GetVarint64(input)
                 == Some(((b - 128 + 128 * GetVarint(input[1..], 9).value.0) % UINT64,
                          GetVarint(input[1..], 9).value.1))
  {
    hide Shl, Decode32From;
  }

  lemma Narrowed(v: nat)
    ensures v % UINT64 % UINT32 == v % UINT32
  {
    var q := v / 0x1_0000_0000_0000_0000;
    ModShift32(v, -q * 0x1_0000_0000);
  }

  // ---------------------------------------------------------- what the 32-bit decoder accepts

  /** The first byte of a varint, and what follows it. */
  lemma FirstByte(v: nat, rest: Bytes)
    ensures var input := EncodeVarint(v) + rest;
            input != [] && if v < 128 then input[0] == v && input[1..] == rest
                           else input[0] == v % 128 + 128 && input[1..] == EncodeVarint(v / 128) + rest
  {
    if v < 128 {
      Cons(v, [], rest);
      assert [] + rest == rest;
    } else {
      Cons(v % 128 + 128, EncodeVarint(v / 128), rest);
    }
  }

  lemma Cons<T>(x: T, a: seq<T>, b: seq<T>)
    ensures [x] + a + b != [] && ([x] + a + b)[0] == x && ([x] + a + b)[1..] == a + b
    ensures [x] + [] == [x]
  {
  }

  lemma Decode32Step(v: nat, k: nat, result: nat, rest: Bytes)
    requires k < 5 && Below(result, k)
    ensures Below(With(result, v % 128, k), k + 1)
    ensures v >= 128 ==>
              Decode32From(EncodeVarint(v) + rest, 7 * k, result)
              == Decode32From(EncodeVarint(v / 128) + rest, 7 * k + 7, With(result, v % 128, k))
    ensures v < 128 && (k < 4 || v < 16) ==>
              Decode32From(EncodeVarint(v) + rest, 7 * k, result) == Some((With(result, v, k), rest))
  {
    hide Shl, EncodeVarint, Decode32From, Pow, With, Below;
    BelowFits(result, k);
    FirstByte(v, rest);
    Decode32At(EncodeVarint(v) + rest, k, result);
    SameBits(result, v % 128, v % 128 + 128, k);
    BelowFits(With(result, v % 128, k), k + 1);
  }

  lemma SameBits(result: nat, b: Byte, c: Byte, k: nat)
    requires b % 128 == c % 128
    ensures With(result, b, k) == With(result, c, k)
  {
    hide Shl;
  }

  lemma Small(x: nat)
    requires x < UINT32
    ensures x % UINT32 == x
  {
  }

  lemma AtMost16(v: nat)
    requires Shl(v, 28) < UINT32
    ensures v < 16
  {
    PowValues();
  }

  lemma {:induction false} Decode32Encoded(v: nat, k: nat, result: nat, rest: Bytes)
    requires 1 <= k <= 4 && result < Pow(2, 7 * k) && result + Shl(v, 7 * k) < UINT32
    ensures Decode32From(EncodeVarint(v) + rest, 7 * k, result) == Some((result + Shl(v, 7 * k), rest))
    decreases v
  {
    hide Shl, EncodeVarint, Decode32From, Pow;
    Decode32Step(v, k, result, rest);
    ShlSplits(v % 128, v / 128, 7 * k);
    if k == 4 {
      AtMost16(v);
    }
    if v < 128 {
      Small(Shl(v, 7 * k));
      Small(result + Shl(v, 7 * k));
    } else {
      Small(Shl(v % 128, 7 * k));
      Small(result + Shl(v % 128, 7 * k));
      Decode32Encoded(v / 128, k + 1, result + Shl(v % 128, 7 * k), rest);
    }
  }

  /** Every 32-bit value reads back through the 32-bit decoder. */
  lemma Varint32ReadsBack(v: nat, rest: Bytes)
    requires v < UINT32
    ensures Decode32(EncodeVarint(v) + rest) == Some((v, rest))
  {
    hide Shl, EncodeVarint, Decode32From, Pow;
    FirstByte(v, rest);
    if v >= 128 {
      PowValues();
      ShlSplits(v % 128, v / 128, 0);
      ShlZero(v % 128);
      ShlZero(v);
      Decode32Encoded(v / 128, 1, v % 128, rest);
    }
  }

  lemma SecondGroup(result: nat, b: Byte)
    requires result < 0x80 && b < 128
    ensures With(result, b, 1) == result + b * 0x80
  {
    hide Pow;
    PowValues();
  }

  lemma At28(v: nat, result: nat, rest: Bytes)
    requires v >= 0x80 && result < 0x1000_0000
    ensures Decode32From(EncodeVarint(v) + rest, 28, result)
            == Decode32From(EncodeVarint(v / 0x80) + rest, 35, (result + v * 0x1000_0000) % 0x1_0000_0000)
  {
    hide Pow, EncodeVarint, Decode32From;
    PowValues();
    Decode32Step(v, 4, result, rest);
    ModSum32(result, (v % 128) * 0x1000_0000, 0);
    ModShift32(result + (v % 128) * 0x1000_0000, v / 128 * 8);
    assert v == v % 128 + 128 * (v / 128);
  }

  lemma At21(v: nat, result: nat, rest: Bytes)
    requires v >= 0x4000 && result < 0x20_0000
    ensures Decode32From(EncodeVarint(v) + rest, 21, result)
            == Decode32From(EncodeVarint(v / 0x4000) + rest, 35, (result + v * 0x20_0000) % 0x1_0000_0000)
  {
    hide Pow, EncodeVarint, Decode32From;
    PowValues();
    Decode32Step(v, 3, result, rest);
    At28(v / 0x80, result + (v % 128) * 0x20_0000, rest);
    assert v / 0x80 / 0x80 == v / 0x4000;
  }

  lemma At14(v: nat, result: nat, rest: Bytes)
    requires v >= 0x20_0000 && result < 0x4000
    ensures Decode32From(EncodeVarint(v) + rest, 14, result)
            == Decode32From(EncodeVarint(v / 0x20_0000) + rest, 35, (result + v * 0x4000) % 0x1_0000_0000)
  {
    hide Pow, EncodeVarint, Decode32From;
    PowValues();
    Decode32Step(v, 2, result, rest);
    At21(v / 0x80, result + (v % 128) * 0x4000, rest);
    assert v / 0x80 / 0x4000 == v / 0x20_0000;
  }

  /** Of a number of more than 35 bits the first five bytes give the low 32. */
  lemma FirstFiveBytes(v: nat, rest: Bytes)
    requires v >= 0x8_0000_0000
    ensures Decode32(EncodeVarint(v) + rest)
            == Decode32From(EncodeVarint(v / 0x8_0000_0000) + rest, 35, v % 0x1_0000_0000)
  {
    hide Pow, EncodeVarint, Decode32From, With;
    PowValues();
    FirstByte(v, rest);
    Decode32Step(v / 0x80, 1, v % 128, rest);
    SecondGroup(v % 128, v / 0x80 % 128);
    var v2, r2 := v / 0x80 / 0x80, v % 128 + (v / 0x80 % 128) * 0x80;
    At14(v2, r2, rest);
    assert v2 / 0x20_0000 == v / 0x8_0000_0000;
    assert r2 + v2 * 0x4000 == v;
  }

  /** A negative 32-bit value, written sign-extended in ten bytes, reads back as the same 32 bits. */
  lemma NegativeReadsBack(value: int, rest: Bytes)
    requires -0x8000_0000 <= value < 0
    ensures Decode32(EncodeVarint(ToUnsigned(value)) + rest) == Some((value + UINT32, rest))
  {
    hide Pow, EncodeVarint, Decode32From;
    FirstFiveBytes(ToUnsigned(value), rest);
    assert ToUnsigned(value) / 0x8_0000_0000 == 0x1FFF_FFFF;
    SignExtension(value + UINT32, rest);
  }

  /** The groups above bit 35 of a negative number: all ones, and a last byte of one. */
  lemma SignExtension(result: nat, rest: Bytes)
    requires SIGN_BIT <= result < UINT32
    ensures Decode32From(EncodeVarint(0x1FFF_FFFF) + rest, 35, result) == Some((result, rest))
  {
    hide Pow, EncodeVarint;
    FirstByte(0x1FFF_FFFF, rest);
    FirstByte(0x3F_FFFF, rest);
    FirstByte(0x7FFF, rest);
    FirstByte(0xFF, rest);
    FirstByte(0x01, rest);
    assert Decode32From(EncodeVarint(0x01) + rest, 63, result) == Some((result, rest));
    assert Decode32From(EncodeVarint(0xFF) + rest, 56, result) == Some((result, rest));
    assert Decode32From(EncodeVarint(0x7FFF) + rest, 49, result) == Some((result, rest));
    assert Decode32From(EncodeVarint(0x3F_FFFF) + rest, 42, result) == Some((result, rest));
  }
}
