// The log file format (db/log_format.h; util/crc32c.h): 32 KiB blocks of framed fragments.
module LogFormat {
  import opened Coding
  import Seqs

  const BLOCK_SIZE: nat := 32768
  const HEADER_SIZE: nat := 7

  const ZERO_TYPE: nat := 0
  const FULL_TYPE: nat := 1
  const FIRST_TYPE: nat := 2
  const MIDDLE_TYPE: nat := 3
  const LAST_TYPE: nat := 4

  type Uint32 = n: nat | n < UINT32

  /** The checksum of a byte string; nothing but its being a function matters here. */
  type Crc = Bytes -> Uint32

  const MASK_DELTA: nat := 0xa282ead8

  /** Rotate right by 15 bits and add a constant. */
  function Mask(crc: Uint32): Uint32 {
    (crc / 0x8000 + (crc % 0x8000) * 0x2_0000 + MASK_DELTA) % UINT32
  }

  function Unmask(masked: Uint32): Uint32 {
    var rot := (masked + UINT32 - MASK_DELTA) % UINT32;
    rot / 0x2_0000 + (rot % 0x2_0000) * 0x8000
  }

  lemma MaskRoundTrip(crc: Uint32)
    ensures Unmask(Mask(crc)) == crc
  {
    var rot := crc / 0x8000 + (crc % 0x8000) * 0x2_0000;
    assert rot < UINT32;
    assert (Mask(crc) + UINT32 - MASK_DELTA) % UINT32 == rot;
    assert rot / 0x2_0000 == crc % 0x8000 && rot % 0x2_0000 == crc / 0x8000;
  }

  /** The offset within its block of a position in the file. */
  function InBlock(position: nat): (r: nat)
    ensures r < BLOCK_SIZE
  {
    position % 32768
  }

  lemma InBlockSum(a: nat, b: nat)
    ensures InBlock(InBlock(a) + b) == InBlock(a + b)
  {
  }

  lemma InBlockAdd(position: nat, n: nat)
    requires InBlock(position) + n <= BLOCK_SIZE
    ensures InBlock(position + n) == if InBlock(position) + n == BLOCK_SIZE then 0 else InBlock(position) + n
  {
  }

  // ------------------------------------------------------------------- what is written

  function Uint16(low: Byte, high: Byte): nat {
    low as nat + 256 * high as nat
  }

  /** One physical record: masked checksum of type and payload, length, type, payload. */
  function Frame(crc: Crc, t: Byte, payload: Bytes): (r: Bytes)
    requires |payload| < 0x1_0000
    ensures |r| == HEADER_SIZE + |payload|
  {
    Fixed32(Mask(crc([t] + payload))) + [|payload| % 256, |payload| / 256] + [t] + payload
  }

  function Zeros(n: nat): (r: Bytes)
    ensures |r| == n
  {
    seq(n, _ => 0)
  }

  /** The zeros that fill a block's trailer when no header fits any more. */
  function Pad(off: nat): (r: Bytes)
    requires off < BLOCK_SIZE
    ensures |r| < HEADER_SIZE
  {
    if BLOCK_SIZE - off < HEADER_SIZE then Zeros(BLOCK_SIZE - off) else []
  }

  /** Where in a block the next header goes. */
  function HeaderOffset(off: nat): (r: nat)
    requires off < BLOCK_SIZE
    ensures r + HEADER_SIZE <= BLOCK_SIZE && (r == off || r == 0)
  {
    if BLOCK_SIZE - off < HEADER_SIZE then 0 else off
  }

  function Min(a: nat, b: nat): nat { if a < b then a else b }

  function FragmentLength(off: nat, left: nat): (r: nat)
    requires off < BLOCK_SIZE
    ensures r <= left && HeaderOffset(off) + HEADER_SIZE + r <= BLOCK_SIZE
  {
    Min(left, BLOCK_SIZE - HeaderOffset(off) - HEADER_SIZE)
  }

  function FragmentType(begin: bool, end: bool): (r: Byte)
    ensures FULL_TYPE <= r <= LAST_TYPE
  {
    if begin && end then FULL_TYPE else if begin then FIRST_TYPE else if end then LAST_TYPE else MIDDLE_TYPE
  }

  /** The first fragment of what is left of a record, written at block offset off. */
  function FirstFragment(crc: Crc, off: nat, data: Bytes, begin: bool): Bytes
    requires off < BLOCK_SIZE
  {
    var n := FragmentLength(off, |data|);
    Frame(crc, FragmentType(begin, n == |data|), data[..n])
  }

  /** The bytes of a record, or of the rest of one, written at block offset off. */
  function EncodeRecord(crc: Crc, off: nat, data: Bytes, begin: bool): (r: Bytes)
    requires off < BLOCK_SIZE
    ensures |r| >= HEADER_SIZE
    decreases |data|, off
  {
    var n := FragmentLength(off, |data|);
    Pad(off) + FirstFragment(crc, off, data, begin)
    + if n == |data| then [] else EncodeRecord(crc, 0, data[n..], false)
  }

  /** Records one after the other, the first of them at block offset off. */
  function EncodeAll(crc: Crc, off: nat, records: seq<Bytes>): Bytes
    requires off < BLOCK_SIZE
  {
    if records == [] then []
    else
      var n := |records| - 1;
      var before := EncodeAll(crc, off, records[..n]);
      before + EncodeRecord(crc, InBlock(off + |before|), records[n], true)
  }

  lemma FirstFragmentIs(crc: Crc, off: nat, data: Bytes, begin: bool)
    requires off < BLOCK_SIZE
    ensures var n := FragmentLength(off, |data|);
            FirstFragment(crc, off, data, begin) == Frame(crc, FragmentType(begin, n == |data|), data[..n])
  {
  }

  /** A record starts with its first fragment; what is left, if anything, starts a new block. */
  lemma EncodeRecordSplits(crc: Crc, off: nat, data: Bytes, begin: bool)
    requires off < BLOCK_SIZE
    ensures var n := FragmentLength(off, |data|);
            && (n < |data| ==> HeaderOffset(off) + HEADER_SIZE + n == BLOCK_SIZE)
            && EncodeRecord(crc, off, data, begin)
               == Pad(off) + FirstFragment(crc, off, data, begin)
                  + (if n == |data| then [] else EncodeRecord(crc, 0, data[n..], false))
  {
  }

  /** Padding, then the first fragment, then the rest of the record makes the whole record. */
  lemma FragmentAppended(crc: Crc, dest: Bytes, off: nat, data: Bytes, begin: bool, n: nat, frame: Bytes)
    requires off == InBlock(|dest|) && n == FragmentLength(off, |data|)
    requires frame == FirstFragment(crc, off, data, begin)
    ensures n < |data| ==> InBlock(|dest + Pad(off) + frame|) == 0
    ensures dest + EncodeRecord(crc, off, data, begin)
            == dest + Pad(off) + frame + (if n == |data| then [] else EncodeRecord(crc, 0, data[n..], false))
  {
    EncodeRecordSplits(crc, off, data, begin);
    FirstFragmentIs(crc, off, data, begin);
    PadAligns(dest);
    hide EncodeRecord, FirstFragment, Frame, Pad, InBlock, FragmentType, FragmentLength, HeaderOffset, Min;
    InBlockAdd(|dest + Pad(off)|, HEADER_SIZE + n);
    Seqs.RegroupRest(dest, Pad(off), frame, if n == |data| then [] else EncodeRecord(crc, 0, data[n..], false));
  }

  /** After the padding the next header fits into its block. */
  lemma PadAligns(dest: Bytes)
    ensures var off := InBlock(|dest|);
            InBlock(|dest| + |Pad(off)|) == HeaderOffset(off)
  {
  }

  /** A log of records that follows the bytes `before`. */
  function LogFile(crc: Crc, before: Bytes, records: seq<Bytes>): Bytes {
    before + EncodeAll(crc, InBlock(|before|), records)
  }

  /** Writing one more record at the end of a log. */
  lemma LogGrows(crc: Crc, before: Bytes, records: seq<Bytes>, data: Bytes)
    ensures var log := LogFile(crc, before, records);
            log + EncodeRecord(crc, InBlock(|log|), data, true) == LogFile(crc, before, records + [data])
  {
    hide EncodeRecord, InBlock;
    assert (records + [data])[..|records|] == records;
    InBlockSum(|before|, |EncodeAll(crc, InBlock(|before|), records)|);
  }

  // ------------------------------------------------------------------------ torn tails

  /** The first k records, and no more, lie entirely in the first n bytes of the log. */
  ghost predicate Survive(crc: Crc, off: nat, records: seq<Bytes>, n: int, k: nat)
    requires off < BLOCK_SIZE
  {
    && k <= |records|
    && |EncodeAll(crc, off, records[..k])| <= n
    && (k < |records| ==> n < |EncodeAll(crc, off, records[..k + 1])|)
  }

  /** The log of the first records is a prefix of the whole log, and grows with every record. */
  lemma {:induction false} EncodeAllPrefix(crc: Crc, off: nat, records: seq<Bytes>, k: nat)
    requires off < BLOCK_SIZE && k <= |records|
    ensures EncodeAll(crc, off, records[..k]) <= EncodeAll(crc, off, records)
    ensures k < |records| ==> |EncodeAll(crc, off, records[..k])| < |EncodeAll(crc, off, records)|
  {
    if k == |records| {
      assert records[..k] == records;
    } else {
      EncodeAllPrefix(crc, off, records[..|records| - 1], k);
      assert records[..|records| - 1][..k] == records[..k];
    }
  }

  lemma EncodeAllStep(crc: Crc, off: nat, records: seq<Bytes>, k: nat)
    requires off < BLOCK_SIZE && k < |records|
    ensures var some := EncodeAll(crc, off, records[..k]);
            EncodeAll(crc, off, records[..k + 1])
            == some + EncodeRecord(crc, InBlock(off + |some|), records[k], true)
  {
    hide EncodeRecord, InBlock;
    assert records[..k + 1][..k] == records[..k];
  }

  /** Records that end within the first n bytes are among the survivors. */
  lemma SurviveCovers(crc: Crc, off: nat, records: seq<Bytes>, n: int, k: nat, j: nat)
    requires off < BLOCK_SIZE && Survive(crc, off, records, n, k)
    requires j <= |records| && |EncodeAll(crc, off, records[..j])| <= n
    ensures j <= k
  {
    hide EncodeAll;
    if k < j {
      var some := records[..j];
      assert some[..k + 1] == records[..k + 1];
      EncodeAllPrefix(crc, off, some, k + 1);
    }
  }

  /** How many records survive is determined by how many bytes do. */
  lemma SurviveUnique(crc: Crc, off: nat, records: seq<Bytes>, n: int, j: nat, k: nat)
    requires off < BLOCK_SIZE
    requires Survive(crc, off, records, n, j) && Survive(crc, off, records, n, k)
    ensures j == k
  {
    hide EncodeAll;
    SurviveCovers(crc, off, records, n, j, k);
    SurviveCovers(crc, off, records, n, k, j);
  }

  /** k is the one count of records that survive. */
  ghost predicate SurviveOnly(crc: Crc, off: nat, records: seq<Bytes>, n: int, k: nat)
    requires off < BLOCK_SIZE
  {
    forall j: nat :: Survive(crc, off, records, n, j) <==> j == k
  }

  lemma SurviveExactly(crc: Crc, off: nat, records: seq<Bytes>, n: int, k: nat)
    requires off < BLOCK_SIZE && Survive(crc, off, records, n, k)
    ensures SurviveOnly(crc, off, records, n, k)
  {
    hide Survive;
    forall j: nat | Survive(crc, off, records, n, j)
      ensures j == k
    {
      SurviveUnique(crc, off, records, n, j, k);
    }
  }

  // -------------------------------------------------------------------- parsing a frame

  /** Decoding what Frame wrote gives back the length, the type and a matching checksum. */
  lemma FrameParses(crc: Crc, t: Byte, payload: Bytes)
    requires |payload| < 0x1_0000
    ensures var f := Frame(crc, t, payload);
            && Uint16(f[4], f[5]) == |payload| && f[6] == t
            && f[HEADER_SIZE..] == payload && f[6..] == [t] + payload
            && DecodeFixed(f[..4]) < UINT32
            && Unmask(DecodeFixed(f[..4])) == crc([t] + payload)
  {
    var f := Frame(crc, t, payload);
    var masked := Mask(crc([t] + payload));
    assert f[..4] == Fixed32(masked);
    Fixed32RoundTrip(masked);
    MaskRoundTrip(crc([t] + payload));
  }
}
