// db/log_reader.cc, reading from the start of the file (initial_offset 0, so nothing to resync).
module LogReader {
  import opened Wrappers
  import opened Coding
  import opened LogFormat

  datatype Physical = Record(kind: Byte, fragment: Bytes) | Eof | Bad

  /** The bytes stored at a position of a file. */
  ghost predicate Stores(file: Bytes, position: nat, bytes: Bytes) {
    position + |bytes| <= |file| && file[position..position + |bytes|] == bytes
  }

  /** The file is what is left of `whole` once its tail is torn off. */
  ghost predicate Torn(file: Bytes, whole: Bytes) {
    file <= whole
  }

  lemma StoresParts(file: Bytes, position: nat, a: Bytes, b: Bytes)
    requires Stores(file, position, a + b)
    ensures Stores(file, position, a) && Stores(file, position + |a|, b)
  {
    var both := file[position..position + |a + b|];
    assert file[position..position + |a|] == both[..|a|] == a;
    assert file[position + |a|..position + |a| + |b|] == both[|a|..] == b;
  }

  /** A frame of the given type and payload stands at a position and fits its block. */
  ghost predicate FrameHere(crc: Crc, file: Bytes, position: nat, kind: Byte, payload: Bytes) {
    && kind != ZERO_TYPE
    && InBlock(position) + HEADER_SIZE + |payload| <= BLOCK_SIZE
    && Stores(file, position, Frame(crc, kind, payload))
  }

  /** A frame comes next, after any padding. */
  ghost predicate Upcoming(crc: Crc, file: Bytes, position: nat, kind: Byte, payload: Bytes) {
    FrameHere(crc, file, position + |Pad(InBlock(position))|, kind, payload)
  }

  lemma HeaderAligns(position: nat)
    ensures InBlock(position + |Pad(InBlock(position))|) == HeaderOffset(InBlock(position))
  {
    InBlockAdd(position, |Pad(InBlock(position))|);
    hide InBlock;
  }

  function UpcomingEnd(position: nat, payload: Bytes): nat {
    position + |Pad(InBlock(position))| + HEADER_SIZE + |payload|
  }

  /** All of a record, or of the rest of one, comes next. */
  ghost predicate RecordNext(crc: Crc, file: Bytes, position: nat, data: Bytes, begin: bool) {
    Stores(file, position, EncodeRecord(crc, InBlock(position), data, begin))
  }

  ghost function RecordEnd(crc: Crc, position: nat, data: Bytes, begin: bool): (r: nat)
    ensures r > position
  {
    position + |EncodeRecord(crc, InBlock(position), data, begin)|
  }

  /** A record comes as its first fragment and then, in a new block, the rest of it. */
  lemma RecordNextSplits(crc: Crc, file: Bytes, position: nat, data: Bytes, begin: bool)
    requires RecordNext(crc, file, position, data, begin)
    ensures var n := FragmentLength(InBlock(position), |data|);
            var after := UpcomingEnd(position, data[..n]);
            && Upcoming(crc, file, position, FragmentType(begin, n == |data|), data[..n])
            && (n < |data| ==> RecordNext(crc, file, after, data[n..], false))
            && RecordEnd(crc, position, data, begin)
               == if n == |data| then after else RecordEnd(crc, after, data[n..], false)
  {
    hide EncodeRecord, FirstFragment, Frame, Stores, Pad, InBlock, FragmentLength, FragmentType;
    var off := InBlock(position);
    var n := FragmentLength(off, |data|);
    var frame := Frame(crc, FragmentType(begin, n == |data|), data[..n]);
    EncodeRecordSplits(crc, off, data, begin);
    FirstFragmentIs(crc, off, data, begin);
    HeaderAligns(position);
    InBlockAdd(position + |Pad(off)|, HEADER_SIZE + n);
    if n == |data| {
      assert Pad(off) + frame + [] == Pad(off) + frame;
      StoresParts(file, position, Pad(off), frame);
    } else {
      var rest := EncodeRecord(crc, 0, data[n..], false);
      StoresParts(file, position, Pad(off) + frame, rest);
      StoresParts(file, position, Pad(off), frame);
    }
  }

  /** Where record k of a log starts that follows the bytes `before`. */
  ghost function RecordStart(crc: Crc, before: Bytes, records: seq<Bytes>, k: nat): nat
    requires k <= |records|
  {
    |before| + |EncodeAll(crc, InBlock(|before|), records[..k])|
  }

  /** After the first k records of a log comes record k. */
  lemma RecordFollows(crc: Crc, before: Bytes, records: seq<Bytes>, k: nat)
    requires k < |records|
    ensures RecordNext(crc, LogFile(crc, before, records),
                       RecordStart(crc, before, records, k), records[k], true)
    ensures RecordEnd(crc, RecordStart(crc, before, records, k), records[k], true)
            == RecordStart(crc, before, records, k + 1)
  {
    hide EncodeAll, EncodeRecord, InBlock, Stores;
    var off := InBlock(|before|);
    var some := EncodeAll(crc, off, records[..k]);
    var next := EncodeRecord(crc, InBlock(off + |some|), records[k], true);
    EncodeAllStep(crc, off, records, k);
    EncodeAllPrefix(crc, off, records, k + 1);
    InBlockSum(|before|, |some|);
    StoresMiddle(before, some, next, EncodeAll(crc, off, records));
  }

  lemma StoresMiddle(before: Bytes, some: Bytes, next: Bytes, all: Bytes)
    requires some + next <= all
    ensures Stores(before + all, |before| + |some|, next)
  {
    var rest := all[|some + next|..];
    assert all == some + next + rest;
  }

  lemma PrefixGrows<T>(some: seq<T>, all: seq<T>)
    requires some <= all && |some| < |all|
    ensures some + [all[|some|]] <= all
  {
  }

  lemma RecordsFill(crc: Crc, before: Bytes, records: seq<Bytes>, file: Bytes)
    requires Torn(file, LogFile(crc, before, records))
    ensures |file| <= RecordStart(crc, before, records, |records|)
  {
    assert records[..|records|] == records;
  }

  lemma StartsAfter(crc: Crc, before: Bytes, records: seq<Bytes>)
    ensures RecordStart(crc, before, records, 0) == |before|
  {
    assert records[..0] == [];
  }

  lemma StartsSurvive(crc: Crc, before: Bytes, records: seq<Bytes>, n: nat, k: nat)
    requires k <= |records| && RecordStart(crc, before, records, k) <= n
    requires k < |records| ==> n < RecordStart(crc, before, records, k + 1)
    ensures Survive(crc, InBlock(|before|), records, n - |before|, k)
  {
  }

  function UnmaskStored(masked: Bytes): Uint32
    requires |masked| == 4
  {
    FixedBound(masked);
    Pow256Values();
    Unmask(DecodeFixed(masked))
  }

  /** A record of which `scratch` has been read, and `rest` comes next. */
  ghost predicate Midway(crc: Crc, whole: Bytes, position: nat, expected: Bytes, goal: nat, scratch: Bytes,
                         rest: Bytes, begin: bool) {
    && scratch + rest == expected
    && RecordNext(crc, whole, position, rest, begin)
    && RecordEnd(crc, position, rest, begin) == goal
  }

  lemma GatheringStarts(crc: Crc, whole: Bytes, position: nat, expected: Bytes)
    requires RecordNext(crc, whole, position, expected, true)
    ensures Midway(crc, whole, position, expected, RecordEnd(crc, position, expected, true), [], expected, true)
  {
    hide RecordNext, RecordEnd;
    assert [] + expected == expected;
  }

  /** The next fragment: the last one completes the record, any other leaves less to come. */
  lemma FragmentGathered(crc: Crc, whole: Bytes, position: nat, expected: Bytes, goal: nat, scratch: Bytes,
                         rest: Bytes, begin: bool)
    requires Midway(crc, whole, position, expected, goal, scratch, rest, begin)
    ensures var n := FragmentLength(InBlock(position), |rest|);
            var after := UpcomingEnd(position, rest[..n]);
            && FragmentType(begin, n == |rest|) == (if n == |rest| then if begin then FULL_TYPE else LAST_TYPE
                                                    else if begin then FIRST_TYPE else MIDDLE_TYPE)
            && Upcoming(crc, whole, position, FragmentType(begin, n == |rest|), rest[..n])
            && after <= goal
            && (n == |rest| ==> after == goal && scratch + rest[..n] == expected)
            && (n < |rest| ==> Midway(crc, whole, after, expected, goal, scratch + rest[..n], rest[n..], false))
            && (begin && scratch == [] ==> scratch + rest[..n] == rest[..n])
  {
    hide RecordNext, RecordEnd, Upcoming, UpcomingEnd, InBlock, FragmentLength;
    var n := FragmentLength(InBlock(position), |rest|);
    RecordNextSplits(crc, whole, position, rest, begin);
    assert scratch + rest[..n] + rest[n..] == scratch + rest;
    assert scratch == [] ==> scratch + rest[..n] == rest[..n];
    if n == |rest| {
      assert rest[..n] == rest;
    }
  }

  class Reader {
    const crc: Crc
    const file: Bytes
    const checksum: bool
    var buffer: Bytes
    var endOfBuffer: nat
    var eof: bool
    var corruptions: nat

    /** The buffer is the unread part of one block of the file. */
    ghost predicate Valid()
      reads this
    {
      && |buffer| <= endOfBuffer <= |file|
      && buffer == file[endOfBuffer - |buffer|..endOfBuffer]
      && InBlock(endOfBuffer - |buffer|) + |buffer| <= BLOCK_SIZE
      && (if eof then endOfBuffer == |file| else InBlock(endOfBuffer) == 0)
    }

    ghost function Position(): nat
      requires Valid()
      reads this
    {
      endOfBuffer - |buffer|
    }

    constructor (crc: Crc, file: Bytes, checksum: bool)
      ensures Valid() && Position() == 0 && corruptions == 0
      ensures this.crc == crc && this.file == file && this.checksum == checksum
    {
      this.crc, this.file, this.checksum := crc, file, checksum;
      buffer, endOfBuffer, eof, corruptions := [], 0, false, 0;
    }

    /** file_->Read of one block at the current end of the buffer. */
    method Refill()
      requires Valid() && !eof && |buffer| < HEADER_SIZE
      modifies this`buffer, this`endOfBuffer, this`eof
      ensures Valid()
      ensures Position() == old(endOfBuffer)
      ensures !eof ==> |buffer| == BLOCK_SIZE
    {
      var n := if |file| - endOfBuffer < BLOCK_SIZE then |file| - endOfBuffer else BLOCK_SIZE;
      buffer := file[endOfBuffer..endOfBuffer + n];
      InBlockAdd(endOfBuffer, n);
      endOfBuffer := endOfBuffer + n;
      eof := n < BLOCK_SIZE;
    }

    /** Parses the frame at the head of the buffer.  If `whole` (of which the file is the part that
        survived) holds a frame here, the result is that frame if all of it survived and end of
        file if not. */
    method ParseHeader(ghost whole: Bytes, ghost kind: Byte, ghost payload: Bytes) returns (r: Physical)
      requires Valid() && |buffer| >= HEADER_SIZE
      modifies this`buffer, this`corruptions
      ensures Valid()
      ensures !r.Eof? ==> Position() > old(Position())
      ensures r.Eof? ==> Position() == |file| && eof
      ensures Torn(file, whole) && FrameHere(crc, whole, old(Position()), kind, payload) ==>
        && corruptions == old(corruptions)
        && (if old(Position()) + HEADER_SIZE + |payload| <= |file|
            then r == Record(kind, payload) && Position() == old(Position()) + HEADER_SIZE + |payload|
            else r.Eof?)
    {
      ghost var position := Position();
      if Torn(file, whole) && FrameHere(crc, whole, position, kind, payload) {
        BufferHoldsHeader(whole, kind, payload);
      }
      hide Frame, FrameHere, Stores, InBlock, UnmaskStored;
      var header := buffer;
      var length := Uint16(header[4], header[5]);
      var recordType := header[6];
      if HEADER_SIZE + length > |buffer| {
        buffer := [];
        if !eof {
          corruptions := corruptions + 1;
          return Bad;
        }
        return Eof;
      }
      if recordType == ZERO_TYPE && length == 0 {
        buffer := [];
        return Bad;
      }
      if checksum {
        var expected := UnmaskStored(header[..4]);
        var actual := crc(header[6..HEADER_SIZE + length]);
        if actual != expected {
          buffer := [];
          corruptions := corruptions + 1;
          return Bad;
        }
      }
      Consume(HEADER_SIZE + length);
      return Record(recordType, header[HEADER_SIZE..HEADER_SIZE + length]);
    }

    /** buffer_.remove_prefix(n) */
    method Consume(n: nat)
      requires Valid() && 0 < n <= |buffer|
      modifies this`buffer
      ensures Valid()
      ensures Position() == old(Position()) + n
    {
      InBlockAdd(Position(), n);
      buffer := buffer[n..];
    }

    /** What survived of a frame at the reader's position is in the buffer. */
    lemma BufferHoldsHeader(whole: Bytes, kind: Byte, payload: Bytes)
      requires Valid() && |buffer| >= HEADER_SIZE && Torn(file, whole)
      requires FrameHere(crc, whole, Position(), kind, payload)
      ensures Uint16(buffer[4], buffer[5]) == |payload| && buffer[6] == kind
      ensures HEADER_SIZE + |payload| <= |buffer| <==> Position() + HEADER_SIZE + |payload| <= |file|
      ensures HEADER_SIZE + |payload| > |buffer| ==> eof
      ensures HEADER_SIZE + |payload| <= |buffer| ==>
        && UnmaskStored(buffer[..4]) == crc([kind] + payload)
        && buffer[6..HEADER_SIZE + |payload|] == [kind] + payload
        && buffer[HEADER_SIZE..HEADER_SIZE + |payload|] == payload
    {
      var frame := Frame(crc, kind, payload);
      FrameParses(crc, kind, payload);
      InBlockAdd(Position(), |buffer|);
      hide Frame, InBlock;
      var m := Min(|buffer|, |frame|);
      assert buffer[..m] == frame[..m] by {
        forall i | 0 <= i < m
          ensures buffer[i] == frame[i]
        {
          assert buffer[i] == file[Position() + i] == whole[Position() + i];
          assert whole[Position()..Position() + |frame|][i] == frame[i];
        }
      }
      assert buffer[4] == frame[..m][4] && buffer[5] == frame[..m][5] && buffer[6] == frame[..m][6];
      if |frame| <= |buffer| {
        assert frame[..m] == frame;
        assert buffer[..4] == frame[..4];
        assert buffer[6..|frame|] == frame[6..];
        assert buffer[HEADER_SIZE..|frame|] == frame[HEADER_SIZE..];
      }
    }

    /** Reads the next frame, skipping what is left of a block that is too short for a header. */
    method ReadPhysicalRecord(ghost whole: Bytes, ghost kind: Byte, ghost payload: Bytes) returns (r: Physical)
      requires Valid()
      modifies this`buffer, this`endOfBuffer, this`eof, this`corruptions
      ensures Valid()
      ensures !r.Eof? ==> Position() > old(Position())
      ensures r.Eof? ==> Position() == |file| && eof
      ensures old(Position()) == |file| ==> r.Eof? && corruptions == old(corruptions)
      ensures Torn(file, whole) && Upcoming(crc, whole, old(Position()), kind, payload) ==>
        && corruptions == old(corruptions)
        && (if UpcomingEnd(old(Position()), payload) <= |file|
            then r == Record(kind, payload) && Position() == UpcomingEnd(old(Position()), payload)
            else r.Eof?)
    {
      hide Frame, Stores, InBlock, Pad, Torn, FrameHere;
      ghost var position := Position();
      ghost var headerAt := position + |Pad(InBlock(position))|;
      TrailerIsPad();
      HeaderAligns(position);
      while |buffer| < HEADER_SIZE
        invariant Valid() && corruptions == old(corruptions)
        invariant position <= Position()
        invariant || (Position() == headerAt && (!eof ==> |buffer| == BLOCK_SIZE))
                  || (buffer == old(buffer) && endOfBuffer == old(endOfBuffer) && eof == old(eof))
        decreases !eof, HEADER_SIZE - |buffer|
      {
        if eof {
          buffer := [];
          return Eof;
        }
        Refill();
      }
      r := ParseHeader(whole, kind, payload);
    }

    /** A buffer too short for a header is exactly the padding of its block. */
    lemma TrailerIsPad()
      requires Valid()
      ensures |buffer| >= HEADER_SIZE ==> |Pad(InBlock(Position()))| == 0
      ensures |buffer| < HEADER_SIZE && !eof ==> |Pad(InBlock(Position()))| == |buffer|
    {
      InBlockAdd(Position(), |buffer|);
      hide InBlock;
    }

    /** Reads the next record.  If `whole` (of which the file is the part that survived) holds the
        record `expected` next, the result is that record if all of it survived; otherwise nothing
        is returned and nothing is reported. */
    method ReadRecord(ghost whole: Bytes, ghost expected: Bytes) returns (ok: bool, record: Bytes)
      requires Valid()
      modifies this`buffer, this`endOfBuffer, this`eof, this`corruptions
      ensures Valid()
      ensures ok ==> Position() > old(Position())
      ensures !ok ==> Position() == |file| && eof
      ensures old(Position()) == |file| ==> !ok && corruptions == old(corruptions)
      ensures Torn(file, whole) && RecordNext(crc, whole, old(Position()), expected, true) ==>
        && corruptions == old(corruptions)
        && (if RecordEnd(crc, old(Position()), expected, true) <= |file|
            then ok && record == expected && Position() == RecordEnd(crc, old(Position()), expected, true)
            else !ok)
    {
      hide RecordNext, RecordEnd, Upcoming, UpcomingEnd, InBlock, FragmentLength, FragmentType, Midway;
      ghost var good := Torn(file, whole) && RecordNext(crc, whole, Position(), expected, true);
      ghost var goal := RecordEnd(crc, Position(), expected, true);
      ghost var rest := expected;
      if good {
        GatheringStarts(crc, whole, Position(), expected);
      }
      var scratch: Bytes := [];
      record := [];
      var inFragmented := false;
      while true
        invariant Valid() && old(Position()) <= Position()
        invariant old(Position()) == |file| ==> corruptions == old(corruptions)
        invariant good ==>
          && corruptions == old(corruptions)
          && (!inFragmented ==> scratch == [])
          && Midway(crc, whole, Position(), expected, goal, scratch, rest, !inFragmented)
        decreases |file| - Position()
      {
        ghost var n := FragmentLength(InBlock(Position()), |rest|);
        if good {
          FragmentGathered(crc, whole, Position(), expected, goal, scratch, rest, !inFragmented);
        }
        var physical := ReadPhysicalRecord(whole, FragmentType(!inFragmented, n == |rest|), rest[..n]);
        if physical.Eof? {
          return false, [];
        } else if physical.Bad? {
          if inFragmented {
            corruptions := corruptions + 1;
            inFragmented := false;
            scratch := [];
          }
        } else {
          var fragment := physical.fragment;
          if physical.kind == FULL_TYPE {
            if inFragmented && scratch != [] {
              corruptions := corruptions + 1;
            }
            return true, fragment;
          } else if physical.kind == FIRST_TYPE {
            if inFragmented && scratch != [] {
              corruptions := corruptions + 1;
            }
            scratch := fragment;
            inFragmented := true;
          } else if physical.kind == MIDDLE_TYPE {
            if !inFragmented {
              corruptions := corruptions + 1;
            } else {
              scratch := scratch + fragment;
            }
          } else if physical.kind == LAST_TYPE {
            if !inFragmented {
              corruptions := corruptions + 1;
            } else {
              return true, scratch + fragment;
            }
          } else {
            corruptions := corruptions + 1;
            inFragmented := false;
            scratch := [];
          }
          rest := rest[n..];
        }
      }
    }

    /** Reads record k of a log whose tail may be torn off. */
    method ReadNext(ghost before: Bytes, ghost records: seq<Bytes>, ghost k: nat) returns (ok: bool, record: Bytes)
      requires Valid() && k <= |records| && Position() == RecordStart(crc, before, records, k)
      requires Torn(file, LogFile(crc, before, records))
      modifies this`buffer, this`endOfBuffer, this`eof, this`corruptions
      ensures Valid() && corruptions == old(corruptions)
      ensures Position() <= |file|
      ensures ok ==>
        && k < |records| && record == records[k]
        && Position() == RecordStart(crc, before, records, k + 1) > old(Position())
      ensures !ok ==> Survive(crc, InBlock(|before|), records, |file| - |before|, k)
    {
      ghost var whole := LogFile(crc, before, records);
      RecordsFill(crc, before, records, file);
      hide *;
      PositionInFile();
      if k < |records| {
        RecordFollows(crc, before, records, k);
      }
      ok, record := ReadRecord(whole, if k < |records| then records[k] else []);
      PositionInFile();
      if !ok {
        StartsSurvive(crc, before, records, |file|, k);
      }
    }

    /** Reads records until there is no more: a log whose tail was torn off at any byte gives back
        exactly the records that survived whole, and reports no corruption. */
    method ReadAll(ghost before: Bytes, ghost records: seq<Bytes>) returns (read: seq<Bytes>)
      requires Valid() && Position() == |before|
      requires Torn(file, LogFile(crc, before, records))
      modifies this`buffer, this`endOfBuffer, this`eof, this`corruptions
      ensures Valid() && corruptions == old(corruptions)
      ensures read <= records
      ensures SurviveOnly(crc, InBlock(|before|), records, |file| - |before|, |read|)
    {
      hide *;
      read := [];
      StartsAfter(crc, before, records);
      var ok, record := ReadNext(before, records, 0);
      while ok
        invariant Valid() && corruptions == old(corruptions) && Position() <= |file|
        invariant read <= records
        invariant ok ==>
          && |read| < |records| && record == records[|read|]
          && Position() == RecordStart(crc, before, records, |read| + 1)
        invariant !ok ==> Survive(crc, InBlock(|before|), records, |file| - |before|, |read|)
        decreases ok, |file| - Position()
      {
        PrefixGrows(read, records);
        read := read + [record];
        ok, record := ReadNext(before, records, |read|);
      }
      SurviveExactly(crc, InBlock(|before|), records, |file| - |before|, |read|);
    }

    lemma PositionInFile()
      requires Valid()
      ensures Position() <= |file|
    {
    }
  }
}
