// The layout of a log file (db/log_format.h): a log is a run of frames, none of which crosses a block
// boundary, with nothing between them but zeros at the end of a block.
module LogBlocks {
  import opened Coding
  import opened LogFormat
  import opened LogReader

  /** A frame of the file: where its header stands, and what it holds. */
  datatype Piece = Piece(at: nat, kind: Byte, payload: Bytes)

  /** From position to end the file is exactly these frames, each after the padding, if any, that
      fills up a block too short for a header. */
  ghost predicate Framed(crc: Crc, file: Bytes, position: nat, pieces: seq<Piece>, end: nat)
    decreases |pieces|
  {
    if pieces == [] then position == end
    else
      && pieces[0].at == position + |Pad(InBlock(position))|
      && Upcoming(crc, file, position, pieces[0].kind, pieces[0].payload)
      && Framed(crc, file, UpcomingEnd(position, pieces[0].payload), pieces[1..], end)
  }

  function Payloads(pieces: seq<Piece>): Bytes {
    if pieces == [] then [] else pieces[0].payload + Payloads(pieces[1..])
  }

  /** The types of the frames of one record, or of the rest of one. */
  ghost predicate Typed(pieces: seq<Piece>, begin: bool) {
    && pieces != []
    && forall i | 0 <= i < |pieces| :: pieces[i].kind == FragmentType(begin && i == 0, i == |pieces| - 1)
  }

  lemma {:induction false} FramedJoin(crc: Crc, file: Bytes, position: nat, a: seq<Piece>, middle: nat, b: seq<Piece>,
                                      end: nat)
    requires Framed(crc, file, position, a, middle) && Framed(crc, file, middle, b, end)
    ensures Framed(crc, file, position, a + b, end)
    ensures Payloads(a + b) == Payloads(a) + Payloads(b)
    decreases |a|
  {
    hide Upcoming, UpcomingEnd, InBlock;
    if a == [] {
      assert a + b == b;
    } else {
      FramedJoin(crc, file, UpcomingEnd(position, a[0].payload), a[1..], middle, b, end);
      assert (a + b)[1..] == a[1..] + b && (a + b)[0] == a[0];
      assert a[0].payload + (Payloads(a[1..]) + Payloads(b)) == a[0].payload + Payloads(a[1..]) + Payloads(b);
    }
  }

  /** The frames that one record is cut into. */
  lemma {:induction false} RecordFramed(crc: Crc, file: Bytes, position: nat, data: Bytes, begin: bool)
    returns (pieces: seq<Piece>)
    requires RecordNext(crc, file, position, data, begin)
    ensures Framed(crc, file, position, pieces, RecordEnd(crc, position, data, begin))
    ensures Payloads(pieces) == data && Typed(pieces, begin)
    decreases |data|, InBlock(position)
  {
    hide RecordNext, RecordEnd, Upcoming, UpcomingEnd, InBlock, FragmentType;
    RecordNextSplits(crc, file, position, data, begin);
    var n := FragmentLength(InBlock(position), |data|);
    var first := Piece(position + |Pad(InBlock(position))|, FragmentType(begin, n == |data|), data[..n]);
    if n == |data| {
      pieces := [first];
      assert data[..n] == data && pieces[1..] == [];
      assert Payloads(pieces[1..]) == [] && data + [] == data;
    } else {
      NextBlock(position, data);
      var rest := RecordFramed(crc, file, UpcomingEnd(position, data[..n]), data[n..], false);
      pieces := [first] + rest;
      assert pieces[1..] == rest && data[..n] + data[n..] == data;
    }
  }

  /** After a fragment that is not the last comes a new block; a fragment without data stood at the
      end of one. */
  lemma NextBlock(position: nat, data: Bytes)
    requires FragmentLength(InBlock(position), |data|) < |data|
    ensures var n := FragmentLength(InBlock(position), |data|);
            InBlock(UpcomingEnd(position, data[..n])) == 0 && (n > 0 || InBlock(position) > 0)
  {
    hide InBlock;
    var n := FragmentLength(InBlock(position), |data|);
    HeaderAligns(position);
    InBlockAdd(position + |Pad(InBlock(position))|, HEADER_SIZE + n);
  }

  function Flat(records: seq<Bytes>): Bytes {
    if records == [] then [] else Flat(records[..|records| - 1]) + records[|records| - 1]
  }

  /** Every frame lies inside one block. */
  lemma {:induction false} FramesFitBlocks(crc: Crc, file: Bytes, position: nat, pieces: seq<Piece>, end: nat)
    requires Framed(crc, file, position, pieces, end)
    ensures forall p | p in pieces :: FrameHere(crc, file, p.at, p.kind, p.payload)
    decreases |pieces|
  {
    if pieces == [] {
    } else {
      hide FrameHere, InBlock;
      FramesFitBlocks(crc, file, UpcomingEnd(position, pieces[0].payload), pieces[1..], end);
      forall p | p in pieces
        ensures FrameHere(crc, file, p.at, p.kind, p.payload)
      {
        assert p == pieces[0] || p in pieces[1..];
      }
    }
  }

  /** A log, from any offset on and of any records, is a run of frames that hold the records in order;
      no frame crosses a block boundary. */
  lemma LogIsFramed(crc: Crc, before: Bytes, records: seq<Bytes>) returns (pieces: seq<Piece>)
    ensures var log := LogFile(crc, before, records);
            && Framed(crc, log, |before|, pieces, |log|)
            && Payloads(pieces) == Flat(records)
            && forall p | p in pieces ::
                 && InBlock(p.at) + HEADER_SIZE + |p.payload| <= BLOCK_SIZE
                 && p.at + HEADER_SIZE + |p.payload| <= |log|
                 && log[p.at..p.at + HEADER_SIZE + |p.payload|] == Frame(crc, p.kind, p.payload)
  {
    hide Framed, InBlock, Frame;
    pieces := LogFramedUpTo(crc, before, records, |records|);
    assert records[..|records|] == records;
    FramesFitBlocks(crc, LogFile(crc, before, records), |before|, pieces, |LogFile(crc, before, records)|);
  }

  lemma {:induction false} LogFramedUpTo(crc: Crc, before: Bytes, records: seq<Bytes>, k: nat)
    returns (pieces: seq<Piece>)
    requires k <= |records|
    ensures Framed(crc, LogFile(crc, before, records), |before|, pieces, RecordStart(crc, before, records, k))
    ensures Payloads(pieces) == Flat(records[..k])
  {
    hide Framed, InBlock, RecordNext, RecordEnd, LogFile, Typed;
    if k == 0 {
      pieces := [];
      NoFrames(crc, LogFile(crc, before, records), |before|);
    } else {
      hide RecordStart, EncodeAll;
      var some := LogFramedUpTo(crc, before, records, k - 1);
      RecordFollows(crc, before, records, k - 1);
      var last := RecordFramed(crc, LogFile(crc, before, records), RecordStart(crc, before, records, k - 1),
                               records[k - 1], true);
      pieces := some + last;
      FramedJoin(crc, LogFile(crc, before, records), |before|, some, RecordStart(crc, before, records, k - 1), last,
                 RecordStart(crc, before, records, k));
      assert records[..k][..k - 1] == records[..k - 1];
    }
  }

  lemma NoFrames(crc: Crc, file: Bytes, position: nat)
    ensures Framed(crc, file, position, [], position)
  {
  }
}
