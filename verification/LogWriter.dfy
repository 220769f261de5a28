// db/log_writer.cc
module LogWriter {
  import opened Coding
  import opened LogFormat

  class Writer {
    const crc: Crc
    var dest: Bytes
    var blockOffset: nat

    ghost predicate Valid()
      reads this
    {
      blockOffset <= BLOCK_SIZE && InBlock(blockOffset) == InBlock(|dest|)
    }

    /** A writer that appends to dest, which holds dest_length bytes already. */
    constructor (crc: Crc, dest: Bytes)
      ensures Valid() && this.crc == crc && this.dest == dest
    {
      this.crc, this.dest := crc, dest;
      blockOffset := |dest| % BLOCK_SIZE;
    }

    /** Appends the record, cut into fragments that never cross a block boundary. */
    method AddRecord(slice: Bytes)
      requires Valid()
      modifies this
      ensures Valid()
      ensures dest == old(dest) + EncodeRecord(crc, InBlock(|old(dest)|), slice, true)
    {
      hide EncodeRecord, Frame, Pad, InBlock, FragmentType;
      var left := slice;
      var begin := true;
      var again := true;
      ghost var goal := dest + EncodeRecord(crc, InBlock(|dest|), slice, true);
      while again
        invariant Valid()
        invariant if again then dest + EncodeRecord(crc, InBlock(|dest|), left, begin) == goal else dest == goal
        decreases again, |left|, InBlock(|dest|)
      {
        ghost var dest0, left0, begin0 := dest, left, begin;
        SwitchBlock();
        ghost var padded, headerAt := dest, blockOffset;
        var avail := BLOCK_SIZE - blockOffset - HEADER_SIZE;
        var fragmentLength := if |left| < avail then |left| else avail;
        var end := |left| == fragmentLength;
        EmitPhysicalRecord(FragmentType(begin, end), left[..fragmentLength]);
        InBlockAdd(headerAt, HEADER_SIZE + fragmentLength);
        InBlockAdd(|padded|, HEADER_SIZE + fragmentLength);
        ghost var frame := dest[|padded|..];
        FirstFragmentIs(crc, InBlock(|dest0|), left0, begin0);
        FragmentAppended(crc, dest0, InBlock(|dest0|), left0, begin0, fragmentLength, frame);
        left := left[fragmentLength..];
        begin := false;
        again := |left| > 0;
      }
    }

    /** Moves to the next block, filling the trailer with zeros, if no header fits in this one. */
    method SwitchBlock()
      requires Valid()
      modifies this
      ensures Valid()
      ensures dest == old(dest) + Pad(InBlock(|old(dest)|))
      ensures InBlock(blockOffset) == blockOffset == HeaderOffset(InBlock(|old(dest)|))
    {
      var leftover := BLOCK_SIZE - blockOffset;
      if leftover < HEADER_SIZE {
        if leftover > 0 {
          dest := dest + Zeros(leftover);
        }
        blockOffset := 0;
      }
    }

    method EmitPhysicalRecord(t: Byte, payload: Bytes)
      requires blockOffset + HEADER_SIZE + |payload| <= BLOCK_SIZE
      modifies this
      ensures dest == old(dest) + Frame(crc, t, payload)
      ensures blockOffset == old(blockOffset) + HEADER_SIZE + |payload|
    {
      var length := |payload|;
      var header := Fixed32(Mask(crc([t] + payload))) + [length % 256, length / 256] + [t];
      dest := dest + header;
      dest := dest + payload;
      blockOffset := blockOffset + HEADER_SIZE + length;
    }
  }
}
