// The decoding loops of nanopb (Pods/nanopb/pb_decode.c), proved to compute what PbDecode says.
module PbDecodeLoop {
  import opened Wrappers
  import opened Coding
  import opened PbVarint
  import opened PbFormat
  import opened PbIter
  import opened PbDecode
  import opened PbFits

  // ------------------------------------------------------------------- the bitmap of fields

  /** fields_seen: two words of 32 bits, each the set of its bits that are on. */
  datatype Bitmap = Bitmap(low: set<nat>, high: set<nat>)

  /** A word with its n low bits on. */
  function Word(n: nat): (s: set<nat>)
    ensures forall k: nat :: k in s <==> k < n
  {
    if n == 0 then {} else Word(n - 1) + {n - 1}
  }

  function SetBit(words: Bitmap, index: nat): Bitmap
    requires index < MAX_REQUIRED
  {
    if index / 32 == 0 then words.(low := words.low + {index % 32}) else words.(high := words.high + {index % 32})
  }

  ghost predicate Records(words: Bitmap, seen: set<nat>, n: nat) {
    && (forall k | k in seen :: k < n && k < MAX_REQUIRED)
    && (forall b: nat :: b in words.low <==> b < 32 && b in seen)
    && (forall b: nat :: b in words.high <==> b < 32 && b + 32 in seen)
  }

  lemma BitSet(words: Bitmap, seen: set<nat>, n: nat, index: nat)
    requires Records(words, seen, n) && index < MAX_REQUIRED && index < n
    ensures Records(SetBit(words, index), seen + {index}, n)
  {
    var after, all := SetBit(words, index), seen + {index};
    assert index / 32 == if index < 32 then 0 else 1;
    assert index == index % 32 + if index < 32 then 0 else 32;
    forall b: nat
      ensures b in after.low <==> b < 32 && b in all
      ensures b in after.high <==> b < 32 && b + 32 in all
    {
      assert b in words.high <==> b < 32 && b + 32 in seen;
      assert b + 32 in all <==> b + 32 in seen || b + 32 == index;
    }
  }

  /** The final check: whole words against all ones, the rest against the low bits. */
  method CheckRequired(words: Bitmap, required: nat, ghost seen: set<nat>) returns (ok: bool)
    requires Records(words, seen, required)
    ensures ok <==> forall k | 0 <= k < (if required > MAX_REQUIRED then MAX_REQUIRED else required) :: k in seen
  {
    hide Word, Records;
    var count := if required > MAX_REQUIRED then MAX_REQUIRED else required;
    WordMeans(words, seen, required);
    if count / 32 >= 1 && words.low != Word(32) {
      return false;
    }
    if count / 32 >= 2 && words.high != Word(32) {
      return false;
    }
    if count % 32 != 0 {
      var rest := if count / 32 == 0 then words.low else words.high;
      if rest != Word(count % 32) {
        return false;
      }
    }
    ok := true;
  }

  lemma WordMeans(words: Bitmap, seen: set<nat>, n: nat)
    requires Records(words, seen, n)
    ensures words.low == Word(32) <==> forall k | 0 <= k < 32 :: k in seen
    ensures words.high == Word(32) <==> forall k | 32 <= k < 64 :: k in seen
    ensures n < 32 ==> (words.low == Word(n) <==> forall k | 0 <= k < n :: k in seen)
    ensures 32 <= n < 64 ==> (words.high == Word(n - 32) <==> forall k | 32 <= k < n :: k in seen)
  {
    if n < 32 && words.low == Word(n) {
      assert forall k | 0 <= k < n :: k in Word(n);
    }
    if 32 <= n < 64 && words.high == Word(n - 32) {
      forall k | 32 <= k < n
        ensures k in seen
      {
        assert k - 32 in Word(n - 32);
      }
    }
    if words.low == Word(32) {
      assert forall k | 0 <= k < 32 :: k in Word(32);
    }
    if words.high == Word(32) {
      forall k | 32 <= k < 64
        ensures k in seen
      {
        assert k - 32 in Word(32);
      }
    }
  }

  // ------------------------------------------------------------------------ the iterator

  /** Seeks to the end of the field table to learn how many required fields there are. */
  method CountRequired(iter: FieldIter) returns (n: nat)
    requires iter.Valid()
    modifies iter
    ensures iter.Valid() && n == RequiredBefore(iter.desc, |iter.desc.fields|)
  {
    var lastRequired := false;
    var more := true;
    n := 0;
    while more
      invariant iter.Valid()
      invariant !more ==> n == RequiredBefore(iter.desc, |iter.desc.fields| - 1)
                          && lastRequired == iter.desc.fields[|iter.desc.fields| - 1].htype.Required?
      decreases more, |iter.desc.fields| - iter.pos
    {
      n := iter.requiredFieldIndex;
      lastRequired := iter.desc.fields[iter.pos].htype.Required?;
      more := iter.Next();
    }
    if lastRequired {
      n := n + 1;
    }
  }

  // --------------------------------------------------------------------------- the stream

  /** What a reader has done: its result, and what is left of the input, are those of e. */
  ghost predicate Took<T>(r: Option<T>, left: Bytes, e: Option<(T, Bytes)>) {
    match e
    case None => r.None?
    case Some((v, rest)) => r == Some(v) && left == rest
  }

  /** pb_istream_t */
  class IStream {
    var left: Bytes

    constructor (input: Bytes)
      ensures left == input
    {
      left := input;
    }

    /** pb_decode_varint32 */
    method ReadVarint32() returns (r: Option<nat>)
      modifies this
      ensures Took(r, left, Decode32(old(left)))
    {
      var d := DecodeVarint32(left);
      if d.None? {
        return None;
      }
      left := d.value.1;
      r := Some(d.value.0);
    }

    method ReadVarint64() returns (r: Option<nat>)
      modifies this
      ensures Took(r, left, GetVarint64(old(left)))
    {
      var d := DecodeVarint64(left);
      if d.None? {
        return None;
      }
      left := d.value.1;
      r := Some(d.value.0);
    }

    /** pb_read */
    method Take(n: nat) returns (r: Option<Bytes>)
      modifies this
      ensures Took(r, left, Read(old(left), n))
    {
      if |left| < n {
        return None;
      }
      r := Some(left[..n]);
      left := left[n..];
    }

    /** pb_decode_tag */
    method ReadTag() returns (r: TagResult)
      modifies this
      ensures r == DecodeTag(old(left))
      ensures r.Tagged? ==> left == r.rest
    {
      var temp := ReadVarint32();
      if temp.None? {
        return BadTag;
      }
      if temp.value == 0 {
        return EndOfMessage;
      }
      r := Tagged(temp.value / 8, temp.value % 8, left);
    }

    /** pb_make_string_substream; the parent stream goes on after it. */
    method MakeSubstream() returns (r: Option<IStream>)
      modifies this
      ensures match Substream(old(left))
              case None => r.None?
              case Some((sub, rest)) => r.Some? && fresh(r.value) && r.value.left == sub && left == rest
    {
      var size := ReadVarint32();
      if size.None? {
        return None;
      }
      var sub := Take(size.value);
      if sub.None? {
        return None;
      }
      var substream := new IStream(sub.value);
      r := Some(substream);
    }

    /** pb_skip_varint */
    method SkipOverVarint() returns (ok: bool)
      modifies this
      ensures ok <==> SkipVarint(old(left)).Some?
      ensures ok ==> left == SkipVarint(old(left)).value
    {
      var more := true;
      while more
        invariant more ==> SkipVarint(left) == SkipVarint(old(left))
        invariant !more ==> SkipVarint(old(left)) == Some(left)
        decreases more, |left|
      {
        var b := Take(1);
        if b.None? {
          return false;
        }
        more := b.value[0] >= 128;
      }
      ok := true;
    }

    /** pb_skip_field */
    method Skip(wireType: nat) returns (ok: bool)
      modifies this
      ensures ok <==> SkipField(wireType, old(left)).Some?
      ensures ok ==> left == SkipField(wireType, old(left)).value
    {
      hide SkipVarint, Decode32;
      if wireType == WT_VARINT {
        ok := SkipOverVarint();
      } else if wireType == WT_64BIT {
        var s := Take(8);
        ok := s.Some?;
      } else if wireType == WT_STRING {
        var s := MakeSubstream();
        ok := s.Some?;
      } else if wireType == WT_32BIT {
        var s := Take(4);
        ok := s.Some?;
      } else {
        ok := false;
      }
    }

    /** The decoders of the numeric types: read, narrow to the member's size, compare. */
    method TakeNumber(t: LType) returns (r: Option<Value>)
      modifies this
      ensures Took(r, left, DecodeNumber(t, old(left)))
    {
      hide Decode32, GetVarint64;
      match t {
        case Bool =>
          var v := ReadVarint32();
          if v.Some? {
            return Some(BoolV(v.value != 0));
          }
        case Varint(bits) =>
          var v := ReadVarint64();
          if v.Some? {
            return FitSigned(v.value, bits);
          }
        case Uvarint(bits) =>
          var v := ReadVarint64();
          if v.Some? && v.value < Limit(bits) {
            return Some(NatV(v.value));
          }
        case Svarint(bits) =>
          var v := ReadVarint64();
          if v.Some? && InSigned(UnZigZag(v.value), bits) {
            return Some(IntV(UnZigZag(v.value)));
          }
        case Fixed32Bits =>
          var s := Take(4);
          if s.Some? {
            return Some(NatV(DecodeFixed(s.value)));
          }
        case Fixed64Bits =>
          var s := Take(8);
          if s.Some? {
            return Some(NatV(DecodeFixed(s.value)));
          }
        case _ =>
      }
      r := None;
    }

    /** pb_dec_bytes, pb_dec_string and pb_dec_fixed_length_bytes */
    method TakeString(t: LType) returns (r: Option<Value>)
      modifies this
      ensures Took(r, left, DecodeString(t, old(left)))
    {
      hide Decode32, UntilNul;
      var size := ReadVarint32();
      if size.None? {
        return None;
      }
      match t {
        case BytesArray(max) =>
          if size.value <= max {
            var s := Take(size.value);
            if s.Some? {
              return Some(BytesV(s.value));
            }
          }
        case CharArray(dataSize) =>
          if size.value + 1 <= dataSize {
            var s := Take(size.value);
            if s.Some? {
              return Some(BytesV(UntilNul(s.value)));
            }
          }
        case FixedBytes(n) =>
          if size.value == 0 {
            return Some(BytesV(seq(n, _ => 0)));
          }
          if size.value == n {
            var s := Take(n);
            if s.Some? {
              return Some(BytesV(s.value));
            }
          }
        case _ =>
      }
      r := None;
    }
  }

  // --------------------------------------------------------------------------- the loops

  /** A packed array, in its substream. */
  method TakePacked(t: LType, substream: IStream, vs: seq<Value>, arraySize: nat) returns (r: Option<seq<Value>>)
    modifies substream
    ensures r == DecodePacked(t, old(substream.left), vs, arraySize)
  {
    hide DecodeNumber;
    var items := vs;
    while substream.left != [] && |items| < arraySize
      invariant DecodePacked(t, substream.left, items, arraySize) == DecodePacked(t, old(substream.left), vs, arraySize)
      decreases |substream.left|
    {
      var v := substream.TakeNumber(t);
      if v.None? {
        return None;
      }
      items := items + [v.value];
    }
    if substream.left != [] {
      return None;
    }
    r := Some(items);
  }

  /** The decoder of a value, over what the member holds. */
  method TakeValue(stream: IStream, t: LType, current: Value) returns (r: Option<Value>)
    requires WellFormedType(t) && Fits(t, current)
    modifies stream
    ensures Took(r, stream.left, DecodeValue(t, old(stream.left), current))
    decreases t, 0
  {
    hide DecodeNumber, DecodeString, DecodeMessage, FitsMessage, WellFormed, Substream;
    if Packable(t) {
      r := stream.TakeNumber(t);
    } else if t.Submessage? {
      var substream := stream.MakeSubstream();
      if substream.None? {
        return None;
      }
      var m := DecodeNoinit(substream.value, t.desc, current.m);
      r := if m.None? then None else Some(MessageV(m.value));
    } else {
      r := stream.TakeString(t);
    }
  }

  /** decode_static_field */
  method TakeField(stream: IStream, f: Field, wireType: nat, slot: Slot) returns (r: Option<Slot>)
    requires WellFormedType(f.ltype) && FitsSlot(f, slot)
    modifies stream
    ensures Took(r, stream.left, DecodeField(f, wireType, old(stream.left), slot))
    decreases f, 0
  {
    hide DecodeValue, DecodePacked, Fits, WellFormedType, Substream;
    DefaultFits(f.ltype);
    match f.htype {
      case Required =>
        var v := TakeValue(stream, f.ltype, slot.v);
        r := if v.None? then None else Some(One(v.value));
      case Optional =>
        var v := TakeValue(stream, f.ltype, if slot.o.Some? then slot.o.value else DefaultValue(f.ltype));
        r := if v.None? then None else Some(Maybe(Some(v.value)));
      case Repeated(arraySize) =>
        if wireType == WT_STRING && Packable(f.ltype) {
          var substream := stream.MakeSubstream();
          if substream.None? {
            return None;
          }
          var vs := TakePacked(f.ltype, substream.value, slot.vs, arraySize);
          r := if vs.None? then None else Some(Many(vs.value));
        } else if |slot.vs| >= arraySize {
          r := None;
        } else {
          var v := TakeValue(stream, f.ltype, DefaultValue(f.ltype));
          r := if v.None? then None else Some(Many(slot.vs + [v.value]));
        }
    }
  }

  /** Where the iterator stops is where a search from the start would. */
  lemma Found(d: Desc, tag: nat, found: bool, pos: nat)
    requires WellFormed(d)
    requires found <==> exists i :: 0 <= i < |d.fields| && d.fields[i].tag == tag
    requires found ==> pos < |d.fields| && d.fields[pos].tag == tag
    ensures FindField(d, tag, 0) == if found then Some(pos) else None
  {
    if found {
      FindFieldIs(d, tag, 0, pos);
    } else {
      FindFieldNone(d, tag, 0);
    }
  }

  /** pb_decode_noinit */
  method DecodeNoinit(stream: IStream, d: Desc, m: Message) returns (r: Option<Message>)
    requires WellFormed(d) && FitsMessage(d, m)
    modifies stream
    ensures r == DecodeMessage(d, old(stream.left), m, {})
    decreases d, 0
  {
    hide DecodeField, FitsSlot, WellFormedType, SkipField, DecodeTag, Records, AllSeen;
    if |d.fields| == 0 {
      r := DecodeEmpty(stream, d, m);
      return;
    }
    var iter := new FieldIter(d);
    var words := Bitmap({}, {});
    var dest := m;
    ghost var seen: set<nat> := {};
    ghost var required := RequiredBefore(d, |d.fields|);
    ghost var all := DecodeMessage(d, stream.left, m, {});
    NothingSeen(required);
    var more := true;
    while more && stream.left != []
      invariant iter.Valid() && iter.desc == d && FitsMessage(d, dest) && Records(words, seen, required)
      invariant all == if more then DecodeMessage(d, stream.left, dest, seen) else Finished(d, dest, seen)
      decreases more, |stream.left|
    {
      var tag := stream.ReadTag();
      if tag.BadTag? {
        return None;
      }
      if tag.EndOfMessage? {
        more := false;
      } else {
        var found := iter.Find(tag.tag);
        Found(d, tag.tag, found, iter.pos);
        if !found {
          var ok := stream.Skip(tag.wireType);
          if !ok {
            return None;
          }
        } else {
          var f := d.fields[iter.pos];
          ghost var was := stream.left;
          if f.htype.Required? && iter.requiredFieldIndex < MAX_REQUIRED {
            RequiredCounted(d, iter.pos, |d.fields|);
            BitSet(words, seen, required, iter.requiredFieldIndex);
            words := SetBit(words, iter.requiredFieldIndex);
          }
          seen := Seen(d, seen, iter.pos);
          var slot := TakeField(stream, f, tag.wireType, dest.slots[iter.pos]);
          if slot.None? {
            return None;
          }
          FieldFits(f, tag.wireType, was, dest.slots[iter.pos]);
          dest := Message(dest.slots[iter.pos := slot.value]);
        }
      }
    }
    var count := CountRequired(iter);
    var ok := CheckRequired(words, count, seen);
    SeenAll(d, seen);
    r := if ok then Some(dest) else None;
  }

  /** A message type without fields: the iterator finds nothing, and everything is skipped. */
  method DecodeEmpty(stream: IStream, d: Desc, m: Message) returns (r: Option<Message>)
    requires |d.fields| == 0
    modifies stream
    ensures r == DecodeMessage(d, old(stream.left), m, {})
  {
    hide SkipField, DecodeTag;
    while stream.left != []
      invariant DecodeMessage(d, old(stream.left), m, {}) == DecodeMessage(d, stream.left, m, {})
      decreases |stream.left|
    {
      var tag := stream.ReadTag();
      if tag.BadTag? {
        return None;
      }
      if tag.EndOfMessage? {
        return Some(m);
      }
      var ok := stream.Skip(tag.wireType);
      if !ok {
        return None;
      }
    }
    r := Some(m);
  }

  lemma NothingSeen(n: nat)
    ensures Records(Bitmap({}, {}), {}, n)
  {
  }

  lemma SeenAll(d: Desc, seen: set<nat>)
    ensures AllSeen(d, seen) <==> forall k | 0 <= k < CheckedFields(d) :: k in seen
  {
  }

  /** pb_decode */
  method Decode(stream: IStream, d: Desc) returns (r: Option<Message>)
    requires WellFormed(d)
    modifies stream
    ensures r == DecodeMessage(d, old(stream.left), Defaults(d), {})
  {
    DefaultsFit(d);
    r := DecodeNoinit(stream, d, Defaults(d));
  }
}
