// The nanopb encoder over an output stream (Pods/nanopb/pb_encode.c).  A stream without a callback
// only counts; a submessage is encoded twice, first into such a stream to learn its size.
module PbEncode {
  import opened Wrappers
  import opened Coding
  import opened PbVarint
  import opened PbFormat

  /** What an encoder of the bytes e does to a stream: it succeeds exactly if e exists and fits, and
      then appends e, or only counts it. */
  ghost predicate Wrote(callback: bool, maxSize: nat, written0: nat, state0: Bytes, written1: nat, state1: Bytes,
                        ok: bool, e: Option<Bytes>) {
    && (ok <==> e.Some? && (callback ==> written0 + |e.value| <= maxSize))
    && (ok ==> written1 == written0 + |e.value| && state1 == if callback then state0 + e.value else state0)
    && (callback ==> written1 <= maxSize)
  }

  /** Two encoders in a row encode the two pieces in a row. */
  lemma WroteBoth(callback: bool, maxSize: nat, w0: nat, s0: Bytes, w1: nat, s1: Bytes, w2: nat, s2: Bytes,
                  a: Option<Bytes>, ok: bool, b: Option<Bytes>)
    requires Wrote(callback, maxSize, w0, s0, w1, s1, true, a) && Wrote(callback, maxSize, w1, s1, w2, s2, ok, b)
    ensures Wrote(callback, maxSize, w0, s0, w2, s2, ok, Then(a, b))
  {
    if a.Some? && b.Some? {
      assert s0 + (a.value + b.value) == s0 + a.value + b.value;
    }
  }

  lemma WroteFailed(callback: bool, maxSize: nat, w0: nat, s0: Bytes, w1: nat, s1: Bytes, a: Option<Bytes>,
                    b: Option<Bytes>)
    requires Wrote(callback, maxSize, w0, s0, w1, s1, false, a)
    ensures Wrote(callback, maxSize, w0, s0, w1, s1, false, Then(a, b))
  {
  }

  class OStream {
    const callback: bool
    const maxSize: nat
    var state: Bytes
    var bytesWritten: nat

    ghost predicate Valid()
      reads this
    {
      callback ==> bytesWritten <= maxSize
    }

    constructor (callback: bool, state: Bytes, maxSize: nat)
      ensures Valid() && this.callback == callback && this.maxSize == maxSize && this.state == state
              && bytesWritten == 0
    {
      this.callback, this.maxSize, this.state, bytesWritten := callback, maxSize, state, 0;
    }

    /** pb_write */
    method Write(buf: Bytes) returns (ok: bool)
      requires Valid()
      modifies this
      ensures Wrote(callback, maxSize, old(bytesWritten), old(state), bytesWritten, state, ok, Some(buf))
    {
      if |buf| > 0 && callback {
        if bytesWritten + |buf| > maxSize {
          return false;
        }
        state := state + buf;
      }
      bytesWritten := bytesWritten + |buf|;
      ok := true;
      assert |buf| == 0 ==> old(state) + buf == old(state);
    }

    /** pb_write with no data, which a counting stream allows. */
    method Count(n: nat) returns (ok: bool)
      requires !callback
      modifies this
      ensures ok && bytesWritten == old(bytesWritten) + n && state == old(state)
    {
      bytesWritten := bytesWritten + n;
      ok := true;
    }

    method WriteVarint(value: nat) returns (ok: bool)
      requires Valid() && value < UINT64
      modifies this
      ensures Wrote(callback, maxSize, old(bytesWritten), old(state), bytesWritten, state, ok,
                    Some(EncodeVarint(value)))
    {
      var bytes := EncodeVarint64(value);
      ok := Write(bytes);
    }

    /** pb_encode_string */
    method WriteString(s: Bytes) returns (ok: bool)
      requires Valid()
      modifies this
      ensures Wrote(callback, maxSize, old(bytesWritten), old(state), bytesWritten, state, ok, Some(Delimited(s)))
    {
      hide Wrote, EncodeVarint;
      ghost var w0, s0 := bytesWritten, state;
      var size := EncodeVarint64(|s| % UINT64);
      ok := Write(size);
      WroteValid(callback, maxSize, w0, s0, bytesWritten, state, ok, Some(size));
      if !ok {
        WroteFailed(callback, maxSize, w0, s0, bytesWritten, state, Some(size), Some(s));
        return;
      }
      ghost var w1, s1 := bytesWritten, state;
      ok := Write(s);
      WroteBoth(callback, maxSize, w0, s0, w1, s1, bytesWritten, state, Some(size), ok, Some(s));
    }

    /** The encoders of the numeric types. */
    method WriteNumber(t: LType, v: Value) returns (ok: bool)
      requires Valid() && Packable(t) && Typed(t, v)
      modifies this
      ensures Wrote(callback, maxSize, old(bytesWritten), old(state), bytesWritten, state, ok, Some(EncodeNumber(t, v)))
    {
      hide Wrote, EncodeVarint;
      match t {
        case Bool => ok := WriteVarint(if v.b then 1 else 0);
        case Varint(bits) => ok := WriteVarint(ToUnsigned(v.i));
        case Uvarint(bits) => ok := WriteVarint(v.n);
        case Svarint(bits) => ok := WriteVarint(ZigZag(v.i));
        case Fixed32Bits => ok := Write(Fixed32(v.n));
        case Fixed64Bits => ok := Write(Fixed64(v.n));
      }
    }

    /** pb_encode_tag */
    method WriteTag(wireType: nat, tag: nat) returns (ok: bool)
      requires Valid()
      modifies this
      ensures Wrote(callback, maxSize, old(bytesWritten), old(state), bytesWritten, state, ok,
                    Some(EncodeTag(wireType, tag)))
    {
      ok := WriteVarint((tag * 8 + wireType) % UINT64);
    }

    /** The loop over the entries of a packed array. */
    method WriteNumbers(t: LType, vs: seq<Value>) returns (ok: bool)
      requires Valid() && Packable(t) && forall i | 0 <= i < |vs| :: Typed(t, vs[i])
      modifies this
      ensures Wrote(callback, maxSize, old(bytesWritten), old(state), bytesWritten, state, ok,
                    Some(EncodeNumbers(t, vs)))
    {
      hide Wrote, EncodeNumber, Typed;
      ghost var w0, s0 := bytesWritten, state;
      WroteNothing(callback, maxSize, w0, s0);
      assert vs[..0] == [] && vs[..|vs|] == vs;
      for i := 0 to |vs|
        invariant Valid()
        invariant Wrote(callback, maxSize, w0, s0, bytesWritten, state, true, Some(EncodeNumbers(t, vs[..i])))
      {
        ghost var w1, s1 := bytesWritten, state;
        ghost var done := Some(EncodeNumbers(t, vs[..i]));
        NumbersNext(t, vs, i);
        ok := WriteNumber(t, vs[i]);
        WroteBoth(callback, maxSize, w0, s0, w1, s1, bytesWritten, state, done, ok, Some(EncodeNumber(t, vs[i])));
        WroteValid(callback, maxSize, w0, s0, bytesWritten, state, ok, Some(EncodeNumbers(t, vs[..i + 1])));
        if !ok {
          NumbersPrefix(t, vs, i + 1);
          WrotePrefix(callback, maxSize, w0, s0, bytesWritten, state, EncodeNumbers(t, vs[..i + 1]),
                      EncodeNumbers(t, vs));
          return;
        }
      }
      ok := true;
    }
  }

  lemma WroteNothing(callback: bool, maxSize: nat, w: nat, s: Bytes)
    requires callback ==> w <= maxSize
    ensures Wrote(callback, maxSize, w, s, w, s, true, Some([]))
  {
    assert s + [] == s;
  }

  lemma WroteValid(callback: bool, maxSize: nat, w0: nat, s0: Bytes, w1: nat, s1: Bytes, ok: bool, e: Option<Bytes>)
    requires Wrote(callback, maxSize, w0, s0, w1, s1, ok, e)
    ensures callback ==> w1 <= maxSize
  {
  }

  /** If already a prefix does not fit, the whole does not. */
  lemma WrotePrefix(callback: bool, maxSize: nat, w0: nat, s0: Bytes, w1: nat, s1: Bytes, some: Bytes, all: Bytes)
    requires Wrote(callback, maxSize, w0, s0, w1, s1, false, Some(some)) && |some| <= |all|
    ensures Wrote(callback, maxSize, w0, s0, w1, s1, false, Some(all))
  {
  }

  lemma NumbersNext(t: LType, vs: seq<Value>, i: nat)
    requires i < |vs|
    ensures Some(EncodeNumbers(t, vs[..i + 1])) == Then(Some(EncodeNumbers(t, vs[..i])), Some(EncodeNumber(t, vs[i])))
  {
    assert vs[..i + 1][..i] == vs[..i];
  }

  lemma {:induction false} NumbersPrefix(t: LType, vs: seq<Value>, k: nat)
    requires k <= |vs|
    ensures |EncodeNumbers(t, vs[..k])| <= |EncodeNumbers(t, vs)|
  {
    if k == |vs| {
      assert vs[..k] == vs;
    } else {
      NumbersPrefix(t, vs[..|vs| - 1], k);
      assert vs[..|vs| - 1][..k] == vs[..k];
    }
  }

  lemma {:induction false} FixedSizes(t: LType, vs: seq<Value>)
    requires t.Fixed32Bits? || t.Fixed64Bits?
    requires forall i | 0 <= i < |vs| :: Typed(t, vs[i])
    ensures |EncodeNumbers(t, vs)| == if t.Fixed32Bits? then 4 * |vs| else 8 * |vs|
  {
    if vs == [] {
    } else {
      FixedSizes(t, vs[..|vs| - 1]);
      assert Typed(t, vs[|vs| - 1]);
    }
  }

  /** The first pass over a packed array: its size. */
  method PackedSize(t: LType, vs: seq<Value>) returns (size: nat)
    requires Packable(t) && forall i | 0 <= i < |vs| :: Typed(t, vs[i])
    ensures size == |EncodeNumbers(t, vs)|
  {
    hide EncodeNumbers, Typed;
    if t.Fixed32Bits? {
      FixedSizes(t, vs);
      size := 4 * |vs|;
    } else if t.Fixed64Bits? {
      FixedSizes(t, vs);
      size := 8 * |vs|;
    } else {
      var sizestream := new OStream(false, [], 0);
      var ok := sizestream.WriteNumbers(t, vs);
      size := sizestream.bytesWritten;
    }
  }

  /** encode_array for a type that can be packed. */
  method WritePacked(stream: OStream, f: Field, vs: seq<Value>) returns (ok: bool)
    requires stream.Valid() && Packable(f.ltype) && forall i | 0 <= i < |vs| :: Typed(f.ltype, vs[i])
    modifies stream
    ensures Wrote(stream.callback, stream.maxSize, old(stream.bytesWritten), old(stream.state), stream.bytesWritten,
                  stream.state,
                  ok, Some(EncodeTag(WT_STRING, f.tag) + Delimited(EncodeNumbers(f.ltype, vs))))
  {
    hide Wrote, EncodeNumbers, Typed, EncodeVarint, EncodeTag;
    ghost var w0, s0 := stream.bytesWritten, stream.state;
    ghost var tag, payload := EncodeTag(WT_STRING, f.tag), EncodeNumbers(f.ltype, vs);
    ghost var header := EncodeVarint(|payload| % UINT64);
    assert tag + Delimited(payload) == tag + (header + payload);
    ok := stream.WriteTag(WT_STRING, f.tag);
    WroteValid(stream.callback, stream.maxSize, w0, s0, stream.bytesWritten, stream.state, ok, Some(tag));
    if !ok {
      WroteFailed(stream.callback, stream.maxSize, w0, s0, stream.bytesWritten, stream.state, Some(tag),
                  Some(header + payload));
      return;
    }
    ghost var w1, s1 := stream.bytesWritten, stream.state;
    var size := PackedSize(f.ltype, vs);
    ok := stream.WriteVarint(size % UINT64);
    WroteValid(stream.callback, stream.maxSize, w1, s1, stream.bytesWritten, stream.state, ok, Some(header));
    ghost var w2, s2 := stream.bytesWritten, stream.state;
    if !ok {
      WroteFailed(stream.callback, stream.maxSize, w1, s1, w2, s2, Some(header), Some(payload));
    } else {
      if !stream.callback {
        ok := stream.Count(size);
        Counted(stream.maxSize, w2, s2, payload);
      } else {
        ok := stream.WriteNumbers(f.ltype, vs);
      }
      WroteBoth(stream.callback, stream.maxSize, w1, s1, w2, s2, stream.bytesWritten, stream.state, Some(header), ok,
                Some(payload));
    }
    WroteBoth(stream.callback, stream.maxSize, w0, s0, w1, s1, stream.bytesWritten, stream.state, Some(tag), ok,
              Some(header + payload));
  }

  lemma Counted(maxSize: nat, w: nat, s: Bytes, e: Bytes)
    ensures Wrote(false, maxSize, w, s, w + |e|, s, true, Some(e))
  {
  }

  // ----------------------------------------------------------------- values, fields, messages

  /** pb_encode_submessage: a first pass counts, then the size and, into a stream of exactly that
      size, the message. */
  method WriteSubmessage(stream: OStream, d: Desc, m: Message) returns (ok: bool)
    requires stream.Valid() && TypedMessage(d, m)
    modifies stream
    ensures Wrote(stream.callback, stream.maxSize, old(stream.bytesWritten), old(stream.state), stream.bytesWritten,
                  stream.state,
                  ok, EncodeValue(Submessage(d), MessageV(m)))
    decreases d, 5
  {
    hide Wrote, EncodeMessage, TypedMessage, EncodeVarint;
    ghost var w0, s0 := stream.bytesWritten, stream.state;
    ghost var e := EncodeMessage(d, m);
    var substream := new OStream(false, [], 0);
    ok := WriteMessage(substream, d, m);
    Sized(substream.bytesWritten, substream.state, ok, e);
    if !ok {
      WroteNone(stream.callback, stream.maxSize, w0, s0);
      return;
    }
    var size := substream.bytesWritten;
    ghost var header := EncodeVarint(size % UINT64);
    assert EncodeValue(Submessage(d), MessageV(m)) == Some(Delimited(e.value)) == Then(Some(header), e);
    ok := stream.WriteVarint(size % UINT64);
    WroteValid(stream.callback, stream.maxSize, w0, s0, stream.bytesWritten, stream.state, ok, Some(header));
    ghost var w1, s1 := stream.bytesWritten, stream.state;
    if !ok {
      WroteFailed(stream.callback, stream.maxSize, w0, s0, w1, s1, Some(header), e);
      return;
    }
    if !stream.callback {
      ok := stream.Count(size);
      Counted(stream.maxSize, w1, s1, e.value);
    } else if stream.bytesWritten + size > stream.maxSize {
      ok := false;
      TooLong(stream.maxSize, w1, s1, e.value);
    } else {
      substream := new OStream(true, stream.state, size);
      ok := WriteMessage(substream, d, m);
      SubWritten(stream.maxSize, w1, s1, size, substream.bytesWritten, substream.state, ok, e.value);
      stream.bytesWritten := stream.bytesWritten + substream.bytesWritten;
      stream.state := substream.state;
      if substream.bytesWritten != size {
        ok := false;
      }
    }
    WroteBoth(stream.callback, stream.maxSize, w0, s0, w1, s1, stream.bytesWritten, stream.state, Some(header), ok, e);
  }

  lemma WroteNone(callback: bool, maxSize: nat, w: nat, s: Bytes)
    requires callback ==> w <= maxSize
    ensures Wrote(callback, maxSize, w, s, w, s, false, None)
  {
  }

  lemma Sized(w: nat, s: Bytes, ok: bool, e: Option<Bytes>)
    requires Wrote(false, 0, 0, [], w, s, ok, e)
    ensures ok <==> e.Some?
    ensures ok ==> w == |e.value|
  {
  }

  lemma TooLong(maxSize: nat, w: nat, s: Bytes, e: Bytes)
    requires w <= maxSize < w + |e|
    ensures Wrote(true, maxSize, w, s, w, s, false, Some(e))
  {
  }

  /** The second pass, into a stream of exactly the size that the first one found. */
  lemma SubWritten(maxSize: nat, w1: nat, s1: Bytes, size: nat, w: nat, s: Bytes, ok: bool, e: Bytes)
    requires Wrote(true, size, 0, s1, w, s, ok, Some(e)) && size == |e| && w1 + size <= maxSize
    ensures ok && w == size && Wrote(true, maxSize, w1, s1, w1 + w, s, ok, Some(e))
  {
  }

  method WriteValue(stream: OStream, t: LType, v: Value) returns (ok: bool)
    requires stream.Valid() && Typed(t, v)
    modifies stream
    ensures Wrote(stream.callback, stream.maxSize, old(stream.bytesWritten), old(stream.state), stream.bytesWritten,
                  stream.state,
                  ok, EncodeValue(t, v))
    decreases t, 0
  {
    hide Wrote, EncodeMessage, TypedMessage, EncodeVarint, EncodeNumber;
    match t {
      case BytesArray(max) =>
        if |v.s| > max {
          WroteNone(stream.callback, stream.maxSize, stream.bytesWritten, stream.state);
          return false;
        }
        ok := stream.WriteString(v.s);
      case CharArray(dataSize) => ok := stream.WriteString(v.s);
      case FixedBytes(size) => ok := stream.WriteString(v.s);
      case Submessage(d) => ok := WriteSubmessage(stream, d, v.m);
      case _ => ok := stream.WriteNumber(t, v);
    }
  }

  method WriteTagged(stream: OStream, f: Field, v: Value) returns (ok: bool)
    requires stream.Valid() && Typed(f.ltype, v)
    modifies stream
    ensures Wrote(stream.callback, stream.maxSize, old(stream.bytesWritten), old(stream.state), stream.bytesWritten,
                  stream.state,
                  ok, EncodeTagged(f, v))
    decreases f, 0
  {
    hide Wrote, EncodeValue, Typed, EncodeTag;
    ghost var w0, s0 := stream.bytesWritten, stream.state;
    ghost var tag := EncodeTag(WireType(f.ltype), f.tag);
    ok := stream.WriteTag(WireType(f.ltype), f.tag);
    WroteValid(stream.callback, stream.maxSize, w0, s0, stream.bytesWritten, stream.state, ok, Some(tag));
    if !ok {
      WroteFailed(stream.callback, stream.maxSize, w0, s0, stream.bytesWritten, stream.state, Some(tag),
                  EncodeValue(f.ltype, v));
      return;
    }
    ghost var w1, s1 := stream.bytesWritten, stream.state;
    ok := WriteValue(stream, f.ltype, v);
    WroteBoth(stream.callback, stream.maxSize, w0, s0, w1, s1, stream.bytesWritten, stream.state, Some(tag), ok,
              EncodeValue(f.ltype, v));
  }

  /** encode_array */
  method WriteArray(stream: OStream, f: Field, vs: seq<Value>, arraySize: nat) returns (ok: bool)
    requires stream.Valid() && forall i | 0 <= i < |vs| :: Typed(f.ltype, vs[i])
    modifies stream
    ensures Wrote(stream.callback, stream.maxSize, old(stream.bytesWritten), old(stream.state), stream.bytesWritten,
                  stream.state,
                  ok, EncodeArray(f, vs, arraySize))
    decreases f, 1
  {
    hide Wrote, EncodeEach, Typed, EncodeNumbers, EncodeTag, EncodeTagged;
    ghost var w0, s0 := stream.bytesWritten, stream.state;
    WroteNothing(stream.callback, stream.maxSize, w0, s0);
    if |vs| == 0 {
      return true;
    }
    if |vs| > arraySize {
      WroteNone(stream.callback, stream.maxSize, w0, s0);
      return false;
    }
    if Packable(f.ltype) {
      ok := WritePacked(stream, f, vs);
    } else {
      EachStarts(f, vs);
      for i := 0 to |vs|
        invariant stream.Valid()
        invariant Wrote(stream.callback, stream.maxSize, w0, s0, stream.bytesWritten, stream.state, true,
                        EncodeEach(f, vs[..i]))
      {
        ghost var w1, s1 := stream.bytesWritten, stream.state;
        EachNext(f, vs, i);
        ok := WriteTagged(stream, f, vs[i]);
        WroteBoth(stream.callback, stream.maxSize, w0, s0, w1, s1, stream.bytesWritten, stream.state,
                  EncodeEach(f, vs[..i]), ok, EncodeTagged(f, vs[i]));
        WroteValid(stream.callback, stream.maxSize, w0, s0, stream.bytesWritten, stream.state, ok,
                   EncodeEach(f, vs[..i + 1]));
        if !ok {
          EachPrefix(f, vs, i + 1);
          WroteLess(stream.callback, stream.maxSize, w0, s0, stream.bytesWritten, stream.state,
                    EncodeEach(f, vs[..i + 1]), EncodeEach(f, vs));
          return;
        }
      }
      ok := true;
    }
  }

  lemma EachStarts(f: Field, vs: seq<Value>)
    ensures EncodeEach(f, vs[..0]) == Some([]) && vs[..|vs|] == vs
  {
  }

  lemma EachNext(f: Field, vs: seq<Value>, i: nat)
    requires i < |vs|
    ensures EncodeEach(f, vs[..i + 1]) == Then(EncodeEach(f, vs[..i]), EncodeTagged(f, vs[i]))
  {
    hide EncodeTagged;
    assert vs[..i + 1][..i] == vs[..i];
  }

  /** Nothing can be encoded of which a part cannot, and no part is longer than the whole. */
  ghost predicate PartOf(some: Option<Bytes>, all: Option<Bytes>) {
    all.Some? ==> some.Some? && |some.value| <= |all.value|
  }

  lemma WroteLess(callback: bool, maxSize: nat, w0: nat, s0: Bytes, w1: nat, s1: Bytes, some: Option<Bytes>,
                  all: Option<Bytes>)
    requires Wrote(callback, maxSize, w0, s0, w1, s1, false, some) && PartOf(some, all)
    ensures Wrote(callback, maxSize, w0, s0, w1, s1, false, all)
  {
  }

  lemma {:induction false} EachPrefix(f: Field, vs: seq<Value>, k: nat)
    requires k <= |vs|
    ensures PartOf(EncodeEach(f, vs[..k]), EncodeEach(f, vs))
  {
    hide EncodeTagged;
    if k == |vs| {
      assert vs[..k] == vs;
    } else {
      EachPrefix(f, vs[..|vs| - 1], k);
      assert vs[..|vs| - 1][..k] == vs[..k];
    }
  }

  /** encode_basic_field */
  method WriteField(stream: OStream, f: Field, slot: Slot) returns (ok: bool)
    requires stream.Valid() && TypedSlot(f, slot)
    modifies stream
    ensures Wrote(stream.callback, stream.maxSize, old(stream.bytesWritten), old(stream.state), stream.bytesWritten,
                  stream.state,
                  ok, EncodeField(f, slot))
    decreases f, 2
  {
    hide Wrote, Typed, EncodeTagged, EncodeArray;
    match f.htype {
      case Required => ok := WriteTagged(stream, f, slot.v);
      case Optional =>
        if slot.o.Some? {
          ok := WriteTagged(stream, f, slot.o.value);
        } else {
          WroteNothing(stream.callback, stream.maxSize, stream.bytesWritten, stream.state);
          ok := true;
        }
      case Repeated(arraySize) => ok := WriteArray(stream, f, slot.vs, arraySize);
    }
  }

  /** pb_encode: every field in turn. */
  method WriteMessage(stream: OStream, d: Desc, m: Message) returns (ok: bool)
    requires stream.Valid() && TypedMessage(d, m)
    modifies stream
    ensures Wrote(stream.callback, stream.maxSize, old(stream.bytesWritten), old(stream.state), stream.bytesWritten,
                  stream.state,
                  ok, EncodeMessage(d, m))
    decreases d, 4
  {
    hide Wrote, TypedSlot, EncodeField, EncodePrefix;
    ghost var w0, s0 := stream.bytesWritten, stream.state;
    WroteNothing(stream.callback, stream.maxSize, w0, s0);
    PrefixStarts(d, m);
    for i := 0 to |d.fields|
      invariant stream.Valid()
      invariant Wrote(stream.callback, stream.maxSize, w0, s0, stream.bytesWritten, stream.state, true,
                      EncodePrefix(d, m, i))
    {
      ghost var w1, s1 := stream.bytesWritten, stream.state;
      PrefixNext(d, m, i);
      ok := WriteField(stream, d.fields[i], m.slots[i]);
      WroteBoth(stream.callback, stream.maxSize, w0, s0, w1, s1, stream.bytesWritten, stream.state,
                EncodePrefix(d, m, i), ok, EncodeField(d.fields[i], m.slots[i]));
      WroteValid(stream.callback, stream.maxSize, w0, s0, stream.bytesWritten, stream.state, ok,
                 EncodePrefix(d, m, i + 1));
      if !ok {
        PrefixPart(d, m, i + 1, |d.fields|);
        WroteLess(stream.callback, stream.maxSize, w0, s0, stream.bytesWritten, stream.state,
                  EncodePrefix(d, m, i + 1), EncodePrefix(d, m, |d.fields|));
        return;
      }
    }
    ok := true;
  }

  lemma PrefixStarts(d: Desc, m: Message)
    requires |m.slots| == |d.fields|
    ensures EncodePrefix(d, m, 0) == Some([])
  {
  }

  lemma PrefixNext(d: Desc, m: Message, i: nat)
    requires |m.slots| == |d.fields| && i < |d.fields|
    ensures EncodePrefix(d, m, i + 1) == Then(EncodePrefix(d, m, i), EncodeField(d.fields[i], m.slots[i]))
  {
  }

  lemma {:induction false} PrefixPart(d: Desc, m: Message, j: nat, k: nat)
    requires |m.slots| == |d.fields| && j <= k <= |d.fields|
    ensures PartOf(EncodePrefix(d, m, j), EncodePrefix(d, m, k))
    decreases k
  {
    hide EncodeField;
    if j < k {
      PrefixPart(d, m, j, k - 1);
    }
  }

  /** pb_get_encoded_size */
  method EncodedSize(d: Desc, m: Message) returns (ok: bool, size: nat)
    requires TypedMessage(d, m)
    ensures ok <==> EncodeMessage(d, m).Some?
    ensures ok ==> size == |EncodeMessage(d, m).value|
  {
    var stream := new OStream(false, [], 0);
    ok := WriteMessage(stream, d, m);
    Sized(stream.bytesWritten, stream.state, ok, EncodeMessage(d, m));
    size := stream.bytesWritten;
  }

  /** Encoding into a buffer of the given capacity succeeds exactly if the sizing pass finds a size
      that fits, and then writes exactly that many bytes. */
  method EncodeToBuffer(d: Desc, m: Message, capacity: nat) returns (ok: bool, buffer: Bytes)
    requires TypedMessage(d, m)
    ensures ok <==> EncodeMessage(d, m).Some? && |EncodeMessage(d, m).value| <= capacity
    ensures ok ==> buffer == EncodeMessage(d, m).value
  {
    hide EncodeMessage, TypedMessage;
    var stream := new OStream(true, [], capacity);
    ok := WriteMessage(stream, d, m);
    buffer := stream.state;
    assert ok ==> [] + EncodeMessage(d, m).value == EncodeMessage(d, m).value;
  }
}
