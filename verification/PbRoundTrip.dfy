// Encoding and decoding a nanopb message are inverse (Pods/nanopb): exactly the messages that fit
// their struct, NULs included, come back as they were.
module PbRoundTrip {
  import opened Wrappers
  import opened Seqs
  import opened Coding
  import opened PbVarint
  import opened PbFormat
  import opened PbEncode
  import opened PbIter
  import opened PbDecode
  import opened PbFits

  // ---------------------------------------------------------------------- length prefixes

  /** A size that the decoder can read: it reads sizes as 32-bit numbers. */
  predicate Sized(s: Bytes) {
    |s| < UINT32
  }

  /** Every length prefix in the encoding is such a size. */
  ghost predicate SizedValue(t: LType, v: Value)
    decreases t, 0
  {
    match t
    case Submessage(d) => v.MessageV? && (EncodeMessage(d, v.m).Some? ==> Sized(EncodeMessage(d, v.m).value))
      && SizedMessage(d, v.m)
    case _ => !Packable(t) ==> v.BytesV? && Sized(v.s)
  }

  ghost predicate SizedSlot(f: Field, slot: Slot)
    decreases f, 0
  {
    match f.htype
    case Required => slot.One? && SizedValue(f.ltype, slot.v)
    case Optional => slot.Maybe? && (slot.o.Some? ==> SizedValue(f.ltype, slot.o.value))
    case Repeated(_) =>
      && slot.Many?
      && (Packable(f.ltype) ==> Sized(EncodeNumbers(f.ltype, slot.vs)))
      && forall i | 0 <= i < |slot.vs| :: SizedValue(f.ltype, slot.vs[i])
  }

  ghost predicate SizedMessage(d: Desc, m: Message)
    decreases d, 0
  {
    |m.slots| == |d.fields| && forall i | 0 <= i < |d.fields| :: SizedSlot(d.fields[i], m.slots[i])
  }

  // -------------------------------------------------------------------------------- pieces

  lemma TagReads(wireType: nat, tag: nat, rest: Bytes)
    requires 0 < tag <= MAX_TAG && wireType < 8
    ensures EncodeTag(wireType, tag) != []
    ensures DecodeTag(EncodeTag(wireType, tag) + rest) == Tagged(tag, wireType, rest)
  {
    hide Decode32, EncodeVarint;
    Varint32ReadsBack(tag * 8 + wireType, rest);
  }

  lemma SignedFits(i: Int64, bits: nat)
    requires IntegerBits(bits) && InSigned(i, bits)
    ensures FitSigned(ToUnsigned(i), bits) == Some(IntV(i))
  {
  }

  lemma NumberReads(t: LType, v: Value, rest: Bytes)
    requires Packable(t) && WellFormedType(t) && Typed(t, v)
    ensures EncodeNumber(t, v) != []
    ensures DecodeNumber(t, EncodeNumber(t, v) + rest) == Some((v, rest))
  {
    hide Decode32, GetVarint64, EncodeVarint, EncodeFixed, DecodeFixed, ZigZag, UnZigZag, FitSigned, ToUnsigned;
    match t {
      case Bool => Varint32ReadsBack(if v.b then 1 else 0, rest);
      case Varint(bits) =>
        Varint64ReadsBack(ToUnsigned(v.i), rest);
        SignedFits(v.i, bits);
      case Uvarint(bits) => Varint64ReadsBack(v.n, rest);
      case Svarint(bits) =>
        Varint64ReadsBack(ZigZag(v.i), rest);
        ZigZagRoundTrip(v.i);
      case Fixed32Bits =>
        Fixed32RoundTrip(v.n);
        Parted(Fixed32(v.n), rest);
      case Fixed64Bits =>
        Fixed64RoundTrip(v.n);
        Parted(Fixed64(v.n), rest);
    }
  }

  lemma DelimitedReads(s: Bytes, rest: Bytes)
    requires Sized(s)
    ensures Decode32(Delimited(s) + rest) == Some((|s|, s + rest))
    ensures Read(s + rest, |s|) == Some((s, rest))
    ensures Substream(Delimited(s) + rest) == Some((s, rest))
  {
    hide Decode32, EncodeVarint;
    Varint32ReadsBack(|s|, s + rest);
    Regroup(EncodeVarint(|s|), s, rest);
    Parted(s, rest);
  }

  lemma {:induction false} NoNul(s: Bytes)
    requires forall i | 0 <= i < |s| :: s[i] != 0
    ensures UntilNul(s) == s
  {
    if s == [] {
    } else {
      NoNul(s[1..]);
    }
  }

  lemma StringReads(t: LType, v: Value, rest: Bytes)
    requires !Packable(t) && !t.Submessage? && Fits(t, v) && Sized(v.s)
    ensures DecodeString(t, Delimited(v.s) + rest) == Some((v, rest))
  {
    hide Decode32, Delimited;
    DelimitedReads(v.s, rest);
    if t.CharArray? {
      NoNul(v.s);
    }
  }

  // ----------------------------------------------------------------------- packed arrays

  /** The first k entries of a packed array read back and leave the rest. */
  lemma {:induction false} PackedReads(t: LType, vs: seq<Value>, k: nat, rest: Bytes, arraySize: nat)
    requires Packable(t) && WellFormedType(t) && k <= |vs| <= arraySize
    requires forall i | 0 <= i < |vs| :: Typed(t, vs[i])
    ensures DecodePacked(t, EncodeNumbers(t, vs[..k]) + rest, [], arraySize)
            == DecodePacked(t, rest, vs[..k], arraySize)
    decreases k
  {
    hide EncodeNumber, DecodeNumber, Typed, WellFormedType;
    if k == 0 {
      assert EncodeNumbers(t, vs[..0]) + rest == rest;
    } else {
      var entry := EncodeNumber(t, vs[k - 1]);
      assert vs[..k][..k - 1] == vs[..k - 1] && vs[..k - 1] + [vs[k - 1]] == vs[..k];
      Regroup(EncodeNumbers(t, vs[..k - 1]), entry, rest);
      PackedReads(t, vs, k - 1, entry + rest, arraySize);
      NumberReads(t, vs[k - 1], rest);
    }
  }

  // --------------------------------------------------------------------- steps of decoding

  /** One field met. */
  lemma FieldMet(d: Desc, i: nat, wireType: nat, input: Bytes, m: Message, seen: set<nat>, slot: Slot, rest: Bytes)
    requires WellFormed(d) && i < |d.fields| && |m.slots| == |d.fields| && wireType < 8
    requires DecodeField(d.fields[i], wireType, input, m.slots[i]) == Some((slot, rest))
    ensures DecodeMessage(d, EncodeTag(wireType, d.fields[i].tag) + input, m, seen)
            == DecodeMessage(d, rest, Message(m.slots[i := slot]), Seen(d, seen, i))
  {
    hide DecodeField, DecodeTag, EncodeTag, Seen, AllSeen, WellFormedType;
    TagReads(wireType, d.fields[i].tag, input);
    FindFieldIs(d, d.fields[i].tag, 0, i);
  }

  /** A value reads back over the default. */
  lemma {:induction false} ValueReads(t: LType, v: Value, e: Bytes, rest: Bytes)
    requires WellFormedType(t) && Fits(t, v) && SizedValue(t, v) && EncodeValue(t, v) == Some(e)
    ensures DecodeValue(t, e + rest, DefaultValue(t)) == Some((v, rest))
    decreases t, 0
  {
    hide DecodeNumber, EncodeNumber, DecodeString, Substream, DecodeMessage, EncodeMessage, FitsMessage, SizedMessage,
         WellFormed, Delimited, Defaults;
    if Packable(t) {
      NumberReads(t, v, rest);
    } else if t.Submessage? {
      var payload := EncodeMessage(t.desc, v.m).value;
      DelimitedReads(payload, rest);
      MessageReads(t.desc, v.m, payload);
    } else {
      StringReads(t, v, rest);
    }
  }

  /** A single value with its tag. */
  lemma {:induction false} TaggedReads(d: Desc, i: nat, v: Value, e: Bytes, rest: Bytes, m: Message, seen: set<nat>)
    requires WellFormed(d) && i < |d.fields| && |m.slots| == |d.fields| && m.slots[i] == DefaultSlot(d.fields[i])
    requires !d.fields[i].htype.Repeated? && Fits(d.fields[i].ltype, v)
    requires SizedValue(d.fields[i].ltype, v) && EncodeTagged(d.fields[i], v) == Some(e)
    ensures DecodeMessage(d, e + rest, m, seen)
            == DecodeMessage(d, rest, Message(m.slots[i := if d.fields[i].htype.Required? then One(v)
                                                      else Maybe(Some(v))]), Seen(d, seen, i))
    decreases d, 0
  {
    hide DecodeValue, EncodeValue, EncodeTag, DecodeMessage, Seen, Fits, SizedValue, WellFormedType, DefaultValue;
    var f := d.fields[i];
    var payload := EncodeValue(f.ltype, v).value;
    ValueReads(f.ltype, v, payload, rest);
    Regroup(EncodeTag(WireType(f.ltype), f.tag), payload, rest);
    FieldMet(d, i, WireType(f.ltype), payload + rest, m, seen, if f.htype.Required? then One(v)
             else Maybe(Some(v)), rest);
  }

  /** The first k entries of an array whose entries have each a tag. */
  lemma {:induction false} EachReads(d: Desc, i: nat, vs: seq<Value>, k: nat, e: Bytes, rest: Bytes, m: Message,
                                     seen: set<nat>)
    requires WellFormed(d) && i < |d.fields| && |m.slots| == |d.fields| && m.slots[i] == Many([])
    requires d.fields[i].htype.Repeated? && !Packable(d.fields[i].ltype)
    requires k <= |vs| <= d.fields[i].htype.arraySize && forall j | 0 <= j < |vs| :: Fits(d.fields[i].ltype, vs[j])
    requires EncodeEach(d.fields[i], vs[..k]) == Some(e) && forall j | 0 <= j < |vs| ::
             SizedValue(d.fields[i].ltype, vs[j])
    ensures DecodeMessage(d, e + rest, m, seen) == DecodeMessage(d, rest, Message(m.slots[i := Many(vs[..k])]), seen)
    decreases d, 1, k
  {
    hide DecodeValue, EncodeValue, EncodeTag, DecodeMessage, Fits, SizedValue, WellFormedType, DefaultValue;
    var f := d.fields[i];
    if k == 0 {
      assert m.slots[i := Many(vs[..0])] == m.slots;
      assert e + rest == rest;
    } else {
      assert vs[..k][..k - 1] == vs[..k - 1] && vs[..k - 1] + [vs[k - 1]] == vs[..k];
      var before, entry := EncodeEach(f, vs[..k - 1]).value, EncodeTagged(f, vs[k - 1]).value;
      var payload := EncodeValue(f.ltype, vs[k - 1]).value;
      Regroup(before, entry, rest);
      EachReads(d, i, vs, k - 1, before, entry + rest, m, seen);
      var m' := Message(m.slots[i := Many(vs[..k - 1])]);
      ValueReads(f.ltype, vs[k - 1], payload, rest);
      Regroup(EncodeTag(WireType(f.ltype), f.tag), payload, rest);
      FieldMet(d, i, WireType(f.ltype), payload + rest, m', seen, Many(vs[..k]), rest);
      assert m'.slots[i := Many(vs[..k])] == m.slots[i := Many(vs[..k])];
    }
  }

  /** A packed array. */
  lemma PackedArrayReads(d: Desc, i: nat, vs: seq<Value>, rest: Bytes, m: Message, seen: set<nat>)
    requires WellFormed(d) && i < |d.fields| && |m.slots| == |d.fields| && m.slots[i] == Many([])
    requires d.fields[i].htype.Repeated? && Packable(d.fields[i].ltype)
    requires |vs| <= d.fields[i].htype.arraySize && forall j | 0 <= j < |vs| :: Fits(d.fields[i].ltype, vs[j])
    requires Sized(EncodeNumbers(d.fields[i].ltype, vs))
    ensures DecodeMessage(d, EncodeTag(WT_STRING,
                                       d.fields[i].tag) + Delimited(EncodeNumbers(d.fields[i].ltype, vs)) + rest, m,
                                         seen)
            == DecodeMessage(d, rest, Message(m.slots[i := Many(vs)]), seen)
  {
    hide EncodeNumbers, EncodeTag, DecodeMessage, Typed, WellFormedType, Delimited, Substream;
    var f := d.fields[i];
    var payload := EncodeNumbers(f.ltype, vs);
    assert forall j | 0 <= j < |vs| :: Fits(f.ltype, vs[j]) ==> Typed(f.ltype, vs[j]);
    PackedReads(f.ltype, vs, |vs|, [], f.htype.arraySize);
    assert vs[..|vs|] == vs && payload + [] == payload;
    DelimitedReads(payload, rest);
    Regroup(EncodeTag(WT_STRING, f.tag), Delimited(payload), rest);
    FieldMet(d, i, WT_STRING, Delimited(payload) + rest, m, seen, Many(vs), rest);
  }

  /** Whatever a field was encoded to decodes to that field. */
  lemma {:induction false} FieldReads(d: Desc, i: nat, slot: Slot, e: Bytes, rest: Bytes, m: Message, seen: set<nat>)
    requires WellFormed(d) && i < |d.fields| && |m.slots| == |d.fields| && m.slots[i] == DefaultSlot(d.fields[i])
    requires FitsSlot(d.fields[i], slot) && SizedSlot(d.fields[i], slot) && EncodeField(d.fields[i], slot) == Some(e)
    ensures DecodeMessage(d, e + rest, m, seen) == DecodeMessage(d, rest, Message(m.slots[i := slot]), Seen(d, seen, i))
    decreases d, 2
  {
    hide EncodeTagged, EncodeEach, EncodeNumbers, DecodeMessage, Fits, SizedValue, WellFormedType, DefaultValue,
         Delimited, EncodeTag;
    var f := d.fields[i];
    assert e == [] ==> e + rest == rest;
    assert m.slots[i := m.slots[i]] == m.slots;
    match f.htype {
      case Required => TaggedReads(d, i, slot.v, e, rest, m, seen);
      case Optional =>
        if slot.o.Some? {
          TaggedReads(d, i, slot.o.value, e, rest, m, seen);
        }
      case Repeated(arraySize) =>
        if slot.vs != [] {
          if Packable(f.ltype) {
            PackedArrayReads(d, i, slot.vs, rest, m, seen);
          } else {
            assert slot.vs[..|slot.vs|] == slot.vs;
            EachReads(d, i, slot.vs, |slot.vs|, e, rest, m, seen);
          }
        }
    }
  }

  // ------------------------------------------------------------------------ whole messages

  /** The first k fields decoded, the others still at their defaults. */
  function Mixed(d: Desc, m: Message, k: nat): (r: Message)
    requires |m.slots| == |d.fields| && k <= |d.fields|
    ensures |r.slots| == |d.fields|
  {
    Message(m.slots[..k] + Defaults(d).slots[k..])
  }

  function SeenUpTo(d: Desc, k: nat): set<nat>
    requires k <= |d.fields|
  {
    if k == 0 then {} else Seen(d, SeenUpTo(d, k - 1), k - 1)
  }

  lemma {:induction false} AllUpTo(d: Desc, n: nat, k: nat)
    requires n <= |d.fields| && k < RequiredBefore(d, n) && k < MAX_REQUIRED
    ensures k in SeenUpTo(d, n)
    decreases n
  {
    if k < RequiredBefore(d, n - 1) {
      AllUpTo(d, n - 1, k);
    }
  }

  lemma MixedNext(d: Desc, m: Message, k: nat)
    requires |m.slots| == |d.fields| && k < |d.fields|
    ensures Mixed(d, m, k).slots[k] == DefaultSlot(d.fields[k])
    ensures Mixed(d, m, k + 1).slots == Mixed(d, m, k).slots[k := m.slots[k]]
  {
    hide DefaultSlot;
  }

  lemma {:induction false} PrefixReads(d: Desc, m: Message, k: nat, e: Bytes, rest: Bytes)
    requires WellFormed(d) && FitsMessage(d, m) && SizedMessage(d, m) && k <= |d.fields|
    requires EncodePrefix(d, m, k) == Some(e)
    ensures DecodeMessage(d, e + rest, Defaults(d), {}) == DecodeMessage(d, rest, Mixed(d, m, k), SeenUpTo(d, k))
    decreases d, 3, k
  {
    hide EncodeField, DecodeMessage, FitsSlot, SizedSlot, WellFormed, Mixed, DefaultSlot, Seen, Defaults;
    if k == 0 {
      MixedNone(d, m);
      assert e + rest == rest;
    } else {
      var before, field := EncodePrefix(d, m, k - 1).value, EncodeField(d.fields[k - 1], m.slots[k - 1]).value;
      Regroup(before, field, rest);
      PrefixReads(d, m, k - 1, before, field + rest);
      MixedNext(d, m, k - 1);
      FieldReads(d, k - 1, m.slots[k - 1], field, rest, Mixed(d, m, k - 1), SeenUpTo(d, k - 1));
    }
  }

  lemma MixedNone(d: Desc, m: Message)
    requires |m.slots| == |d.fields|
    ensures Mixed(d, m, 0) == Defaults(d)
  {
    hide DefaultSlot;
    assert m.slots[..0] + Defaults(d).slots[0..] == Defaults(d).slots;
  }

  /** A message that fits decodes to itself. */
  lemma {:induction false} MessageReads(d: Desc, m: Message, e: Bytes)
    requires WellFormed(d) && FitsMessage(d, m) && SizedMessage(d, m) && EncodeMessage(d, m) == Some(e)
    ensures DecodeMessage(d, e, Defaults(d), {}) == Some(m)
    decreases d, 4
  {
    hide EncodePrefix, FitsSlot, SizedSlot, WellFormed, SeenUpTo;
    var n := |d.fields|;
    PrefixReads(d, m, n, e, []);
    assert e + [] == e;
    assert m.slots[..n] + Defaults(d).slots[n..] == m.slots;
    forall k | 0 <= k < CheckedFields(d)
      ensures k in SeenUpTo(d, n)
    {
      AllUpTo(d, n, k);
    }
  }

  // ---------------------------------------------------------------------- what fits encodes

  lemma {:induction false} ValueEncodes(t: LType, v: Value)
    requires WellFormedType(t) && Fits(t, v)
    ensures Typed(t, v) && EncodeValue(t, v).Some?
    decreases t, 0
  {
    hide EncodeNumber, EncodeMessage, FitsMessage, TypedMessage, WellFormed, Delimited;
    if t.Submessage? {
      MessageEncodes(t.desc, v.m);
    }
  }

  lemma {:induction false} EachEncodes(f: Field, vs: seq<Value>)
    requires WellFormedType(f.ltype) && forall j | 0 <= j < |vs| :: Fits(f.ltype, vs[j])
    ensures EncodeEach(f, vs).Some? && forall j | 0 <= j < |vs| :: Typed(f.ltype, vs[j])
    decreases f, 0, |vs|
  {
    hide EncodeValue, EncodeTag, Fits, Typed, WellFormedType;
    if vs == [] {
    } else {
      EachEncodes(f, vs[..|vs| - 1]);
      ValueEncodes(f.ltype, vs[|vs| - 1]);
    }
  }

  lemma {:induction false} FieldEncodes(f: Field, slot: Slot)
    requires WellFormedType(f.ltype) && FitsSlot(f, slot)
    ensures TypedSlot(f, slot) && EncodeField(f, slot).Some?
    decreases f, 1
  {
    hide EncodeValue, EncodeTag, Fits, Typed, WellFormedType, EncodeEach, EncodeNumbers;
    match f.htype {
      case Required => ValueEncodes(f.ltype, slot.v);
      case Optional =>
        if slot.o.Some? {
          ValueEncodes(f.ltype, slot.o.value);
        }
      case Repeated(_) => EachEncodes(f, slot.vs);
    }
  }

  lemma {:induction false} PrefixEncodes(d: Desc, m: Message, k: nat)
    requires WellFormed(d) && FitsMessage(d, m) && k <= |d.fields|
    ensures EncodePrefix(d, m, k).Some? && forall i | 0 <= i < k :: TypedSlot(d.fields[i], m.slots[i])
    decreases d, 0, k
  {
    hide EncodeField, FitsSlot, TypedSlot, WellFormedType;
    if k == 0 {
    } else {
      PrefixEncodes(d, m, k - 1);
      FieldEncodes(d.fields[k - 1], m.slots[k - 1]);
    }
  }

  lemma {:induction false} MessageEncodes(d: Desc, m: Message)
    requires WellFormed(d) && FitsMessage(d, m)
    ensures TypedMessage(d, m) && EncodeMessage(d, m).Some?
    decreases d, 1
  {
    hide EncodePrefix, FitsSlot, TypedSlot, WellFormed;
    PrefixEncodes(d, m, |d.fields|);
  }

  // --------------------------------------------------------------------------- main results

  /** The codec round trip, exactly: a message of any size, with no length prefix past 32 bits, comes
      back as it was if and only if it fits, that is, no char array in it lacks the room for its NUL. */
  lemma RoundTripIff(d: Desc, m: Message)
    requires WellFormed(d) && TypedMessage(d, m)
    requires EncodeMessage(d, m).Some? && SizedMessage(d, m)
    ensures DecodeMessage(d, EncodeMessage(d, m).value, Defaults(d), {}) == Some(m) <==> FitsMessage(d, m)
  {
    hide EncodeMessage, DecodeMessage, FitsMessage, TypedMessage, WellFormed, SizedMessage;
    var e := EncodeMessage(d, m).value;
    if FitsMessage(d, m) {
      MessageReads(d, m, e);
    }
    if DecodeMessage(d, e, Defaults(d), {}) == Some(m) {
      DefaultsFit(d);
      MessageFits(d, e, Defaults(d), {});
    }
  }

  /** Whatever bytes were decoded, in whatever order and with whatever unknown fields: the message
      they gave can be encoded again, and its encoding decodes to the same message. */
  lemma DecodedRoundTrips(d: Desc, input: Bytes)
    requires WellFormed(d) && DecodeMessage(d, input, Defaults(d), {}).Some?
    ensures var m := DecodeMessage(d, input, Defaults(d), {}).value;
            && EncodeMessage(d, m).Some?
            && (SizedMessage(d, m) ==>
                  DecodeMessage(d, EncodeMessage(d, m).value, Defaults(d), {}) == Some(m))
  {
    hide EncodeMessage, DecodeMessage, FitsMessage, WellFormed, SizedMessage;
    var m := DecodeMessage(d, input, Defaults(d), {}).value;
    DefaultsFit(d);
    MessageFits(d, input, Defaults(d), {});
    MessageEncodes(d, m);
    if SizedMessage(d, m) {
      MessageReads(d, m, EncodeMessage(d, m).value);
    }
  }

  /** A char array that its characters fill to the end, which the encoder accepts, is never decoded:
      the family that the round trip leaves out, in a message of one field. */
  lemma UnterminatedIsLost(tag: nat, s: Bytes)
    requires 0 < tag <= MAX_TAG && 0 < |s| < UINT32 && forall i | 0 <= i < |s| :: s[i] != 0
    ensures var d := Desc([Field(tag, CharArray(|s|), Required)]);
            var m := Message([One(BytesV(s))]);
            && WellFormed(d) && TypedMessage(d, m) && EncodeMessage(d, m).Some?
            && DecodeMessage(d, EncodeMessage(d, m).value, Defaults(d), {}) == None
  {
    hide EncodeTag, Delimited, DecodeTag, Decode32, Seen;
    var f := Field(tag, CharArray(|s|), Required);
    var d := Desc([f]);
    var m := Message([One(BytesV(s))]);
    var e := EncodeTag(WT_STRING, tag) + Delimited(s);
    OneField(f, One(BytesV(s)));
    assert Typed(f.ltype, BytesV(s)) && TypedSlot(f, One(BytesV(s)));
    assert EncodeValue(f.ltype, BytesV(s)) == Some(Delimited(s));
    assert EncodeTagged(f, BytesV(s)) == Some(e) == EncodeField(f, One(BytesV(s)));
    TagReads(WT_STRING, tag, Delimited(s));
    FindFieldIs(d, tag, 0, 0);
    DelimitedReads(s, []);
    assert Delimited(s) + [] == Delimited(s);
    assert DecodeString(f.ltype, Delimited(s)) == None;
    assert DecodeField(f, WT_STRING, Delimited(s), Defaults(d).slots[0]) == None;
  }

  lemma OneField(f: Field, slot: Slot)
    ensures EncodeMessage(Desc([f]), Message([slot])) == EncodeField(f, slot)
  {
    hide EncodeField;
    var d, m := Desc([f]), Message([slot]);
    assert EncodePrefix(d, m, 1) == Then(EncodePrefix(d, m, 0), EncodeField(f, slot));
    if EncodeField(f, slot).Some? {
      assert [] + EncodeField(f, slot).value == EncodeField(f, slot).value;
    }
  }
}
