// What a message struct has room for (Pods/nanopb/pb_decode.c): whatever bytes come in, decoding
// never puts more into a struct than its members can hold.
module PbFits {
  import opened Wrappers
  import opened Coding
  import opened PbVarint
  import opened PbFormat
  import opened PbDecode

  /** Within the range of the C type and the size of the array; a char array has room for its NUL. */
  ghost predicate Fits(t: LType, v: Value)
    decreases t, 0
  {
    match t
    case BytesArray(max) => v.BytesV? && |v.s| <= max
    case CharArray(dataSize) => Typed(t, v) && |v.s| < dataSize
    case Submessage(d) => v.MessageV? && FitsMessage(d, v.m)
    case _ => Typed(t, v)
  }

  ghost predicate FitsSlot(f: Field, slot: Slot)
    decreases f, 0
  {
    match f.htype
    case Required => slot.One? && Fits(f.ltype, slot.v)
    case Optional => slot.Maybe? && (slot.o.Some? ==> Fits(f.ltype, slot.o.value))
    case Repeated(arraySize) => slot.Many? && |slot.vs| <= arraySize && forall i | 0 <= i < |slot.vs| ::
      Fits(f.ltype, slot.vs[i])
  }

  ghost predicate FitsMessage(d: Desc, m: Message)
    decreases d, 0
  {
    |m.slots| == |d.fields| && forall i | 0 <= i < |d.fields| :: FitsSlot(d.fields[i], m.slots[i])
  }

  // ------------------------------------------------------------------------- defaults fit

  lemma {:induction false} DefaultFits(t: LType)
    requires WellFormedType(t)
    ensures Fits(t, DefaultValue(t))
    decreases t, 0
  {
    if t.Submessage? {
      DefaultsFit(t.desc);
    }
  }

  lemma {:induction false} DefaultsFit(d: Desc)
    requires WellFormed(d)
    ensures FitsMessage(d, Defaults(d))
    decreases d, 0
  {
    forall i | 0 <= i < |d.fields|
      ensures FitsSlot(d.fields[i], Defaults(d).slots[i])
    {
      DefaultFits(d.fields[i].ltype);
    }
  }

  // ----------------------------------------------------------------------- what is decoded

  lemma {:induction false} UntilNulFits(s: Bytes)
    ensures |UntilNul(s)| <= |s| && forall i | 0 <= i < |UntilNul(s)| :: UntilNul(s)[i] != 0
  {
    if s != [] && s[0] != 0 {
      UntilNulFits(s[1..]);
    }
  }

  lemma NumberFits(t: LType, input: Bytes)
    requires WellFormedType(t) && DecodeNumber(t, input).Some?
    ensures Fits(t, DecodeNumber(t, input).value.0)
  {
    if t.Fixed32Bits? || t.Fixed64Bits? {
      var n := if t.Fixed32Bits? then 4 else 8;
      FixedBound(input[..n]);
      Pow256Values();
    }
  }

  lemma StringFits(t: LType, input: Bytes)
    requires !Packable(t) && !t.Submessage? && DecodeString(t, input).Some?
    ensures Fits(t, DecodeString(t, input).value.0)
  {
    var (size, rest) := Decode32(input).value;
    if t.CharArray? {
      UntilNulFits(rest[..size]);
    }
  }

  lemma {:induction false} ValueFits(t: LType, input: Bytes, current: Value)
    requires WellFormedType(t) && Fits(t, current) && DecodeValue(t, input, current).Some?
    ensures Fits(t, DecodeValue(t, input, current).value.0)
    decreases t, 0, |input|
  {
    hide DecodeNumber, DecodeString, DecodeMessage, FitsMessage, WellFormed;
    if Packable(t) {
      NumberFits(t, input);
    } else if t.Submessage? {
      MessageFits(t.desc, Substream(input).value.0, current.m, {});
    } else {
      StringFits(t, input);
    }
  }

  lemma {:induction false} PackedFits(t: LType, sub: Bytes, vs: seq<Value>, arraySize: nat)
    requires WellFormedType(t) && |vs| <= arraySize && forall i | 0 <= i < |vs| :: Fits(t, vs[i])
    requires DecodePacked(t, sub, vs, arraySize).Some?
    ensures var r := DecodePacked(t, sub, vs, arraySize).value;
            |r| <= arraySize && forall i | 0 <= i < |r| :: Fits(t, r[i])
    decreases |sub|
  {
    hide DecodeNumber, Fits, WellFormedType;
    if sub == [] {
    } else {
      NumberFits(t, sub);
      var (v, rest) := DecodeNumber(t, sub).value;
      PackedFits(t, rest, vs + [v], arraySize);
    }
  }

  lemma {:induction false} FieldFits(f: Field, wireType: nat, input: Bytes, slot: Slot)
    requires WellFormedType(f.ltype) && FitsSlot(f, slot) && DecodeField(f, wireType, input, slot).Some?
    ensures FitsSlot(f, DecodeField(f, wireType, input, slot).value.0)
    decreases f, 0, |input|
  {
    hide DecodeValue, DecodePacked, Fits, WellFormedType;
    DefaultFits(f.ltype);
    match f.htype {
      case Required => ValueFits(f.ltype, input, slot.v);
      case Optional => ValueFits(f.ltype, input, if slot.o.Some? then slot.o.value else DefaultValue(f.ltype));
      case Repeated(arraySize) =>
        if wireType == WT_STRING && Packable(f.ltype) {
          PackedFits(f.ltype, Substream(input).value.0, slot.vs, arraySize);
        } else {
          ValueFits(f.ltype, input, DefaultValue(f.ltype));
        }
    }
  }

  /** A message that fits still fits after anything has been decoded into it. */
  lemma {:induction false} MessageFits(d: Desc, input: Bytes, m: Message, seen: set<nat>)
    requires WellFormed(d) && FitsMessage(d, m) && DecodeMessage(d, input, m, seen).Some?
    ensures FitsMessage(d, DecodeMessage(d, input, m, seen).value)
    decreases d, 0, |input|
  {
    hide DecodeField, FitsSlot, AllSeen, SkipField, Seen;
    if input != [] && DecodeTag(input).Tagged? {
      var Tagged(tag, wireType, rest) := DecodeTag(input);
      match FindField(d, tag, 0) {
        case None => MessageFits(d, SkipField(wireType, rest).value, m, seen);
        case Some(i) =>
          FieldFits(d.fields[i], wireType, rest, m.slots[i]);
          var (slot, after) := DecodeField(d.fields[i], wireType, rest, m.slots[i]).value;
          MessageFits(d, after, Message(m.slots[i := slot]), Seen(d, seen, i));
      }
    }
  }
}
