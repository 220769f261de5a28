// nanopb messages and descriptors (Pods/nanopb/pb.h), and the bytes a message is encoded to: the
// static required, optional and repeated fields of the Protocol Buffers encoding.
module PbFormat {
  import opened Wrappers
  import opened Coding
  import opened PbVarint

  // ------------------------------------------------------------------------ descriptors

  /** PB_LTYPE with the sizes that go with it: bits of an integer, room of an array. */
  datatype LType =
    | Bool
    | Varint(bits: nat)
    | Uvarint(bits: nat)
    | Svarint(bits: nat)
    | Fixed32Bits
    | Fixed64Bits
    | BytesArray(max: nat)
    | CharArray(dataSize: nat)
    | Submessage(desc: Desc)
    | FixedBytes(size: nat)

  datatype HType = Required | Optional | Repeated(arraySize: nat)

  datatype Field = Field(tag: nat, ltype: LType, htype: HType)

  datatype Desc = Desc(fields: seq<Field>)

  // --------------------------------------------------------------------------- messages

  /** What a struct member holds; a char array is known by the characters before its NUL. */
  datatype Value = BoolV(b: bool) | IntV(i: int) | NatV(n: nat) | BytesV(s: Bytes) | MessageV(m: Message)

  datatype Slot = One(v: Value) | Maybe(o: Option<Value>) | Many(vs: seq<Value>)

  datatype Message = Message(slots: seq<Slot>)

  const MAX_TAG: nat := 0x1FFF_FFFF

  predicate IntegerBits(bits: nat) {
    bits == 8 || bits == 16 || bits == 32 || bits == 64
  }

  /** The values a signed integer of the given size can have. */
  predicate InSigned(i: int, bits: nat) {
    if bits == 8 then -0x80 <= i < 0x80
    else if bits == 16 then -0x8000 <= i < 0x8000
    else if bits == 32 then -0x8000_0000 <= i < 0x8000_0000
    else INT64_MIN <= i <= INT64_MAX
  }

  function Limit(bits: nat): nat {
    if bits == 8 then 0x100 else if bits == 16 then 0x1_0000 else if bits == 32 then UINT32 else UINT64
  }

  /** Descriptors as the generator makes them: distinct nonzero tags, known integer sizes, and no
      array of no characters, which C does not have. */
  ghost predicate WellFormedType(t: LType)
    decreases t, 0
  {
    match t
    case Varint(bits) => IntegerBits(bits)
    case Uvarint(bits) => IntegerBits(bits)
    case Svarint(bits) => IntegerBits(bits)
    case CharArray(dataSize) => dataSize > 0
    case Submessage(d) => WellFormed(d)
    case _ => true
  }

  ghost predicate WellFormed(d: Desc)
    decreases d, 0
  {
    && (forall i | 0 <= i < |d.fields| :: 0 < d.fields[i].tag <= MAX_TAG && WellFormedType(d.fields[i].ltype))
    && (forall i, j | 0 <= i < j < |d.fields| :: d.fields[i].tag != d.fields[j].tag)
  }

  /** What the C types of the members guarantee. */
  ghost predicate Typed(t: LType, v: Value)
    decreases t, 0
  {
    match t
    case Bool => v.BoolV?
    case Varint(bits) => v.IntV? && InSigned(v.i, bits)
    case Uvarint(bits) => v.NatV? && v.n < Limit(bits)
    case Svarint(bits) => v.IntV? && InSigned(v.i, bits)
    case Fixed32Bits => v.NatV? && v.n < UINT32
    case Fixed64Bits => v.NatV? && v.n < UINT64
    case BytesArray(_) => v.BytesV?
    case CharArray(dataSize) => v.BytesV? && |v.s| <= dataSize && forall i | 0 <= i < |v.s| :: v.s[i] != 0
    case Submessage(d) => v.MessageV? && TypedMessage(d, v.m)
    case FixedBytes(size) => v.BytesV? && |v.s| == size
  }

  ghost predicate TypedSlot(f: Field, slot: Slot)
    decreases f, 0
  {
    match f.htype
    case Required => slot.One? && Typed(f.ltype, slot.v)
    case Optional => slot.Maybe? && (slot.o.Some? ==> Typed(f.ltype, slot.o.value))
    case Repeated(_) => slot.Many? && forall i | 0 <= i < |slot.vs| :: Typed(f.ltype, slot.vs[i])
  }

  ghost predicate TypedMessage(d: Desc, m: Message)
    decreases d, 0
  {
    |m.slots| == |d.fields| && forall i | 0 <= i < |d.fields| :: TypedSlot(d.fields[i], m.slots[i])
  }

  // ----------------------------------------------------------------------- what is written

  predicate Packable(t: LType) {
    t.Bool? || t.Varint? || t.Uvarint? || t.Svarint? || t.Fixed32Bits? || t.Fixed64Bits?
  }

  const WT_VARINT: nat := 0
  const WT_64BIT: nat := 1
  const WT_STRING: nat := 2
  const WT_32BIT: nat := 5

  function WireType(t: LType): (r: nat)
    ensures r < 8
  {
    match t
    case Bool => WT_VARINT
    case Varint(_) => WT_VARINT
    case Uvarint(_) => WT_VARINT
    case Svarint(_) => WT_VARINT
    case Fixed32Bits => WT_32BIT
    case Fixed64Bits => WT_64BIT
    case _ => WT_STRING
  }

  function EncodeTag(wireType: nat, tag: nat): Bytes {
    EncodeVarint((tag * 8 + wireType) % UINT64)
  }

  /** pb_encode_string: the size, as a 64-bit number, and the bytes. */
  function Delimited(s: Bytes): (r: Bytes)
    ensures |r| > |s|
  {
    EncodeVarint(|s| % UINT64) + s
  }

  /** Two pieces one after the other; an error in either spoils both. */
  function Then(a: Option<Bytes>, b: Option<Bytes>): Option<Bytes> {
    if a.Some? && b.Some? then Some(a.value + b.value) else None
  }

  /** A numeric value: it never fails to encode. */
  function EncodeNumber(t: LType, v: Value): Bytes {
    match (t, v)
    case (Bool, BoolV(b)) => EncodeVarint(if b then 1 else 0)
    case (Varint(_), IntV(i)) => EncodeVarint(if INT64_MIN <= i <= INT64_MAX then ToUnsigned(i) else 0)
    case (Uvarint(_), NatV(n)) => EncodeVarint(n % UINT64)
    case (Svarint(_), IntV(i)) => EncodeVarint(if INT64_MIN <= i <= INT64_MAX then ZigZag(i) else 0)
    case (Fixed32Bits, NatV(n)) => Fixed32(n)
    case (Fixed64Bits, NatV(n)) => Fixed64(n)
    case _ => []
  }

  /** A value without its tag, or nothing if the encoder refuses it. */
  function EncodeValue(t: LType, v: Value): Option<Bytes>
    decreases t, 0
  {
    if Packable(t) then Some(EncodeNumber(t, v))
    else
      match (t, v)
      case (BytesArray(max), BytesV(s)) => if |s| > max then None else Some(Delimited(s))
      case (CharArray(_), BytesV(s)) => Some(Delimited(s))
      case (FixedBytes(_), BytesV(s)) => Some(Delimited(s))
      case (Submessage(d), MessageV(m)) =>
        (match EncodeMessage(d, m) case None => None case Some(e) => Some(Delimited(e)))
      case _ => None
  }

  /** The payload of a packed array. */
  function EncodeNumbers(t: LType, vs: seq<Value>): Bytes {
    if vs == [] then [] else EncodeNumbers(t, vs[..|vs| - 1]) + EncodeNumber(t, vs[|vs| - 1])
  }

  function EncodeTagged(f: Field, v: Value): Option<Bytes>
    decreases f, 0
  {
    Then(Some(EncodeTag(WireType(f.ltype), f.tag)), EncodeValue(f.ltype, v))
  }

  /** An array that cannot be packed: every entry with a tag of its own. */
  function EncodeEach(f: Field, vs: seq<Value>): Option<Bytes>
    decreases f, 1, |vs|
  {
    if vs == [] then Some([]) else Then(EncodeEach(f, vs[..|vs| - 1]), EncodeTagged(f, vs[|vs| - 1]))
  }

  function EncodeArray(f: Field, vs: seq<Value>, arraySize: nat): Option<Bytes>
    decreases f, 2
  {
    if vs == [] then Some([])
    else if |vs| > arraySize then None
    else if Packable(f.ltype) then Some(EncodeTag(WT_STRING, f.tag) + Delimited(EncodeNumbers(f.ltype, vs)))
    else EncodeEach(f, vs)
  }

  function EncodeField(f: Field, slot: Slot): Option<Bytes>
    decreases f, 3
  {
    match (f.htype, slot)
    case (Required, One(v)) => EncodeTagged(f, v)
    case (Optional, Maybe(o)) => if o.None? then Some([]) else EncodeTagged(f, o.value)
    case (Repeated(arraySize), Many(vs)) => EncodeArray(f, vs, arraySize)
    case _ => None
  }

  /** The first k fields. */
  function EncodePrefix(d: Desc, m: Message, k: nat): Option<Bytes>
    requires k <= |d.fields| && |m.slots| == |d.fields|
    decreases d, 1, k
  {
    if k == 0 then Some([]) else Then(EncodePrefix(d, m, k - 1), EncodeField(d.fields[k - 1], m.slots[k - 1]))
  }

  function EncodeMessage(d: Desc, m: Message): Option<Bytes>
    decreases d, 2
  {
    if |m.slots| != |d.fields| then None else EncodePrefix(d, m, |d.fields|)
  }
}
