// The nanopb decoder (Pods/nanopb/pb_decode.c): what it makes of a byte string, and the loop that
// does it with the wrap-around iterator and the bitmap of required fields.
module PbDecode {
  import opened Wrappers
  import opened Coding
  import opened PbVarint
  import opened PbFormat
  import opened PbIter

  const MAX_REQUIRED: nat := 64

  // -------------------------------------------------------------------- default values

  function DefaultValue(t: LType): Value
    decreases t, 0
  {
    match t
    case Bool => BoolV(false)
    case Varint(_) => IntV(0)
    case Svarint(_) => IntV(0)
    case Uvarint(_) => NatV(0)
    case Fixed32Bits => NatV(0)
    case Fixed64Bits => NatV(0)
    case BytesArray(_) => BytesV([])
    case CharArray(_) => BytesV([])
    case FixedBytes(size) => BytesV(seq(size, _ => 0))
    case Submessage(d) => MessageV(Defaults(d))
  }

  function DefaultSlot(f: Field): Slot
    decreases f, 0
  {
    match f.htype
    case Required => One(DefaultValue(f.ltype))
    case Optional => Maybe(None)
    case Repeated(_) => Many([])
  }

  /** pb_message_set_to_defaults, for descriptors without default values of their own. */
  function Defaults(d: Desc): (m: Message)
    ensures |m.slots| == |d.fields|
    decreases d, 0
  {
    Message(seq(|d.fields|, i requires 0 <= i < |d.fields| => DefaultSlot(d.fields[i])))
  }

  // ------------------------------------------------------------------------ the pieces

  datatype TagResult = Tagged(tag: nat, wireType: nat, rest: Bytes) | EndOfMessage | BadTag

  /** pb_decode_tag on a stream that is not empty; a zero ends the message. */
  function DecodeTag(input: Bytes): (r: TagResult)
    ensures r.Tagged? ==> |r.rest| < |input|
  {
    match Decode32(input)
    case None => BadTag
    case Some((v, rest)) => if v == 0 then EndOfMessage else Tagged(v / 8, v % 8, rest)
  }

  /** pb_read */
  function Read(input: Bytes, n: nat): (r: Option<(Bytes, Bytes)>)
    ensures r.Some? ==> |r.value.0| == n && |r.value.1| == |input| - n
  {
    if |input| < n then None else Some((input[..n], input[n..]))
  }

  /** pb_skip_varint */
  function SkipVarint(input: Bytes): (r: Option<Bytes>)
    ensures r.Some? ==> |r.value| < |input|
  {
    if input == [] then None else if input[0] < 128 then Some(input[1..]) else SkipVarint(input[1..])
  }

  /** pb_make_string_substream and, once it is used, pb_close_string_substream. */
  function Substream(input: Bytes): (r: Option<(Bytes, Bytes)>)
    ensures r.Some? ==> |r.value.1| < |input| && |r.value.0| < |input|
  {
    match Decode32(input)
    case None => None
    case Some((size, rest)) => Read(rest, size)
  }

  /** pb_skip_field */
  function SkipField(wireType: nat, input: Bytes): (r: Option<Bytes>)
    ensures r.Some? ==> |r.value| <= |input|
  {
    if wireType == WT_VARINT then SkipVarint(input)
    else if wireType == WT_64BIT then (match Read(input, 8) case None => None case Some((_, rest)) => Some(rest))
    else if wireType == WT_STRING then (match Substream(input) case None => None case Some((_, rest)) => Some(rest))
    else if wireType == WT_32BIT then (match Read(input, 4) case None => None case Some((_, rest)) => Some(rest))
    else None
  }

  /** pb_dec_varint: fields of 32 bits or less take the low 32 bits as a signed number first. */
  function FitSigned(value: nat, bits: nat): Option<Value>
    requires value < UINT64
  {
    var svalue := if bits == 64 then ToSigned(value) else Low32(value);
    if InSigned(svalue, bits) then Some(IntV(svalue)) else None
  }

  /** The low 32 bits as a signed number. */
  function Low32(value: nat): int {
    var low := value % UINT32;
    if low >= 0x8000_0000 then low - UINT32 else low
  }

  /** The decoders of the numeric types. */
  function DecodeNumber(t: LType, input: Bytes): (r: Option<(Value, Bytes)>)
    ensures r.Some? ==> |r.value.1| < |input|
  {
    match t
    case Bool =>
      (match Decode32(input) case None => None case Some((v, rest)) => Some((BoolV(v != 0), rest)))
    case Varint(bits) =>
      (match GetVarint64(input)
       case None => None
       case Some((v, rest)) => if FitSigned(v, bits).Some? then Some((FitSigned(v, bits).value, rest)) else None)
    case Uvarint(bits) =>
      (match GetVarint64(input)
       case None => None
       case Some((v, rest)) => if v < Limit(bits) then Some((NatV(v), rest)) else None)
    case Svarint(bits) =>
      (match GetVarint64(input)
       case None => None
       case Some((v, rest)) => if InSigned(UnZigZag(v), bits) then Some((IntV(UnZigZag(v)), rest)) else None)
    case Fixed32Bits =>
      (match Read(input, 4) case None => None case Some((s, rest)) => Some((NatV(DecodeFixed(s)), rest)))
    case Fixed64Bits =>
      (match Read(input, 8) case None => None case Some((s, rest)) => Some((NatV(DecodeFixed(s)), rest)))
    case _ => None
  }

  /** The characters before the first NUL. */
  function UntilNul(s: Bytes): Bytes {
    if s == [] || s[0] == 0 then [] else [s[0]] + UntilNul(s[1..])
  }

  /** The decoders of byte strings: length, then bytes, if there is room for them. */
  function DecodeString(t: LType, input: Bytes): (r: Option<(Value, Bytes)>)
    ensures r.Some? ==> |r.value.1| < |input|
  {
    match Decode32(input)
    case None => None
    case Some((size, rest)) =>
      match t
      case BytesArray(max) =>
        if size > max then None
        else (match Read(rest, size) case None => None case Some((s, rest)) => Some((BytesV(s), rest)))
      case CharArray(dataSize) =>
        if size + 1 > dataSize then None
        else (match Read(rest, size) case None => None case Some((s, rest)) => Some((BytesV(UntilNul(s)), rest)))
      case FixedBytes(n) =>
        if size == 0 then Some((BytesV(seq(n, _ => 0)), rest))
        else if size != n then None
        else (match Read(rest, size) case None => None case Some((s, rest)) => Some((BytesV(s), rest)))
      case _ => None
  }

  // ------------------------------------------------------------------- fields and messages

  /** A value, decoded over the one that is there; a new array entry starts from defaults. */
  function DecodeValue(t: LType, input: Bytes, current: Value): (r: Option<(Value, Bytes)>)
    ensures r.Some? ==> |r.value.1| < |input|
    decreases t, 0, |input|
  {
    if Packable(t) then DecodeNumber(t, input)
    else if t.Submessage? then
      match Substream(input)
      case None => None
      case Some((sub, rest)) =>
        match DecodeMessage(t.desc, sub, if current.MessageV? then current.m else Defaults(t.desc), {})
        case None => None
        case Some(m) => Some((MessageV(m), rest))
    else DecodeString(t, input)
  }

  /** The loop over a packed array: it must end exactly at the end of its substream. */
  function DecodePacked(t: LType, sub: Bytes, vs: seq<Value>, arraySize: nat): Option<seq<Value>>
    decreases |sub|
  {
    if sub == [] then Some(vs)
    else if |vs| >= arraySize then None
    else
      match DecodeNumber(t, sub)
      case None => None
      case Some((v, rest)) => DecodePacked(t, rest, vs + [v], arraySize)
  }

  /** decode_static_field */
  function DecodeField(f: Field, wireType: nat, input: Bytes, slot: Slot): (r: Option<(Slot, Bytes)>)
    ensures r.Some? ==> |r.value.1| < |input|
    decreases f, 0, |input|
  {
    match f.htype
    case Required =>
      (match DecodeValue(f.ltype, input, if slot.One? then slot.v else DefaultValue(f.ltype))
       case None => None
       case Some((v, rest)) => Some((One(v), rest)))
    case Optional =>
      (match DecodeValue(f.ltype, input, if slot.Maybe? && slot.o.Some? then slot.o.value else DefaultValue(f.ltype))
       case None => None
       case Some((v, rest)) => Some((Maybe(Some(v)), rest)))
    case Repeated(arraySize) =>
      var vs := if slot.Many? then slot.vs else [];
      if wireType == WT_STRING && Packable(f.ltype) then
        match Substream(input)
        case None => None
        case Some((sub, rest)) =>
          (match DecodePacked(f.ltype, sub, vs, arraySize) case None => None case Some(vs') => Some((Many(vs'), rest)))
      else if |vs| >= arraySize then None
      else
        match DecodeValue(f.ltype, input, DefaultValue(f.ltype))
        case None => None
        case Some((v, rest)) => Some((Many(vs + [v]), rest))
  }

  /** The place of the field with a tag, looking from place k on. */
  function FindField(d: Desc, tag: nat, k: nat): (r: Option<nat>)
    ensures r.Some? ==> k <= r.value < |d.fields| && d.fields[r.value].tag == tag
    decreases |d.fields| - k
  {
    if k >= |d.fields| then None else if d.fields[k].tag == tag then Some(k) else FindField(d, tag, k + 1)
  }

  lemma {:induction false} FindFieldIs(d: Desc, tag: nat, k: nat, i: nat)
    requires WellFormed(d) && k <= i < |d.fields| && d.fields[i].tag == tag
    ensures FindField(d, tag, k) == Some(i)
    decreases |d.fields| - k
  {
    if k < i {
      FindFieldIs(d, tag, k + 1, i);
    }
  }

  lemma {:induction false} FindFieldNone(d: Desc, tag: nat, k: nat)
    requires forall i | 0 <= i < |d.fields| :: d.fields[i].tag != tag
    ensures FindField(d, tag, k) == None
    decreases |d.fields| - k
  {
    if k < |d.fields| {
      FindFieldNone(d, tag, k + 1);
    }
  }

  /** The required fields that are checked: only the first 64. */
  function CheckedFields(d: Desc): nat {
    var n := RequiredBefore(d, |d.fields|);
    if n > MAX_REQUIRED then MAX_REQUIRED else n
  }

  function Seen(d: Desc, seen: set<nat>, i: nat): set<nat>
    requires i < |d.fields|
  {
    if d.fields[i].htype.Required? && RequiredBefore(d, i) < MAX_REQUIRED then seen + {RequiredBefore(d, i)} else seen
  }

  predicate AllSeen(d: Desc, seen: set<nat>) {
    forall k | 0 <= k < CheckedFields(d) :: k in seen
  }

  function Finished(d: Desc, m: Message, seen: set<nat>): Option<Message> {
    if AllSeen(d, seen) then Some(m) else None
  }

  /** pb_decode_noinit from a point in the middle: the fields decoded so far are in m, the required
      ones among them in seen. */
  function DecodeMessage(d: Desc, input: Bytes, m: Message, seen: set<nat>): Option<Message>
    decreases d, 0, |input|
  {
    if input == [] then Finished(d, m, seen)
    else
      match DecodeTag(input)
      case BadTag => None
      case EndOfMessage => Finished(d, m, seen)
      case Tagged(tag, wireType, rest) =>
        match FindField(d, tag, 0)
        case None =>
          (match SkipField(wireType, rest) case None => None case Some(rest) => DecodeMessage(d, rest, m, seen))
        case Some(i) =>
          if i >= |m.slots| then None
          else
            match DecodeField(d.fields[i], wireType, rest, m.slots[i])
            case None => None
            case Some((slot, rest)) => DecodeMessage(d, rest, Message(m.slots[i := slot]), Seen(d, seen, i))
  }
}
