/** lib/nanopb-0.3.9.3/pb.h: field descriptors, and message structs as values.

    A descriptor table is a sequence of fields without its terminator; a submessage field holds the
    table it points to. A message is one slot per table entry, plus one which_ number per oneof.
    The library is configured with 16-bit pb_size_t (PB_FIELD_16BIT). */
module PbTypes {
  import opened Bytes
  import Powers
  import opened PbWire

  const PB_SIZE_MAX: nat := 65535

  /** offsetof(pb_bytes_array_t, bytes) */
  const BYTES_OFFSET: nat := 2

  /** Wire types. */
  const WT_VARINT: nat := 0
  const WT_64BIT: nat := 1
  const WT_STRING: nat := 2
  const WT_32BIT: nat := 5

  datatype HType = Required | Optional | Repeated | OneOf(group: nat)

  datatype LType =
    | Varint
    | UVarint
    | SVarint
    | Fixed32
    | Fixed64
    | BytesArray
    | CharArray
    | Submessage(fields: seq<Field>)
    | FixedLengthBytes
  {
    predicate Packable() { Varint? || UVarint? || SVarint? || Fixed32? || Fixed64? }
  }

  datatype Field = Field(
    tag: nat, htype: HType, ltype: LType,
    dataOffset: nat, sizeOffset: int, dataSize: nat, arraySize: nat,
    dflt: Option<Value>)

  /** A number in two's complement or as bits, a byte string, or a nested struct. A char array holds
      the bytes before its terminator. */
  datatype Value = Num(n: int) | Blob(bytes: seq<byte>) | Msg(message: Message)

  /** A field's data with its has_ flag, or an array with its count; required fields and the
      members of oneofs have no flag of their own. */
  datatype Slot = Single(has: bool, value: Value) | Many(count: nat, items: seq<Value>)

  datatype Message = Message(slots: seq<Slot>, which: map<nat, nat>)

  /** The bytes of a char array before its terminator. */
  function CString(b: seq<byte>, max: nat): (s: seq<byte>)
    ensures |s| <= |b| && |s| <= max
  {
    if b == [] || max == 0 || b[0] == 0 then [] else [b[0]] + CString(b[1..], max - 1)
  }

  // ----- Well-formed descriptors -----

  ghost predicate DistinctTags(fields: seq<Field>) {
    forall i, j :: 0 <= i < j < |fields| ==> fields[i].tag != fields[j].tag
  }

  /** What the generator emits: nonzero distinct tags, sizes that fit pb_size_t, defaults in range. */
  ghost predicate ValidDescriptor(fields: seq<Field>)
    decreases fields
  {
    DistinctTags(fields) && forall i :: 0 <= i < |fields| ==> ValidField(fields[i])
  }

  /** The sizes C types have: an integer, room for a length, room for a terminator. */
  predicate LegalSize(lt: LType, dataSize: nat) {
    match lt
    case Varint => dataSize in {1, 2, 4, 8}
    case UVarint => dataSize in {1, 2, 4, 8}
    case SVarint => dataSize in {1, 2, 4, 8}
    case BytesArray => dataSize >= BYTES_OFFSET
    case CharArray => dataSize >= 1
    case _ => true
  }

  ghost predicate ValidField(f: Field)
    decreases f
  {
    && 1 <= f.tag <= PB_SIZE_MAX && f.dataSize <= PB_SIZE_MAX && f.arraySize <= PB_SIZE_MAX
    && (f.ltype.Submessage? ==> ValidDescriptor(f.ltype.fields))
    && LegalSize(f.ltype, f.dataSize)
    && (f.dflt.Some? ==>
          && !f.ltype.Submessage? && ShapedValue(f.ltype, f.dataSize, f.dflt.value)
          && InRangeValue(f.ltype, f.dataSize, f.dflt.value))
  }

  // ----- Messages that have the shape of a descriptor, whatever they contain -----

  ghost predicate ShapedMessage(fields: seq<Field>, m: Message)
    decreases fields
  {
    && |m.slots| == |fields|
    && (forall i :: 0 <= i < |fields| ==> ShapedSlot(fields[i], m.slots[i]))
    && (forall i :: 0 <= i < |fields| && fields[i].htype.OneOf? ==> fields[i].htype.group in m.which)
  }

  ghost predicate ShapedSlot(f: Field, s: Slot)
    decreases f, 1
  {
    if f.htype.Repeated? then
      s.Many? && |s.items| == f.arraySize &&
      forall k :: 0 <= k < |s.items| ==> ShapedValue(f.ltype, f.dataSize, s.items[k])
    else s.Single? && ShapedValue(f.ltype, f.dataSize, s.value)
  }

  ghost predicate ShapedValue(lt: LType, dataSize: nat, v: Value)
    decreases lt
  {
    match lt
    case Submessage(fields) => v.Msg? && ShapedMessage(fields, v.message)
    case BytesArray => v.Blob?
    case CharArray => v.Blob?
    case FixedLengthBytes => v.Blob? && |v.bytes| == dataSize
    case _ => v.Num?
  }

  // ----- In-range messages: what the generated C types and the encoder's callers allow -----

  ghost predicate InRangeMessage(fields: seq<Field>, m: Message)
    decreases fields
  {
    && |m.slots| == |fields|
    && (forall i :: 0 <= i < |fields| ==> InRangeSlot(fields[i], m.slots[i], m.which))
    && (forall i :: 0 <= i < |fields| && fields[i].htype.OneOf? ==>
      WhichInRange(fields, m.which, fields[i].htype.group))
  }

  /** The number of a oneof is zero or the tag of one of its members. */
  ghost predicate WhichInRange(fields: seq<Field>, which: map<nat, nat>, g: nat) {
    g in which &&
    (which[g] == 0 || exists i :: 0 <= i < |fields| && fields[i].htype == OneOf(g) && fields[i].tag == which[g])
  }

  /** Whether the field is there: its has_ flag, or its oneof's number. */
  predicate Present(f: Field, s: Slot, which: map<nat, nat>) {
    match f.htype
    case Required => true
    case Optional => s.Single? && s.has
    case Repeated => s.Many? && s.count > 0
    case OneOf(g) => g in which && which[g] == f.tag
  }

  /** Counts fit their arrays, and the values that are present fit their types. */
  ghost predicate InRangeSlot(f: Field, s: Slot, which: map<nat, nat>)
    decreases f, 1
  {
    if f.htype.Repeated? then
      s.Many? && s.count <= |s.items| == f.arraySize &&
      forall k :: 0 <= k < s.count ==> InRangeValue(f.ltype, f.dataSize, s.items[k])
    else s.Single? && (Present(f, s, which) ==> InRangeValue(f.ltype, f.dataSize, s.value))
  }

  /** Strings are shorter than their arrays; numbers fit their type. */
  ghost predicate InRangeValue(lt: LType, dataSize: nat, v: Value)
    decreases lt
  {
    match lt
    case Submessage(fields) => v.Msg? && InRangeMessage(fields, v.message)
    case BytesArray => v.Blob? && |v.bytes| + BYTES_OFFSET <= dataSize
    case CharArray => v.Blob? && |v.bytes| < dataSize && ZeroFree(v.bytes)
    case FixedLengthBytes => v.Blob? && |v.bytes| == dataSize
    case Varint => v.Num? && dataSize in {1, 2, 4, 8} && FitsSigned(v.n, 8 * dataSize)
    case SVarint => v.Num? && dataSize in {1, 2, 4, 8} && FitsSigned(v.n, 8 * dataSize)
    case UVarint => v.Num? && dataSize in {1, 2, 4, 8} && 0 <= v.n < Powers.Pow2(8 * dataSize)
    case Fixed32 => v.Num? && 0 <= v.n < Powers.B32
    case Fixed64 => v.Num? && 0 <= v.n < Powers.B64
  }

  // ----- Equality up to the contents of absent fields -----

  ghost predicate SameMessage(fields: seq<Field>, m: Message, r: Message)
    decreases fields
  {
    && |m.slots| == |r.slots| == |fields|
    && (forall i :: 0 <= i < |fields| ==> SameSlot(fields[i], m.slots[i], r.slots[i], m.which))
    && (forall i :: 0 <= i < |fields| && fields[i].htype.OneOf? ==>
          var g := fields[i].htype.group;
          g in m.which && g in r.which && m.which[g] == r.which[g])
  }

  ghost predicate SameSlot(f: Field, s: Slot, t: Slot, which: map<nat, nat>)
    decreases f, 1
  {
    if f.htype.Repeated? then
      s.Many? && t.Many? && s.count == t.count && s.count <= |s.items| && s.count <= |t.items| &&
      forall k :: 0 <= k < s.count ==> SameValue(f.ltype, s.items[k], t.items[k])
    else
      && s.Single? && t.Single? && (f.htype.Optional? ==> s.has == t.has)
      && (Present(f, s, which) ==> SameValue(f.ltype, s.value, t.value))
  }

  ghost predicate SameValue(lt: LType, v: Value, w: Value)
    decreases lt
  {
    match lt
    case Submessage(fields) => v.Msg? && w.Msg? && SameMessage(fields, v.message, w.message)
    case _ => v == w
  }
}
